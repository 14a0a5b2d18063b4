/** src/components/view/viewBody.tsx: recomputing results after a variable
    changes. `updateCalculations` indexes the tree by a depth-first walk,
    then goes from the changed calculator up through its ancestors; at each
    one with an expression it builds a scope from the calculator's own
    variables and its direct children's results and stores what the
    evaluator returns. `handleVariableChange` finds the calculator by a
    breadth-first search over a copy of the tree, rewrites one variable's
    value and recomputes.

    In the source the index and the children lists share the same node
    objects, so writing `current.result` is seen through both. In the arena
    each node exists once, under its id, so the index is the set of ids it
    holds and every write goes to the one arena entry. */
module ViewBody {
  import opened Js
  import opened Hierarchy
  import opened Scope
  import opened Breadth
  import opened Utils

  // ---------------------------------------------------------------------
  // The scope of one calculator

  /** `variables.map(v => [v.variable_name, v.variable_value])`: one entry per
      variable, in order. Reading a field of a null entry throws (`None`). */
  function VarEntries(items: seq<Option<Var>>): (r: Option<seq<(string, real)>>)
    ensures r.Some? <==> forall i :: 0 <= i < |items| ==> items[i].Some?
    ensures r.Some? ==> |r.value| == |items|
    ensures r.Some? ==> forall i :: 0 <= i < |items| ==> r.value[i] == (items[i].value.name, items[i].value.value)
    decreases |items|
  {
    if items == [] then Some([])
    else
      match VarEntries(items[..|items| - 1])
      case None => None
      case Some(front) =>
        match items[|items| - 1]
        case None => None
        case Some(v) => Some(front + [(v.name, v.value)])
  }

  /** What one child adds: its name and result when the result is not
      `undefined`, a `null` result counting as 0. */
  function ChildEntry(nodes: map<int, Node>, x: int): seq<(string, real)>
  {
    if x in nodes && !nodes[x].result.Undefined? then [(nodes[x].name, OrZero(nodes[x].result))] else []
  }

  /** The entries the children add, in children order. */
  function ChildEntries(nodes: map<int, Node>, kids: seq<int>): (r: seq<(string, real)>)
    ensures |r| <= |kids|
    ensures forall i :: 0 <= i < |r| ==> exists j :: 0 <= j < |kids| && ChildEntry(nodes, kids[j]) == [r[i]]
    decreases |kids|
  {
    if kids == [] then []
    else ChildEntries(nodes, kids[..|kids| - 1]) + ChildEntry(nodes, kids[|kids| - 1])
  }

  /** Both directions of membership: every child whose result is not
      `undefined` contributes its name and its result (null as 0), and every
      entry comes from such a child. */
  lemma ChildEntriesMembers(nodes: map<int, Node>, kids: seq<int>)
    ensures forall j :: 0 <= j < |kids| && kids[j] in nodes && !nodes[kids[j]].result.Undefined? ==>
      (nodes[kids[j]].name, OrZero(nodes[kids[j]].result)) in ChildEntries(nodes, kids)
    ensures forall e :: e in ChildEntries(nodes, kids) ==>
      exists j :: 0 <= j < |kids| && kids[j] in nodes && !nodes[kids[j]].result.Undefined?
                  && e == (nodes[kids[j]].name, OrZero(nodes[kids[j]].result))
  {
    ChildEntriesHas(nodes, kids);
    ChildEntriesFrom(nodes, kids);
  }

  lemma {:induction false} ChildEntriesHas(nodes: map<int, Node>, kids: seq<int>)
    ensures forall j :: 0 <= j < |kids| && kids[j] in nodes && !nodes[kids[j]].result.Undefined? ==>
      (nodes[kids[j]].name, OrZero(nodes[kids[j]].result)) in ChildEntries(nodes, kids)
    decreases |kids|
  {
    if kids != [] {
      var front, last := kids[..|kids| - 1], kids[|kids| - 1];
      ChildEntriesHas(nodes, front);
      var cs, fs := ChildEntries(nodes, kids), ChildEntries(nodes, front);
      assert cs == fs + ChildEntry(nodes, last);
      forall j | 0 <= j < |kids| && kids[j] in nodes && !nodes[kids[j]].result.Undefined?
        ensures (nodes[kids[j]].name, OrZero(nodes[kids[j]].result)) in cs
      {
        if j < |front| {
          assert front[j] == kids[j];
          assert (nodes[kids[j]].name, OrZero(nodes[kids[j]].result)) in fs;
        } else {
          assert ChildEntry(nodes, last) == [(nodes[kids[j]].name, OrZero(nodes[kids[j]].result))];
          assert cs[|cs| - 1] == (nodes[kids[j]].name, OrZero(nodes[kids[j]].result));
        }
      }
    }
  }

  lemma {:induction false} ChildEntriesFrom(nodes: map<int, Node>, kids: seq<int>)
    ensures forall e :: e in ChildEntries(nodes, kids) ==>
      exists j :: 0 <= j < |kids| && kids[j] in nodes && !nodes[kids[j]].result.Undefined?
                  && e == (nodes[kids[j]].name, OrZero(nodes[kids[j]].result))
    decreases |kids|
  {
    if kids != [] {
      var front, last := kids[..|kids| - 1], kids[|kids| - 1];
      ChildEntriesFrom(nodes, front);
      var cs, fs := ChildEntries(nodes, kids), ChildEntries(nodes, front);
      assert cs == fs + ChildEntry(nodes, last);
      forall e | e in cs
        ensures exists j :: 0 <= j < |kids| && kids[j] in nodes && !nodes[kids[j]].result.Undefined?
                            && e == (nodes[kids[j]].name, OrZero(nodes[kids[j]].result))
      {
        if e in fs {
          var j :| 0 <= j < |front| && front[j] in nodes && !nodes[front[j]].result.Undefined?
                   && e == (nodes[front[j]].name, OrZero(nodes[front[j]].result));
          assert kids[j] == front[j];
        } else {
          assert e in ChildEntry(nodes, last);
          assert kids[|kids| - 1] == last;
        }
      }
    }
  }

  /** No child after position `j` has a defined result under the same name. */
  predicate LastDefinedChild(nodes: map<int, Node>, kids: seq<int>, j: int)
    requires 0 <= j < |kids| && kids[j] in nodes
  {
    && !nodes[kids[j]].result.Undefined?
    && forall i :: j < i < |kids| && kids[i] in nodes && !nodes[kids[i]].result.Undefined? ==>
         nodes[kids[i]].name != nodes[kids[j]].name
  }

  /** The last defined child under a name supplies that name's last entry. */
  lemma {:induction false} ChildEntriesLast(nodes: map<int, Node>, kids: seq<int>, j: int)
    requires 0 <= j < |kids| && kids[j] in nodes && LastDefinedChild(nodes, kids, j)
    ensures var cs := ChildEntries(nodes, kids);
      var x := nodes[kids[j]].name;
      LastIndex(cs, x) >= 0 && cs[LastIndex(cs, x)].1 == OrZero(nodes[kids[j]].result)
    decreases |kids|
  {
    var front := kids[..|kids| - 1];
    if j < |front| {
      LastDefinedChildFront(nodes, kids, j);
      ChildEntriesLast(nodes, front, j);
      SkipLastChild(nodes, kids, nodes[kids[j]].name);
    } else {
      assert ChildEntries(nodes, kids) == ChildEntries(nodes, front) + ChildEntry(nodes, kids[j]);
    }
  }

  lemma LastDefinedChildFront(nodes: map<int, Node>, kids: seq<int>, j: int)
    requires 0 <= j < |kids| - 1 && kids[j] in nodes && LastDefinedChild(nodes, kids, j)
    ensures kids[..|kids| - 1][j] == kids[j] && LastDefinedChild(nodes, kids[..|kids| - 1], j)
  {
    var front := kids[..|kids| - 1];
    forall i | j < i < |front| && front[i] in nodes && !nodes[front[i]].result.Undefined?
      ensures nodes[front[i]].name != nodes[kids[j]].name
    {
      assert front[i] == kids[i];
    }
  }

  /** A last child that adds no entry named `x` leaves the last `x` entry
      where it was. */
  lemma SkipLastChild(nodes: map<int, Node>, kids: seq<int>, x: string)
    requires kids != []
    requires var c := kids[|kids| - 1]; !(c in nodes && !nodes[c].result.Undefined? && nodes[c].name == x)
    ensures var cs, fs := ChildEntries(nodes, kids), ChildEntries(nodes, kids[..|kids| - 1]);
      LastIndex(cs, x) == LastIndex(fs, x) && (LastIndex(fs, x) >= 0 ==> cs[LastIndex(cs, x)] == fs[LastIndex(fs, x)])
  {
    var cs, fs := ChildEntries(nodes, kids), ChildEntries(nodes, kids[..|kids| - 1]);
    assert cs == fs + ChildEntry(nodes, kids[|kids| - 1]);
    if cs != fs {
      assert cs[..|cs| - 1] == fs;
    }
  }

  /** The scope the walk evaluates a calculator in: its variables first, then
      its children's results; `None` when building it throws (missing or
      unparsable variables, or a null entry such as the server's `[null]`). */
  function ViewScope(nodes: map<int, Node>, k: int, decode: Decoder): (r: Option<map<string, real>>)
    requires k in nodes
    ensures r.None? <==>
      ListOrThrow(nodes[k].variables, decode).None? ||
      exists i :: 0 <= i < |ListOrThrow(nodes[k].variables, decode).value| &&
        ListOrThrow(nodes[k].variables, decode).value[i].None?
  {
    match ListOrThrow(nodes[k].variables, decode)
    case None => None
    case Some(items) =>
      match VarEntries(items)
      case None => None
      case Some(es) => Some(Assign(map[], es + ChildEntries(nodes, nodes[k].children)))
  }

  /** How the scope binds a name: a child entry wins over every variable, the
      last of several same-named entries wins, and a name no entry carries
      is unbound. */
  lemma ViewScopeLookup(nodes: map<int, Node>, k: int, decode: Decoder, x: string)
    requires k in nodes && ViewScope(nodes, k, decode).Some?
    ensures var s := ViewScope(nodes, k, decode).value;
      var es := VarEntries(ListOrThrow(nodes[k].variables, decode).value).value;
      var cs := ChildEntries(nodes, nodes[k].children);
      && (LastIndex(cs, x) >= 0 ==> x in s && s[x] == cs[LastIndex(cs, x)].1)
      && (LastIndex(cs, x) < 0 ==>
            (x in s <==> LastIndex(es, x) >= 0) && (x in s ==> s[x] == es[LastIndex(es, x)].1))
  {
    var es := VarEntries(ListOrThrow(nodes[k].variables, decode).value).value;
    var cs := ChildEntries(nodes, nodes[k].children);
    LaterListWins(map[], es, cs, x);
    AssignLookup(map[], es, x);
  }

  /** A child with a defined result binds its name to that result (null as
      0) unless a later child with a defined result has the same name; the
      children's entries override same-named variables. */
  lemma ViewScopeChild(nodes: map<int, Node>, k: int, decode: Decoder, j: int)
    requires k in nodes && ViewScope(nodes, k, decode).Some?
    requires 0 <= j < |nodes[k].children| && nodes[k].children[j] in nodes
    requires LastDefinedChild(nodes, nodes[k].children, j)
    ensures var c := nodes[nodes[k].children[j]];
      var s := ViewScope(nodes, k, decode).value;
      c.name in s && s[c.name] == OrZero(c.result)
  {
    ChildEntriesLast(nodes, nodes[k].children, j);
    ViewScopeLookup(nodes, k, decode, nodes[nodes[k].children[j]].name);
  }

  /** The server's encoding of "no variables" makes the scope throw. */
  lemma NullEncodingThrows(nodes: map<int, Node>, k: int, decode: Decoder)
    requires k in nodes
    requires nodes[k].variables == List([None]) ||
      (nodes[k].variables.Text? && decode(nodes[k].variables.json) == Some([None]))
    ensures ViewScope(nodes, k, decode).None?
  {
    assert ListOrThrow(nodes[k].variables, decode).value[0].None?;
  }

  /** `current.children.forEach(child => ...)`: the child loop that extends
      the scope built from the variables. */
  method BuildViewScope(nodes: map<int, Node>, k: int, decode: Decoder) returns (scope: Option<map<string, real>>)
    requires k in nodes
    ensures scope == ViewScope(nodes, k, decode)
  {
    var items := ListOrThrow(nodes[k].variables, decode);
    if items.None? {
      return None;
    }
    var es := VarEntries(items.value);
    if es.None? {
      return None;
    }
    var m := Assign(map[], es.value);
    var kids := nodes[k].children;
    for i := 0 to |kids|
      invariant m == Assign(Assign(map[], es.value), ChildEntries(nodes, kids[..i]))
    {
      assert kids[..i + 1][..i] == kids[..i];
      var x := kids[i];
      if x in nodes && !nodes[x].result.Undefined? {
        ghost var before := ChildEntries(nodes, kids[..i]);
        assert ChildEntries(nodes, kids[..i + 1]) == before + [(nodes[x].name, OrZero(nodes[x].result))];
        AssignAppend(Assign(map[], es.value), before, [(nodes[x].name, OrZero(nodes[x].result))]);
        m := m[nodes[x].name := OrZero(nodes[x].result)];
      } else {
        assert ChildEntries(nodes, kids[..i + 1]) == ChildEntries(nodes, kids[..i]) + [];
        assert ChildEntries(nodes, kids[..i]) + [] == ChildEntries(nodes, kids[..i]);
      }
    }
    assert kids[..|kids|] == kids;
    AssignAppend(map[], es.value, ChildEntries(nodes, kids));
    return Some(m);
  }

  // ---------------------------------------------------------------------
  // One step of the walk and the whole walk

  /** The value the `try` block stores for calculator `k`: nothing when the
      expression is null or empty, when the scope throws, or when the
      evaluator throws. */
  function TryEvaluate(nodes: map<int, Node>, k: int, decode: Decoder, eval: Evaluator): Option<real>
    requires k in nodes
  {
    if !TruthyText(nodes[k].expression) then None
    else
      match ViewScope(nodes, k, decode)
      case None => None
      case Some(s) => eval(nodes[k].expression.value, s)
  }

  /** One iteration of the walk at `k`: store the evaluated value as `k`'s
      result, or leave everything as it is. */
  function Step(nodes: map<int, Node>, k: int, decode: Decoder, eval: Evaluator): (r: map<int, Node>)
    requires k in nodes
    ensures r.Keys == nodes.Keys
    ensures forall j | j in nodes && j != k :: r[j] == nodes[j]
    ensures r[k] == nodes[k].(result := r[k].result)
    ensures r[k].result == (match TryEvaluate(nodes, k, decode, eval)
                            case Some(v) => Num(v)
                            case None => nodes[k].result)
  {
    match TryEvaluate(nodes, k, decode, eval)
    case None => nodes
    case Some(v) => nodes[k := nodes[k].(result := Num(v))]
  }

  /** The iterations at `ks[0]`, `ks[1]`, ... in turn. Only results change,
      only at listed ids, and never at a calculator without an expression. */
  function StepAll(nodes: map<int, Node>, ks: seq<int>, decode: Decoder, eval: Evaluator): (r: map<int, Node>)
    requires forall i :: 0 <= i < |ks| ==> ks[i] in nodes
    ensures r.Keys == nodes.Keys
    decreases |ks|
  {
    if ks == [] then nodes
    else Step(StepAll(nodes, ks[..|ks| - 1], decode, eval), ks[|ks| - 1], decode, eval)
  }

  /** Only results change, only at listed ids, and never at a calculator
      without an expression. */
  lemma {:induction false} StepAllOnlyResults(nodes: map<int, Node>, ks: seq<int>, decode: Decoder, eval: Evaluator)
    requires forall i :: 0 <= i < |ks| ==> ks[i] in nodes
    ensures var r := StepAll(nodes, ks, decode, eval);
      && (forall j | j in nodes :: r[j] == nodes[j].(result := r[j].result))
      && (forall j | j in nodes && j !in ks :: r[j] == nodes[j])
      && (forall j | j in nodes && !TruthyText(nodes[j].expression) :: r[j] == nodes[j])
    decreases |ks|
  {
    if ks != [] {
      var front := ks[..|ks| - 1];
      StepAllOnlyResults(nodes, front, decode, eval);
    }
  }

  /** What `updateCalculations` does to the tree: the iterations along the
      walk from `id` to the root. An id that is not in the tree changes
      nothing; otherwise only results of the calculators on the walk change. */
  function Recompute(nodes: map<int, Node>, rank: map<int, nat>, id: int, decode: Decoder, eval: Evaluator): (r: map<int, Node>)
    requires ParentRanked(nodes, rank)
    ensures id !in nodes ==> r == nodes
    ensures SameStructure(nodes, r)
    ensures forall j | j in nodes :: r[j] == nodes[j].(result := r[j].result)
    ensures forall j | j in nodes && j !in Chain(nodes, rank, id) :: r[j] == nodes[j]
    ensures forall j | j in nodes && !TruthyText(nodes[j].expression) :: r[j] == nodes[j]
  {
    StepAllOnlyResults(nodes, Chain(nodes, rank, id), decode, eval);
    StepAll(nodes, Chain(nodes, rank, id), decode, eval)
  }

  lemma {:induction false} StepAllAppend(nodes: map<int, Node>, a: seq<int>, b: seq<int>, decode: Decoder, eval: Evaluator)
    requires forall i :: 0 <= i < |a| ==> a[i] in nodes
    requires forall i :: 0 <= i < |b| ==> b[i] in nodes
    ensures StepAll(nodes, a + b, decode, eval) == StepAll(StepAll(nodes, a, decode, eval), b, decode, eval)
    decreases |b|
  {
    if b == [] {
      assert a + b == a;
    } else {
      var b' := b[..|b| - 1];
      assert (a + b)[..|a + b| - 1] == a + b';
      assert (a + b)[|a + b| - 1] == b[|b| - 1];
      StepAllAppend(nodes, a, b', decode, eval);
    }
  }

  lemma {:induction false} ChildEntriesAgree(a: map<int, Node>, b: map<int, Node>, kids: seq<int>)
    requires forall i :: 0 <= i < |kids| ==> ChildEntry(a, kids[i]) == ChildEntry(b, kids[i])
    ensures ChildEntries(a, kids) == ChildEntries(b, kids)
    decreases |kids|
  {
    if kids != [] {
      ChildEntriesAgree(a, b, kids[..|kids| - 1]);
    }
  }

  /** The evaluation at `k` depends only on `k` itself and on the names and
      results of its children. */
  lemma TryEvaluateAgrees(a: map<int, Node>, b: map<int, Node>, k: int, decode: Decoder, eval: Evaluator)
    requires k in a && k in b && a.Keys == b.Keys
    requires a[k].variables == b[k].variables && a[k].children == b[k].children
    requires a[k].expression == b[k].expression
    requires forall x | x in a[k].children && x in a :: a[x].name == b[x].name && a[x].result == b[x].result
    ensures TryEvaluate(a, k, decode, eval) == TryEvaluate(b, k, decode, eval)
  {
    ChildEntriesAgree(a, b, a[k].children);
  }

  /** Bottom-up order. Each calculator on the walk is evaluated after the
      ones below it on the walk, so the value it ends with is exactly what
      its expression gives in the final tree, whose children hold their
      final results; when building the scope or evaluating throws there, it
      keeps its old result. */
  lemma RecomputeSettles(t: Tree, rank: map<int, nat>, id: int, decode: Decoder, eval: Evaluator, i: int)
    requires WellFormed(t, rank) && 0 <= i < |Chain(t.nodes, rank, id)|
    ensures var c := Chain(t.nodes, rank, id);
      var r := Recompute(t.nodes, rank, id, decode, eval);
      && (TryEvaluate(r, c[i], decode, eval).Some? ==> r[c[i]].result == Num(TryEvaluate(r, c[i], decode, eval).value))
      && (TryEvaluate(r, c[i], decode, eval).None? ==> r[c[i]].result == t.nodes[c[i]].result)
  {
    var c := Chain(t.nodes, rank, id);
    var r := Recompute(t.nodes, rank, id, decode, eval);
    var k := c[i];
    ChainBounds(t.nodes, rank, id);
    var p := StepAll(t.nodes, c[..i], decode, eval);
    StepAllSplit(t.nodes, c, i, decode, eval);
    forall x | x in p[k].children && x in p
      ensures p[x].name == r[x].name && p[x].result == r[x].result
    {
      ChildOffWalk(t, rank, id, i, x);
    }
    TryEvaluateAgrees(p, r, k, decode, eval);
  }

  /** Splitting the iterations at a position of a list without repeats: the
      calculator there is untouched before its own iteration and untouched
      after it, and nothing off the rest of the list changes after the split. */
  lemma StepAllSplit(nodes: map<int, Node>, ks: seq<int>, i: int, decode: Decoder, eval: Evaluator)
    requires forall j :: 0 <= j < |ks| ==> ks[j] in nodes
    requires NoDup(ks) && 0 <= i < |ks|
    ensures var p := StepAll(nodes, ks[..i], decode, eval);
      var r := StepAll(nodes, ks, decode, eval);
      && p[ks[i]] == nodes[ks[i]]
      && r[ks[i]] == Step(p, ks[i], decode, eval)[ks[i]]
      && forall x | x in nodes && x !in ks[i..] :: r[x] == p[x]
  {
    StepAllBefore(nodes, ks, i, decode, eval);
    StepAllAt(nodes, ks, i, decode, eval);
    StepAllAfter(nodes, ks, i, decode, eval);
  }

  lemma StepAllBefore(nodes: map<int, Node>, ks: seq<int>, i: int, decode: Decoder, eval: Evaluator)
    requires forall j :: 0 <= j < |ks| ==> ks[j] in nodes
    requires NoDup(ks) && 0 <= i < |ks|
    ensures StepAll(nodes, ks[..i], decode, eval)[ks[i]] == nodes[ks[i]]
  {
    assert ks[i] !in ks[..i];
    StepAllOnlyResults(nodes, ks[..i], decode, eval);
  }

  lemma StepAllAt(nodes: map<int, Node>, ks: seq<int>, i: int, decode: Decoder, eval: Evaluator)
    requires forall j :: 0 <= j < |ks| ==> ks[j] in nodes
    requires NoDup(ks) && 0 <= i < |ks|
    ensures StepAll(nodes, ks, decode, eval)[ks[i]]
         == Step(StepAll(nodes, ks[..i], decode, eval), ks[i], decode, eval)[ks[i]]
  {
    var k := ks[i];
    var q := Step(StepAll(nodes, ks[..i], decode, eval), k, decode, eval);
    assert ks[..i + 1][..i] == ks[..i] && ks[..i + 1][i] == k;
    assert StepAll(nodes, ks[..i + 1], decode, eval) == q;
    SplitAt(ks, i + 1);
    StepAllAppend(nodes, ks[..i + 1], ks[i + 1..], decode, eval);
    NotInSuffix(ks, i + 1, k);
    StepAllOnlyResults(q, ks[i + 1..], decode, eval);
  }

  lemma StepAllAfter(nodes: map<int, Node>, ks: seq<int>, i: int, decode: Decoder, eval: Evaluator)
    requires forall j :: 0 <= j < |ks| ==> ks[j] in nodes
    requires 0 <= i < |ks|
    ensures forall x | x in nodes && x !in ks[i..] ::
      StepAll(nodes, ks, decode, eval)[x] == StepAll(nodes, ks[..i], decode, eval)[x]
  {
    SplitAt(ks, i);
    StepAllAppend(nodes, ks[..i], ks[i..], decode, eval);
    StepAllOnlyResults(StepAll(nodes, ks[..i], decode, eval), ks[i..], decode, eval);
  }

  /** A child of a calculator on the walk is not on the walk from that
      calculator upwards. */
  lemma ChildOffWalk(t: Tree, rank: map<int, nat>, id: int, i: int, x: int)
    requires WellFormed(t, rank) && 0 <= i < |Chain(t.nodes, rank, id)|
    requires x in t.nodes[Chain(t.nodes, rank, id)[i]].children
    ensures x !in Chain(t.nodes, rank, id)[i..]
  {
    var c := Chain(t.nodes, rank, id);
    var k := c[i];
    var xi :| 0 <= xi < |t.nodes[k].children| && t.nodes[k].children[xi] == x;
    assert t.nodes[x].parent == Some(k);
    assert x != t.root;
    assert Up(t.nodes, x) == Some(k);
    assert rank[x] == rank[k] + 1;
    forall j | i <= j < |c| ensures c[j] != x {
      if j > i {
        ChainRankDecreases(t.nodes, rank, id, i, j);
      }
    }
    NotInSuffix(c, i, x);
  }

  lemma SplitAt<T>(s: seq<T>, i: int)
    requires 0 <= i <= |s|
    ensures s[..i] + s[i..] == s
  {
  }

  lemma NotInSuffix<T>(s: seq<T>, i: int, x: T)
    requires 0 <= i <= |s| && forall j | i <= j < |s| :: s[j] != x
    ensures x !in s[i..]
  {
  }

  /** The same, stated for a calculator on the walk rather than a position. */
  lemma RecomputeSettlesAt(t: Tree, rank: map<int, nat>, id: int, decode: Decoder, eval: Evaluator, k: int)
    requires WellFormed(t, rank) && k in Chain(t.nodes, rank, id)
    ensures var r := Recompute(t.nodes, rank, id, decode, eval);
      && k in r
      && (TryEvaluate(r, k, decode, eval).Some? ==> r[k].result == Num(TryEvaluate(r, k, decode, eval).value))
      && (TryEvaluate(r, k, decode, eval).None? ==> r[k].result == t.nodes[k].result)
  {
    var c := Chain(t.nodes, rank, id);
    var i :| 0 <= i < |c| && c[i] == k;
    RecomputeSettles(t, rank, id, decode, eval, i);
  }

  // ---------------------------------------------------------------------
  // The depth-first index

  /** `k` and everything below it. */
  ghost function Desc(t: Tree, rank: map<int, nat>, k: int): set<int>
    requires WellFormed(t, rank) && k in t.nodes
    decreases |t.nodes| - rank[k]
  {
    {k} + set c, x | c in t.nodes[k].children && ChildOf(t, rank, k, c) && x in Desc(t, rank, c) :: x
  }

  /** A listed child is a node one level deeper than its parent. */
  predicate ChildOf(t: Tree, rank: map<int, nat>, k: int, c: int)
    requires WellFormed(t, rank) && k in t.nodes
    ensures ChildOf(t, rank, k, c) ==> c in t.nodes && rank[c] == rank[k] + 1
  {
    c in t.nodes && c != t.root && t.nodes[c].parent == Some(k) && Up(t.nodes, c) == Some(k)
  }

  /** Every listed child passes `ChildOf`. */
  lemma ChildrenAreChildOf(t: Tree, rank: map<int, nat>, k: int, c: int)
    requires WellFormed(t, rank) && k in t.nodes && c in t.nodes[k].children
    ensures ChildOf(t, rank, k, c)
  {
    var i :| 0 <= i < |t.nodes[k].children| && t.nodes[k].children[i] == c;
    assert t.nodes[c].parent == Some(k);
  }

  /** The union of `Desc` over a list of children of `k`. */
  ghost function DescAll(t: Tree, rank: map<int, nat>, k: int, ks: seq<int>): set<int>
    requires WellFormed(t, rank) && k in t.nodes
    requires forall i :: 0 <= i < |ks| ==> ks[i] in t.nodes[k].children
    decreases |ks|
  {
    if ks == [] then {}
    else
      ChildrenAreChildOf(t, rank, k, ks[|ks| - 1]);
      DescAll(t, rank, k, ks[..|ks| - 1]) + Desc(t, rank, ks[|ks| - 1])
  }

  lemma DescAllMember(t: Tree, rank: map<int, nat>, k: int, ks: seq<int>, x: int)
    requires WellFormed(t, rank) && k in t.nodes
    requires forall i :: 0 <= i < |ks| ==> ks[i] in t.nodes[k].children
    ensures x in DescAll(t, rank, k, ks) <==>
      exists j :: 0 <= j < |ks| && ChildOf(t, rank, k, ks[j]) && x in Desc(t, rank, ks[j])
  {
    DescAllSome(t, rank, k, ks, x);
    if j :| 0 <= j < |ks| && ChildOf(t, rank, k, ks[j]) && x in Desc(t, rank, ks[j]) {
      DescAllHas(t, rank, k, ks, j, x);
    }
  }

  /** A member of the union lies below one of the listed children. */
  lemma {:induction false} DescAllSome(t: Tree, rank: map<int, nat>, k: int, ks: seq<int>, x: int)
    requires WellFormed(t, rank) && k in t.nodes
    requires forall i :: 0 <= i < |ks| ==> ks[i] in t.nodes[k].children
    ensures x in DescAll(t, rank, k, ks) ==>
      exists j :: 0 <= j < |ks| && ChildOf(t, rank, k, ks[j]) && x in Desc(t, rank, ks[j])
    decreases |ks|
  {
    if ks != [] && x in DescAll(t, rank, k, ks) {
      var p := ks[..|ks| - 1];
      ChildrenAreChildOf(t, rank, k, ks[|ks| - 1]);
      if x in DescAll(t, rank, k, p) {
        DescAllSome(t, rank, k, p, x);
        var j :| 0 <= j < |p| && ChildOf(t, rank, k, p[j]) && x in Desc(t, rank, p[j]);
        assert ks[j] == p[j];
      } else {
        assert x in Desc(t, rank, ks[|ks| - 1]);
      }
    }
  }

  /** Everything below a listed child is in the union. */
  lemma {:induction false} DescAllHas(t: Tree, rank: map<int, nat>, k: int, ks: seq<int>, j: int, x: int)
    requires WellFormed(t, rank) && k in t.nodes
    requires forall i :: 0 <= i < |ks| ==> ks[i] in t.nodes[k].children
    requires 0 <= j < |ks| && ChildOf(t, rank, k, ks[j]) && x in Desc(t, rank, ks[j])
    ensures x in DescAll(t, rank, k, ks)
    decreases |ks|
  {
    var p := ks[..|ks| - 1];
    ChildrenAreChildOf(t, rank, k, ks[|ks| - 1]);
    if j < |p| {
      assert p[j] == ks[j];
      DescAllHas(t, rank, k, p, j, x);
    }
  }

  /** Below a node are the node itself and what is below its children. */
  lemma DescSplit(t: Tree, rank: map<int, nat>, k: int)
    requires WellFormed(t, rank) && k in t.nodes
    ensures Desc(t, rank, k) == {k} + DescAll(t, rank, k, t.nodes[k].children)
  {
    var kids := t.nodes[k].children;
    forall x | x in Desc(t, rank, k) && x != k ensures x in DescAll(t, rank, k, kids) {
      var c :| c in kids && ChildOf(t, rank, k, c) && x in Desc(t, rank, c);
      var j :| 0 <= j < |kids| && kids[j] == c;
      DescAllMember(t, rank, k, kids, x);
    }
    forall x | x in DescAll(t, rank, k, kids) ensures x in Desc(t, rank, k) {
      DescAllMember(t, rank, k, kids, x);
    }
  }

  /** `traverseDFS`: records `k` and, child by child, everything below it. */
  method IndexDfs(t: Tree, ghost rank: map<int, nat>, k: int, index: set<int>) returns (r: set<int>)
    requires WellFormed(t, rank) && k in t.nodes
    ensures r == index + Desc(t, rank, k)
    decreases |t.nodes| - rank[k]
  {
    r := index + {t.nodes[k].id};
    var kids := t.nodes[k].children;
    for i := 0 to |kids|
      invariant r == index + {k} + DescAll(t, rank, k, kids[..i])
    {
      assert kids[..i + 1][..i] == kids[..i];
      var kid := kids[i];
      ChildrenAreChildOf(t, rank, k, kid);
      r := IndexDfs(t, rank, kid, r);
    }
    assert kids[..|kids|] == kids;
    DescSplit(t, rank, k);
  }

  /** Everything below a node is in the tree. */
  lemma {:induction false} DescInTree(t: Tree, rank: map<int, nat>, k: int)
    requires WellFormed(t, rank) && k in t.nodes
    ensures Desc(t, rank, k) <= t.nodes.Keys
    decreases |t.nodes| - rank[k]
  {
    forall x | x in Desc(t, rank, k) && x != k ensures x in t.nodes {
      var c :| c in t.nodes[k].children && ChildOf(t, rank, k, c) && x in Desc(t, rank, c);
      DescInTree(t, rank, c);
    }
  }

  /** A node is below every node on its walk. */
  lemma {:induction false} DescOfAncestor(t: Tree, rank: map<int, nat>, x: int, j: int)
    requires WellFormed(t, rank) && 0 <= j < |Chain(t.nodes, rank, x)|
    ensures x in Desc(t, rank, Chain(t.nodes, rank, x)[j])
    decreases j
  {
    if j > 0 {
      var c := Chain(t.nodes, rank, x);
      DescOfAncestor(t, rank, x, j - 1);
      ChainThroughChild(t, rank, x, j);
      ChildrenAreChildOf(t, rank, c[j], c[j - 1]);
    }
  }

  /** The index built from the root holds every calculator and nothing else. */
  lemma DescRootIsAll(t: Tree, rank: map<int, nat>)
    requires WellFormed(t, rank)
    ensures Desc(t, rank, t.root) == t.nodes.Keys
  {
    DescInTree(t, rank, t.root);
    forall x | x in t.nodes ensures x in Desc(t, rank, t.root) {
      ChainIsDepth(t, rank, x);
      DescOfAncestor(t, rank, x, rank[x]);
    }
  }

  // ---------------------------------------------------------------------
  // updateCalculations

  /** The body of the `try` block for calculator `k`: when the expression is
      truthy, build the scope, evaluate, and store the value as the result. */
  method EvaluateAt(nodes: map<int, Node>, k: int, decode: Decoder, eval: Evaluator) returns (r: map<int, Node>)
    requires k in nodes
    ensures r == Step(nodes, k, decode, eval)
  {
    r := nodes;
    if TruthyText(nodes[k].expression) {
      var scope := BuildViewScope(nodes, k, decode);
      if scope.Some? {
        var value := eval(nodes[k].expression.value, scope.value);
        if value.Some? {
          r := nodes[k := nodes[k].(result := Num(value.value))];
        }
      }
    }
  }

  /** The `while (current)` loop of `updateCalculations`: from `id`, if the
      index holds it, evaluate and move to the parent while the parent id is
      truthy and indexed. `index` is the set of ids the depth-first index
      holds. */
  method Walk(nodes0: map<int, Node>, index: set<int>, id: int, decode: Decoder, eval: Evaluator,
              ghost rank: map<int, nat>)
    returns (nodes: map<int, Node>)
    requires ParentRanked(nodes0, rank) && index == nodes0.Keys
    ensures nodes == Recompute(nodes0, rank, id, decode, eval)
  {
    nodes := nodes0;
    var current: Option<int> := if id in index then Some(id) else None;
    ghost var c := Chain(nodes0, rank, id);
    ghost var done := 0;
    while current.Some?
      invariant Walked(nodes0, rank, id, done, decode, eval, nodes)
      invariant current == (if done < |c| then Some(c[done]) else None)
      decreases |c| - done
    {
      nodes, current := WalkTurn(nodes0, index, id, decode, eval, rank, done, nodes, current.value);
      done := done + 1;
    }
    WalkEnd(nodes0, rank, id, done, decode, eval, nodes);
  }

  /** One turn of the `while (current)` loop at calculator `k`: evaluate it,
      then move to its parent when the parent id is truthy and indexed. */
  method WalkTurn(nodes0: map<int, Node>, index: set<int>, id: int, decode: Decoder, eval: Evaluator,
                  ghost rank: map<int, nat>, ghost done: int, nodes: map<int, Node>, k: int)
    returns (next: map<int, Node>, current: Option<int>)
    requires ParentRanked(nodes0, rank) && index == nodes0.Keys
    requires Walked(nodes0, rank, id, done, decode, eval, nodes)
    requires done < |Chain(nodes0, rank, id)| && k == Chain(nodes0, rank, id)[done]
    ensures Walked(nodes0, rank, id, done + 1, decode, eval, next)
    ensures current == (if done + 1 < |Chain(nodes0, rank, id)| then Some(Chain(nodes0, rank, id)[done + 1]) else None)
  {
    WalkStep(nodes0, rank, id, done, decode, eval, nodes);
    WalkLink(nodes0, rank, id, done);
    next := EvaluateAt(nodes, k, decode, eval);
    var p := next[k].parent;
    current := if TruthyId(p) && p.value in index then p else None;
  }

  /** The first `done` iterations of the walk from `id` have produced `nodes`. */
  ghost predicate Walked(nodes0: map<int, Node>, rank: map<int, nat>, id: int, done: int,
                         decode: Decoder, eval: Evaluator, nodes: map<int, Node>)
    requires ParentRanked(nodes0, rank)
  {
    0 <= done <= |Chain(nodes0, rank, id)| && nodes == StepAll(nodes0, Chain(nodes0, rank, id)[..done], decode, eval)
  }

  /** One turn of the walk: evaluating the next calculator on the walk
      extends the iterations by one, keeps that calculator's parent link, and
      the link leads to the calculator after it on the walk, if any. */
  lemma WalkStep(nodes0: map<int, Node>, rank: map<int, nat>, id: int, done: int, decode: Decoder, eval: Evaluator,
                 nodes: map<int, Node>)
    requires ParentRanked(nodes0, rank) && Walked(nodes0, rank, id, done, decode, eval, nodes)
    requires done < |Chain(nodes0, rank, id)|
    ensures var k := Chain(nodes0, rank, id)[done];
      && k in nodes
      && Walked(nodes0, rank, id, done + 1, decode, eval, Step(nodes, k, decode, eval))
      && Step(nodes, k, decode, eval)[k].parent == nodes0[k].parent
  {
    var c := Chain(nodes0, rank, id);
    WalkExtends(nodes0, c, done, decode, eval);
    StepAllOnlyResults(nodes0, c[..done], decode, eval);
  }

  /** The iterations over the first `done + 1` ids are one more iteration
      after those over the first `done`. */
  lemma WalkExtends(nodes0: map<int, Node>, c: seq<int>, done: int, decode: Decoder, eval: Evaluator)
    requires 0 <= done < |c| && forall i :: 0 <= i < |c| ==> c[i] in nodes0
    ensures c[done] in StepAll(nodes0, c[..done], decode, eval)
    ensures StepAll(nodes0, c[..done + 1], decode, eval)
         == Step(StepAll(nodes0, c[..done], decode, eval), c[done], decode, eval)
  {
    var front := c[..done + 1];
    assert front[..|front| - 1] == c[..done] && front[|front| - 1] == c[done];
  }

  /** The parent link of the calculator at position `done` of the walk, under
      the same test the loop applies, leads to the next calculator on the
      walk, and to nothing at the end of the walk. */
  lemma WalkLink(nodes0: map<int, Node>, rank: map<int, nat>, id: int, done: int)
    requires ParentRanked(nodes0, rank) && 0 <= done < |Chain(nodes0, rank, id)|
    ensures var p := nodes0[Chain(nodes0, rank, id)[done]].parent;
      (if TruthyId(p) && p.value in nodes0 then p else None)
      == (if done + 1 < |Chain(nodes0, rank, id)| then Some(Chain(nodes0, rank, id)[done + 1]) else None)
  {
    var c := Chain(nodes0, rank, id);
    if done + 1 < |c| {
      assert Up(nodes0, c[done]) == Some(c[done + 1]);
    }
  }

  /** When the walk stops, every calculator on it has been evaluated. */
  lemma WalkEnd(nodes0: map<int, Node>, rank: map<int, nat>, id: int, done: int, decode: Decoder, eval: Evaluator,
                nodes: map<int, Node>)
    requires ParentRanked(nodes0, rank) && Walked(nodes0, rank, id, done, decode, eval, nodes)
    requires done >= |Chain(nodes0, rank, id)|
    ensures nodes == Recompute(nodes0, rank, id, decode, eval)
  {
    var c := Chain(nodes0, rank, id);
    assert c[..done] == c;
  }

  /** `updateCalculations`: the recomputed tree, and the calculator it
      selects afterwards (`nodeMap.get(calculatorId) ?? null`). */
  method UpdateCalculations(t: Tree, id: int, decode: Decoder, eval: Evaluator, ghost rank: map<int, nat>)
    returns (nodes: map<int, Node>, selected: Option<Node>)
    requires WellFormed(t, rank)
    ensures nodes == Recompute(t.nodes, rank, id, decode, eval)
    ensures selected == (if id in nodes then Some(nodes[id]) else None)
  {
    var index := IndexDfs(t, rank, t.root, {});
    DescRootIsAll(t, rank);
    nodes := Walk(t.nodes, index, id, decode, eval, rank);
    selected := if id in index then Some(nodes[id]) else None;
  }

  // ---------------------------------------------------------------------
  // handleVariableChange

  /** What the search-and-update in `handleVariableChange` does to the copied
      tree: the calculator with that id gets its variables replaced by the
      list in which only the entries carrying `variableId` have the new
      value. An unknown id changes nothing. Parsing the variables, or reading
      an entry that is null or missing, throws out of the handler. */
  function WithVariable(nodes: map<int, Node>, calculatorId: int, variableId: int, value: real, decode: Decoder)
    : (r: Attempt<map<int, Node>>)
    ensures calculatorId !in nodes ==> r == Returned(nodes)
    ensures r.Threw? <==>
      calculatorId in nodes &&
      (ListOrThrow(nodes[calculatorId].variables, decode).None? ||
       SetValue(ListOrThrow(nodes[calculatorId].variables, decode).value, variableId, value).None?)
    ensures r.Returned? ==> r.value.Keys == nodes.Keys && SameStructure(nodes, r.value)
    ensures r.Returned? ==> forall j | j in nodes && j != calculatorId :: r.value[j] == nodes[j]
    ensures r.Returned? && calculatorId in nodes ==>
      r.value[calculatorId] == nodes[calculatorId].(variables := r.value[calculatorId].variables) &&
      r.value[calculatorId].variables ==
        List(SetValue(ListOrThrow(nodes[calculatorId].variables, decode).value, variableId, value).value)
  {
    if calculatorId !in nodes then Returned(nodes)
    else
      match ListOrThrow(nodes[calculatorId].variables, decode)
      case None => Threw
      case Some(items) =>
        match SetValue(items, variableId, value)
        case None => Threw
        case Some(updated) => Returned(nodes[calculatorId := nodes[calculatorId].(variables := List(updated))])
  }

  /** The breadth-first search of `handleVariableChange` over the copied
      tree, stopping at the first calculator with the wanted id. */
  method SetVariableInTree(t: Tree, calculatorId: int, variableId: int, value: real, decode: Decoder,
                           ghost rank: map<int, nat>)
    returns (r: Attempt<map<int, Node>>)
    requires WellFormed(t, rank)
    ensures r == WithVariable(t.nodes, calculatorId, variableId, value, decode)
  {
    BfsInit(t, rank);
    var queue := [t.root];
    ghost var taken: seq<int> := [];
    while |queue| > 0
      invariant BfsInv(t, rank, taken, queue)
      invariant calculatorId !in taken
      decreases |t.nodes| - |taken|
    {
      BfsRoom(t, rank, taken, queue);
      BfsMembers(t, rank, taken, queue);
      var current := queue[0];
      if t.nodes[current].id == calculatorId {
        var variables := ListOrThrow(t.nodes[current].variables, decode);
        if variables.None? {
          return Threw;
        }
        var updated := SetValue(variables.value, variableId, value);
        if updated.None? {
          return Threw;
        }
        return Returned(t.nodes[current := t.nodes[current].(variables := List(updated.value))]);
      }
      BfsStep(t, rank, taken, queue);
      taken := taken + [current];
      queue := queue[1..] + t.nodes[current].children;
    }
    BfsDone(t, rank, taken);
    return Returned(t.nodes);
  }

  /** Where `list.find(calc => calc.calculator_id === id)` stops: the first
      position with that id, or -1 when there is none. */
  function FirstWithId(list: seq<Node>, id: int): (r: int)
    ensures -1 <= r < |list|
    ensures r >= 0 ==> list[r].id == id
    ensures forall j :: 0 <= j < |list| && (r < 0 || j < r) ==> list[j].id != id
    decreases |list|
  {
    if list == [] then -1
    else if list[0].id == id then 0
    else
      var r := FirstWithId(list[1..], id);
      if r < 0 then -1 else r + 1
  }

  /** `list.find(...)`: the entry at that position, or nothing. */
  function FindById(list: seq<Node>, id: int): Option<Node> {
    var i := FirstWithId(list, id);
    if i < 0 then None else Some(list[i])
  }

  /** The component's state: the local copy of the hierarchy and the
      calculator shown. */
  class Body {
    var database: Option<Tree>
    var selected: Option<Node>
    var calculatorList: seq<Node>
    ghost var rank: map<int, nat>

    ghost predicate Valid()
      reads this
    {
      database.Some? ==> WellFormed(database.value, rank)
    }

    constructor ()
      ensures database.None? && selected.None? && calculatorList == [] && Valid()
    {
      database := None;
      selected := None;
      calculatorList := [];
      rank := map[];
    }

    /** The effect on the fetched hierarchy: a tree that arrived becomes the
        local copy; while none has arrived nothing changes. */
    method ReceiveHierarchy(data: Option<Tree>, ghost dataRank: map<int, nat>)
      requires Valid() && (data.Some? ==> WellFormed(data.value, dataRank))
      modifies this
      ensures Valid() && selected == old(selected) && calculatorList == old(calculatorList)
      ensures data.Some? ==> database == data && rank == dataRank
      ensures data.None? ==> database == old(database) && rank == old(rank)
    {
      if data.Some? {
        database := data;
        rank := dataRank;
      }
    }

    /** The effect on the local copy: the picker's list is the breadth-first
        listing of the tree. Without a tree nothing changes; when the
        listing throws, the effect throws and nothing changes either. */
    method RefreshList(decode: Decoder) returns (threw: bool)
      requires Valid()
      modifies this
      ensures Valid() && database == old(database) && selected == old(selected) && rank == old(rank)
      ensures old(database).None? ==> !threw && calculatorList == old(calculatorList)
      ensures old(database).Some? ==>
        (threw <==> exists k | k in database.value.nodes ::
                      ParseCalculatorVariables(Some(database.value.nodes[k]), decode).Threw?)
      ensures threw ==> calculatorList == old(calculatorList)
      ensures old(database).Some? && !threw ==>
        BfsListing(database.value, rank, Ids(calculatorList))
        && forall i :: 0 <= i < |calculatorList| ==>
             Ids(calculatorList)[i] in database.value.nodes &&
             ParseCalculatorVariables(Some(database.value.nodes[Ids(calculatorList)[i]]), decode)
               == Returned(Some(calculatorList[i]))
    {
      if database.None? {
        return false;
      }
      var list := TraverseCalculatorBfs(database, decode, rank);
      if list.value.Threw? {
        return true;
      }
      calculatorList := list.value.value;
      return false;
    }

    /** The picker's `onValueChange`: the first listed calculator with the
        chosen id becomes the selection, or nothing when none has it. */
    method SelectFromList(calculatorId: int)
      modifies this
      ensures database == old(database) && calculatorList == old(calculatorList) && rank == old(rank)
      ensures selected == FindById(calculatorList, calculatorId)
    {
      selected := FindById(calculatorList, calculatorId);
    }

    /** `handleVariableChange`. Without a tree nothing happens. Otherwise the
        copy is searched and updated; if that throws, the handler throws and
        the state is untouched (`threw`). If not, the copy is recomputed
        along the walk from the changed calculator (the same walk as in the
        old tree, since parents do not change) and becomes the new state,
        with the changed calculator selected. */
    method HandleVariableChange(calculatorId: int, variableId: int, value: real, decode: Decoder, eval: Evaluator)
      returns (threw: bool)
      requires Valid()
      modifies this
      ensures Valid() && rank == old(rank) && calculatorList == old(calculatorList)
      ensures old(database).None? ==> !threw && database == old(database) && selected == old(selected)
      ensures old(database).Some? ==>
        var w := WithVariable(old(database).value.nodes, calculatorId, variableId, value, decode);
        && (threw <==> w.Threw?)
        && (w.Threw? ==> database == old(database) && selected == old(selected))
        && (w.Returned? ==>
              var r := StepAll(w.value, Chain(old(database).value.nodes, rank, calculatorId), decode, eval);
              database == Some(Tree(old(database).value.root, r)) &&
              selected == (if calculatorId in r then Some(r[calculatorId]) else None))
    {
      if database.None? {
        return false;
      }
      var t := database.value;
      var copy := SetVariableInTree(t, calculatorId, variableId, value, decode, rank);
      if copy.Threw? {
        return true;
      }
      var updated := Tree(t.root, copy.value);
      WellFormedSameStructure(t, rank, copy.value);
      ChainSameParents(t.nodes, copy.value, rank, calculatorId);
      var nodes, sel := UpdateCalculations(updated, calculatorId, decode, eval, rank);
      WellFormedSameStructure(updated, rank, nodes);
      selected := sel;
      database := Some(Tree(t.root, nodes));
      return false;
    }
  }
}
