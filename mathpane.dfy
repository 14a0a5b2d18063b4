/** src/components/body/math/math.tsx: the expression editor of the selected
    calculator. An effect rebuilds the scope from the variable store and the
    nested calculators the server returns; every edit of the expression is
    written to the selection store and evaluated in that scope. */
module MathPane {
  import opened Js
  import opened Hierarchy
  import opened Scope
  import opened Store
  import ViewBody

  /** One nested calculator as the editor's query returns it; the name may be
      missing. */
  datatype Nested = Nested(name: Option<string>, result: JsNumber)

  /** The text under "Result:": empty at first, then a value or the
      message "Invalid Expression". */
  datatype Display = Empty | Shown(value: real) | InvalidExpression

  /** The guard before the first loop: a list that is present, non-empty and
      not entirely null. */
  predicate HasVariables(variables: Option<seq<Option<Var>>>) {
    variables.Some? && |variables.value| > 0 && !AllNull(variables.value)
  }

  /** The guard before the second loop: `data?.length > 0`. */
  predicate HasNested(data: Option<seq<Option<Nested>>>) {
    data.Some? && |data.value| > 0
  }

  /** The variable entries, in order; null entries are skipped. */
  function VarPairs(vs: seq<Option<Var>>): (r: seq<(string, real)>)
    ensures |r| <= |vs|
    decreases |vs|
  {
    if vs == [] then []
    else
      var last := vs[|vs| - 1];
      VarPairs(vs[..|vs| - 1]) + (if last.Some? then [(last.value.name, last.value.value)] else [])
  }

  /** Whether a nested calculator adds an entry: present, with a non-empty name. */
  predicate Named(n: Option<Nested>) {
    n.Some? && TruthyText(n.value.name)
  }

  /** The nested-calculator entries, in order; entries that are null or have
      no name are skipped, and a null or missing result counts as 0. */
  function NestedPairs(ns: seq<Option<Nested>>): (r: seq<(string, real)>)
    ensures |r| <= |ns|
    decreases |ns|
  {
    if ns == [] then []
    else
      var last := ns[|ns| - 1];
      NestedPairs(ns[..|ns| - 1]) + (if Named(last) then [(last.value.name.value, OrZero(last.value.result))] else [])
  }

  /** Every non-null variable contributes its name and value, and every
      entry comes from a non-null variable. */
  lemma {:induction false} VarPairsMembers(vs: seq<Option<Var>>)
    ensures forall i :: 0 <= i < |vs| && vs[i].Some? ==> (vs[i].value.name, vs[i].value.value) in VarPairs(vs)
    ensures forall e :: e in VarPairs(vs) ==>
      exists i :: 0 <= i < |vs| && vs[i].Some? && e == (vs[i].value.name, vs[i].value.value)
    decreases |vs|
  {
    if vs != [] {
      var front, last := vs[..|vs| - 1], vs[|vs| - 1];
      VarPairsMembers(front);
      var tail := if last.Some? then [(last.value.name, last.value.value)] else [];
      assert VarPairs(vs) == VarPairs(front) + tail;
      forall i | 0 <= i < |front| && vs[i].Some? ensures (vs[i].value.name, vs[i].value.value) in VarPairs(vs) {
        assert front[i] == vs[i];
      }
      forall e | e in VarPairs(vs)
        ensures exists i :: 0 <= i < |vs| && vs[i].Some? && e == (vs[i].value.name, vs[i].value.value)
      {
        if e in VarPairs(front) {
          var i :| 0 <= i < |front| && front[i].Some? && e == (front[i].value.name, front[i].value.value);
          assert vs[i] == front[i];
        } else {
          assert e in tail;
          assert vs[|vs| - 1] == last;
        }
      }
    }
  }

  /** Every named nested calculator contributes its name and its result (or
      0), and every entry comes from a named nested calculator. */
  lemma {:induction false} NestedPairsMembers(ns: seq<Option<Nested>>)
    ensures forall i :: 0 <= i < |ns| && Named(ns[i]) ==> (ns[i].value.name.value, OrZero(ns[i].value.result)) in NestedPairs(ns)
    ensures forall e :: e in NestedPairs(ns) ==>
      exists i :: 0 <= i < |ns| && Named(ns[i]) && e == (ns[i].value.name.value, OrZero(ns[i].value.result))
    decreases |ns|
  {
    if ns != [] {
      var front, last := ns[..|ns| - 1], ns[|ns| - 1];
      NestedPairsMembers(front);
      var tail := if Named(last) then [(last.value.name.value, OrZero(last.value.result))] else [];
      assert NestedPairs(ns) == NestedPairs(front) + tail;
      forall i | 0 <= i < |front| && Named(ns[i])
        ensures (ns[i].value.name.value, OrZero(ns[i].value.result)) in NestedPairs(ns)
      {
        assert front[i] == ns[i];
      }
      forall e | e in NestedPairs(ns)
        ensures exists i :: 0 <= i < |ns| && Named(ns[i]) && e == (ns[i].value.name.value, OrZero(ns[i].value.result))
      {
        if e in NestedPairs(front) {
          var i :| 0 <= i < |front| && Named(front[i]) && e == (front[i].value.name.value, OrZero(front[i].value.result));
          assert ns[i] == front[i];
        } else {
          assert e in tail;
          assert ns[|ns| - 1] == last;
        }
      }
    }
  }

  /** The scope the effect builds: variables first, then nested calculators. */
  function EditorScope(variables: Option<seq<Option<Var>>>, data: Option<seq<Option<Nested>>>): map<string, real> {
    Assign(map[], (if HasVariables(variables) then VarPairs(variables.value) else [])
                  + (if HasNested(data) then NestedPairs(data.value) else []))
  }

  /** A list that is empty or entirely null contributes nothing. */
  lemma {:induction false} VarPairsOfNulls(vs: seq<Option<Var>>)
    requires forall i :: 0 <= i < |vs| ==> vs[i].None?
    ensures VarPairs(vs) == []
    decreases |vs|
  {
    if vs != [] {
      VarPairsOfNulls(vs[..|vs| - 1]);
    }
  }

  /** The two guards change nothing: the scope is the same as the one built
      from all variables and all nested calculators, a missing list counting
      as empty. */
  lemma GuardsAreRedundant(variables: Option<seq<Option<Var>>>, data: Option<seq<Option<Nested>>>)
    ensures EditorScope(variables, data) ==
      Assign(map[], VarPairs(if variables.Some? then variables.value else [])
                    + NestedPairs(if data.Some? then data.value else []))
  {
    if !HasVariables(variables) {
      VarPairsOfNulls(if variables.Some? then variables.value else []);
    }
  }

  /** How the editor scope binds a name: a nested calculator wins over every
      variable, the last of several same-named entries wins, and a name no
      entry carries is unbound. */
  lemma EditorScopeLookup(variables: Option<seq<Option<Var>>>, data: Option<seq<Option<Nested>>>, x: string)
    ensures var s := EditorScope(variables, data);
      var es := VarPairs(if variables.Some? then variables.value else []);
      var cs := NestedPairs(if data.Some? then data.value else []);
      && (LastIndex(cs, x) >= 0 ==> x in s && s[x] == cs[LastIndex(cs, x)].1)
      && (LastIndex(cs, x) < 0 ==>
            (x in s <==> LastIndex(es, x) >= 0) && (x in s ==> s[x] == es[LastIndex(es, x)].1))
  {
    var es := VarPairs(if variables.Some? then variables.value else []);
    var cs := NestedPairs(if data.Some? then data.value else []);
    GuardsAreRedundant(variables, data);
    LaterListWins(map[], es, cs, x);
    AssignLookup(map[], es, x);
  }

  /** The first `forEach`: each non-null variable written into `m`. */
  method WriteVariables(m: map<string, real>, vs: seq<Option<Var>>) returns (scope: map<string, real>)
    ensures scope == Assign(m, VarPairs(vs))
  {
    scope := m;
    for i := 0 to |vs|
      invariant scope == Assign(m, VarPairs(vs[..i]))
    {
      assert vs[..i + 1][..i] == vs[..i];
      ghost var before := VarPairs(vs[..i]);
      if vs[i].Some? {
        AssignAppend(m, before, [(vs[i].value.name, vs[i].value.value)]);
        scope := scope[vs[i].value.name := vs[i].value.value];
      } else {
        assert VarPairs(vs[..i + 1]) == before + [];
        assert before + [] == before;
      }
    }
    assert vs[..|vs|] == vs;
  }

  /** The second `forEach`: each named nested calculator written into `m`. */
  method WriteNested(m: map<string, real>, ns: seq<Option<Nested>>) returns (scope: map<string, real>)
    ensures scope == Assign(m, NestedPairs(ns))
  {
    scope := m;
    for i := 0 to |ns|
      invariant scope == Assign(m, NestedPairs(ns[..i]))
    {
      assert ns[..i + 1][..i] == ns[..i];
      ghost var before := NestedPairs(ns[..i]);
      var n := ns[i];
      if n.Some? && n.value.name.Some? && n.value.name.value != "" {
        AssignAppend(m, before, [(n.value.name.value, OrZero(n.value.result))]);
        scope := scope[n.value.name.value := OrZero(n.value.result)];
      } else {
        assert NestedPairs(ns[..i + 1]) == before + [];
        assert before + [] == before;
      }
    }
    assert ns[..|ns|] == ns;
  }

  /** The effect at lines 56-81: the two guarded loops filling `newScope`. */
  method BuildEditorScope(variables: Option<seq<Option<Var>>>, data: Option<seq<Option<Nested>>>)
    returns (scope: map<string, real>)
    ensures scope == EditorScope(variables, data)
  {
    scope := map[];
    ghost var es: seq<(string, real)> := [];
    if variables.Some? && |variables.value| > 0 && !AllNull(variables.value) {
      scope := WriteVariables(scope, variables.value);
      es := VarPairs(variables.value);
    }
    if data.Some? && |data.value| > 0 {
      scope := WriteNested(scope, data.value);
      AssignAppend(map[], es, NestedPairs(data.value));
    } else {
      assert es + [] == es;
    }
  }

  /** `variables.every(variable => variable == null)`. */
  predicate AllNull(vs: seq<Option<Var>>) {
    forall i :: 0 <= i < |vs| ==> vs[i].None?
  }

  // ---------------------------------------------------------------------
  // The editor and the view on the same calculator

  /** What the nested-calculator query returns for the children of `k` in a
      tree: each child with its name and result. */
  function NestedOf(nodes: map<int, Node>, kids: seq<int>): (r: seq<Option<Nested>>)
    requires forall i :: 0 <= i < |kids| ==> kids[i] in nodes
    ensures |r| == |kids|
    ensures forall i :: 0 <= i < |kids| ==> r[i] == Some(Nested(Some(nodes[kids[i]].name), nodes[kids[i]].result))
    decreases |kids|
  {
    if kids == [] then []
    else NestedOf(nodes, kids[..|kids| - 1]) + [Some(Nested(Some(nodes[kids[|kids| - 1]].name), nodes[kids[|kids| - 1]].result))]
  }

  lemma {:induction false} NestedPairsOfChildren(nodes: map<int, Node>, kids: seq<int>)
    requires forall i :: 0 <= i < |kids| ==> kids[i] in nodes
    requires forall i :: 0 <= i < |kids| ==> nodes[kids[i]].name != "" && !nodes[kids[i]].result.Undefined?
    ensures NestedPairs(NestedOf(nodes, kids)) == ViewBody.ChildEntries(nodes, kids)
    decreases |kids|
  {
    if kids != [] {
      var front := kids[..|kids| - 1];
      NestedPairsOfChildren(nodes, front);
      var ns := NestedOf(nodes, kids);
      assert ns[..|ns| - 1] == NestedOf(nodes, front);
    }
  }

  lemma {:induction false} VarPairsOfPresent(items: seq<Option<Var>>)
    requires forall i :: 0 <= i < |items| ==> items[i].Some?
    ensures ViewBody.VarEntries(items) == Some(VarPairs(items))
    decreases |items|
  {
    if items != [] {
      var front := items[..|items| - 1];
      VarPairsOfPresent(front);
    }
  }

  /** On a calculator whose variables contain no null and whose children all
      have a name and a defined result, the editor builds the same scope as
      the recompute walk in the view. */
  lemma EditorAgreesWithView(nodes: map<int, Node>, k: int, decode: Decoder, items: seq<Option<Var>>)
    requires k in nodes && ListOrThrow(nodes[k].variables, decode) == Some(items)
    requires forall i :: 0 <= i < |items| ==> items[i].Some?
    requires forall i :: 0 <= i < |nodes[k].children| ==> nodes[k].children[i] in nodes
    requires forall i :: 0 <= i < |nodes[k].children| ==>
      nodes[nodes[k].children[i]].name != "" && !nodes[nodes[k].children[i]].result.Undefined?
    ensures ViewBody.ViewScope(nodes, k, decode) ==
      Some(EditorScope(Some(items), Some(NestedOf(nodes, nodes[k].children))))
  {
    VarPairsOfPresent(items);
    NestedPairsOfChildren(nodes, nodes[k].children);
    GuardsAreRedundant(Some(items), Some(NestedOf(nodes, nodes[k].children)));
  }

  // ---------------------------------------------------------------------
  // The component

  /** `ExpressionCalculatorPane`: its scope, the shown result, and the
      selection store it writes to. */
  class Pane {
    var scope: map<string, real>
    var display: Display
    const store: SelectionStore

    constructor (store: SelectionStore)
      ensures this.store == store && scope == map[] && display == Empty
    {
      this.store := store;
      scope := map[];
      display := Empty;
    }

    /** The scope effect. */
    method RefreshScope(variables: Option<seq<Option<Var>>>, data: Option<seq<Option<Nested>>>)
      modifies this
      ensures scope == EditorScope(variables, data) && display == old(display)
    {
      scope := BuildEditorScope(variables, data);
    }

    /** `handleChange`: the expression always goes to the store and to the
        parent (`notified`). On success the store result and the shown
        result are both the value; on failure "Invalid Expression" is shown
        and the store keeps its result. */
    method HandleChange(input: string, eval: Evaluator) returns (notified: string)
      modifies this, store
      ensures notified == input && scope == old(scope)
      ensures match eval(input, old(scope))
        case Some(v) =>
          store.Snapshot() == old(store.Snapshot()).(expression := Some(input), result := Some(v))
          && display == Shown(v)
        case None =>
          store.Snapshot() == old(store.Snapshot()).(expression := Some(input))
          && display == InvalidExpression
    {
      store.SetSelectedCalculatorExpression(Some(input));
      notified := input;
      var evaluated := eval(input, scope);
      if evaluated.Some? {
        store.SetSelectedCalculatorResult(Some(evaluated.value));
        display := Shown(evaluated.value);
      } else {
        display := InvalidExpression;
      }
    }
  }
}
