/** src/lib/utils.ts: normalising a calculator's `variables` field, and the
    breadth-first flattening of a hierarchy into the list the calculator
    picker shows. */
module Utils {
  import opened Js
  import opened Hierarchy
  import opened Breadth

  /** `!calculator.variables`: the field is missing or the empty string. */
  predicate FalsyVariables(f: VarsField) {
    f.Absent? || f == Text("")
  }

  /** `parseCalculatorVariables`: a copy of the calculator whose JSON-text
      `variables` are parsed; anything else comes back as it was. */
  function ParseCalculatorVariables(c: Option<Node>, decode: Decoder): (r: Attempt<Option<Node>>)
    ensures c.None? ==> r == Returned(None)
    ensures c.Some? && (FalsyVariables(c.value.variables) || c.value.variables.List?) ==> r == Returned(c)
    ensures r.Threw? <==>
      c.Some? && c.value.variables.Text? && c.value.variables.json != "" && decode(c.value.variables.json).None?
    ensures r.Returned? && c.Some? ==>
      r.value.Some? && r.value.value == c.value.(variables := r.value.value.variables)
    ensures r.Returned? && c.Some? && c.value.variables.Text? && c.value.variables.json != "" ==>
      r.value.value.variables == List(decode(c.value.variables.json).value)
  {
    match c
    case None => Returned(None)
    case Some(n) =>
      if FalsyVariables(n.variables) then Returned(c)
      else
        match n.variables
        case Text(s) =>
          (match decode(s)
           case None => Threw
           case Some(items) => Returned(Some(n.(variables := List(items)))))
        case _ => Returned(c)
  }

  /** Parsing an already parsed calculator changes nothing. */
  lemma ParseIdempotent(c: Option<Node>, decode: Decoder)
    requires ParseCalculatorVariables(c, decode).Returned?
    ensures var once := ParseCalculatorVariables(c, decode).value;
      ParseCalculatorVariables(once, decode) == Returned(once)
  {
  }

  /** `children.map(parseCalculatorVariables)`; throws when any child's
      variables fail to parse. */
  function ParseAll(nodes: map<int, Node>, ids: seq<int>, decode: Decoder): (r: Attempt<seq<Node>>)
    requires forall i :: 0 <= i < |ids| ==> ids[i] in nodes
    ensures r.Threw? <==> exists i :: 0 <= i < |ids| && ParseCalculatorVariables(Some(nodes[ids[i]]), decode).Threw?
    ensures r.Returned? ==> |r.value| == |ids|
    ensures r.Returned? ==> forall i :: 0 <= i < |ids| ==> ParseCalculatorVariables(Some(nodes[ids[i]]), decode) == Returned(Some(r.value[i]))
    decreases |ids|
  {
    if ids == [] then Returned([])
    else
      match ParseCalculatorVariables(Some(nodes[ids[0]]), decode)
      case Threw => Threw
      case Returned(first) =>
        match ParseAll(nodes, ids[1..], decode)
        case Threw => Threw
        case Returned(rest) => Returned([first.value] + rest)
  }

  /** The calculator ids of a list of calculators. */
  function Ids(ns: seq<Node>): (r: seq<int>)
    ensures |r| == |ns| && forall i :: 0 <= i < |ns| ==> r[i] == ns[i].id
  {
    seq(|ns|, i requires 0 <= i < |ns| => ns[i].id)
  }

  /** The loop state of the traversal: `taken`/`pending` are the ids behind
      `resultList`/`queue`, the search invariant holds for them, and every
      listed or queued calculator is the parsed form of its node. */
  ghost predicate Traversal(t: Tree, rank: map<int, nat>, decode: Decoder,
                            taken: seq<int>, pending: seq<int>, resultList: seq<Node>, queue: seq<Node>)
  {
    && BfsInv(t, rank, taken, pending)
    && (forall i :: 0 <= i < |taken| ==> taken[i] in t.nodes)
    && (forall i :: 0 <= i < |pending| ==> pending[i] in t.nodes)
    && |queue| == |pending| && |resultList| == |taken|
    && (forall i :: 0 <= i < |queue| ==>
          ParseCalculatorVariables(Some(t.nodes[pending[i]]), decode) == Returned(Some(queue[i])))
    && (forall i :: 0 <= i < |resultList| ==>
          ParseCalculatorVariables(Some(t.nodes[taken[i]]), decode) == Returned(Some(resultList[i])))
    && Ids(resultList) == taken
  }

  lemma TraversalInit(t: Tree, rank: map<int, nat>, decode: Decoder, root: Node)
    requires WellFormed(t, rank)
    requires ParseCalculatorVariables(Some(t.nodes[t.root]), decode) == Returned(Some(root))
    ensures Traversal(t, rank, decode, [], [t.root], [], [root])
  {
    BfsInit(t, rank);
    BfsMembers(t, rank, [], [t.root]);
  }

  /** The front calculator's stored children are the front node's children. */
  lemma TraversalFront(t: Tree, rank: map<int, nat>, decode: Decoder,
                       taken: seq<int>, pending: seq<int>, resultList: seq<Node>, queue: seq<Node>)
    requires Traversal(t, rank, decode, taken, pending, resultList, queue) && queue != []
    ensures queue[0].children == Kids(t.nodes, pending[0])
    ensures forall i :: 0 <= i < |queue[0].children| ==> queue[0].children[i] in t.nodes
    ensures |taken| < |t.nodes|
  {
    BfsRoom(t, rank, taken, pending);
    assert (taken + pending)[|taken|] == pending[0];
  }

  /** Each of `ns` is the parsed form of the id at the same position of `ids`. */
  ghost predicate ParsedAs(nodes: map<int, Node>, decode: Decoder, ids: seq<int>, ns: seq<Node>) {
    |ids| == |ns| &&
    forall i :: 0 <= i < |ids| ==>
      ids[i] in nodes && ParseCalculatorVariables(Some(nodes[ids[i]]), decode) == Returned(Some(ns[i]))
  }

  lemma ParsedAsConcat(nodes: map<int, Node>, decode: Decoder, a: seq<int>, x: seq<Node>, b: seq<int>, y: seq<Node>)
    requires ParsedAs(nodes, decode, a, x) && ParsedAs(nodes, decode, b, y)
    ensures ParsedAs(nodes, decode, a + b, x + y)
  {
    forall i | 0 <= i < |a + b|
      ensures (a + b)[i] in nodes && ParseCalculatorVariables(Some(nodes[(a + b)[i]]), decode) == Returned(Some((x + y)[i]))
    {
      if i < |a| {
        assert (a + b)[i] == a[i] && (x + y)[i] == x[i];
      } else {
        assert (a + b)[i] == b[i - |a|] && (x + y)[i] == y[i - |a|];
      }
    }
  }

  lemma ParsedAsDrop(nodes: map<int, Node>, decode: Decoder, a: seq<int>, x: seq<Node>)
    requires ParsedAs(nodes, decode, a, x) && |a| > 0
    ensures ParsedAs(nodes, decode, a[1..], x[1..])
  {
    forall i | 0 <= i < |a| - 1
      ensures a[1..][i] in nodes && ParseCalculatorVariables(Some(nodes[a[1..][i]]), decode) == Returned(Some(x[1..][i]))
    {
      assert a[1..][i] == a[i + 1] && x[1..][i] == x[i + 1];
    }
  }

  /** After a step each queued calculator is still the parsed form of the id
      queued with it. */
  lemma ParsedQueueStep(nodes: map<int, Node>, decode: Decoder, pending: seq<int>, queue: seq<Node>, kids: seq<Node>)
    requires |queue| == |pending| > 0
    requires forall i :: 0 <= i < |pending| ==> pending[i] in nodes
    requires forall i :: 0 <= i < |queue| ==>
      ParseCalculatorVariables(Some(nodes[pending[i]]), decode) == Returned(Some(queue[i]))
    requires forall i :: 0 <= i < |queue[0].children| ==> queue[0].children[i] in nodes
    requires ParseAll(nodes, queue[0].children, decode) == Returned(kids)
    ensures var pending' := pending[1..] + queue[0].children;
      var queue' := queue[1..] + kids;
      |queue'| == |pending'| &&
      forall i :: 0 <= i < |queue'| ==>
        pending'[i] in nodes && ParseCalculatorVariables(Some(nodes[pending'[i]]), decode) == Returned(Some(queue'[i]))
  {
    assert ParsedAs(nodes, decode, pending, queue);
    ParsedAsDrop(nodes, decode, pending, queue);
    assert ParsedAs(nodes, decode, queue[0].children, kids);
    ParsedAsConcat(nodes, decode, pending[1..], queue[1..], queue[0].children, kids);
  }

  /** After a step each listed calculator is still the parsed form of its id. */
  lemma ParsedListStep(nodes: map<int, Node>, decode: Decoder, taken: seq<int>, resultList: seq<Node>, k: int, n: Node)
    requires |taken| == |resultList| && k in nodes
    requires forall i :: 0 <= i < |taken| ==> taken[i] in nodes
    requires forall i :: 0 <= i < |resultList| ==>
      ParseCalculatorVariables(Some(nodes[taken[i]]), decode) == Returned(Some(resultList[i]))
    requires ParseCalculatorVariables(Some(nodes[k]), decode) == Returned(Some(n))
    requires Ids(resultList) == taken && nodes[k].id == k
    ensures forall i :: 0 <= i < |resultList| + 1 ==>
      ParseCalculatorVariables(Some(nodes[(taken + [k])[i]]), decode) == Returned(Some((resultList + [n])[i]))
    ensures Ids(resultList + [n]) == taken + [k]
  {
  }

  lemma TraversalStep(t: Tree, rank: map<int, nat>, decode: Decoder,
                      taken: seq<int>, pending: seq<int>, resultList: seq<Node>, queue: seq<Node>, kids: seq<Node>)
    requires Traversal(t, rank, decode, taken, pending, resultList, queue) && queue != []
    requires forall i :: 0 <= i < |queue[0].children| ==> queue[0].children[i] in t.nodes
    requires ParseAll(t.nodes, queue[0].children, decode) == Returned(kids)
    ensures Traversal(t, rank, decode, taken + [pending[0]], pending[1..] + Kids(t.nodes, pending[0]),
                      resultList + [queue[0]], queue[1..] + kids)
  {
    TraversalFront(t, rank, decode, taken, pending, resultList, queue);
    BfsStep(t, rank, taken, pending);
    BfsMembers(t, rank, taken + [pending[0]], pending[1..] + Kids(t.nodes, pending[0]));
    ParsedQueueStep(t.nodes, decode, pending, queue, kids);
    ParsedListStep(t.nodes, decode, taken, resultList, pending[0], queue[0]);
  }

  /** A failed `children.map` names a calculator whose variables fail to parse. */
  lemma ParseAllThrows(nodes: map<int, Node>, ids: seq<int>, decode: Decoder)
    requires forall i :: 0 <= i < |ids| ==> ids[i] in nodes
    requires ParseAll(nodes, ids, decode).Threw?
    ensures exists k :: k in nodes && ParseCalculatorVariables(Some(nodes[k]), decode).Threw?
  {
    var i :| 0 <= i < |ids| && ParseCalculatorVariables(Some(nodes[ids[i]]), decode).Threw?;
    var k := ids[i];
    assert k in nodes && ParseCalculatorVariables(Some(nodes[k]), decode).Threw?;
  }

  lemma TraversalDone(t: Tree, rank: map<int, nat>, decode: Decoder,
                      taken: seq<int>, resultList: seq<Node>)
    requires Traversal(t, rank, decode, taken, [], resultList, [])
    ensures BfsListing(t, rank, Ids(resultList))
    ensures forall i :: 0 <= i < |resultList| ==>
      Ids(resultList)[i] in t.nodes &&
      ParseCalculatorVariables(Some(t.nodes[Ids(resultList)[i]]), decode) == Returned(Some(resultList[i]))
    ensures forall k | k in t.nodes :: ParseCalculatorVariables(Some(t.nodes[k]), decode).Returned?
  {
    BfsDone(t, rank, taken);
    forall k | k in t.nodes ensures ParseCalculatorVariables(Some(t.nodes[k]), decode).Returned? {
      var i :| 0 <= i < |taken| && taken[i] == k;
    }
  }

  /** `traverseCalculatorBFS`: nothing for a null tree; otherwise every
      calculator exactly once, parsed, in breadth-first order: the root first,
      then the children of each listed calculator in stored order, so that a
      parent precedes its children and depths never decrease. The whole call
      throws when some calculator's variables fail to parse. */
  method TraverseCalculatorBfs(db: Option<Tree>, decode: Decoder, ghost rank: map<int, nat>)
    returns (r: Option<Attempt<seq<Node>>>)
    requires db.Some? ==> WellFormed(db.value, rank)
    ensures r.None? <==> db.None?
    ensures db.Some? ==> (r.value.Returned? <==>
      forall k | k in db.value.nodes :: ParseCalculatorVariables(Some(db.value.nodes[k]), decode).Returned?)
    ensures db.Some? && r.value.Returned? ==>
      var t := db.value;
      var list := r.value.value;
      && BfsListing(t, rank, Ids(list))
      && (forall i :: 0 <= i < |list| ==>
            Ids(list)[i] in t.nodes &&
            ParseCalculatorVariables(Some(t.nodes[Ids(list)[i]]), decode) == Returned(Some(list[i])))
  {
    if db.None? {
      return None;
    }
    var t := db.value;
    var first := ParseCalculatorVariables(Some(t.nodes[t.root]), decode);
    if first.Threw? {
      return Some(Threw);
    }
    TraversalInit(t, rank, decode, first.value.value);
    var queue := [first.value.value];
    ghost var pending := [t.root];
    var resultList: seq<Node> := [];
    ghost var taken: seq<int> := [];
    while |queue| > 0
      invariant Traversal(t, rank, decode, taken, pending, resultList, queue)
      decreases |t.nodes| - |taken|
    {
      TraversalFront(t, rank, decode, taken, pending, resultList, queue);
      var current := queue[0];
      var kids := ParseAll(t.nodes, current.children, decode);
      if kids.Threw? {
        ParseAllThrows(t.nodes, current.children, decode);
        ghost var k :| k in t.nodes && ParseCalculatorVariables(Some(t.nodes[k]), decode).Threw?;
        assert !ParseCalculatorVariables(Some(t.nodes[k]), decode).Returned?;
        return Some(Threw);
      }
      TraversalStep(t, rank, decode, taken, pending, resultList, queue, kids.value);
      var rest := queue[1..];
      if |current.children| > 0 {
        rest := rest + kids.value;
      } else {
        assert kids.value == [];
        assert rest + kids.value == rest;
      }
      queue := rest;
      resultList := resultList + [current];
      taken := taken + [pending[0]];
      pending := pending[1..] + Kids(t.nodes, pending[0]);
    }
    TraversalDone(t, rank, decode, taken, resultList);
    return Some(Returned(resultList));
  }
}
