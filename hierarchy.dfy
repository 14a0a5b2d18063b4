/** The calculator hierarchy as the client holds it (`CalculatorView` in
    src/schemas/types.tsx): a tree of calculators, each with its variables, an
    optional expression and the last computed result.

    The nested JSON tree is represented as an arena: `nodes` maps each
    `calculator_id` to its node, and `children` lists child ids in their
    stored order. A ghost `rank` map (each node's depth) witnesses that the
    parent links are acyclic; it is what makes the ancestor walk and the
    traversals terminate. */
module Hierarchy {
  import opened Js

  /** One variable (`Variable` in src/schemas/types.tsx). */
  datatype Var = Var(id: int, name: string, display: string, value: real)

  /** The `variables` field as it arrives: missing, still the JSON text the
      server produced, or a parsed list. The server encodes "no variables" as
      the one-element list `[null]`, so list entries are nullable. */
  datatype VarsField = Absent | Text(json: string) | List(items: seq<Option<Var>>)

  /** One calculator. `parent` is `parent_calculator_id`; `children` are the
      ids of the nested calculators, in order. */
  datatype Node = Node(
    id: int,
    name: string,
    parent: Option<int>,
    children: seq<int>,
    variables: VarsField,
    expression: Option<string>,
    result: JsNumber)

  /** A project's hierarchy: the root id and the arena of nodes. */
  datatype Tree = Tree(root: int, nodes: map<int, Node>)

  /** `JSON.parse` of a variables list; `None` when it throws. */
  type Decoder = string -> Option<seq<Option<Var>>>

  /** mathjs `evaluate(expression, scope)`; `None` when it throws. */
  type Evaluator = (string, map<string, real>) -> Option<real>

  /** A sequence without repeated elements. */
  predicate NoDup<T(==)>(s: seq<T>) {
    forall i, j :: 0 <= i < j < |s| ==> s[i] != s[j]
  }

  /** The children of `k`, or none when `k` is not a node. */
  function Kids(nodes: map<int, Node>, k: int): seq<int> {
    if k in nodes then nodes[k].children else []
  }

  /** Where the ancestor walk moves from `k`:
      `current.parent_calculator_id ? nodeMap.get(id) ?? null : null`. */
  function Up(nodes: map<int, Node>, k: int): Option<int>
    requires k in nodes
  {
    var p := nodes[k].parent;
    if TruthyId(p) && p.value in nodes then p else None
  }

  /** `rank` strictly increases from parent to child along the walk. */
  ghost predicate ParentRanked(nodes: map<int, Node>, rank: map<int, nat>) {
    && (forall k | k in nodes :: k in rank)
    && (forall k {:trigger Up(nodes, k)} | k in nodes && Up(nodes, k).Some? :: rank[Up(nodes, k).value] < rank[k])
  }

  lemma UpRank(nodes: map<int, Node>, rank: map<int, nat>, x: int)
    requires ParentRanked(nodes, rank) && x in nodes && Up(nodes, x).Some?
    ensures Up(nodes, x).value in rank && x in rank && rank[Up(nodes, x).value] < rank[x]
  {
  }

  /** Everything the server's nested tree guarantees, stated on the arena:
      each node is stored under its own id; the root has no parent and every
      other node has a parent that lists it among its children; every child
      exists and names its parent; children lists have no repeats; and the
      rank is each node's depth: 0 at the root, one more than the parent's
      rank elsewhere, and below the node count. Since a parent is found
      through `Up`, every non-root node's parent id is truthy, that is,
      nonzero; database ids are autoincremented from 1, so no real tree is
      excluded. */
  ghost predicate WellFormed(t: Tree, rank: map<int, nat>) {
    && t.root in t.nodes
    && ParentRanked(t.nodes, rank)
    && t.nodes[t.root].parent.None?
    && (forall k | k in t.nodes :: t.nodes[k].id == k && rank[k] < |t.nodes| && NoDup(t.nodes[k].children))
    && rank[t.root] == 0
    && (forall k {:trigger Up(t.nodes, k)} | k in t.nodes && k != t.root ::
          Up(t.nodes, k).Some? && k in Kids(t.nodes, Up(t.nodes, k).value)
          && rank[k] == rank[Up(t.nodes, k).value] + 1)
    && (forall k, i | k in t.nodes && 0 <= i < |t.nodes[k].children| ::
          t.nodes[k].children[i] in t.nodes && t.nodes[t.nodes[k].children[i]].parent == Some(k))
  }

  /** The nodes the ancestor walk visits from `k`: `k` itself, then its
      parent, grandparent and so on, ending at a node whose parent is null,
      falsy or unknown. */
  function Chain(nodes: map<int, Node>, rank: map<int, nat>, k: int): (c: seq<int>)
    requires ParentRanked(nodes, rank)
    ensures k !in nodes ==> c == []
    ensures k in nodes ==> |c| >= 1 && c[0] == k
    ensures forall i :: 0 <= i < |c| ==> c[i] in nodes && c[i] in rank
    ensures forall i, j {:trigger c[i], c[j]} :: 0 <= i && j == i + 1 && j < |c| ==> Up(nodes, c[i]) == Some(c[j])
    ensures |c| > 0 ==> Up(nodes, c[|c| - 1]).None?
    ensures forall i :: 0 <= i < |c| ==> rank[c[i]] + i <= rank[k]
    decreases if k in rank then rank[k] else 0
  {
    if k !in nodes then []
    else
      match Up(nodes, k)
      case None => [k]
      case Some(p) => [k] + Chain(nodes, rank, p)
  }

  /** The walk never revisits a node, and it is no longer than the depth of
      its start plus one. */
  lemma ChainBounds(nodes: map<int, Node>, rank: map<int, nat>, k: int)
    requires ParentRanked(nodes, rank) && k in nodes
    ensures NoDup(Chain(nodes, rank, k))
    ensures |Chain(nodes, rank, k)| <= rank[k] + 1
  {
    var c := Chain(nodes, rank, k);
    assert rank[c[|c| - 1]] + (|c| - 1) <= rank[k];
    forall i, j | 0 <= i < j < |c| ensures c[i] != c[j] {
      ChainRankDecreases(nodes, rank, k, i, j);
    }
  }

  lemma {:induction false} ChainRankDecreases(nodes: map<int, Node>, rank: map<int, nat>, k: int, i: int, j: int)
    requires ParentRanked(nodes, rank)
    requires 0 <= i < j < |Chain(nodes, rank, k)|
    ensures rank[Chain(nodes, rank, k)[j]] < rank[Chain(nodes, rank, k)[i]]
    decreases j - i
  {
    var c := Chain(nodes, rank, k);
    assert Up(nodes, c[i]) == Some(c[i + 1]);
    UpRank(nodes, rank, c[i]);
    if i + 1 < j {
      ChainRankDecreases(nodes, rank, k, i + 1, j);
    }
  }

  /** Two arenas with the same ids and the same parent links have the same walks. */
  lemma {:induction false} ChainSameParents(a: map<int, Node>, b: map<int, Node>, rank: map<int, nat>, k: int)
    requires ParentRanked(a, rank) && ParentRanked(b, rank)
    requires a.Keys == b.Keys
    requires forall x | x in a :: a[x].parent == b[x].parent
    ensures Chain(a, rank, k) == Chain(b, rank, k)
    decreases if k in rank then rank[k] else 0
  {
    if k in a {
      assert Up(a, k) == Up(b, k);
      if Up(a, k).Some? {
        ChainSameParents(a, b, rank, Up(a, k).value);
      }
    }
  }

  /** In a well-formed tree every node's walk ends at the root, after as
      many moves as the node's depth. */
  lemma {:induction false} ChainIsDepth(t: Tree, rank: map<int, nat>, k: int)
    requires WellFormed(t, rank) && k in t.nodes
    ensures |Chain(t.nodes, rank, k)| == rank[k] + 1
    ensures Chain(t.nodes, rank, k)[rank[k]] == t.root
    decreases rank[k]
  {
    if k != t.root {
      var p := Up(t.nodes, k).value;
      ChainIsDepth(t, rank, p);
    }
  }

  /** Every node's walk passes through the root. */
  lemma ChainReachesRoot(t: Tree, rank: map<int, nat>, k: int)
    requires WellFormed(t, rank) && k in t.nodes
    ensures t.root in Chain(t.nodes, rank, k)
  {
    ChainIsDepth(t, rank, k);
  }

  /** The walk from a node on the walk is the rest of the walk. */
  lemma {:induction false} ChainSuffix(nodes: map<int, Node>, rank: map<int, nat>, k: int, j: int)
    requires ParentRanked(nodes, rank) && 0 <= j < |Chain(nodes, rank, k)|
    ensures Chain(nodes, rank, k)[j..] == Chain(nodes, rank, Chain(nodes, rank, k)[j])
    decreases j
  {
    if j > 0 {
      var c := Chain(nodes, rank, k);
      var p := Up(nodes, k).value;
      assert c == [k] + Chain(nodes, rank, p);
      ChainSuffix(nodes, rank, p, j - 1);
      assert c[j..] == Chain(nodes, rank, p)[j - 1..];
    }
  }

  /** If `q` is a strict ancestor of `x`, one of `q`'s children is an
      ancestor-or-self of `x`. */
  lemma {:induction false} ChainThroughChild(t: Tree, rank: map<int, nat>, x: int, j: int)
    requires WellFormed(t, rank)
    requires 0 < j < |Chain(t.nodes, rank, x)|
    ensures var c := Chain(t.nodes, rank, x);
      c[j - 1] in Kids(t.nodes, c[j]) && c[j - 1] in c
  {
    var c := Chain(t.nodes, rank, x);
    assert Up(t.nodes, c[j - 1]) == Some(c[j]);
  }

  // ---------------------------------------------------------------------
  // Variables

  /** The variables as a list, the way the recompute engine reads them:
      `typeof v === "string" ? JSON.parse(v) : v`, followed by a `.map`,
      which throws (`None`) on a missing field. */
  function ListOrThrow(f: VarsField, decode: Decoder): Option<seq<Option<Var>>> {
    match f
    case Absent => None
    case Text(s) => decode(s)
    case List(items) => Some(items)
  }

  /** `variables.map(v => v.variable_id === variableId ? {...v, variable_value: value} : v)`.
      Reading `variable_id` of a null entry throws (`None`). */
  function SetValue(items: seq<Option<Var>>, variableId: int, value: real): (r: Option<seq<Option<Var>>>)
    ensures r.Some? <==> (forall i :: 0 <= i < |items| ==> items[i].Some?)
    ensures r.Some? ==> |r.value| == |items|
    ensures r.Some? ==> forall i :: 0 <= i < |items| ==>
      r.value[i].Some? && r.value[i].value.id == items[i].value.id
      && r.value[i].value.name == items[i].value.name
      && r.value[i].value.display == items[i].value.display
      && r.value[i].value.value == (if items[i].value.id == variableId then value else items[i].value.value)
  {
    if items == [] then Some([])
    else
      match items[0]
      case None => None
      case Some(v) =>
        match SetValue(items[1..], variableId, value)
        case None => None
        case Some(rest) =>
          Some([Some(if v.id == variableId then v.(value := value) else v)] + rest)
  }

  // ---------------------------------------------------------------------
  // Structure-preserving updates

  /** `b` has the same ids, names, parents, children and expressions as
      `a`; the variables and results may differ. */
  ghost predicate SameStructure(a: map<int, Node>, b: map<int, Node>) {
    && a.Keys == b.Keys
    && forall k | k in a ::
         a[k].id == b[k].id && a[k].name == b[k].name && a[k].parent == b[k].parent
         && a[k].children == b[k].children && a[k].expression == b[k].expression
  }

  /** Changing only variables and results keeps a tree well formed. */
  lemma WellFormedSameStructure(t: Tree, rank: map<int, nat>, nodes: map<int, Node>)
    requires WellFormed(t, rank) && SameStructure(t.nodes, nodes)
    ensures WellFormed(Tree(t.root, nodes), rank)
  {
    var u := Tree(t.root, nodes);
    forall k | k in nodes ensures Up(nodes, k) == Up(t.nodes, k) {
    }
    assert ParentRanked(nodes, rank);
    forall k, i | k in nodes && 0 <= i < |nodes[k].children|
      ensures nodes[k].children[i] in nodes && nodes[nodes[k].children[i]].parent == Some(k)
    {
      assert nodes[k].children[i] == t.nodes[k].children[i];
    }
  }
}
