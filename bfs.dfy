/** The queue-based breadth-first search over the hierarchy that both the
    calculator picker (src/lib/utils.ts) and the variable editor
    (src/components/view/viewBody.tsx) run: start with the root in the queue,
    repeatedly take the front node and append its children at the back.

    `out` is the sequence of nodes taken so far and `queue` the pending ones.
    The invariant says that `out ++ queue` is the root followed by the
    children of everything taken, in order; that nothing repeats; that every
    node's parent was taken before it; and that every node not yet taken has
    an ancestor-or-self waiting in the queue. */
module Breadth {
  import opened Js
  import opened Hierarchy

  /** The children of each listed node, concatenated in list order. */
  function KidsOf(nodes: map<int, Node>, xs: seq<int>): seq<int>
    decreases |xs|
  {
    if xs == [] then [] else KidsOf(nodes, xs[..|xs| - 1]) + Kids(nodes, xs[|xs| - 1])
  }

  /** Some ancestor-or-self of `x` is waiting in the queue. */
  ghost predicate Covered(nodes: map<int, Node>, rank: map<int, nat>, queue: seq<int>, x: int)
    requires ParentRanked(nodes, rank)
  {
    exists j :: 0 <= j < |Chain(nodes, rank, x)| && Chain(nodes, rank, x)[j] in queue
  }

  /** Every element after the first has its parent among the first `taken`
      elements, at an earlier position. */
  ghost predicate ParentsEarlier(nodes: map<int, Node>, s: seq<int>, taken: int)
  {
    forall i :: 0 < i < |s| ==>
      s[i] in nodes && exists j :: 0 <= j < i && j < taken && Up(nodes, s[i]) == Some(s[j])
  }

  ghost predicate BfsInv(t: Tree, rank: map<int, nat>, out: seq<int>, queue: seq<int>)
  {
    && WellFormed(t, rank)
    && out + queue == [t.root] + KidsOf(t.nodes, out)
    && NoDup(out + queue)
    && (forall i :: 0 <= i < |out + queue| ==> (out + queue)[i] in t.nodes)
    && ParentsEarlier(t.nodes, out + queue, |out|)
    && (forall x | x in t.nodes && x !in out :: Covered(t.nodes, rank, queue, x))
    && Levelled(rank, out + queue, |out|)
  }

  /** Depths never decrease along `s`, and while some element is pending
      (from position `taken` on) nothing is more than one level below it. */
  ghost predicate Levelled(rank: map<int, nat>, s: seq<int>, taken: int)
  {
    && (forall i :: 0 <= i < |s| ==> s[i] in rank)
    && (forall i, j :: 0 <= i < j < |s| ==> rank[s[i]] <= rank[s[j]])
    && (0 <= taken < |s| ==> forall i :: 0 <= i < |s| ==> rank[s[i]] <= rank[s[taken]] + 1)
  }

  lemma BfsInit(t: Tree, rank: map<int, nat>)
    requires WellFormed(t, rank)
    ensures BfsInv(t, rank, [], [t.root])
  {
    var s: seq<int> := [] + [t.root];
    assert s == [t.root] + KidsOf(t.nodes, []);
    assert |s| == 1 && s[0] == t.root;
    assert NoDup(s);
    assert ParentsEarlier(t.nodes, s, 0);
    assert Levelled(rank, s, 0);
    forall x | x in t.nodes ensures Covered(t.nodes, rank, [t.root], x) {
      ChainIsDepth(t, rank, x);
      assert Chain(t.nodes, rank, x)[rank[x]] in [t.root];
    }
  }

  /** The children of the front node are new to the search. */
  lemma KidsAreNew(t: Tree, rank: map<int, nat>, out: seq<int>, queue: seq<int>, c: int)
    requires BfsInv(t, rank, out, queue) && queue != []
    requires c in Kids(t.nodes, queue[0])
    ensures c !in out + queue
  {
    var s := out + queue;
    var q := queue[0];
    assert s[|out|] == q;
    var ci :| 0 <= ci < |t.nodes[q].children| && t.nodes[q].children[ci] == c;
    assert t.nodes[c].parent == Some(q);
  }

  /** After a step the combined sequence is the old one followed by the
      front node's children. */
  lemma StepShape(t: Tree, out: seq<int>, queue: seq<int>)
    requires out + queue == [t.root] + KidsOf(t.nodes, out) && queue != []
    ensures (out + [queue[0]]) + (queue[1..] + Kids(t.nodes, queue[0])) == (out + queue) + Kids(t.nodes, queue[0])
    ensures (out + [queue[0]]) + (queue[1..] + Kids(t.nodes, queue[0]))
      == [t.root] + KidsOf(t.nodes, out + [queue[0]])
  {
    var q := queue[0];
    var ks := Kids(t.nodes, q);
    var out' := out + [q];
    assert out'[..|out'| - 1] == out;
    assert KidsOf(t.nodes, out') == KidsOf(t.nodes, out) + ks;
    SplitFront(out, queue);
  }

  lemma SplitFront(out: seq<int>, queue: seq<int>)
    requires queue != []
    ensures forall ks: seq<int> :: (out + [queue[0]]) + (queue[1..] + ks) == (out + queue) + ks
  {
    assert queue == [queue[0]] + queue[1..];
  }

  lemma StepNoDup(t: Tree, rank: map<int, nat>, out: seq<int>, queue: seq<int>)
    requires BfsInv(t, rank, out, queue) && queue != []
    ensures NoDup((out + queue) + Kids(t.nodes, queue[0]))
  {
    var q := queue[0];
    var ks := Kids(t.nodes, q);
    var s := out + queue;
    var s' := s + ks;
    forall i, j | 0 <= i < j < |s'| ensures s'[i] != s'[j] {
      if j >= |s| {
        if i >= |s| {
          assert s'[i] == ks[i - |s|] && s'[j] == ks[j - |s|];
        } else {
          assert s'[j] == ks[j - |s|];
          KidsAreNew(t, rank, out, queue, s'[j]);
          assert s'[i] == s[i];
        }
      }
    }
  }

  lemma StepParents(t: Tree, rank: map<int, nat>, out: seq<int>, queue: seq<int>)
    requires BfsInv(t, rank, out, queue) && queue != []
    ensures ParentsEarlier(t.nodes, (out + queue) + Kids(t.nodes, queue[0]), |out| + 1)
  {
    var q := queue[0];
    var ks := Kids(t.nodes, q);
    var s := out + queue;
    var s' := s + ks;
    assert s'[|out|] == q;
    forall i | 0 < i < |s'|
      ensures s'[i] in t.nodes && exists j :: 0 <= j < i && j < |out| + 1 && Up(t.nodes, s'[i]) == Some(s'[j])
    {
      if i >= |s| {
        var c := ks[i - |s|];
        assert s'[i] == c;
        assert c in t.nodes && t.nodes[c].parent == Some(q);
        assert Up(t.nodes, c) == Some(s'[|out|]);
      } else {
        assert s'[i] == s[i];
        var j :| 0 <= j < i && j < |out| && Up(t.nodes, s[i]) == Some(s[j]);
        assert s'[j] == s[j];
      }
    }
  }

  lemma StepCovered(t: Tree, rank: map<int, nat>, out: seq<int>, queue: seq<int>)
    requires BfsInv(t, rank, out, queue) && queue != []
    ensures forall x | x in t.nodes && x !in out + [queue[0]] ::
      Covered(t.nodes, rank, queue[1..] + Kids(t.nodes, queue[0]), x)
  {
    var q := queue[0];
    var queue' := queue[1..] + Kids(t.nodes, q);
    forall x | x in t.nodes && x !in out + [q] ensures Covered(t.nodes, rank, queue', x) {
      var c := Chain(t.nodes, rank, x);
      var j :| 0 <= j < |c| && c[j] in queue;
      if c[j] == q {
        assert j > 0;
        ChainThroughChild(t, rank, x, j);
        assert c[j - 1] in queue';
      } else {
        assert c[j] in queue[1..];
        assert c[j] in queue';
      }
    }
  }

  lemma StepLevels(t: Tree, rank: map<int, nat>, out: seq<int>, queue: seq<int>)
    requires BfsInv(t, rank, out, queue) && queue != []
    ensures Levelled(rank, (out + queue) + Kids(t.nodes, queue[0]), |out| + 1)
  {
    var q := queue[0];
    var ks := Kids(t.nodes, q);
    var s := out + queue;
    var s' := s + ks;
    assert s[|out|] == q;
    forall c | c in ks ensures c in rank && rank[c] == rank[q] + 1 {
      var ci :| 0 <= ci < |t.nodes[q].children| && t.nodes[q].children[ci] == c;
      assert t.nodes[c].parent == Some(q);
      assert c != t.root && Up(t.nodes, c) == Some(q);
    }
    forall i | 0 <= i < |s'| ensures s'[i] in rank && rank[s'[i]] <= rank[q] + 1 {
      if i >= |s| {
        assert s'[i] in ks;
      } else {
        assert s'[i] == s[i];
      }
    }
    forall i, j | 0 <= i < j < |s'| ensures rank[s'[i]] <= rank[s'[j]] {
      if j >= |s| {
        assert s'[j] in ks;
      } else {
        assert s'[i] == s[i] && s'[j] == s[j];
      }
    }
    if |out| + 1 < |s'| {
      forall i | 0 <= i < |s'| ensures rank[s'[i]] <= rank[s'[|out| + 1]] + 1 {
        if |out| + 1 < |s| {
          assert rank[s[|out|]] <= rank[s[|out| + 1]];
        } else {
          assert s'[|out| + 1] in ks;
        }
      }
    }
  }

  /** Taking the front node and queueing its children keeps the invariant. */
  lemma BfsStep(t: Tree, rank: map<int, nat>, out: seq<int>, queue: seq<int>)
    requires BfsInv(t, rank, out, queue) && queue != []
    ensures BfsInv(t, rank, out + [queue[0]], queue[1..] + Kids(t.nodes, queue[0]))
  {
    StepShape(t, out, queue);
    StepNoDup(t, rank, out, queue);
    StepParents(t, rank, out, queue);
    StepCovered(t, rank, out, queue);
    StepLevels(t, rank, out, queue);
  }

  /** A sequence without repeats drawn from a set is no longer than the set. */
  lemma {:induction false} NoDupCard(s: seq<int>, keys: set<int>)
    requires NoDup(s) && forall i :: 0 <= i < |s| ==> s[i] in keys
    ensures |s| <= |keys|
    ensures |s| == |keys| <==> (set i | 0 <= i < |s| :: s[i]) == keys
    decreases |s|
  {
    if s != [] {
      var last := s[|s| - 1];
      var p := s[..|s| - 1];
      assert last !in p;
      NoDupCard(p, keys - {last});
      var ep := set i | 0 <= i < |p| :: p[i];
      var es := set i | 0 <= i < |s| :: s[i];
      assert es == ep + {last};
      assert last !in ep;
      assert |es| == |ep| + 1;
      if |s| == |keys| {
        assert ep == keys - {last};
      }
      if es == keys {
        assert ep == keys - {last};
      }
    }
  }

  /** Everything taken or queued is a node. */
  lemma BfsMembers(t: Tree, rank: map<int, nat>, out: seq<int>, queue: seq<int>)
    requires BfsInv(t, rank, out, queue)
    ensures forall i :: 0 <= i < |out| ==> out[i] in t.nodes
    ensures forall i :: 0 <= i < |queue| ==> queue[i] in t.nodes
  {
    forall i | 0 <= i < |out| ensures out[i] in t.nodes {
      assert out[i] == (out + queue)[i];
    }
    forall i | 0 <= i < |queue| ensures queue[i] in t.nodes {
      assert queue[i] == (out + queue)[|out| + i];
    }
  }

  /** While the queue is non-empty some node is still untaken. */
  lemma BfsRoom(t: Tree, rank: map<int, nat>, out: seq<int>, queue: seq<int>)
    requires BfsInv(t, rank, out, queue) && queue != []
    ensures |out| < |t.nodes|
  {
    NoDupCard(out + queue, t.nodes.Keys);
  }

  lemma NotCoveredByEmpty(nodes: map<int, Node>, rank: map<int, nat>, x: int)
    requires ParentRanked(nodes, rank)
    ensures !Covered(nodes, rank, [], x)
  {
  }

  /** What a completed search produced: every node exactly once, the root
      first and then the children of each listed node in stored order, each
      parent before its children, and depths never decreasing. */
  ghost predicate BfsListing(t: Tree, rank: map<int, nat>, ids: seq<int>)
  {
    && |ids| == |t.nodes|
    && NoDup(ids)
    && (forall x :: x in t.nodes <==> x in ids)
    && |ids| > 0 && ids[0] == t.root
    && ids == [t.root] + KidsOf(t.nodes, ids)
    && ParentsEarlier(t.nodes, ids, |ids|)
    && (forall i :: 0 <= i < |ids| ==> ids[i] in rank)
    && (forall i, j :: 0 <= i < j < |ids| ==> rank[ids[i]] <= rank[ids[j]])
  }

  /** When the queue is empty every node has been taken, once each. */
  lemma BfsDone(t: Tree, rank: map<int, nat>, out: seq<int>)
    requires BfsInv(t, rank, out, [])
    ensures BfsListing(t, rank, out)
  {
    assert out + [] == out;
    assert ParentsEarlier(t.nodes, out, |out|);
    assert Levelled(rank, out, |out|);
    assert out == [t.root] + KidsOf(t.nodes, out);
    BfsDoneAll(t, rank, out);
  }

  /** With an empty queue nothing is left uncovered, so `out` holds every
      node, and having no repeats it has exactly as many entries. */
  lemma BfsDoneAll(t: Tree, rank: map<int, nat>, out: seq<int>)
    requires BfsInv(t, rank, out, [])
    ensures forall x :: x in t.nodes <==> x in out
    ensures |out| == |t.nodes|
  {
    assert out + [] == out;
    forall x | x in t.nodes ensures x in out {
      NotCoveredByEmpty(t.nodes, rank, x);
    }
    NoDupCard(out, t.nodes.Keys);
    assert (set i | 0 <= i < |out| :: out[i]) == t.nodes.Keys;
  }
}
