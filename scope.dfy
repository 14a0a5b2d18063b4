/** The name-to-value scopes handed to the expression evaluator. Both the
    recompute engine and the expression editor build a scope by writing
    `scope[name] = value` for a list of entries in order, so a later entry
    for the same name replaces an earlier one. */
module Scope {

  /** Writes the entries into `m` one after another, first to last. */
  function Assign(m: map<string, real>, es: seq<(string, real)>): map<string, real>
    decreases |es|
  {
    if es == [] then m
    else Assign(m, es[..|es| - 1])[es[|es| - 1].0 := es[|es| - 1].1]
  }

  /** The position of the last entry named `k`, or -1 when there is none. */
  function LastIndex(es: seq<(string, real)>, k: string): (r: int)
    ensures -1 <= r < |es|
    ensures r >= 0 ==> es[r].0 == k
    ensures forall j :: r < j < |es| ==> es[j].0 != k
    decreases |es|
  {
    if es == [] then -1
    else if es[|es| - 1].0 == k then |es| - 1
    else LastIndex(es[..|es| - 1], k)
  }

  /** A name is bound after the writes exactly when it was bound before or
      some entry names it, and then it holds the value of the last such entry. */
  lemma {:induction false} AssignLookup(m: map<string, real>, es: seq<(string, real)>, k: string)
    ensures k in Assign(m, es) <==> k in m || LastIndex(es, k) >= 0
    ensures k in Assign(m, es) ==>
      Assign(m, es)[k] == (if LastIndex(es, k) >= 0 then es[LastIndex(es, k)].1 else m[k])
    decreases |es|
  {
    if es != [] {
      AssignLookup(m, es[..|es| - 1], k);
    }
  }

  /** Writing two lists of entries is writing the first, then the second. */
  lemma {:induction false} AssignAppend(m: map<string, real>, es: seq<(string, real)>, fs: seq<(string, real)>)
    ensures Assign(m, es + fs) == Assign(Assign(m, es), fs)
    decreases |fs|
  {
    if fs == [] {
      assert es + fs == es;
    } else {
      var g := fs[..|fs| - 1];
      assert (es + fs)[..|es + fs| - 1] == es + g;
      AssignAppend(m, es, g);
    }
  }

  /** An entry of the second list takes precedence over every entry of the
      first list with the same name; a name the second list lacks keeps the
      value the first list gave it. */
  lemma LaterListWins(m: map<string, real>, es: seq<(string, real)>, fs: seq<(string, real)>, k: string)
    ensures LastIndex(fs, k) >= 0 ==>
      k in Assign(m, es + fs) && Assign(m, es + fs)[k] == fs[LastIndex(fs, k)].1
    ensures LastIndex(fs, k) < 0 ==>
      (k in Assign(m, es + fs) <==> k in Assign(m, es))
      && (k in Assign(m, es) ==> Assign(m, es + fs)[k] == Assign(m, es)[k])
  {
    AssignAppend(m, es, fs);
    AssignLookup(Assign(m, es), fs, k);
  }
}
