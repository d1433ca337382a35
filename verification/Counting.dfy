// Counting occurrences in a list of owners, distinct lists, and sums over sets of
// nodes.
module Counting {
  import opened NodeOrder

  function Count(ps: seq<NodeId>, n: NodeId): (c: nat)
    ensures c <= |ps|
  {
    if ps == [] then 0 else (if ps[0] == n then 1 else 0) + Count(ps[1..], n)
  }

  // Positions whose owner is in ns.
  function CountIn(ps: seq<NodeId>, ns: set<NodeId>): (c: nat)
    ensures c <= |ps|
  {
    if ps == [] then 0 else (if ps[0] in ns then 1 else 0) + CountIn(ps[1..], ns)
  }

  ghost predicate Distinct<T>(xs: seq<T>) {
    forall i, j :: 0 <= i < j < |xs| ==> xs[i] != xs[j]
  }

  lemma {:induction false} SubsetSize<T>(a: set<T>, b: set<T>)
    requires a <= b
    ensures |a| <= |b|
  {
    assert b == a + (b - a);
  }

  ghost function SumOver(ns: set<NodeId>, f: NodeId -> int): int {
    if ns == {} then 0 else
      var n :| n in ns;
      f(n) + SumOver(ns - {n}, f)
  }

  // ---------- Sums ----------

  lemma {:induction false} SumWithout(ns: set<NodeId>, f: NodeId -> int, n: NodeId)
    requires n in ns
    ensures SumOver(ns, f) == f(n) + SumOver(ns - {n}, f)
    decreases |ns|
  {
    var m :| m in ns && SumOver(ns, f) == f(m) + SumOver(ns - {m}, f);
    if m != n {
      SumWithout(ns - {m}, f, n);
      assert ns - {m} - {n} == ns - {n} - {m};
      SumWithout(ns - {n}, f, m);
    }
  }

  lemma {:induction false} SumAtMost(ns: set<NodeId>, f: NodeId -> int, g: NodeId -> int)
    requires forall n :: n in ns ==> f(n) <= g(n)
    ensures SumOver(ns, f) <= SumOver(ns, g)
    ensures SumOver(ns, f) == SumOver(ns, g) <==> forall n :: n in ns ==> f(n) == g(n)
    decreases |ns|
  {
    if ns != {} {
      var n :| n in ns;
      SumAtMost(ns - {n}, f, g);
      SumWithout(ns, f, n);
      SumWithout(ns, g, n);
    }
  }

  lemma {:induction false} SumEqual(ns: set<NodeId>, f: NodeId -> int, g: NodeId -> int)
    requires forall n :: n in ns ==> f(n) == g(n)
    ensures SumOver(ns, f) == SumOver(ns, g)
  {
    SumAtMost(ns, f, g);
  }

  ghost function Difference(f: NodeId -> int, g: NodeId -> int): NodeId -> int {
    n => f(n) - g(n)
  }

  lemma {:induction false} SumDifference(ns: set<NodeId>, f: NodeId -> int, g: NodeId -> int)
    ensures SumOver(ns, Difference(f, g)) == SumOver(ns, f) - SumOver(ns, g)
    decreases |ns|
  {
    if ns != {} {
      var n :| n in ns;
      SumDifference(ns - {n}, f, g);
      SumWithout(ns, f, n);
      SumWithout(ns, g, n);
      SumWithout(ns, Difference(f, g), n);
    }
  }

  lemma {:induction false} SumOverSubset(ms: set<NodeId>, ns: set<NodeId>, f: NodeId -> int)
    requires ms <= ns && forall n :: n in ns - ms ==> f(n) == 0
    ensures SumOver(ms, f) == SumOver(ns, f)
    decreases |ns|
  {
    if ns - ms == {} {
      assert ms == ns;
    } else {
      var n :| n in ns - ms;
      SumWithout(ns, f, n);
      SumOverSubset(ms, ns - {n}, f);
    }
  }

  // ---------- Counts ----------

  lemma {:induction false} CountConcat(a: seq<NodeId>, b: seq<NodeId>, n: NodeId)
    ensures Count(a + b, n) == Count(a, n) + Count(b, n)
  {
    if a == [] {
      assert a + b == b;
    } else {
      CountConcat(a[1..], b, n);
      assert (a + b)[1..] == a[1..] + b;
    }
  }

  lemma {:induction false} CountUpdate(ps: seq<NodeId>, i: nat, m: NodeId, n: NodeId)
    requires i < |ps|
    ensures Count(ps[i := m], n) == Count(ps, n) + (if m == n then 1 else 0) - (if ps[i] == n then 1 else 0)
  {
    assert ps == ps[..i] + ([ps[i]] + ps[i + 1..]);
    assert ps[i := m] == ps[..i] + ([m] + ps[i + 1..]);
    CountConcat(ps[..i], [ps[i]] + ps[i + 1..], n);
    CountConcat(ps[..i], [m] + ps[i + 1..], n);
  }

  lemma {:induction false} CountZero(ps: seq<NodeId>, n: NodeId)
    ensures Count(ps, n) == 0 <==> n !in ps
  {
    if ps != [] { CountZero(ps[1..], n); }
  }

  ghost function Counts(ps: seq<NodeId>): NodeId -> int {
    n => Count(ps, n)
  }

  // Counting the positions of a set is summing the counts of its members.
  lemma {:induction false} CountInIsSum(ps: seq<NodeId>, ns: set<NodeId>)
    ensures SumOver(ns, Counts(ps)) == CountIn(ps, ns)
    decreases |ns|
  {
    if ns == {} {
      CountInEmpty(ps);
    } else {
      var n :| n in ns;
      CountInIsSum(ps, ns - {n});
      SumWithout(ns, Counts(ps), n);
      CountInSplit(ps, ns, n);
    }
  }

  lemma {:induction false} CountInEmpty(ps: seq<NodeId>)
    ensures CountIn(ps, {}) == 0
  {
    if ps != [] { CountInEmpty(ps[1..]); }
  }

  lemma {:induction false} CountInSplit(ps: seq<NodeId>, ns: set<NodeId>, n: NodeId)
    requires n in ns
    ensures CountIn(ps, ns) == Count(ps, n) + CountIn(ps, ns - {n})
  {
    if ps != [] { CountInSplit(ps[1..], ns, n); }
  }

  lemma {:induction false} CountInAll(ps: seq<NodeId>, ns: set<NodeId>)
    requires forall i :: 0 <= i < |ps| ==> ps[i] in ns || ps[i] == ""
    requires "" !in ns
    ensures CountIn(ps, ns) + Count(ps, "") == |ps|
  {
    if ps != [] { CountInAll(ps[1..], ns); }
  }
}
