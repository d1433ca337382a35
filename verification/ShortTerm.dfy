// cluster/replication.go, UpdatePlacementShortTerm: swapping a persistently
// degraded primary with one of its replicas, over the reals.
module ShortTerm {
  import opened NodeOrder
  import opened Scores
  import opened Ring

  const STREAK_LIMIT: nat := 6

  // ---------- Degradation ----------

  // Round trips that were measured, and their average.
  function MeasuredRTT(ms: seq<NodeMetrics>): (r: (real, nat))
    ensures r.0 >= 0.0
  {
    if ms == [] then (0.0, 0) else
      var (total, count) := MeasuredRTT(ms[..|ms| - 1]);
      var rtt := ms[|ms| - 1].avgRTT;
      if rtt > 0.0 then (total + rtt, count + 1) else (total, count)
  }

  function AverageRTT(ms: seq<NodeMetrics>): real {
    var (total, count) := MeasuredRTT(ms);
    if count == 0 then 0.0 else total / count as real
  }

  predicate IsSeverelyDegraded(m: NodeMetrics, clusterAvgRTT: real) {
    var threshold := if clusterAvgRTT > 0.0 && 2.0 * clusterAvgRTT > 120.0 then 2.0 * clusterAvgRTT else 120.0;
    m.cpuUsage >= 0.90 || m.diskUsage >= 0.90 || (m.avgRTT > 0.0 && m.avgRTT >= threshold)
  }

  // When a node counts as degraded, in numbers: a slow round trip is twice the
  // cluster's average, and 120 at least.
  lemma {:induction false} DegradedExactly(m: NodeMetrics, avg: real)
    ensures m.cpuUsage >= 0.9 || m.diskUsage >= 0.9 ==> IsSeverelyDegraded(m, avg)
    ensures m.cpuUsage < 0.9 && m.diskUsage < 0.9 ==>
              (IsSeverelyDegraded(m, avg) <==> m.avgRTT >= 120.0 && (avg > 0.0 ==> m.avgRTT >= 2.0 * avg))
  {}

  // The positive round trips, in order, and their sum.
  ghost function Measured(ms: seq<NodeMetrics>): seq<real> {
    if ms == [] then [] else (if ms[0].avgRTT > 0.0 then [ms[0].avgRTT] else []) + Measured(ms[1..])
  }

  ghost function Plus(xs: seq<real>): real {
    if xs == [] then 0.0 else xs[0] + Plus(xs[1..])
  }

  // The average is the mean of the positive round trips, or zero without any.
  lemma {:induction false} AverageIsMean(ms: seq<NodeMetrics>)
    ensures if Measured(ms) == [] then AverageRTT(ms) == 0.0
            else AverageRTT(ms) == Plus(Measured(ms)) / |Measured(ms)| as real
  {
    MeasuredIs(ms);
  }

  lemma {:induction false} MeasuredIs(ms: seq<NodeMetrics>)
    ensures MeasuredRTT(ms) == (Plus(Measured(ms)), |Measured(ms)|)
  {
    if ms != [] {
      var n := |ms| - 1;
      MeasuredIs(ms[..n]);
      MeasuredSnoc(ms[..n], ms[n]);
      assert ms == ms[..n] + [ms[n]];
      PlusSnoc(Measured(ms[..n]), ms[n].avgRTT);
      assert Measured(ms[..n]) + [] == Measured(ms[..n]);
    }
  }

  lemma {:induction false} MeasuredSnoc(ms: seq<NodeMetrics>, m: NodeMetrics)
    ensures Measured(ms + [m]) == Measured(ms) + if m.avgRTT > 0.0 then [m.avgRTT] else []
  {
    if ms == [] {
      assert ms + [m] == [m] && [m][1..] == [];
      assert Measured([]) == [];
    } else {
      MeasuredSnoc(ms[1..], m);
      assert (ms + [m])[1..] == ms[1..] + [m];
    }
  }

  lemma {:induction false} PlusSnoc(xs: seq<real>, x: real)
    ensures Plus(xs + [x]) == Plus(xs) + x
  {
    if xs == [] {
      assert xs + [x] == [x] && Plus([x][1..]) == 0.0;
    } else {
      PlusSnoc(xs[1..], x);
      assert (xs + [x])[1..] == xs[1..] + [x];
    }
  }

  method ComputeAverageRTT(ms: seq<NodeMetrics>) returns (avg: real)
    ensures avg == AverageRTT(ms)
  {
    var total, count := 0.0, 0;
    for i := 0 to |ms|
      invariant (total, count) == MeasuredRTT(ms[..i])
    {
      if ms[i].avgRTT > 0.0 {
        total, count := total + ms[i].avgRTT, count + 1;
      }
      assert ms[..i + 1][..i] == ms[..i];
    }
    assert ms[..|ms|] == ms;
    avg := if count == 0 then 0.0 else total / count as real;
  }

  // ---------- Streaks ----------

  // Past verdicts on each node, oldest first (history only).
  type History = map<NodeId, seq<bool>>

  function VerdictsOf(h: History, n: NodeId): seq<bool> {
    if n in h then h[n] else []
  }

  // Length of the run of degraded verdicts at the end.
  function Trailing(vs: seq<bool>): nat {
    if vs == [] || !vs[|vs| - 1] then 0 else 1 + Trailing(vs[..|vs| - 1])
  }

  lemma {:induction false} TrailingMeans(vs: seq<bool>, k: nat)
    ensures Trailing(vs) >= k <==> |vs| >= k && forall i :: |vs| - k <= i < |vs| ==> vs[i]
  {
    if k > 0 && vs != [] {
      var n := |vs| - 1;
      TrailingMeans(vs[..n], k - 1);
      assert forall i :: 0 <= i < n ==> vs[..n][i] == vs[i];
      if vs[n] {
        assert (forall i :: |vs| - k <= i < |vs| && 0 <= i ==> vs[i]) <==> (forall i :: n - (k - 1) <= i < n && 0 <= i ==> vs[..n][i]) by {
          assert forall i :: n - (k - 1) <= i < n && 0 <= i ==> vs[..n][i] == vs[i];
        }
      }
    }
  }

  ghost predicate StreaksMatch(streaks: map<NodeId, int>, h: History) {
    forall n :: (if n in streaks then streaks[n] else 0) == Trailing(VerdictsOf(h, n))
  }

  ghost predicate DistinctReports(ms: seq<NodeMetrics>) {
    forall i, j :: 0 <= i < j < |ms| ==> ms[i].nodeID != ms[j].nodeID
  }

  // The history after one evaluation of the active nodes.
  function Extended(h: History, ms: seq<NodeMetrics>, avg: real): History {
    if ms == [] then h else
      var last := ms[|ms| - 1];
      var before := Extended(h, ms[..|ms| - 1], avg);
      before[last.nodeID := VerdictsOf(before, last.nodeID) + [IsSeverelyDegraded(last, avg)]]
  }

  // One evaluation adds one verdict for each active node and none for others.
  lemma {:induction false} ExtendedAt(h: History, ms: seq<NodeMetrics>, avg: real, n: NodeId)
    requires DistinctReports(ms)
    ensures (forall i :: 0 <= i < |ms| ==> ms[i].nodeID != n) ==>
              VerdictsOf(Extended(h, ms, avg), n) == VerdictsOf(h, n)
    ensures forall i :: 0 <= i < |ms| && ms[i].nodeID == n ==>
              VerdictsOf(Extended(h, ms, avg), n) == VerdictsOf(h, n) + [IsSeverelyDegraded(ms[i], avg)]
  {
    if ms != [] {
      ExtendedAt(h, ms[..|ms| - 1], avg, n);
    }
  }

  // The last six verdicts on the node were all bad.
  ghost predicate Sustained(h: History, n: NodeId) {
    var vs := VerdictsOf(h, n);
    |vs| >= STREAK_LIMIT && forall i :: |vs| - STREAK_LIMIT <= i < |vs| ==> vs[i]
  }

  // Six bad verdicts in a row are needed, and the last six are enough.
  lemma {:induction false} SixInARow(h: History, n: NodeId)
    ensures var vs := VerdictsOf(h, n); var k := |vs|;
            Sustained(h, n) <==> k >= 6 && vs[k - 1] && vs[k - 2] && vs[k - 3] && vs[k - 4] && vs[k - 5] && vs[k - 6]
  {}

  ghost predicate DegradedNow(ms: seq<NodeMetrics>, avg: real, n: NodeId) {
    exists i :: 0 <= i < |ms| && ms[i].nodeID == n && IsSeverelyDegraded(ms[i], avg)
  }

  ghost predicate SustainedNow(ms: seq<NodeMetrics>, h: History, n: NodeId) {
    (exists i :: 0 <= i < |ms| && ms[i].nodeID == n) && Sustained(h, n)
  }

  // One turn of the streak loop.
  lemma {:induction false} StreakStep(streaks: map<NodeId, int>, h: History, m: NodeMetrics, avg: real, next: map<NodeId, int>, nh: History)
    requires StreaksMatch(streaks, h)
    requires nh == h[m.nodeID := VerdictsOf(h, m.nodeID) + [IsSeverelyDegraded(m, avg)]]
    requires next == streaks[m.nodeID := if IsSeverelyDegraded(m, avg) then (if m.nodeID in streaks then streaks[m.nodeID] else 0) + 1 else 0]
    ensures StreaksMatch(next, nh) && (next[m.nodeID] >= STREAK_LIMIT <==> Sustained(nh, m.nodeID))
    ensures forall n :: n != m.nodeID ==> Sustained(nh, n) == Sustained(h, n)
  {
    var vs := VerdictsOf(nh, m.nodeID);
    assert next[m.nodeID] == Trailing(vs) by {
      assert vs[..|vs| - 1] == VerdictsOf(h, m.nodeID);
    }
    TrailingMeans(vs, STREAK_LIMIT);
    assert forall n :: n != m.nodeID ==> VerdictsOf(nh, n) == VerdictsOf(h, n);
    assert forall n :: n != m.nodeID ==> (n in next <==> n in streaks) && (n in next ==> next[n] == streaks[n]);
  }

  // Judges the active nodes and updates their streaks. A node is found
  // persistently degraded exactly when its last six evaluations were all bad.
  method EvaluateStreaks(ms: seq<NodeMetrics>, avg: real, streaks: map<NodeId, int>, ghost h: History)
    returns (next: map<NodeId, int>, ghost nh: History, degraded: set<NodeId>, sustained: set<NodeId>)
    requires StreaksMatch(streaks, h) && DistinctReports(ms)
    ensures StreaksMatch(next, nh) && nh == Extended(h, ms, avg)
    ensures forall n :: n in degraded <==> DegradedNow(ms, avg, n)
    ensures forall n :: n in sustained <==> SustainedNow(ms, nh, n)
  {
    next, nh, degraded, sustained := streaks, h, {}, {};
    for i := 0 to |ms|
      invariant StreaksMatch(next, nh) && nh == Extended(h, ms[..i], avg)
      invariant forall n :: n in degraded <==> DegradedNow(ms[..i], avg, n)
      invariant forall n :: n in sustained <==> SustainedNow(ms[..i], nh, n)
    {
      var m := ms[i];
      ghost var was, wh, before, kept := next, nh, degraded, sustained;
      if IsSeverelyDegraded(m, avg) {
        degraded := degraded + {m.nodeID};
        next := next[m.nodeID := (if m.nodeID in next then next[m.nodeID] else 0) + 1];
      } else {
        next := next[m.nodeID := 0];
      }
      if next[m.nodeID] >= STREAK_LIMIT {
        sustained := sustained + {m.nodeID};
      }
      nh := nh[m.nodeID := VerdictsOf(nh, m.nodeID) + [IsSeverelyDegraded(m, avg)]];
      StreakStep(was, wh, m, avg, next, nh);
      assert ms[..i + 1][..i] == ms[..i];
      JudgedStep(ms, avg, i, wh, nh);
    }
    assert ms[..|ms|] == ms;
  }

  lemma {:induction false} JudgedStep(ms: seq<NodeMetrics>, avg: real, i: nat, h: History, nh: History)
    requires i < |ms| && DistinctReports(ms)
    requires forall n :: n != ms[i].nodeID ==> Sustained(nh, n) == Sustained(h, n)
    ensures forall n :: DegradedNow(ms[..i + 1], avg, n) <==>
              DegradedNow(ms[..i], avg, n) || (n == ms[i].nodeID && IsSeverelyDegraded(ms[i], avg))
    ensures forall n :: SustainedNow(ms[..i + 1], nh, n) <==>
              SustainedNow(ms[..i], h, n) || (n == ms[i].nodeID && Sustained(nh, n))
  {
    var a, b := ms[..i], ms[..i + 1];
    assert b == a + [ms[i]];
    forall n ensures DegradedNow(b, avg, n) <==> DegradedNow(a, avg, n) || (n == ms[i].nodeID && IsSeverelyDegraded(ms[i], avg)) {
      if DegradedNow(a, avg, n) {
        var k :| 0 <= k < |a| && a[k].nodeID == n && IsSeverelyDegraded(a[k], avg);
        assert b[k] == a[k];
      }
      assert b[i] == ms[i];
    }
    forall n ensures SustainedNow(b, nh, n) <==> SustainedNow(a, h, n) || (n == ms[i].nodeID && Sustained(nh, n)) {
      if SustainedNow(a, h, n) {
        var k :| 0 <= k < |a| && a[k].nodeID == n;
        assert b[k] == a[k];
      }
      assert b[i] == ms[i];
    }
  }

  // ---------- Choosing a replica to promote ----------

  // A replica that may be promoted: scored and not degraded now.
  predicate Promotable(scores: map<NodeId, real>, degraded: set<NodeId>, r: NodeId) {
    r !in degraded && r in scores
  }

  // Replica idx is clearly cheaper than the primary and no promotable replica is
  // clearly cheaper than it.
  ghost predicate GoodPick(v: VNode, scores: map<NodeId, real>, degraded: set<NodeId>, idx: int) {
    && v.primary in scores
    && 0 <= idx < |v.replicas| && Promotable(scores, degraded, v.replicas[idx])
    && scores[v.replicas[idx]] < scores[v.primary] * 0.90
    && forall k :: 0 <= k < |v.replicas| && Promotable(scores, degraded, v.replicas[k]) ==>
         scores[v.replicas[k]] >= scores[v.replicas[idx]] * 0.90
  }

  ghost predicate NothingBetter(v: VNode, scores: map<NodeId, real>, degraded: set<NodeId>) {
    forall k :: 0 <= k < |v.replicas| && Promotable(scores, degraded, v.replicas[k]) ==>
      v.primary in scores && scores[v.replicas[k]] >= scores[v.primary] * 0.90
  }

  method PickReplica(v: VNode, scores: map<NodeId, real>, degraded: set<NodeId>) returns (idx: int)
    requires v.primary in scores && forall n :: n in scores ==> scores[n] > 0.0
    ensures idx == -1 || 0 <= idx < |v.replicas|
    ensures if idx >= 0 then GoodPick(v, scores, degraded, idx) else NothingBetter(v, scores, degraded)
  {
    idx := -1;
    var bestScore := scores[v.primary];
    for i := 0 to |v.replicas|
      invariant -1 <= idx < i
      invariant bestScore > 0.0 && bestScore <= scores[v.primary]
      invariant idx == -1 ==> bestScore == scores[v.primary]
      invariant idx >= 0 ==> Promotable(scores, degraded, v.replicas[idx]) && bestScore == scores[v.replicas[idx]]
                             && bestScore < scores[v.primary] * 0.90
      invariant forall k :: 0 <= k < i && Promotable(scores, degraded, v.replicas[k]) ==>
                  scores[v.replicas[k]] >= bestScore * 0.90
    {
      var r := v.replicas[i];
      if r !in degraded && r in scores {
        if scores[r] < bestScore * 0.90 {
          idx, bestScore := i, scores[r];
        }
      }
    }
  }

  // ---------- Swapping ----------

  function SwapAt(v: VNode, idx: nat): VNode
    requires idx < |v.replicas|
  {
    v.(primary := v.replicas[idx], replicas := v.replicas[idx := v.primary])
  }

  function Holders(v: VNode): multiset<NodeId> {
    multiset{v.primary} + multiset(v.replicas)
  }

  // A vnode with a primary and distinct replicas elsewhere.
  ghost predicate GoodVNode(v: VNode) {
    && v.primary != "" && v.primary !in v.replicas && "" !in v.replicas
    && forall i, j :: 0 <= i < j < |v.replicas| ==> v.replicas[i] != v.replicas[j]
  }

  // A swap exchanges the primary and that replica, and keeps the holders and the
  // shape of the vnode.
  lemma {:induction false} SwapKeepsHolders(v: VNode, idx: nat)
    requires GoodVNode(v) && idx < |v.replicas|
    ensures Holders(SwapAt(v, idx)) == Holders(v)
    ensures GoodVNode(SwapAt(v, idx)) && |SwapAt(v, idx).replicas| == |v.replicas|
    ensures SwapAt(v, idx).primary == v.replicas[idx] && SwapAt(v, idx).replicas[idx] == v.primary
    ensures forall k :: 0 <= k < |v.replicas| && k != idx ==> SwapAt(v, idx).replicas[k] == v.replicas[k]
    ensures SwapAt(v, idx).id == v.id && SwapAt(v, idx).token == v.token
  {
    var w := SwapAt(v, idx);
    assert v.replicas == v.replicas[..idx] + [v.replicas[idx]] + v.replicas[idx + 1..];
    assert w.replicas == v.replicas[..idx] + [v.primary] + v.replicas[idx + 1..];
  }

  // What one evaluation does to a vnode: nothing, unless its primary is
  // persistently degraded and some replica is clearly cheaper.
  ghost predicate Evaluated(v: VNode, scores: map<NodeId, real>, degraded: set<NodeId>, sustained: set<NodeId>, w: VNode) {
    if v.primary in sustained && v.primary in scores && !NothingBetter(v, scores, degraded) then
      exists idx :: GoodPick(v, scores, degraded, idx) && w == SwapAt(v, idx)
    else w == v
  }

  // Replica k is not degraded now, scored, and clearly cheaper than s.
  ghost predicate Better(v: VNode, scores: map<NodeId, real>, degraded: set<NodeId>, k: int, s: real) {
    && 0 <= k < |v.replicas| && v.replicas[k] !in degraded && v.replicas[k] in scores
    && scores[v.replicas[k]] < s * 0.9
  }

  // When a vnode is swapped and with whom: if and only if its primary was bad six
  // times in a row and some healthy replica costs less than nine tenths of it, and
  // then with a healthy one to which no other is cheaper in that way.
  lemma {:induction false} SwapExactly(v: VNode, scores: map<NodeId, real>, degraded: set<NodeId>, sustained: set<NodeId>, w: VNode)
    requires GoodVNode(v) && Evaluated(v, scores, degraded, sustained, w)
    ensures w != v <==>
              v.primary in sustained && v.primary in scores && exists k :: Better(v, scores, degraded, k, scores[v.primary])
    ensures w != v ==>
              exists idx :: Better(v, scores, degraded, idx, scores[v.primary]) && w.primary == v.replicas[idx]
                            && forall k :: !Better(v, scores, degraded, k, scores[v.replicas[idx]])
  {
    if v.primary in sustained && v.primary in scores {
      if !NothingBetter(v, scores, degraded) {
        var k :| 0 <= k < |v.replicas| && Promotable(scores, degraded, v.replicas[k]) && scores[v.replicas[k]] < scores[v.primary] * 0.90;
        assert Better(v, scores, degraded, k, scores[v.primary]);
        var idx :| GoodPick(v, scores, degraded, idx) && w == SwapAt(v, idx);
        assert Better(v, scores, degraded, idx, scores[v.primary]);
      }
    }
  }

  method EvaluateVNode(v: VNode, scores: map<NodeId, real>, degraded: set<NodeId>, sustained: set<NodeId>)
    returns (w: VNode, swapped: bool)
    requires GoodVNode(v) && forall n :: n in scores ==> scores[n] > 0.0
    ensures Evaluated(v, scores, degraded, sustained, w)
    ensures swapped <==> w != v
  {
    w, swapped := v, false;
    if v.primary == "" || |v.replicas| == 0 || v.primary !in sustained || v.primary !in scores {
      return;
    }
    var idx := PickReplica(v, scores, degraded);
    if idx >= 0 && v.replicas[idx] != v.primary {
      w, swapped := SwapAt(v, idx), true;
      assert GoodPick(v, scores, degraded, idx);
    }
  }
}
