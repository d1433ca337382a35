// cluster/replication.go: the placement controller. It keeps metrics, proposes
// long-term rebalancing and short-term role swaps, and installs placements.
module Control {
  import opened Commands
  import opened NodeOrder
  import opened Counting
  import opened Assignment
  import opened Ring
  import opened Scores
  import opened Metrics
  import opened ShortTerm
  import opened Placements
  import A = Apportion
  import R = Replicas

  // ---------- Well-formed rings ----------

  function MaxReplicas(rf: int): nat {
    if rf <= 1 then 0 else rf - 1
  }

  // 1024 vnodes in order on fixed tokens, each with a primary and distinct
  // replicas elsewhere, at most rf-1 of them.
  ghost predicate WellFormed(vs: seq<VNode>, rf: int) {
    && |vs| == VNODE_COUNT
    && forall i :: 0 <= i < |vs| ==>
         && vs[i].id == i && vs[i].token == i * TOKEN_BUCKET_SIZE
         && GoodVNode(vs[i]) && |vs[i].replicas| <= MaxReplicas(rf)
  }

  ghost predicate GoodNodes(nodes: seq<NodeInfo>) {
    && nodes != [] && DistinctNodes(nodes)
    && forall i :: 0 <= i < |nodes| ==> nodes[i].id != ""
  }

  // Apportioned counts are targets that AssignVNodes accepts.
  lemma {:induction false} CountsAreTargets(nodes: seq<NodeInfo>, counts: Targets)
    requires GoodNodes(nodes) && A.Apportions(nodes, counts)
    ensures TotalWant(counts) == VNODE_COUNT && Want(counts, "") == 0
  {
    assert "" !in counts;
    assert Nodes(counts) == counts.Keys;
    forall n | n in counts.Keys ensures Wants(counts)(n) == Gets(counts)(n) {
      var i :| 0 <= i < |nodes| && nodes[i].id == n;
      assert A.Quota(nodes, nodes[i], counts[n]);
    }
    SumEqual(counts.Keys, Wants(counts), Gets(counts));
  }

  // The same ring positions and tokens.
  ghost predicate OnRing(vs: seq<VNode>) {
    |vs| == VNODE_COUNT && forall i :: 0 <= i < |vs| ==> vs[i].id == i && vs[i].token == i * TOKEN_BUCKET_SIZE
  }

  // Filling in replicas on a ring whose primaries are known nodes completes it.
  lemma {:induction false} ReplicatedIsWellFormed(env: R.Env, nodes: seq<NodeInfo>, rf: int, vs: seq<VNode>, ws: seq<VNode>)
    requires GoodNodes(nodes) && OnRing(vs)
    requires forall i :: 0 <= i < |vs| ==> vs[i].primary != ""
    requires R.Replicated(env, nodes, rf, vs, ws)
    ensures WellFormed(ws, rf) && Primaries(ws) == Primaries(vs)
  {
    forall i | 0 <= i < |ws| ensures GoodVNode(ws[i]) && |ws[i].replicas| <= MaxReplicas(rf) {
      if rf > 1 {
        R.ChosenAreEligible(env, nodes, vs[i], rf);
      }
    }
  }

  // ---------- Drift ----------

  // Vnodes whose replica sets differ; the source compares sorted copies.
  function ReplicaDrift(vs: seq<VNode>, ws: seq<VNode>): nat
    requires |vs| == |ws|
  {
    if vs == [] then 0 else
      var n := |vs| - 1;
      ReplicaDrift(vs[..n], ws[..n]) + if multiset(vs[n].replicas) != multiset(ws[n].replicas) then 1 else 0
  }

  function PrimaryDrift(vs: seq<VNode>, ws: seq<VNode>): nat
    requires |vs| == |ws|
  {
    Moved(Primaries(vs), Primaries(ws))
  }

  lemma {:induction false} DriftSnoc(vs: seq<VNode>, ws: seq<VNode>, v: VNode, w: VNode)
    requires |vs| == |ws|
    ensures PrimaryDrift(vs + [v], ws + [w]) == PrimaryDrift(vs, ws) + if v.primary != w.primary then 1 else 0
  {
    assert Primaries(vs + [v]) == Primaries(vs) + [v.primary] && Primaries(ws + [w]) == Primaries(ws) + [w.primary];
    MovedSnoc(Primaries(vs), Primaries(ws), v.primary, w.primary);
  }

  lemma {:induction false} DriftsAt(vs: seq<VNode>, ws: seq<VNode>, i: nat)
    requires i < |vs| == |ws|
    ensures PrimaryDrift(vs[..i + 1], ws[..i + 1]) == PrimaryDrift(vs[..i], ws[..i]) + if vs[i].primary != ws[i].primary then 1 else 0
    ensures ReplicaDrift(vs[..i + 1], ws[..i + 1])
            == ReplicaDrift(vs[..i], ws[..i]) + if multiset(vs[i].replicas) != multiset(ws[i].replicas) then 1 else 0
  {
    assert vs[..i + 1] == vs[..i] + [vs[i]] && ws[..i + 1] == ws[..i] + [ws[i]];
    DriftSnoc(vs[..i], ws[..i], vs[i], ws[i]);
    assert vs[..i + 1][..i] == vs[..i] && ws[..i + 1][..i] == ws[..i];
  }

  // Go's integer division.
  function TruncDiv(a: int, b: int): int
    requires b > 0
  {
    if a >= 0 then a / b else -((-a) / b)
  }

  // A proposal that moves too little is dropped.
  predicate Negligible(vs: seq<VNode>, ws: seq<VNode>, rf: int)
    requires |vs| == |ws|
  {
    PrimaryDrift(vs, ws) < VNODE_COUNT * 12 / 100 && ReplicaDrift(vs, ws) < TruncDiv(VNODE_COUNT * (rf - 1), 5)
  }

  ghost function Those(f: int -> bool, n: nat): set<int> {
    set i | 0 <= i < n && f(i)
  }

  lemma {:induction false} ThoseSnoc(f: int -> bool, n: nat)
    ensures |Those(f, n + 1)| == |Those(f, n)| + if f(n) then 1 else 0
  {
    assert Those(f, n + 1) == Those(f, n) + if f(n) then {n} else {};
  }

  // Vnode i has another primary, and other replicas in whatever order.
  ghost function NewPrimary(vs: seq<VNode>, ws: seq<VNode>): int -> bool {
    i => 0 <= i < |vs| && i < |ws| && vs[i].primary != ws[i].primary
  }

  ghost function NewReplicas(vs: seq<VNode>, ws: seq<VNode>): int -> bool {
    i => 0 <= i < |vs| && i < |ws| && multiset(vs[i].replicas) != multiset(ws[i].replicas)
  }

  // The drifts count the vnodes of each kind.
  lemma {:induction false} DriftsCount(vs: seq<VNode>, ws: seq<VNode>, n: nat)
    requires n <= |vs| == |ws|
    ensures PrimaryDrift(vs[..n], ws[..n]) == |Those(NewPrimary(vs, ws), n)|
    ensures ReplicaDrift(vs[..n], ws[..n]) == |Those(NewReplicas(vs, ws), n)|
  {
    if n > 0 {
      DriftsCount(vs, ws, n - 1);
      DriftsAt(vs, ws, n - 1);
      ThoseSnoc(NewPrimary(vs, ws), n - 1);
      ThoseSnoc(NewReplicas(vs, ws), n - 1);
    }
  }

  // In numbers: at most 121 moved primaries, and so few moved replica sets that one
  // more would still be within a fifth of 1024 times the other replicas wanted.
  lemma {:induction false} NegligibleExactly(vs: seq<VNode>, ws: seq<VNode>, rf: int)
    requires |vs| == |ws|
    ensures Negligible(vs, ws, rf) <==> PrimaryDrift(vs, ws) <= 121 && 5 * (ReplicaDrift(vs, ws) + 1) <= 1024 * (rf - 1)
    ensures SWAP_THRESHOLD == 10
  {}

  method MeasureDrift(vs: seq<VNode>, ws: seq<VNode>) returns (primaries: nat, replicas: nat)
    requires |vs| == |ws|
    ensures primaries == PrimaryDrift(vs, ws) && replicas == ReplicaDrift(vs, ws)
  {
    primaries, replicas := 0, 0;
    for i := 0 to |vs|
      invariant primaries == PrimaryDrift(vs[..i], ws[..i]) && replicas == ReplicaDrift(vs[..i], ws[..i])
    {
      if vs[i].primary != ws[i].primary {
        primaries := primaries + 1;
      }
      if multiset(vs[i].replicas) != multiset(ws[i].replicas) {
        replicas := replicas + 1;
      }
      DriftsAt(vs, ws, i);
    }
    assert vs[..|vs|] == vs && ws[..|ws|] == ws;
  }

  method TooSmall(vs: seq<VNode>, ws: seq<VNode>, rf: int) returns (drop: bool)
    requires |vs| == |ws|
    ensures drop <==> Negligible(vs, ws, rf)
  {
    var primaries, replicas := MeasureDrift(vs, ws);
    drop := primaries < VNODE_COUNT * 12 / 100 && replicas < TruncDiv(VNODE_COUNT * (rf - 1), 5);
  }

  // Every vnode evaluated for a role swap.
  ghost predicate SwappedRing(vs: seq<VNode>, scores: map<NodeId, real>, degraded: set<NodeId>, sustained: set<NodeId>,
                              ws: seq<VNode>) {
    |ws| == |vs| && forall i :: 0 <= i < |vs| ==> Evaluated(vs[i], scores, degraded, sustained, ws[i])
  }

  // Swaps keep the ring well-formed and leave every vnode with the same holders.
  lemma {:induction false} SwappedKeepsHolders(vs: seq<VNode>, rf: int, scores: map<NodeId, real>, degraded: set<NodeId>,
                                               sustained: set<NodeId>, ws: seq<VNode>)
    requires WellFormed(vs, rf) && SwappedRing(vs, scores, degraded, sustained, ws)
    ensures WellFormed(ws, rf) && forall i :: 0 <= i < |vs| ==> Holders(ws[i]) == Holders(vs[i])
  {
    forall i | 0 <= i < |vs|
      ensures Holders(ws[i]) == Holders(vs[i]) && ws[i].id == i && ws[i].token == i * TOKEN_BUCKET_SIZE
      ensures GoodVNode(ws[i]) && |ws[i].replicas| <= MaxReplicas(rf)
    {
      if ws[i] != vs[i] {
        var idx :| GoodPick(vs[i], scores, degraded, idx) && ws[i] == SwapAt(vs[i], idx);
        SwapKeepsHolders(vs[i], idx);
      }
    }
  }

  // Swaps are counted by the primaries they change.
  method SwapAll(vs: seq<VNode>, scores: map<NodeId, real>, degraded: set<NodeId>, sustained: set<NodeId>)
    returns (ws: seq<VNode>, swaps: nat)
    requires forall i :: 0 <= i < |vs| ==> GoodVNode(vs[i])
    requires forall n :: n in scores ==> scores[n] > 0.0
    ensures SwappedRing(vs, scores, degraded, sustained, ws) && swaps == PrimaryDrift(vs, ws)
  {
    ws, swaps := [], 0;
    for i := 0 to |vs|
      invariant SwappedRing(vs[..i], scores, degraded, sustained, ws) && swaps == PrimaryDrift(vs[..i], ws)
    {
      var w, swapped := EvaluateVNode(vs[i], scores, degraded, sustained);
      assert w != vs[i] ==> w.primary != vs[i].primary;
      if swapped {
        swaps := swaps + 1;
      }
      assert vs[..i + 1] == vs[..i] + [vs[i]];
      DriftSnoc(vs[..i], ws, vs[i], w);
      ws := ws + [w];
    }
    assert vs[..|vs|] == vs;
  }

  // The score of each node that has one.
  ghost predicate ScoreTable(nodes: seq<NodeInfo>, scores: map<NodeId, real>) {
    && (forall i :: 0 <= i < |nodes| ==> nodes[i].id in scores && scores[nodes[i].id] == nodes[i].score)
    && forall n :: n in scores ==> exists i :: 0 <= i < |nodes| && nodes[i].id == n
  }

  method IndexScores(nodes: seq<NodeInfo>) returns (scores: map<NodeId, real>)
    requires DistinctNodes(nodes)
    ensures ScoreTable(nodes, scores)
  {
    scores := map[];
    for i := 0 to |nodes|
      invariant ScoreTable(nodes[..i], scores)
    {
      scores := scores[nodes[i].id := nodes[i].score];
      ghost var before, seen := nodes[..i], nodes[..i + 1];
      assert seen == before + [nodes[i]];
      forall n | n in scores ensures exists k :: 0 <= k < |seen| && seen[k].id == n {
        if n == nodes[i].id {
          assert seen[i].id == n;
        } else {
          var k :| 0 <= k < i && before[k].id == n;
          assert seen[k].id == n;
        }
      }
    }
    assert nodes[..|nodes|] == nodes;
  }

  function ScoresOf(ms: seq<NodeMetrics>): seq<NodeInfo>
    requires ms != []
  {
    seq(|ms|, i requires 0 <= i < |ms| => NodeInfo(ms[i].nodeID, Score(ms, ms[i])))
  }

  lemma {:induction false} ScoresAreNodes(ms: seq<NodeMetrics>, scores: seq<NodeInfo>)
    requires ms != [] && Clean(ms) && |scores| == |ms|
    requires forall i :: 0 <= i < |ms| ==> scores[i].id == ms[i].nodeID && scores[i].score == Score(ms, ms[i])
    ensures scores == ScoresOf(ms) && GoodNodes(scores)
  {}

  // The primaries a rebalancing starts from; a fresh ring has none.
  ghost function StartFrom(prev: seq<VNode>): seq<NodeId> {
    if prev == [] then seq(VNODE_COUNT, _ => "") else Primaries(prev)
  }

  // What a long-term evaluation computes: a well-formed ring whose primaries
  // are the old ones reassigned to the apportioned counts, with the replicas
  // chosen by the same metrics.
  ghost predicate Rebalanced(active: seq<NodeMetrics>, prev: seq<VNode>, weigh: Weigh, env: R.Env, rf: int,
                             ring: seq<VNode>, counts: Targets) {
    && active != []
    && WellFormed(ring, rf) && env.stats == R.StatsMap(active) && R.AllChosen(env, ScoresOf(active), rf, ring)
    && A.Apportions(ScoresOf(active), counts)
    && Primaries(ring) == Reassign(StartFrom(prev), counts, weigh)
    && Meets(Primaries(ring), counts)
  }

  // No list of primaries that meets the counts differs less from the old one.
  ghost predicate FewestMoves(before: seq<NodeId>, ps: seq<NodeId>, counts: Targets) {
    |before| == |ps| && forall qs :: |qs| == |ps| && Meets(qs, counts) ==> Moved(before, ps) <= Moved(before, qs)
  }

  lemma {:induction false} AssignedOnRing(prev: seq<VNode>, rf: int, vs: seq<VNode>, targets: Targets, weigh: Weigh)
    requires prev == [] || WellFormed(prev, rf)
    requires if prev == [] then FreshRing(vs) else SameButPrimary(prev, vs)
    requires TotalWant(targets) == VNODE_COUNT && Primaries(vs) == Reassign(StartFrom(prev), targets, weigh)
    ensures OnRing(vs) && Meets(Primaries(vs), targets)
    ensures forall i :: 0 <= i < |vs| ==> vs[i].primary != ""
  {
    ReassignMeetsTargets(StartFrom(prev), targets, weigh);
    forall i | 0 <= i < |vs| ensures vs[i].primary != "" { assert Primaries(vs)[i] in Nodes(targets); }
  }

  method ScoreAndTarget(active: seq<NodeMetrics>) returns (scores: seq<NodeInfo>, targets: Targets)
    requires Clean(active) && active != []
    ensures scores == ScoresOf(active) && GoodNodes(scores) && A.Apportions(ScoresOf(active), targets)
    ensures TotalWant(targets) == VNODE_COUNT && Want(targets, "") == 0
  {
    scores := CalculateScores(active);
    ScoresAreNodes(active, scores);
    targets := A.GetTargetVNodeCount(scores);
    CountsAreTargets(scores, targets);
  }

  // The ring once primaries are reassigned, before replicas are chosen.
  ghost predicate Seated(prev: seq<VNode>, targets: Targets, weigh: Weigh, vs: seq<VNode>) {
    && OnRing(vs) && Meets(Primaries(vs), targets) && Primaries(vs) == Reassign(StartFrom(prev), targets, weigh)
    && forall i :: 0 <= i < |vs| ==> vs[i].primary != ""
  }

  method SeatPrimaries(pl: Placement, targets: Targets, weigh: Weigh, ghost rf: int) returns (outcome: Outcome)
    requires pl.vnodes == [] || WellFormed(pl.vnodes, rf)
    requires TotalWant(targets) == VNODE_COUNT && Want(targets, "") == 0
    modifies pl`vnodes
    ensures outcome.Assigned? && Seated(old(pl.vnodes), targets, weigh, pl.vnodes)
  {
    ghost var prev := pl.vnodes;
    outcome := pl.AssignVNodes(targets, weigh);
    AssignedOnRing(prev, rf, pl.vnodes, targets, weigh);
  }

  method SeatReplicas(pl: Placement, active: seq<NodeMetrics>, rtt: map<NodeId, map<NodeId, real>>,
                      hash: (U16, NodeId) -> nat, rf: int)
    requires Clean(active) && GoodNodes(pl.nodes) && OnRing(pl.vnodes)
    requires forall i :: 0 <= i < |pl.vnodes| ==> pl.vnodes[i].primary != ""
    modifies pl`vnodes
    ensures WellFormed(pl.vnodes, rf) && Primaries(pl.vnodes) == Primaries(old(pl.vnodes))
    ensures R.AllChosen(R.Env(R.StatsMap(active), rtt, hash), pl.nodes, rf, pl.vnodes)
  {
    ghost var mid := pl.vnodes;
    ghost var env := pl.AssignReplicas(active, rtt, hash, rf);
    ReplicatedIsWellFormed(env, pl.nodes, rf, mid, pl.vnodes);
    R.ReplicatedIsChosen(env, pl.nodes, rf, mid, pl.vnodes);
  }

  method SeatAll(pl: Placement, active: seq<NodeMetrics>, rtt: map<NodeId, map<NodeId, real>>, targets: Targets,
                 weigh: Weigh, hash: (U16, NodeId) -> nat, rf: int)
    returns (outcome: Outcome)
    requires Clean(active) && GoodNodes(pl.nodes) && (pl.vnodes == [] || WellFormed(pl.vnodes, rf))
    requires TotalWant(targets) == VNODE_COUNT && Want(targets, "") == 0
    modifies pl`vnodes
    ensures outcome.Assigned?
    ensures Filled(old(pl.vnodes), targets, weigh, R.Env(R.StatsMap(active), rtt, hash), pl.nodes, rf, pl.vnodes)
  {
    outcome := SeatPrimaries(pl, targets, weigh, rf);
    SeatReplicas(pl, active, rtt, hash, rf);
  }

  // The ring of a placement whose vnodes have been assigned.
  ghost predicate Filled(prev: seq<VNode>, targets: Targets, weigh: Weigh, env: R.Env, nodes: seq<NodeInfo>, rf: int,
                         ring: seq<VNode>) {
    && WellFormed(ring, rf) && R.AllChosen(env, nodes, rf, ring) && Meets(Primaries(ring), targets)
    && Primaries(ring) == Reassign(StartFrom(prev), targets, weigh)
  }

  lemma {:induction false} FilledIsRebalanced(active: seq<NodeMetrics>, prev: seq<VNode>, weigh: Weigh, env: R.Env, rf: int,
                                              ring: seq<VNode>, counts: Targets)
    requires active != [] && A.Apportions(ScoresOf(active), counts) && env.stats == R.StatsMap(active)
    requires Filled(prev, counts, weigh, env, ScoresOf(active), rf, ring)
    ensures Rebalanced(active, prev, weigh, env, rf, ring, counts)
  {}

  // A new placement computed from the active metrics and the old ring, which is
  // empty when there is none.
  method BuildProposal(active: seq<NodeMetrics>, epoch: nat, prev: seq<VNode>, rtt: map<NodeId, map<NodeId, real>>,
                       weigh: Weigh, hash: (U16, NodeId) -> nat, rf: int)
    returns (pl: Placement, outcome: Outcome, ghost counts: Targets)
    requires Clean(active) && active != [] && (prev == [] || WellFormed(prev, rf))
    ensures fresh(pl) && outcome.Assigned? && pl.epoch == epoch && pl.nodes == ScoresOf(active)
    ensures Rebalanced(active, prev, weigh, R.Env(R.StatsMap(active), rtt, hash), rf, pl.vnodes, counts)
  {
    var scores, targets := ScoreAndTarget(active);
    counts := targets;
    pl := new Placement(epoch, scores, prev);
    outcome := SeatAll(pl, active, rtt, targets, weigh, hash, rf);
    ghost var env := R.Env(R.StatsMap(active), rtt, hash);
    assert Filled(prev, targets, weigh, env, scores, rf, pl.vnodes);
    FilledIsRebalanced(active, prev, weigh, env, rf, pl.vnodes, targets);
  }

  // A rebalanced ring changes as few primaries as its counts allow.
  lemma {:induction false} RebalancedMovesFewest(active: seq<NodeMetrics>, prev: seq<VNode>, weigh: Weigh, env: R.Env, rf: int,
                                                 ring: seq<VNode>, counts: Targets)
    requires Clean(active) && Rebalanced(active, prev, weigh, env, rf, ring, counts) && (prev == [] || WellFormed(prev, rf))
    ensures FewestMoves(StartFrom(prev), Primaries(ring), counts)
  {
    CountsAreTargets(ScoresOf(active), counts);
    forall qs | |qs| == |Primaries(ring)| && Meets(qs, counts)
      ensures Moved(StartFrom(prev), Primaries(ring)) <= Moved(StartFrom(prev), qs)
    {
      ReassignMovesFewest(StartFrom(prev), counts, weigh, qs);
    }
  }

  method ProposeFrom(active: seq<NodeMetrics>, epoch: nat, prev: seq<VNode>, rtt: map<NodeId, map<NodeId, real>>,
                     weigh: Weigh, hash: (U16, NodeId) -> nat, rf: int)
    returns (pl: Placement, outcome: Outcome, drop: bool, ghost counts: Targets)
    requires Clean(active) && active != [] && (prev == [] || WellFormed(prev, rf))
    ensures fresh(pl) && outcome.Assigned? && pl.epoch == epoch && pl.nodes == ScoresOf(active)
    ensures Rebalanced(active, prev, weigh, R.Env(R.StatsMap(active), rtt, hash), rf, pl.vnodes, counts)
    ensures drop <==> prev != [] && Negligible(prev, pl.vnodes, rf)
  {
    pl, outcome, counts := BuildProposal(active, epoch, prev, rtt, weigh, hash, rf);
    drop := false;
    if prev != [] {
      drop := TooSmall(prev, pl.vnodes, rf);
    }
  }

  // One hundredth of the vnodes, and at least one.
  const SWAP_THRESHOLD: nat := if VNODE_COUNT * 1 / 100 < 1 then 1 else VNODE_COUNT * 1 / 100

  // The verdicts one short-term evaluation acts on.
  ghost predicate Judged(active: seq<NodeMetrics>, h: History, nh: History, scores: map<NodeId, real>,
                         degraded: set<NodeId>, sustained: set<NodeId>)
    requires active != []
  {
    && ScoreTable(ScoresOf(active), scores)
    && nh == Extended(h, active, AverageRTT(active))
    && (forall n :: n in degraded <==> DegradedNow(active, AverageRTT(active), n))
    && (forall n :: n in sustained <==> SustainedNow(active, nh, n))
  }

  method JudgeNodes(active: seq<NodeMetrics>, streaks: map<NodeId, int>, ghost h: History)
    returns (nodes: seq<NodeInfo>, scores: map<NodeId, real>, next: map<NodeId, int>, ghost nh: History,
             degraded: set<NodeId>, sustained: set<NodeId>)
    requires Clean(active) && active != [] && StreaksMatch(streaks, h)
    ensures nodes == ScoresOf(active) && StreaksMatch(next, nh)
    ensures Judged(active, h, nh, scores, degraded, sustained)
    ensures forall n :: n in scores ==> scores[n] > 0.0
  {
    nodes := CalculateScores(active);
    ScoresAreNodes(active, nodes);
    scores := IndexScores(nodes);
    var avg := ComputeAverageRTT(active);
    next, nh, degraded, sustained := EvaluateStreaks(active, avg, streaks, h);
  }

  // What one short-term evaluation of a ring yields.
  ghost predicate RoleSwaps(active: seq<NodeMetrics>, h: History, nh: History, vs: seq<VNode>, rf: int,
                            scores: map<NodeId, real>, degraded: set<NodeId>, sustained: set<NodeId>, ws: seq<VNode>)
  {
    && active != [] && Judged(active, h, nh, scores, degraded, sustained)
    && SwappedRing(vs, scores, degraded, sustained, ws)
    && WellFormed(ws, rf)
    && forall i :: 0 <= i < |vs| ==> Holders(ws[i]) == Holders(vs[i])
  }

  method EvaluateRing(active: seq<NodeMetrics>, streaks: map<NodeId, int>, ghost h: History, vs: seq<VNode>, ghost rf: int)
    returns (nodes: seq<NodeInfo>, next: map<NodeId, int>, ghost nh: History, ws: seq<VNode>, swaps: nat,
             ghost scores: map<NodeId, real>, ghost degraded: set<NodeId>, ghost sustained: set<NodeId>)
    requires Clean(active) && active != [] && StreaksMatch(streaks, h) && WellFormed(vs, rf)
    ensures nodes == ScoresOf(active) && StreaksMatch(next, nh)
    ensures RoleSwaps(active, h, nh, vs, rf, scores, degraded, sustained, ws)
    ensures swaps == PrimaryDrift(vs, ws)
  {
    var scoreByID, degradedNow, sustainedDegraded;
    nodes, scoreByID, next, nh, degradedNow, sustainedDegraded := JudgeNodes(active, streaks, h);
    scores, degraded, sustained := scoreByID, degradedNow, sustainedDegraded;
    ws, swaps := SwapAll(vs, scoreByID, degradedNow, sustainedDegraded);
    SwappedKeepsHolders(vs, rf, scores, degraded, sustained, ws);
  }

  datatype Decision = NotReady | Dropped | Proposed

  class Replicator {
    var metrics: seq<NodeMetrics>
    var metricEMA: map<NodeId, NodeMetrics>
    var rttMatrix: map<NodeId, map<NodeId, real>>
    var degradedStreak: map<NodeId, int>
    var placement: Placement?
    const replicationFactor: int
    ghost var history: History

    ghost predicate Valid()
      reads this, placement
    {
      && Clean(metrics) && CleanAverages(metricEMA)
      && StreaksMatch(degradedStreak, history)
      && (placement != null && |placement.vnodes| == VNODE_COUNT ==> WellFormed(placement.vnodes, replicationFactor))
    }

    ghost function Gossip(): Metrics.State
      reads this
    {
      Metrics.State(metrics, metricEMA, rttMatrix)
    }

    constructor (rf: int)
      ensures Valid() && placement == null && metrics == [] && replicationFactor == rf
    {
      metrics, metricEMA, rttMatrix, degradedStreak, placement := [], map[], map[], map[], null;
      replicationFactor := rf;
      history := map[];
    }

    method HandleMetricsMessage(msg: Message)
      requires Valid()
      modifies `metrics, `metricEMA, `rttMatrix
      ensures Valid() && Gossip() == HandleStep(old(Gossip()), msg)
    {
      if msg.metrics.nodeID == "" {
        return;
      }
      var m := Smooth(msg.metrics, metricEMA);
      SmoothIsClean(msg.metrics, metricEMA);
      UpsertIsClean(metrics, m);
      metricEMA := metricEMA[m.nodeID := m];
      metrics := ReplaceOrAppend(metrics, m);
      var row := if m.nodeID in rttMatrix then rttMatrix[m.nodeID] else map[];
      rttMatrix := rttMatrix[m.nodeID := row + msg.rtt];
    }

    // The installed placement has a ring to start from.
    predicate HasRing()
      reads this, placement
    {
      placement != null && |placement.vnodes| == VNODE_COUNT
    }

    ghost function OldRing(): seq<VNode>
      reads this, placement
    {
      if HasRing() then placement.vnodes else []
    }

    // Long-term rebalancing. It modifies nothing that exists: the proposal is a
    // new object, so a dropped one leaves the installed placement as it was. The
    // reassignment always ends normally, never at a panic.
    method UpdatePlacement(members: set<NodeId>, weigh: Weigh, hash: (U16, NodeId) -> nat)
      returns (decision: Decision, outcome: Outcome, proposal: Placement?, ghost ring: seq<VNode>, ghost counts: Targets)
      requires Valid()
      ensures outcome.Assigned?
      ensures decision.NotReady? <==> Active(metrics, members) == []
      ensures decision.Proposed? <==> proposal != null
      ensures !decision.NotReady? ==>
                Rebalanced(Active(metrics, members), OldRing(), weigh, R.Env(R.StatsMap(Active(metrics, members)), rttMatrix, hash),
                           replicationFactor, ring, counts)
      ensures decision.Dropped? <==> !decision.NotReady? && HasRing() && Negligible(placement.vnodes, ring, replicationFactor)
      ensures proposal != null ==>
                && fresh(proposal) && proposal.vnodes == ring
                && proposal.epoch == (if HasRing() then placement.epoch + 1 else 1)
                && proposal.nodes == ScoresOf(Active(metrics, members))
    {
      decision, outcome, proposal, ring, counts := NotReady, Assigned, null, [], map[];
      var active := FilterActive(metrics, members);
      if |active| == 0 {
        return;
      }
      ActiveIsClean(metrics, members);
      var pl, drop;
      if HasRing() {
        pl, outcome, drop, counts := ProposeFrom(active, placement.epoch + 1, placement.vnodes, rttMatrix, weigh, hash,
                                                 replicationFactor);
      } else {
        pl, outcome, drop, counts := ProposeFrom(active, 1, [], rttMatrix, weigh, hash, replicationFactor);
      }
      ring := pl.vnodes;
      if drop {
        decision := Dropped;
        return;
      }
      decision, proposal := Proposed, pl;
    }

    // Short-term role swaps on the installed ring. Streaks follow the history of
    // verdicts; the installed placement itself is left alone, and a proposal
    // keeps every vnode on the same holders.
    method UpdatePlacementShortTerm(members: set<NodeId>)
      returns (proposal: Placement?, ghost scores: map<NodeId, real>, ghost degraded: set<NodeId>, ghost sustained: set<NodeId>,
               ghost ring: seq<VNode>)
      requires Valid()
      modifies `degradedStreak, `history
      ensures Valid()
      ensures !HasRing() || Active(metrics, members) == [] ==> proposal == null && unchanged(this)
      ensures HasRing() && Active(metrics, members) != [] ==>
                && RoleSwaps(Active(metrics, members), old(history), history, placement.vnodes, replicationFactor,
                             scores, degraded, sustained, ring)
                && (proposal != null <==> PrimaryDrift(placement.vnodes, ring) >= SWAP_THRESHOLD)
      ensures proposal != null ==>
                && fresh(proposal) && proposal.vnodes == ring
                && proposal.epoch == placement.epoch + 1 && proposal.nodes == ScoresOf(Active(metrics, members))
    {
      proposal, scores, degraded, sustained, ring := null, map[], {}, {}, [];
      if !HasRing() {
        return;
      }
      var active := FilterActive(metrics, members);
      if |active| == 0 {
        return;
      }
      ActiveIsClean(metrics, members);
      var nodes, streaks, next, swaps;
      ghost var seen;
      nodes, streaks, seen, next, swaps, scores, degraded, sustained :=
        EvaluateRing(active, degradedStreak, history, placement.vnodes, replicationFactor);
      degradedStreak, history := streaks, seen;
      ring := next;
      if swaps >= SWAP_THRESHOLD {
        proposal := new Placement(placement.epoch + 1, nodes, next);
      }
    }

    // Replaces the installed placement.
    method SetPlacement(p: Placement)
      requires Valid() && (|p.vnodes| == VNODE_COUNT ==> WellFormed(p.vnodes, replicationFactor))
      modifies `placement
      ensures Valid() && placement == p
    {
      placement := p;
    }
  }

  method ReplaceOrAppend(ms: seq<NodeMetrics>, m: NodeMetrics) returns (r: seq<NodeMetrics>)
    ensures r == Upsert(ms, m)
  {
    for i := 0 to |ms|
      invariant Upsert(ms, m) == ms[..i] + Upsert(ms[i..], m)
    {
      if ms[i].nodeID == m.nodeID {
        assert ms[i..][1..] == ms[i + 1..];
        r := ms[i := m];
        assert r == ms[..i] + ([m] + ms[i + 1..]);
        return;
      }
      assert ms[i..][1..] == ms[i + 1..];
      assert ms[..i] + ([ms[i]] + Upsert(ms[i + 1..], m)) == ms[..i + 1] + Upsert(ms[i + 1..], m);
    }
    r := ms + [m];
  }
}
