// cluster/placement.go, AssignReplicas: choosing replicas near each primary,
// over the reals.
module Replicas {
  import opened Commands
  import opened NodeOrder
  import opened Counting
  import opened Ring
  import opened Sorting
  import opened Scores

  // What replica choice looks at: metrics by node, measured round trips from
  // primaries, and the hash behind the per-vnode jitter.
  datatype Env = Env(
    stats: map<NodeId, NodeMetrics>, rtt: map<NodeId, map<NodeId, real>>, hash: (U16, NodeId) -> nat)

  // A cost, with the two infinities that a division by zero gives.
  datatype Cost = Lowest | Finite(value: real) | Highest

  predicate Under(a: Cost, b: Cost) {
    match (a, b)
    case (Finite(x), Finite(y)) => x < y
    case _ => a != b && (a.Lowest? || b.Highest?)
  }

  datatype Candidate = Candidate(id: NodeId, score: Cost)

  // Lower cost first, equal costs by id.
  predicate Cheaper(a: Candidate, b: Candidate) {
    if a.score == b.score then Less(a.id, b.id) else Under(a.score, b.score)
  }

  function Product(a: real, b: real, c: real, d: real): real {
    a * b * c * d
  }

  // Round trip times saturation penalty times inverse bandwidth, with up to 10%
  // jitter. The penalty divides by 1.01 - usage; at a usage of 1.01 it is infinite
  // and the sign of the bandwidth decides.
  function Suitability(env: Env, v: VNode, id: NodeId): Cost
    requires id in env.stats
  {
    var m := env.stats[id];
    var rtt := if v.primary in env.rtt && id in env.rtt[v.primary] && env.rtt[v.primary][id] > 0.0
               then env.rtt[v.primary][id] else 1000.0;
    var capFactor := 1.0 / (m.bandwidthMbps as real + EPS);
    var jitter := 1.0 + (env.hash(v.id, id) % 1000) as real / 10000.0;
    if m.netUsage == 1.01 then
      if capFactor > 0.0 then Highest else Lowest
    else
      var bwPenalty := 1.0 / (1.01 - m.netUsage);
      Finite(Product(rtt, bwPenalty, capFactor, jitter))
  }

  // The round trip that counts: the measured one, or 1000 without a positive one.
  ghost predicate Away(env: Env, v: VNode, id: NodeId, rtt: real) {
    if v.primary in env.rtt && id in env.rtt[v.primary] && env.rtt[v.primary][id] > 0.0 then rtt == env.rtt[v.primary][id]
    else rtt == 1000.0
  }

  // The cost without divisions: it is proportional to the round trip, inversely to
  // what is left of the network and to the bandwidth, and at most a tenth is jitter.
  lemma {:induction false} SuitabilityInNumbers(env: Env, v: VNode, id: NodeId, rtt: real)
    requires id in env.stats && Away(env, v, id, rtt) && env.stats[id].netUsage != 1.01
    ensures var m, cost := env.stats[id], Suitability(env, v, id);
            && cost.Finite?
            && cost.value * (1.01 - m.netUsage) * (m.bandwidthMbps as real + 0.000000001)
               == rtt * (1.0 + (env.hash(v.id, id) % 1000) as real / 10000.0)
  {
    var m := env.stats[id];
    var free, width, jitter := 1.01 - m.netUsage, m.bandwidthMbps as real + EPS, 1.0 + (env.hash(v.id, id) % 1000) as real / 10000.0;
    CostTimes(rtt, 1.0 / free, 1.0 / width, jitter, free, width);
  }

  lemma {:induction false} CostTimes(rtt: real, f: real, w: real, jitter: real, free: real, width: real)
    requires f * free == 1.0 && w * width == 1.0
    ensures Product(rtt, f, w, jitter) * free * width == rtt * jitter
  {
    Reordered(rtt, f, w, jitter, free, width);
    Units(rtt * jitter, f * free, w * width);
  }

  lemma {:induction false} Units(a: real, p: real, q: real)
    requires p == 1.0 && q == 1.0
    ensures a * p * q == a
  {}

  lemma {:induction false} Reordered(a: real, f: real, w: real, b: real, free: real, width: real)
    ensures a * f * w * b * free * width == a * b * (f * free) * (w * width)
  {}

  // A network used to exactly 1.01 costs more than any finite amount, or less if
  // the bandwidth is negative.
  lemma {:induction false} SaturatedIsExtreme(env: Env, v: VNode, id: NodeId, other: Cost)
    requires id in env.stats && env.stats[id].netUsage == 1.01 && other.Finite?
    ensures if env.stats[id].bandwidthMbps >= 0 then Under(other, Suitability(env, v, id)) else Under(Suitability(env, v, id), other)
  {
    var width := env.stats[id].bandwidthMbps as real + EPS;
    ReciprocalSign(width);
  }

  lemma {:induction false} ReciprocalSign(x: real)
    requires x != 0.0
    ensures 1.0 / x > 0.0 <==> x > 0.0
  {
    var r := 1.0 / x;
    assert r * x == 1.0;
    assert r > 0.0 && x < 0.0 ==> r * x < 0.0;
    assert r < 0.0 && x > 0.0 ==> r * x < 0.0;
  }

  // A node may hold a replica when it is not the primary and has metrics.
  predicate Eligible(env: Env, v: VNode, id: NodeId) {
    id != v.primary && id in env.stats
  }

  function Candidates(env: Env, nodes: seq<NodeInfo>, v: VNode): seq<Candidate>
  {
    if nodes == [] then [] else
      var front, id := Candidates(env, nodes[..|nodes| - 1], v), nodes[|nodes| - 1].id;
      if Eligible(env, v, id) then front + [Candidate(id, Suitability(env, v, id))] else front
  }

  function Ranking(env: Env, nodes: seq<NodeInfo>, v: VNode): (r: seq<Candidate>)
    ensures |r| == |Candidates(env, nodes, v)|
  {
    Sort(Cheaper, Candidates(env, nodes, v))
  }

  function Cap(n: int, limit: nat): nat {
    if n < 0 then 0 else if n < limit then n else limit
  }

  // The cheapest rf-1 eligible nodes.
  function Chosen(env: Env, nodes: seq<NodeInfo>, v: VNode, rf: int): (r: seq<NodeId>)
    ensures |r| == Cap(rf - 1, |Candidates(env, nodes, v)|)
  {
    var ranking := Ranking(env, nodes, v);
    seq(Cap(rf - 1, |ranking|), i requires 0 <= i < Cap(rf - 1, |ranking|) => ranking[i].id)
  }

  // ---------- What is chosen ----------

  ghost predicate DistinctCandidates(cs: seq<Candidate>) {
    forall i, j :: 0 <= i < j < |cs| ==> cs[i].id != cs[j].id
  }

  lemma {:induction false} CheaperOrders()
    ensures Orders(Cheaper)
  {
    forall a: Candidate, b: Candidate | Cheaper(a, b) ensures !Cheaper(b, a) { LessTotal(a.id, b.id); }
    forall a: Candidate, b: Candidate, c: Candidate | !Cheaper(b, a) && !Cheaper(c, b) ensures !Cheaper(c, a) {
      LessTotal(a.id, b.id);
      LessTotal(b.id, c.id);
      LessTotal(a.id, c.id);
      if Less(a.id, b.id) && Less(b.id, c.id) { LessTransitive(a.id, b.id, c.id); }
    }
  }

  // The candidates are exactly the eligible nodes with their cost.
  lemma {:induction false} CandidateExactly(env: Env, nodes: seq<NodeInfo>, v: VNode, c: Candidate)
    ensures c in Candidates(env, nodes, v)
            <==> (exists i :: 0 <= i < |nodes| && nodes[i].id == c.id) && Eligible(env, v, c.id)
                 && c.score == Suitability(env, v, c.id)
  {
    if nodes != [] {
      var n := |nodes| - 1;
      CandidateExactly(env, nodes[..n], v, c);
      assert (exists i :: 0 <= i < |nodes| && nodes[i].id == c.id)
        <==> nodes[n].id == c.id || exists i :: 0 <= i < n && nodes[..n][i].id == c.id by {
        if i :| 0 <= i < |nodes| && nodes[i].id == c.id {
          if i < n { assert nodes[..n][i].id == c.id; }
        }
        if i :| 0 <= i < n && nodes[..n][i].id == c.id { assert nodes[i].id == c.id; }
      }
    }
  }

  lemma {:induction false} CandidatesDistinct(env: Env, nodes: seq<NodeInfo>, v: VNode)
    requires DistinctNodes(nodes)
    ensures DistinctCandidates(Candidates(env, nodes, v))
  {
    if nodes != [] {
      var n := |nodes| - 1;
      CandidatesDistinct(env, nodes[..n], v);
      var front := Candidates(env, nodes[..n], v);
      forall i | 0 <= i < |front| ensures front[i].id != nodes[n].id {
        CandidateExactly(env, nodes[..n], v, front[i]);
        var j :| 0 <= j < n && nodes[..n][j].id == front[i].id;
        assert nodes[j].id == front[i].id;
      }
    }
  }

  lemma {:induction false} RankingDistinct(env: Env, nodes: seq<NodeInfo>, v: VNode)
    requires DistinctNodes(nodes)
    ensures DistinctCandidates(Ranking(env, nodes, v))
  {
    CandidatesDistinct(env, nodes, v);
    var id := (c: Candidate) => c.id;
    var cs := Candidates(env, nodes, v);
    assert DistinctBy(id, cs) by {
      forall i, j | 0 <= i < j < |cs| ensures id(cs[i]) != id(cs[j]) { assert cs[i].id != cs[j].id; }
    }
    SortDistinct(Cheaper, id, cs);
    var r := Ranking(env, nodes, v);
    forall i, j | 0 <= i < j < |r| ensures r[i].id != r[j].id { assert id(r[i]) != id(r[j]); }
  }

  // Replicas are distinct eligible nodes, never the primary.
  lemma {:induction false} ChosenAreEligible(env: Env, nodes: seq<NodeInfo>, v: VNode, rf: int)
    requires DistinctNodes(nodes)
    ensures var r := Chosen(env, nodes, v, rf);
            && Distinct(r) && v.primary !in r
            && forall k :: 0 <= k < |r| ==> r[k] in env.stats && exists i :: 0 <= i < |nodes| && nodes[i].id == r[k]
  {
    var ranking, r := Ranking(env, nodes, v), Chosen(env, nodes, v, rf);
    RankingDistinct(env, nodes, v);
    forall k | 0 <= k < |r|
      ensures Eligible(env, v, r[k]) && exists i :: 0 <= i < |nodes| && nodes[i].id == r[k]
    {
      var c := MemberSorted(Cheaper, Candidates(env, nodes, v), k);
      CandidateExactly(env, nodes, v, ranking[k]);
    }
    assert Distinct(r) by {
      forall i, j | 0 <= i < j < |r| ensures r[i] != r[j] { assert ranking[i].id != ranking[j].id; }
    }
  }

  // No eligible node is passed over while there is room.
  lemma {:induction false} RoomIsFilled(env: Env, nodes: seq<NodeInfo>, v: VNode, rf: int, i: nat)
    requires i < |nodes| && nodes[i].id != v.primary && nodes[i].id in env.stats
    requires rf >= 1 && nodes[i].id !in Chosen(env, nodes, v, rf)
    ensures |Chosen(env, nodes, v, rf)| == rf - 1
  {
    var ranking, r := Ranking(env, nodes, v), Chosen(env, nodes, v, rf);
    var other := Candidate(nodes[i].id, Suitability(env, v, nodes[i].id));
    CandidateExactly(env, nodes, v, other);
    var j :| 0 <= j < |Candidates(env, nodes, v)| && Candidates(env, nodes, v)[j] == other;
    var l := SortedMember(Cheaper, Candidates(env, nodes, v), j);
    assert forall m :: 0 <= m < |r| ==> r[m] == ranking[m].id && r[m] in r;
  }

  // Replicas are the cheapest: every eligible node that was passed over costs
  // more than every chosen one, ties broken by name.
  lemma {:induction false} ChosenAreCheapest(env: Env, nodes: seq<NodeInfo>, v: VNode, rf: int, k: nat, i: nat)
    requires DistinctNodes(nodes)
    requires k < |Chosen(env, nodes, v, rf)| && i < |nodes|
    requires nodes[i].id != v.primary && nodes[i].id in env.stats && nodes[i].id !in Chosen(env, nodes, v, rf)
    ensures Chosen(env, nodes, v, rf)[k] in env.stats
    ensures var a, b := Chosen(env, nodes, v, rf)[k], nodes[i].id;
            var x, y := Suitability(env, v, a), Suitability(env, v, b);
            && (x == y ==> Less(a, b))
            && (x != y ==> x.Lowest? || y.Highest? || (x.Finite? && y.Finite? && x.value < y.value))
  {
    var ranking, r := Ranking(env, nodes, v), Chosen(env, nodes, v, rf);
    ChosenAreEligible(env, nodes, v, rf);
    var c := MemberSorted(Cheaper, Candidates(env, nodes, v), k);
    CandidateExactly(env, nodes, v, ranking[k]);
    var other := Candidate(nodes[i].id, Suitability(env, v, nodes[i].id));
    CandidateExactly(env, nodes, v, other);
    var j :| 0 <= j < |Candidates(env, nodes, v)| && Candidates(env, nodes, v)[j] == other;
    var l := SortedMember(Cheaper, Candidates(env, nodes, v), j);
    assert forall m :: 0 <= m < |r| ==> r[m] == ranking[m].id && r[m] != nodes[i].id;
    CheaperOrders();
    SortSorted(Cheaper, Candidates(env, nodes, v));
    assert !Cheaper(ranking[l], ranking[k]);
    LessTotal(ranking[k].id, ranking[l].id);
    RankingDistinct(env, nodes, v);
  }

  // ---------- The loop ----------

  // v with fresh replicas, if it has a primary.
  function Given(env: Env, nodes: seq<NodeInfo>, rf: int, v: VNode): VNode {
    if rf <= 1 then v.(replicas := [])
    else if v.primary == "" then v
    else v.(replicas := Chosen(env, nodes, v, rf))
  }

  // ws is vs with fresh replicas wherever there is a primary.
  ghost predicate Replicated(env: Env, nodes: seq<NodeInfo>, rf: int, vs: seq<VNode>, ws: seq<VNode>)
  {
    && |ws| == |vs|
    && forall i :: 0 <= i < |vs| ==> ws[i] == Given(env, nodes, rf, vs[i])
  }

  // Choosing looks at the id and the primary of a vnode only.
  lemma {:induction false} ChosenIgnoresReplicas(env: Env, nodes: seq<NodeInfo>, v: VNode, rf: int, replicas: seq<NodeId>)
    ensures Chosen(env, nodes, v.(replicas := replicas), rf) == Chosen(env, nodes, v, rf)
  {
    CandidatesIgnoreReplicas(env, nodes, v, replicas);
  }

  lemma {:induction false} CandidatesIgnoreReplicas(env: Env, nodes: seq<NodeInfo>, v: VNode, replicas: seq<NodeId>)
    ensures Candidates(env, nodes, v.(replicas := replicas)) == Candidates(env, nodes, v)
  {
    if nodes != [] {
      CandidatesIgnoreReplicas(env, nodes[..|nodes| - 1], v, replicas);
    }
  }

  // Every vnode of a ring has the chosen replicas, or none if only one copy is
  // wanted.
  ghost predicate AllChosen(env: Env, nodes: seq<NodeInfo>, rf: int, ring: seq<VNode>) {
    forall i :: 0 <= i < |ring| ==> ring[i].replicas == if rf <= 1 then [] else Chosen(env, nodes, ring[i], rf)
  }

  lemma {:induction false} ReplicatedIsChosen(env: Env, nodes: seq<NodeInfo>, rf: int, vs: seq<VNode>, ws: seq<VNode>)
    requires Replicated(env, nodes, rf, vs, ws) && forall i :: 0 <= i < |vs| ==> vs[i].primary != ""
    ensures AllChosen(env, nodes, rf, ws)
  {
    forall i | 0 <= i < |ws| ensures ws[i].replicas == if rf <= 1 then [] else Chosen(env, nodes, ws[i], rf) {
      ChosenIgnoresReplicas(env, nodes, vs[i], rf, ws[i].replicas);
    }
  }

  // Metrics by node, the last entry of a node if there are several.
  function StatsMap(metrics: seq<NodeMetrics>): map<NodeId, NodeMetrics> {
    if metrics == [] then map[] else
      var m := metrics[|metrics| - 1];
      StatsMap(metrics[..|metrics| - 1])[m.nodeID := m]
  }

  lemma {:induction false} StatsMapExactly(metrics: seq<NodeMetrics>, n: NodeId)
    ensures n in StatsMap(metrics) <==> exists i :: 0 <= i < |metrics| && metrics[i].nodeID == n
    ensures n in StatsMap(metrics) ==> StatsMap(metrics)[n] in metrics && StatsMap(metrics)[n].nodeID == n
  {
    if metrics != [] {
      var k := |metrics| - 1;
      StatsMapExactly(metrics[..k], n);
      assert metrics == metrics[..k] + [metrics[k]];
    }
  }

  method StatsOf(metrics: seq<NodeMetrics>) returns (stats: map<NodeId, NodeMetrics>)
    ensures stats == StatsMap(metrics)
  {
    stats := map[];
    for i := 0 to |metrics|
      invariant stats == StatsMap(metrics[..i])
    {
      stats := stats[metrics[i].nodeID := metrics[i]];
      assert metrics[..i + 1][..i] == metrics[..i];
    }
    assert metrics[..|metrics|] == metrics;
  }

  method ReplicateAll(vs: seq<VNode>, nodes: seq<NodeInfo>, env: Env, rf: int) returns (ws: seq<VNode>)
    ensures Replicated(env, nodes, rf, vs, ws)
  {
    ws := vs;
    for i := 0 to |vs|
      invariant |ws| == |vs|
      invariant forall j :: i <= j < |vs| ==> ws[j] == vs[j]
      invariant Replicated(env, nodes, rf, vs[..i], ws[..i])
    {
      var v := ws[i];
      if rf <= 1 {
        ws := ws[i := v.(replicas := [])];
      } else if v.primary != "" {
        var candidates := CollectCandidates(env, nodes, v);
        var replicas := TakeCheapest(Sort(Cheaper, candidates), rf);
        ws := ws[i := v.(replicas := replicas)];
        assert replicas == Chosen(env, nodes, v, rf);
      }
      assert ws[..i + 1] == ws[..i] + [ws[i]] && vs[..i + 1] == vs[..i] + [vs[i]];
    }
    assert ws[..|vs|] == ws && vs[..|vs|] == vs;
  }

  method CollectCandidates(env: Env, nodes: seq<NodeInfo>, v: VNode) returns (candidates: seq<Candidate>)
    ensures candidates == Candidates(env, nodes, v)
  {
    candidates := [];
    for i := 0 to |nodes|
      invariant candidates == Candidates(env, nodes[..i], v)
    {
      var id := nodes[i].id;
      if id != v.primary && id in env.stats {
        candidates := candidates + [Candidate(id, Suitability(env, v, id))];
      }
      assert nodes[..i + 1][..i] == nodes[..i];
    }
    assert nodes[..|nodes|] == nodes;
  }

  method TakeCheapest(ranking: seq<Candidate>, rf: int) returns (ids: seq<NodeId>)
    ensures |ids| == Cap(rf - 1, |ranking|)
    ensures forall i :: 0 <= i < |ids| ==> ids[i] == ranking[i].id
  {
    ids := [];
    var j := 0;
    while j < rf - 1 && j < |ranking|
      invariant 0 <= j <= |ranking| && (j == 0 || j <= rf - 1)
      invariant |ids| == j && forall i :: 0 <= i < j ==> ids[i] == ranking[i].id
    {
      ids := ids + [ranking[j].id];
      j := j + 1;
    }
  }
}
