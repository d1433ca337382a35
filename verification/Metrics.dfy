// cluster/replication.go: smoothing gossiped metrics and keeping one entry per
// node, over the reals.
module Metrics {
  import opened NodeOrder
  import opened Scores

  const ALPHA := 0.25

  function ClampUnit(v: real): (r: real)
    ensures 0.0 <= r <= 1.0
  {
    if v < 0.0 then 0.0 else if v > 1.0 then 1.0 else v
  }

  function Clamped(m: NodeMetrics): NodeMetrics {
    m.(cpuUsage := ClampUnit(m.cpuUsage), memUsage := ClampUnit(m.memUsage),
       netUsage := ClampUnit(m.netUsage), diskUsage := ClampUnit(m.diskUsage))
  }

  function Blend(raw: real, prev: real): real {
    ALPHA * raw + (1.0 - ALPHA) * prev
  }

  function OrPrevious(v: int, prev: int): int {
    if v <= 0 then prev else v
  }

  // smoothMetricsLocked: clamp, then average exponentially with the last value.
  function Smooth(raw: NodeMetrics, ema: map<NodeId, NodeMetrics>): NodeMetrics {
    var m := Clamped(raw);
    if raw.nodeID !in ema then m else
      var prev := ema[raw.nodeID];
      NodeMetrics(
        m.nodeID,
        if m.avgRTT > 0.0 then (if prev.avgRTT <= 0.0 then m.avgRTT else Blend(m.avgRTT, prev.avgRTT)) else prev.avgRTT,
        OrPrevious(m.cpuCores, prev.cpuCores), OrPrevious(m.memGB, prev.memGB),
        OrPrevious(m.bandwidthMbps, prev.bandwidthMbps), OrPrevious(m.diskGB, prev.diskGB),
        Blend(m.cpuUsage, prev.cpuUsage), Blend(m.memUsage, prev.memUsage),
        Blend(m.netUsage, prev.netUsage), Blend(m.diskUsage, prev.diskUsage))
  }

  predicate UnitUsage(m: NodeMetrics) {
    && 0.0 <= m.cpuUsage <= 1.0 && 0.0 <= m.memUsage <= 1.0
    && 0.0 <= m.netUsage <= 1.0 && 0.0 <= m.diskUsage <= 1.0
  }

  // Entries with distinct, non-empty ids and usages in the unit range.
  ghost predicate Clean(ms: seq<NodeMetrics>) {
    && (forall i :: 0 <= i < |ms| ==> ms[i].nodeID != "" && UnitUsage(ms[i]))
    && (forall i, j :: 0 <= i < j < |ms| ==> ms[i].nodeID != ms[j].nodeID)
  }

  ghost predicate CleanAverages(ema: map<NodeId, NodeMetrics>) {
    forall n :: n in ema ==> ema[n].nodeID == n && UnitUsage(ema[n])
  }

  lemma {:induction false} SmoothIsClean(raw: NodeMetrics, ema: map<NodeId, NodeMetrics>)
    requires CleanAverages(ema)
    ensures UnitUsage(Smooth(raw, ema)) && Smooth(raw, ema).nodeID == raw.nodeID
  {}

  // r is the reading, or the end of the unit range beyond which it lies.
  predicate Clips(r: real, reading: real) {
    if reading < 0.0 then r == 0.0 else if reading > 1.0 then r == 1.0 else r == reading
  }

  // v moves a quarter of the way from what it was to the clipped reading.
  ghost predicate QuarterWay(v: real, was: real, reading: real) {
    Clips(was + 4.0 * (v - was), reading)
  }

  lemma {:induction false} SmoothMovesAQuarter(raw: NodeMetrics, ema: map<NodeId, NodeMetrics>)
    requires raw.nodeID in ema
    ensures var s, was := Smooth(raw, ema), ema[raw.nodeID];
            && QuarterWay(s.cpuUsage, was.cpuUsage, raw.cpuUsage) && QuarterWay(s.memUsage, was.memUsage, raw.memUsage)
            && QuarterWay(s.netUsage, was.netUsage, raw.netUsage) && QuarterWay(s.diskUsage, was.diskUsage, raw.diskUsage)
            && (raw.avgRTT > 0.0 && was.avgRTT > 0.0 ==> 4.0 * (s.avgRTT - was.avgRTT) == raw.avgRTT - was.avgRTT)
            && (raw.avgRTT > 0.0 && was.avgRTT <= 0.0 ==> s.avgRTT == raw.avgRTT)
            && (raw.avgRTT <= 0.0 ==> s.avgRTT == was.avgRTT)
            && s.cpuCores == (if raw.cpuCores > 0 then raw.cpuCores else was.cpuCores)
            && s.memGB == (if raw.memGB > 0 then raw.memGB else was.memGB)
            && s.bandwidthMbps == (if raw.bandwidthMbps > 0 then raw.bandwidthMbps else was.bandwidthMbps)
            && s.diskGB == (if raw.diskGB > 0 then raw.diskGB else was.diskGB)
  {}

  // The first report is taken as it is, but for the clipping.
  lemma {:induction false} FirstReportIsTaken(raw: NodeMetrics, ema: map<NodeId, NodeMetrics>)
    requires raw.nodeID !in ema
    ensures var s := Smooth(raw, ema);
            && Clips(s.cpuUsage, raw.cpuUsage) && Clips(s.memUsage, raw.memUsage)
            && Clips(s.netUsage, raw.netUsage) && Clips(s.diskUsage, raw.diskUsage)
            && s == raw.(cpuUsage := s.cpuUsage, memUsage := s.memUsage, netUsage := s.netUsage, diskUsage := s.diskUsage)
  {}

  // After n equal reports the distance to them has shrunk by (3/4)^n.
  function Distance(n: nat, d: real): real {
    if n == 0 then d else 0.75 * Distance(n - 1, d)
  }

  function SmoothTimes(raw: NodeMetrics, m: NodeMetrics, n: nat): (r: NodeMetrics)
    requires m.nodeID == raw.nodeID
    ensures r.nodeID == raw.nodeID
  {
    if n == 0 then m else Smooth(raw, map[raw.nodeID := SmoothTimes(raw, m, n - 1)])
  }

  lemma {:induction false} EqualReportsConverge(raw: NodeMetrics, m: NodeMetrics, n: nat)
    requires m.nodeID == raw.nodeID && UnitUsage(raw)
    ensures var s := SmoothTimes(raw, m, n);
            && s.cpuUsage - raw.cpuUsage == Distance(n, m.cpuUsage - raw.cpuUsage)
            && s.memUsage - raw.memUsage == Distance(n, m.memUsage - raw.memUsage)
            && s.netUsage - raw.netUsage == Distance(n, m.netUsage - raw.netUsage)
            && s.diskUsage - raw.diskUsage == Distance(n, m.diskUsage - raw.diskUsage)
  {
    if n > 0 {
      EqualReportsConverge(raw, m, n - 1);
      SmoothMovesAQuarter(raw, map[raw.nodeID := SmoothTimes(raw, m, n - 1)]);
    }
  }

  // ---------- One entry per node ----------

  // Replaces the entry of m's node, or appends it.
  function Upsert(ms: seq<NodeMetrics>, m: NodeMetrics): seq<NodeMetrics> {
    if ms == [] then [m]
    else if ms[0].nodeID == m.nodeID then [m] + ms[1..]
    else [ms[0]] + Upsert(ms[1..], m)
  }

  lemma {:induction false} UpsertIsClean(ms: seq<NodeMetrics>, m: NodeMetrics)
    requires Clean(ms) && m.nodeID != "" && UnitUsage(m)
    ensures Clean(Upsert(ms, m))
    ensures forall x :: x in Upsert(ms, m) ==> x == m || x in ms
  {
    if ms != [] && ms[0].nodeID != m.nodeID {
      UpsertIsClean(ms[1..], m);
      var rest := Upsert(ms[1..], m);
      forall j | 0 <= j < |rest| ensures rest[j].nodeID != ms[0].nodeID { assert rest[j] in rest; }
    }
  }

  datatype Message = Message(metrics: NodeMetrics, rtt: map<NodeId, real>)

  // The metrics state of a node and what one gossip message does to it.
  datatype State = State(
    metrics: seq<NodeMetrics>, ema: map<NodeId, NodeMetrics>, rtt: map<NodeId, map<NodeId, real>>)

  function HandleStep(s: State, msg: Message): State {
    if msg.metrics.nodeID == "" then s else
      var m := Smooth(msg.metrics, s.ema);
      var row := if m.nodeID in s.rtt then s.rtt[m.nodeID] else map[];
      State(Upsert(s.metrics, m), s.ema[m.nodeID := m], s.rtt[m.nodeID := row + msg.rtt])
  }

  lemma {:induction false} UpsertExactly(ms: seq<NodeMetrics>, m: NodeMetrics, x: NodeMetrics)
    requires Clean(ms)
    ensures x in Upsert(ms, m) <==> x == m || (x in ms && x.nodeID != m.nodeID)
  {
    if ms != [] {
      if ms[0].nodeID == m.nodeID {
        assert forall j :: 0 < j < |ms| ==> ms[j].nodeID != m.nodeID;
      } else {
        UpsertExactly(ms[1..], m, x);
      }
      assert ms == [ms[0]] + ms[1..];
    }
  }

  // What a message changes: the metrics and the average of its node become the
  // smoothed report, its new round trips replace the old ones, and nothing else
  // changes. A message without a node changes nothing.
  lemma {:induction false} HandleExactly(s: State, msg: Message)
    requires Clean(s.metrics)
    ensures var z, n := HandleStep(s, msg), msg.metrics.nodeID;
            && (n == "" ==> z == s)
            && (n != "" ==>
                  && (forall x :: x in z.metrics <==> x == Smooth(msg.metrics, s.ema) || (x in s.metrics && x.nodeID != n))
                  && n in z.ema && z.ema[n] == Smooth(msg.metrics, s.ema) && z.ema - {n} == s.ema - {n}
                  && n in z.rtt && z.rtt - {n} == s.rtt - {n}
                  && (forall b :: b in msg.rtt ==> b in z.rtt[n] && z.rtt[n][b] == msg.rtt[b])
                  && (forall b :: b !in msg.rtt ==>
                        if n in s.rtt && b in s.rtt[n] then b in z.rtt[n] && z.rtt[n][b] == s.rtt[n][b] else b !in z.rtt[n]))
  {
    var m := Smooth(msg.metrics, s.ema);
    forall x ensures x in Upsert(s.metrics, m) <==> x == m || (x in s.metrics && x.nodeID != m.nodeID) {
      UpsertExactly(s.metrics, m, x);
    }
  }

  function HandleAll(s: State, msgs: seq<Message>): State {
    if msgs == [] then s else HandleStep(HandleAll(s, msgs[..|msgs| - 1]), msgs[|msgs| - 1])
  }

  // Every run of messages keeps one clean entry per node.
  lemma {:induction false} HandleAllStaysClean(s: State, msgs: seq<Message>)
    requires Clean(s.metrics) && CleanAverages(s.ema)
    ensures Clean(HandleAll(s, msgs).metrics) && CleanAverages(HandleAll(s, msgs).ema)
    decreases |msgs|
  {
    if msgs != [] {
      var front, msg := msgs[..|msgs| - 1], msgs[|msgs| - 1];
      HandleAllStaysClean(s, front);
      var before := HandleAll(s, front);
      if msg.metrics.nodeID != "" {
        SmoothIsClean(msg.metrics, before.ema);
        UpsertIsClean(before.metrics, Smooth(msg.metrics, before.ema));
      }
    }
  }

  // ---------- Active nodes ----------

  function Active(ms: seq<NodeMetrics>, members: set<NodeId>): seq<NodeMetrics> {
    if ms == [] then [] else
      var front := Active(ms[..|ms| - 1], members);
      if ms[|ms| - 1].nodeID in members then front + [ms[|ms| - 1]] else front
  }

  // Exactly the metrics of members are kept, each as often as it was reported.
  lemma {:induction false} ActiveExactly(ms: seq<NodeMetrics>, members: set<NodeId>)
    ensures forall m :: m in Active(ms, members) <==> m in ms && m.nodeID in members
    ensures forall m: NodeMetrics :: m.nodeID in members ==> multiset(Active(ms, members))[m] == multiset(ms)[m]
  {
    if ms != [] {
      var n := |ms| - 1;
      ActiveExactly(ms[..n], members);
      assert ms == ms[..n] + [ms[n]];
    }
  }

  // They keep their order.
  lemma {:induction false} ActiveInOrder(ms: seq<NodeMetrics>, members: set<NodeId>, i: nat, j: nat)
    requires i < j < |Active(ms, members)|
    ensures exists a, b :: 0 <= a < b < |ms| && ms[a] == Active(ms, members)[i] && ms[b] == Active(ms, members)[j]
  {
    var n := |ms| - 1;
    var front := Active(ms[..n], members);
    if j < |front| {
      ActiveInOrder(ms[..n], members, i, j);
      var a, b :| 0 <= a < b < n && ms[..n][a] == front[i] && ms[..n][b] == front[j];
      assert ms[a] == front[i] && ms[b] == front[j];
    } else {
      ActiveExactly(ms[..n], members);
      assert front[i] in ms[..n];
      var a :| 0 <= a < n && ms[..n][a] == front[i];
      assert ms[a] == front[i] && ms[n] == Active(ms, members)[j];
    }
  }

  lemma {:induction false} ActiveIsClean(ms: seq<NodeMetrics>, members: set<NodeId>)
    requires Clean(ms)
    ensures Clean(Active(ms, members))
  {
    var active := Active(ms, members);
    ActiveExactly(ms, members);
    forall i | 0 <= i < |active| ensures active[i].nodeID != "" && UnitUsage(active[i]) { assert active[i] in ms; }
    forall i, j | 0 <= i < j < |active| ensures active[i].nodeID != active[j].nodeID {
      ActiveInOrder(ms, members, i, j);
    }
  }

  method FilterActive(ms: seq<NodeMetrics>, members: set<NodeId>) returns (active: seq<NodeMetrics>)
    ensures active == Active(ms, members)
    ensures forall m :: m in active <==> m in ms && m.nodeID in members
  {
    active := [];
    for i := 0 to |ms|
      invariant active == Active(ms[..i], members)
    {
      if ms[i].nodeID in members {
        active := active + [ms[i]];
      }
      assert ms[..i + 1][..i] == ms[..i];
    }
    assert ms[..|ms|] == ms;
    ActiveExactly(ms, members);
  }
}
