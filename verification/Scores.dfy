// cluster/score.go: the cost score of every node, over the reals.
module Scores {
  import opened NodeOrder
  import opened Ring

  datatype NodeMetrics = NodeMetrics(
    nodeID: NodeId, avgRTT: real,
    cpuCores: int, memGB: int, bandwidthMbps: int, diskGB: int,
    cpuUsage: real, memUsage: real, netUsage: real, diskUsage: real)

  const WEIGHT_RTT := 0.31
  const WEIGHT_CPU := 0.15
  const WEIGHT_MEM := 0.16
  const WEIGHT_NET := 0.24
  const WEIGHT_DISK := 0.14
  const EPS := 0.000000001

  function MaxInt(v: int, fallback: int): int {
    if v > 0 then v else fallback
  }

  function ClampMetric(v: real): real {
    if v < 0.0 then 0.0 else if v > 1.0 then 1.0 else v
  }

  // ---------- Averages ----------

  // What each metric contributes to its cluster total.
  datatype Quantity = Rtt | Cpu | Mem | Net | Disk

  function Part(q: Quantity, m: NodeMetrics): (r: real)
    ensures r > 0.0
  {
    match q
    case Rtt => if m.avgRTT <= 0.0 then 1.0 else m.avgRTT
    case Cpu => MaxInt(m.cpuCores, 1) as real
    case Mem => MaxInt(m.memGB, 1) as real
    case Net => MaxInt(m.bandwidthMbps, 1) as real
    case Disk => MaxInt(m.diskGB, 1) as real
  }

  function Sum(q: Quantity, ms: seq<NodeMetrics>): (r: real)
    ensures r >= 0.0 && (ms != [] ==> r > 0.0)
  {
    if ms == [] then 0.0 else Sum(q, ms[..|ms| - 1]) + Part(q, ms[|ms| - 1])
  }

  lemma {:induction false} QuotientPositive(x: real, y: real)
    requires x > 0.0 && y > 0.0
    ensures x / y > 0.0
  {}

  function Average(q: Quantity, ms: seq<NodeMetrics>): (r: real)
    requires ms != []
    ensures r > 0.0
  {
    QuotientPositive(Sum(q, ms), |ms| as real);
    Sum(q, ms) / (|ms| as real)
  }

  // A node's capacity relative to the cluster average.
  function Relative(q: Quantity, ms: seq<NodeMetrics>, m: NodeMetrics): (r: real)
    requires ms != []
    ensures r > 0.0
  {
    QuotientPositive(Part(q, m), Average(q, ms));
    Part(q, m) / Average(q, ms)
  }

  // A node without a measured round trip counts as average.
  function EffectiveRTT(ms: seq<NodeMetrics>, m: NodeMetrics): (r: real)
    requires ms != []
    ensures r > 0.0
  {
    if m.avgRTT <= 0.0 then Average(Rtt, ms) else m.avgRTT
  }

  function DiskPenalty(m: NodeMetrics): (r: real)
    ensures r > 0.0
  {
    var usage := ClampMetric(m.diskUsage);
    1.0 / (1.01 - if usage < 0.99 then usage else 0.99)
  }

  function Score(ms: seq<NodeMetrics>, m: NodeMetrics): real
    requires ms != []
  {
    WEIGHT_RTT * (EffectiveRTT(ms, m) / (Average(Rtt, ms) + EPS))
    + WEIGHT_CPU * (ClampMetric(m.cpuUsage) / Relative(Cpu, ms, m))
    + WEIGHT_MEM * (ClampMetric(m.memUsage) / Relative(Mem, ms, m))
    + WEIGHT_NET * (ClampMetric(m.netUsage) / Relative(Net, ms, m))
    + WEIGHT_DISK * (DiskPenalty(m) / Relative(Disk, ms, m))
  }

  // ---------- Laws ----------

  lemma {:induction false} Cancel(u: real, v: real, q: real)
    requires u * q <= v * q && q > 0.0
    ensures u <= v
  {}

  lemma {:induction false} QuotientOrder(x: real, y: real, p: real, q: real)
    requires 0.0 <= x <= y && p >= q > 0.0
    ensures 0.0 <= x / p <= y / q
  {
    var u, v := x / p, y / q;
    assert u * p == x && v * q == y && u >= 0.0;
    assert u * q <= u * p;
    Cancel(u, v, q);
  }

  lemma {:induction false} ScorePositive(ms: seq<NodeMetrics>, m: NodeMetrics)
    requires ms != []
    ensures Score(ms, m) > 0.0
  {
    QuotientPositive(EffectiveRTT(ms, m), Average(Rtt, ms) + EPS);
    QuotientOrder(0.0, ClampMetric(m.cpuUsage), Relative(Cpu, ms, m), Relative(Cpu, ms, m));
    QuotientOrder(0.0, ClampMetric(m.memUsage), Relative(Mem, ms, m), Relative(Mem, ms, m));
    QuotientOrder(0.0, ClampMetric(m.netUsage), Relative(Net, ms, m), Relative(Net, ms, m));
    QuotientPositive(DiskPenalty(m), Relative(Disk, ms, m));
  }

  // a is no worse than b: no slower, no smaller and no busier.
  predicate NoWorse(ms: seq<NodeMetrics>, a: NodeMetrics, b: NodeMetrics)
    requires ms != []
  {
    && EffectiveRTT(ms, a) <= EffectiveRTT(ms, b)
    && Part(Cpu, a) >= Part(Cpu, b) && Part(Mem, a) >= Part(Mem, b)
    && Part(Net, a) >= Part(Net, b) && Part(Disk, a) >= Part(Disk, b)
    && a.cpuUsage <= b.cpuUsage && a.memUsage <= b.memUsage
    && a.netUsage <= b.netUsage && a.diskUsage <= b.diskUsage
  }

  lemma {:induction false} RelativeOrder(q: Quantity, ms: seq<NodeMetrics>, a: NodeMetrics, b: NodeMetrics)
    requires ms != [] && Part(q, a) >= Part(q, b)
    ensures Relative(q, ms, a) >= Relative(q, ms, b)
  {
    QuotientOrder(Part(q, b), Part(q, a), Average(q, ms), Average(q, ms));
  }

  // The score is a cost: a node that is no worse in every metric never scores higher.
  lemma {:induction false} NoWorseScoresNoHigher(ms: seq<NodeMetrics>, a: NodeMetrics, b: NodeMetrics)
    requires ms != [] && NoWorse(ms, a, b)
    ensures Score(ms, a) <= Score(ms, b)
  {
    QuotientOrder(EffectiveRTT(ms, a), EffectiveRTT(ms, b), Average(Rtt, ms) + EPS, Average(Rtt, ms) + EPS);
    RelativeOrder(Cpu, ms, a, b);
    QuotientOrder(ClampMetric(a.cpuUsage), ClampMetric(b.cpuUsage), Relative(Cpu, ms, a), Relative(Cpu, ms, b));
    RelativeOrder(Mem, ms, a, b);
    QuotientOrder(ClampMetric(a.memUsage), ClampMetric(b.memUsage), Relative(Mem, ms, a), Relative(Mem, ms, b));
    RelativeOrder(Net, ms, a, b);
    QuotientOrder(ClampMetric(a.netUsage), ClampMetric(b.netUsage), Relative(Net, ms, a), Relative(Net, ms, b));
    RelativeOrder(Disk, ms, a, b);
    PenaltyOrder(a, b);
    QuotientOrder(DiskPenalty(a), DiskPenalty(b), Relative(Disk, ms, a), Relative(Disk, ms, b));
  }

  lemma {:induction false} PenaltyOrder(a: NodeMetrics, b: NodeMetrics)
    requires a.diskUsage <= b.diskUsage
    ensures DiskPenalty(a) <= DiskPenalty(b)
  {
    var u, v := ClampMetric(a.diskUsage), ClampMetric(b.diskUsage);
    var p, q := 1.01 - (if u < 0.99 then u else 0.99), 1.01 - (if v < 0.99 then v else 0.99);
    QuotientOrder(1.0, 1.0, p, q);
  }

  // ---------- The score in numbers ----------

  lemma {:induction false} QuotientIs(x: real, y: real, n: real)
    requires n > 0.0 && x == y * n
    ensures x / n == y
  {}

  ghost function Times(n: nat, p: real): real {
    if n == 0 then 0.0 else Times(n - 1, p) + p
  }

  lemma {:induction false} TimesIs(n: nat, p: real)
    ensures Times(n, p) == p * n as real
  {
    if n > 0 {
      TimesIs(n - 1, p);
    }
  }

  lemma {:induction false} SumOfEqual(q: Quantity, ms: seq<NodeMetrics>, p: real)
    requires forall i :: 0 <= i < |ms| ==> Part(q, ms[i]) == p
    ensures Sum(q, ms) == Times(|ms|, p)
  {
    if ms != [] {
      SumOfEqual(q, ms[..|ms| - 1], p);
    }
  }

  ghost predicate Equal(q: Quantity, ms: seq<NodeMetrics>, m: NodeMetrics) {
    forall i :: 0 <= i < |ms| ==> Part(q, ms[i]) == Part(q, m)
  }

  // A cluster of nodes alike: the same positive round trip and capacities.
  ghost predicate Alike(ms: seq<NodeMetrics>, m: NodeMetrics) {
    Equal(Rtt, ms, m) && Equal(Cpu, ms, m) && Equal(Mem, ms, m) && Equal(Net, ms, m) && Equal(Disk, ms, m)
  }

  lemma {:induction false} AverageOfEqual(q: Quantity, ms: seq<NodeMetrics>, m: NodeMetrics)
    requires ms != [] && Equal(q, ms, m)
    ensures Average(q, ms) == Part(q, m) && Relative(q, ms, m) == 1.0
  {
    SumOfEqual(q, ms, Part(q, m));
    AverageOfTimes(q, ms, Part(q, m));
    QuotientIs(Part(q, m), 1.0, Part(q, m));
  }

  lemma {:induction false} AverageOfTimes(q: Quantity, ms: seq<NodeMetrics>, p: real)
    requires ms != [] && Sum(q, ms) == Times(|ms|, p)
    ensures Average(q, ms) == p
  {
    TimesOver(|ms|, p);
  }

  lemma {:induction false} TimesOver(n: nat, p: real)
    requires n > 0
    ensures Times(n, p) / n as real == p
  {
    TimesIs(n, p);
    QuotientIs(Times(n, p), p, n as real);
  }

  // What is missing counts as one, usages outside the unit range as its ends.
  lemma {:induction false} MissingCountsAsOne(m: NodeMetrics, v: real)
    ensures Part(Rtt, m) == (if m.avgRTT > 0.0 then m.avgRTT else 1.0)
    ensures Part(Cpu, m) == (if m.cpuCores > 0 then m.cpuCores as real else 1.0)
    ensures Part(Mem, m) == (if m.memGB > 0 then m.memGB as real else 1.0)
    ensures Part(Net, m) == (if m.bandwidthMbps > 0 then m.bandwidthMbps as real else 1.0)
    ensures Part(Disk, m) == (if m.diskGB > 0 then m.diskGB as real else 1.0)
    ensures ClampMetric(v) == (if v >= 1.0 then 1.0 else if v <= 0.0 then 0.0 else v)
  {}

  // What an average node scores: 31% round trip, 15% processor, 16% memory, 24%
  // network, and 14% of a disk penalty that grows from about 1 to 50.
  lemma {:induction false} AverageNodeScores(ms: seq<NodeMetrics>, m: NodeMetrics)
    requires ms != [] && Alike(ms, m) && m.avgRTT > 0.0
    requires 0.0 <= m.cpuUsage <= 1.0 && 0.0 <= m.memUsage <= 1.0 && 0.0 <= m.netUsage <= 1.0 && 0.0 <= m.diskUsage <= 1.0
    ensures Score(ms, m) == 0.31 * (m.avgRTT / (m.avgRTT + 0.000000001))
                            + 0.15 * m.cpuUsage + 0.16 * m.memUsage + 0.24 * m.netUsage
                            + 0.14 * (1.0 / (if m.diskUsage <= 0.99 then 1.01 - m.diskUsage else 0.02))
  {
    AverageOfEqual(Rtt, ms, m);
    AverageOfEqual(Cpu, ms, m);
    AverageOfEqual(Mem, ms, m);
    AverageOfEqual(Net, ms, m);
    AverageOfEqual(Disk, ms, m);
  }

  // The part of the score that comes from the round trip to the node.
  function RttScore(ms: seq<NodeMetrics>, m: NodeMetrics): real
    requires ms != []
  {
    0.31 * ((if m.avgRTT > 0.0 then m.avgRTT else Average(Rtt, ms)) / (Average(Rtt, ms) + 0.000000001))
  }

  lemma {:induction false} ScaledQuotient(x: real, p: real, k: real)
    requires p > 0.0 && k > 0.0
    ensures k * p > 0.0 && x / (k * p) * k == x / p
  {
    var u := x / (k * p);
    assert u * (k * p) == x;
    assert (u * k) * p == u * (k * p);
    QuotientIs(x, u * k, p);
  }

  lemma {:induction false} ScaledPart(p: real, avg: real, k: real)
    requires avg > 0.0
    ensures (k * p) / avg == k * (p / avg)
  {
    var u := p / avg;
    assert u * avg == p;
    assert (k * u) * avg == k * (u * avg);
    QuotientIs(k * p, k * u, avg);
  }

  // How much a resource is used, as the score counts it.
  ghost function Used(q: Quantity, m: NodeMetrics): real {
    match q
    case Rtt => 0.0
    case Cpu => ClampMetric(m.cpuUsage)
    case Mem => ClampMetric(m.memUsage)
    case Net => ClampMetric(m.netUsage)
    case Disk => DiskPenalty(m)
  }

  // b has k times as much of the resource, and uses the same share of it.
  ghost predicate Scaled(q: Quantity, a: NodeMetrics, b: NodeMetrics, k: real) {
    Part(q, b) == k * Part(q, a) && Used(q, b) == Used(q, a)
  }

  // b is k times as large as a, and as far and as busy.
  ghost predicate Larger(a: NodeMetrics, b: NodeMetrics, k: real) {
    && b.avgRTT == a.avgRTT
    && Scaled(Cpu, a, b, k) && Scaled(Mem, a, b, k) && Scaled(Net, a, b, k) && Scaled(Disk, a, b, k)
  }

  // Use of a resource relative to the node's size.
  ghost function Load(q: Quantity, ms: seq<NodeMetrics>, m: NodeMetrics): real
    requires ms != []
  {
    Used(q, m) / Relative(q, ms, m)
  }

  ghost function LoadScore(ms: seq<NodeMetrics>, m: NodeMetrics): real
    requires ms != []
  {
    0.15 * Load(Cpu, ms, m) + 0.16 * Load(Mem, ms, m) + 0.24 * Load(Net, ms, m) + 0.14 * Load(Disk, ms, m)
  }

  // A score is made of round trip and load.
  lemma {:induction false} ScoreParts(ms: seq<NodeMetrics>, m: NodeMetrics)
    requires ms != []
    ensures Score(ms, m) == RttScore(ms, m) + LoadScore(ms, m)
  {}

  lemma {:induction false} ScaledLoad(q: Quantity, ms: seq<NodeMetrics>, a: NodeMetrics, b: NodeMetrics, k: real)
    requires ms != [] && k > 0.0 && Scaled(q, a, b, k)
    ensures LoadScales(q, ms, a, b, k)
  {
    ScaledPart(Part(q, a), Average(q, ms), k);
    ScaledQuotient(Used(q, a), Relative(q, ms, a), k);
  }

  ghost predicate LoadScales(q: Quantity, ms: seq<NodeMetrics>, a: NodeMetrics, b: NodeMetrics, k: real)
    requires ms != []
  {
    Load(q, ms, b) * k == Load(q, ms, a)
  }

  lemma {:induction false} WeightedScales(c: real, m: real, n: real, d: real, k: real)
    ensures (0.15 * c + 0.16 * m + 0.24 * n + 0.14 * d) * k == 0.15 * (c * k) + 0.16 * (m * k) + 0.24 * (n * k) + 0.14 * (d * k)
  {}

  lemma {:induction false} LoadScoreScales(ms: seq<NodeMetrics>, a: NodeMetrics, b: NodeMetrics, k: real)
    requires ms != [] && LoadScales(Cpu, ms, a, b, k) && LoadScales(Mem, ms, a, b, k)
    requires LoadScales(Net, ms, a, b, k) && LoadScales(Disk, ms, a, b, k)
    ensures LoadScore(ms, b) * k == LoadScore(ms, a)
  {
    WeightedScales(Load(Cpu, ms, b), Load(Mem, ms, b), Load(Net, ms, b), Load(Disk, ms, b), k);
  }

  // The same load weighs 1/k on a node that is k times as large.
  lemma {:induction false} SizeDividesLoad(ms: seq<NodeMetrics>, a: NodeMetrics, b: NodeMetrics, k: real)
    requires ms != [] && k > 0.0 && Larger(a, b, k)
    ensures LoadScore(ms, b) * k == LoadScore(ms, a) && RttScore(ms, b) == RttScore(ms, a)
  {
    ScaledLoad(Cpu, ms, a, b, k);
    ScaledLoad(Mem, ms, a, b, k);
    ScaledLoad(Net, ms, a, b, k);
    ScaledLoad(Disk, ms, a, b, k);
    LoadScoreScales(ms, a, b, k);
  }

  // ---------- The calculation ----------

  method CalculateScores(ms: seq<NodeMetrics>) returns (scores: seq<NodeInfo>)
    ensures |scores| == |ms|
    ensures forall i :: 0 <= i < |ms| ==>
              scores[i].id == ms[i].nodeID && scores[i].score == Score(ms, ms[i]) && scores[i].score > 0.0
  {
    scores := [];
    if |ms| == 0 {
      return;
    }
    var totalRTT, totalCPU, totalMem, totalNet, totalDisk := 0.0, 0.0, 0.0, 0.0, 0.0;
    for i := 0 to |ms|
      invariant totalRTT == Sum(Rtt, ms[..i]) && totalCPU == Sum(Cpu, ms[..i]) && totalMem == Sum(Mem, ms[..i])
      invariant totalNet == Sum(Net, ms[..i]) && totalDisk == Sum(Disk, ms[..i])
    {
      var m := ms[i];
      var rtt := if m.avgRTT <= 0.0 then 1.0 else m.avgRTT;
      totalRTT := totalRTT + rtt;
      totalCPU := totalCPU + MaxInt(m.cpuCores, 1) as real;
      totalMem := totalMem + MaxInt(m.memGB, 1) as real;
      totalNet := totalNet + MaxInt(m.bandwidthMbps, 1) as real;
      totalDisk := totalDisk + MaxInt(m.diskGB, 1) as real;
      assert ms[..i + 1][..i] == ms[..i];
    }
    assert ms[..|ms|] == ms;
    var n := |ms| as real;
    var avgRTT, avgCPU, avgMem, avgNet, avgDisk := totalRTT / n, totalCPU / n, totalMem / n, totalNet / n, totalDisk / n;
    for i := 0 to |ms|
      invariant |scores| == i
      invariant forall j :: 0 <= j < i ==>
                  scores[j].id == ms[j].nodeID && scores[j].score == Score(ms, ms[j]) && scores[j].score > 0.0
    {
      ScorePositive(ms, ms[i]);
      var score := ScoreNode(ms[i], avgRTT, avgCPU, avgMem, avgNet, avgDisk, ms);
      scores := scores + [NodeInfo(ms[i].nodeID, score)];
    }
  }

  // The score of one node, given the averages.
  method ScoreNode(m: NodeMetrics, avgRTT: real, avgCPU: real, avgMem: real, avgNet: real, avgDisk: real,
                   ghost ms: seq<NodeMetrics>) returns (score: real)
    requires ms != [] && avgRTT == Average(Rtt, ms) && avgCPU == Average(Cpu, ms) && avgMem == Average(Mem, ms)
    requires avgNet == Average(Net, ms) && avgDisk == Average(Disk, ms)
    ensures score == Score(ms, m)
  {
    assert MaxInt(m.cpuCores, 1) as real / avgCPU == Relative(Cpu, ms, m);
    assert MaxInt(m.memGB, 1) as real / avgMem == Relative(Mem, ms, m);
    assert MaxInt(m.bandwidthMbps, 1) as real / avgNet == Relative(Net, ms, m);
    assert MaxInt(m.diskGB, 1) as real / avgDisk == Relative(Disk, ms, m);
    var rtt := if m.avgRTT <= 0.0 then avgRTT else m.avgRTT;
    var rsCPU, rsMem := MaxInt(m.cpuCores, 1) as real / avgCPU, MaxInt(m.memGB, 1) as real / avgMem;
    var rsNet, rsDisk := MaxInt(m.bandwidthMbps, 1) as real / avgNet, MaxInt(m.diskGB, 1) as real / avgDisk;
    var diskUsage := ClampMetric(m.diskUsage);
    var penalty := 1.0 / (1.01 - if diskUsage < 0.99 then diskUsage else 0.99);
    score :=
      WEIGHT_RTT * (rtt / (avgRTT + EPS))
      + WEIGHT_CPU * (ClampMetric(m.cpuUsage) / rsCPU)
      + WEIGHT_MEM * (ClampMetric(m.memUsage) / rsMem)
      + WEIGHT_NET * (ClampMetric(m.netUsage) / rsNet)
      + WEIGHT_DISK * (penalty / rsDisk);
  }
}
