// cluster/placement.go, GetTargetVNodeCount: largest-remainder apportionment of
// the vnodes by inverse score, over the reals.
module Apportion {
  import opened NodeOrder
  import opened Counting
  import opened Assignment
  import opened Ring
  import opened Sorting
  import Scores

  // A negative score counts as 1.
  function EffectiveScore(n: NodeInfo): (s: real)
    ensures s >= 0.0
  {
    if n.score < 0.0 then 1.0 else n.score
  }

  function Weight(n: NodeInfo): (w: real)
    ensures w > 0.0
  {
    1.0 / (EffectiveScore(n) + Scores.EPS)
  }

  function TotalWeight(ns: seq<NodeInfo>): (t: real)
    ensures t >= 0.0 && (ns != [] ==> t > 0.0)
  {
    if ns == [] then 0.0 else TotalWeight(ns[..|ns| - 1]) + Weight(ns[|ns| - 1])
  }

  // A node's exact share of the vnodes.
  function Ideal(n: NodeInfo, total: real): (x: real)
    requires total > 0.0
    ensures x > 0.0
  {
    Scores.QuotientPositive(Weight(n), total);
    (Weight(n) / total) * 1024.0
  }

  datatype Alloc = Alloc(id: NodeId, base: int, frac: real)

  function AllocOf(n: NodeInfo, total: real): Alloc
    requires total > 0.0
  {
    var ideal := Ideal(n, total);
    Alloc(n.id, ideal.Floor, ideal - ideal.Floor as real)
  }

  // ---------- Sorting by remainder ----------

  // Larger remainders first, equal remainders by id.
  predicate Before(a: Alloc, b: Alloc) {
    if a.frac == b.frac then Less(a.id, b.id) else a.frac > b.frac
  }

  // Remainders never increase along the list.
  ghost predicate Descending(xs: seq<Alloc>) {
    forall i, j :: 0 <= i < j < |xs| ==> xs[i].frac >= xs[j].frac
  }

  lemma {:induction false} BeforeOrders()
    ensures Orders(Before)
  {
    forall a: Alloc, b: Alloc | Before(a, b) ensures !Before(b, a) { LessTotal(a.id, b.id); }
    forall a: Alloc, b: Alloc, c: Alloc | !Before(b, a) && !Before(c, b) ensures !Before(c, a) {
      LessTotal(a.id, b.id);
      LessTotal(b.id, c.id);
      LessTotal(a.id, c.id);
      if Less(a.id, b.id) && Less(b.id, c.id) { LessTransitive(a.id, b.id, c.id); }
    }
  }

  lemma {:induction false} SortDescends(xs: seq<Alloc>)
    ensures Descending(Sort(Before, xs))
  {
    BeforeOrders();
    SortSorted(Before, xs);
    var ys := Sort(Before, xs);
    forall i, j | 0 <= i < j < |ys| ensures ys[i].frac >= ys[j].frac {
      assert !Before(ys[j], ys[i]);
    }
  }

  // ---------- Totals ----------

  function SumBase(xs: seq<Alloc>): int {
    if xs == [] then 0 else xs[0].base + SumBase(xs[1..])
  }

  function SumFrac(xs: seq<Alloc>): real {
    if xs == [] then 0.0 else xs[0].frac + SumFrac(xs[1..])
  }

  lemma {:induction false} InsertKeepsSums(a: Alloc, xs: seq<Alloc>)
    ensures SumBase(Insert(Before, a, xs)) == a.base + SumBase(xs)
    ensures SumFrac(Insert(Before, a, xs)) == a.frac + SumFrac(xs)
  {
    if xs != [] && !Before(a, xs[0]) {
      InsertKeepsSums(a, xs[1..]);
    }
  }

  lemma {:induction false} SortKeepsSums(xs: seq<Alloc>)
    ensures SumBase(Sort(Before, xs)) == SumBase(xs) && SumFrac(Sort(Before, xs)) == SumFrac(xs)
  {
    if xs != [] {
      SortKeepsSums(xs[1..]);
      InsertKeepsSums(xs[0], Sort(Before, xs[1..]));
    }
  }

  function Allocs(ns: seq<NodeInfo>, total: real): (xs: seq<Alloc>)
    requires total > 0.0
    ensures |xs| == |ns|
  {
    seq(|ns|, i requires 0 <= i < |ns| => AllocOf(ns[i], total))
  }

  // The shares in the order in which leftover vnodes are handed out.
  function Ranked(ns: seq<NodeInfo>, total: real): (xs: seq<Alloc>)
    requires total > 0.0
    ensures |xs| == |ns|
  {
    Sort(Before, Allocs(ns, total))
  }

  lemma {:induction false} SumsSnoc(xs: seq<Alloc>, a: Alloc)
    ensures SumBase(xs + [a]) == SumBase(xs) + a.base && SumFrac(xs + [a]) == SumFrac(xs) + a.frac
  {
    if xs != [] {
      SumsSnoc(xs[1..], a);
      assert (xs + [a])[1..] == xs[1..] + [a];
    }
  }

  lemma {:induction false} AllocIsIdeal(n: NodeInfo, total: real)
    requires total > 0.0
    ensures var a := AllocOf(n, total);
            a.base as real + a.frac == Ideal(n, total) && 0.0 <= a.frac < 1.0 && a.base >= 0
  {}

  lemma {:induction false} ScaleSum(a: real, b: real, t: real)
    requires t > 0.0
    ensures ((a + b) / t) * 1024.0 == (a / t) * 1024.0 + (b / t) * 1024.0
  {
    assert (a + b) / t == a / t + b / t;
  }

  // Floors and remainders together are the exact shares.
  lemma {:induction false} SharesAddUp(ns: seq<NodeInfo>, total: real)
    requires total > 0.0
    ensures SumBase(Allocs(ns, total)) as real + SumFrac(Allocs(ns, total)) == (TotalWeight(ns) / total) * 1024.0
    decreases |ns|
  {
    if ns != [] {
      var front, n := ns[..|ns| - 1], ns[|ns| - 1];
      SharesAddUp(front, total);
      assert Allocs(ns, total) == Allocs(front, total) + [AllocOf(n, total)];
      SumsSnoc(Allocs(front, total), AllocOf(n, total));
      AllocIsIdeal(n, total);
      ScaleSum(TotalWeight(front), Weight(n), total);
    }
  }

  lemma {:induction false} FracBounds(xs: seq<Alloc>)
    requires forall i :: 0 <= i < |xs| ==> 0.0 <= xs[i].frac < 1.0
    ensures 0.0 <= SumFrac(xs) <= |xs| as real
    ensures xs != [] ==> SumFrac(xs) < |xs| as real
  {
    if xs != [] { FracBounds(xs[1..]); }
  }

  lemma {:induction false} ZeroTail(xs: seq<Alloc>)
    requires forall i :: 0 <= i < |xs| ==> xs[i].frac == 0.0
    ensures SumFrac(xs) == 0.0
  {
    if xs != [] { ZeroTail(xs[1..]); }
  }

  lemma {:induction false} FracConcat(xs: seq<Alloc>, ys: seq<Alloc>)
    ensures SumFrac(xs + ys) == SumFrac(xs) + SumFrac(ys)
  {
    if xs == [] {
      assert xs + ys == ys;
    } else {
      FracConcat(xs[1..], ys);
      assert (xs + ys)[1..] == xs[1..] + ys;
    }
  }

  // The vnodes left after rounding down go to nodes with a positive remainder,
  // and there are fewer of them than nodes.
  lemma {:induction false} RestIsSmall(xs: seq<Alloc>, rest: int)
    requires Descending(xs) && xs != []
    requires forall i :: 0 <= i < |xs| ==> 0.0 <= xs[i].frac < 1.0
    requires rest as real == SumFrac(xs)
    ensures 0 <= rest < |xs|
    ensures forall k :: 0 <= k < rest ==> xs[k].frac > 0.0
  {
    FracBounds(xs);
    forall k | 0 <= k < rest ensures xs[k].frac > 0.0 {
      if xs[k].frac == 0.0 {
        assert xs == xs[..k] + xs[k..];
        FracConcat(xs[..k], xs[k..]);
        FracBounds(xs[..k]);
        ZeroTail(xs[k..]);
      }
    }
  }

  // ---------- What a fair result is ----------

  // The quota rule: a count is the exact share rounded down or up.
  predicate Quota(ns: seq<NodeInfo>, n: NodeInfo, count: int)
    requires ns != []
  {
    var ideal := Ideal(n, TotalWeight(ns));
    count == ideal.Floor || (count == ideal.Floor + 1 && ideal.Floor as real < ideal)
  }

  // The result as a list: sorted shares, one more vnode for the first `rest`.
  function CountAt(sorted: seq<Alloc>, rest: int, k: nat): int
    requires k < |sorted|
  {
    sorted[k].base + if k < rest then 1 else 0
  }

  ghost predicate DistinctAllocs(xs: seq<Alloc>) {
    forall i, j :: 0 <= i < j < |xs| ==> xs[i].id != xs[j].id
  }

  lemma {:induction false} RankedDistinct(ns: seq<NodeInfo>, total: real)
    requires total > 0.0 && DistinctNodes(ns)
    ensures DistinctAllocs(Ranked(ns, total))
  {
    var id := (a: Alloc) => a.id;
    assert DistinctBy(id, Allocs(ns, total));
    SortDistinct(Before, id, Allocs(ns, total));
    var sorted := Ranked(ns, total);
    forall i, j | 0 <= i < j < |sorted| ensures sorted[i].id != sorted[j].id {
      assert id(sorted[i]) != id(sorted[j]);
    }
  }

  ghost function Ids(xs: seq<Alloc>): set<NodeId> {
    set i | 0 <= i < |xs| :: xs[i].id
  }

  // With r of the nodes rounded up, the counts add up to the floors plus r.
  lemma {:induction false} CountsAddUp(xs: seq<Alloc>, r: nat, f: NodeId -> int)
    requires DistinctAllocs(xs) && r <= |xs|
    requires forall k :: 0 <= k < |xs| ==> f(xs[k].id) == CountAt(xs, r, k)
    ensures SumOver(Ids(xs), f) == SumBase(xs) + r
  {
    if xs == [] {
      assert Ids(xs) == {};
    } else {
      var tail := xs[1..];
      CountsAddUp(tail, if r == 0 then 0 else r - 1, f);
      assert xs[0].id in Ids(xs);
      SumWithout(Ids(xs), f, xs[0].id);
      assert Ids(xs) - {xs[0].id} == Ids(tail) by {
        forall n | n in Ids(xs) - {xs[0].id} ensures n in Ids(tail) {
          var i :| 0 <= i < |xs| && xs[i].id == n;
          assert tail[i - 1].id == n;
        }
        forall n | n in Ids(tail) ensures n in Ids(xs) - {xs[0].id} {
          var i :| 0 <= i < |tail| && tail[i].id == n;
          assert xs[i + 1].id == n;
        }
      }
    }
  }

  // ---------- Fairness ----------

  lemma {:induction false} WeightOrder(a: NodeInfo, b: NodeInfo)
    requires EffectiveScore(a) < EffectiveScore(b)
    ensures Weight(a) > Weight(b)
  {
    ReciprocalOrder(EffectiveScore(a) + Scores.EPS, EffectiveScore(b) + Scores.EPS);
  }

  lemma {:induction false} ReciprocalOrder(x: real, y: real)
    requires 0.0 < x < y
    ensures 1.0 / y < 1.0 / x
  {
    var u, v := 1.0 / x, 1.0 / y;
    assert u * x == 1.0;
    assert v * y == 1.0;
    ProductOrder(v, x, y);
    StrictCancel(v, u, x);
  }

  lemma {:induction false} ProductOrder(w: real, x: real, y: real)
    requires w > 0.0 && x < y
    ensures w * x < w * y
  {}

  lemma {:induction false} StrictCancel(u: real, v: real, q: real)
    requires u * q < v * q && q > 0.0
    ensures u < v
  {}

  lemma {:induction false} IdealOrder(a: NodeInfo, b: NodeInfo, total: real)
    requires EffectiveScore(a) < EffectiveScore(b) && total > 0.0
    ensures Ideal(a, total) > Ideal(b, total)
  {
    WeightOrder(a, b);
    var u, v := Weight(b) / total, Weight(a) / total;
    assert u * total == Weight(b) && v * total == Weight(a);
    StrictCancel(u, v, total);
  }

  // In a list with descending remainders where the first `rest` are rounded up,
  // the larger share never gets the smaller count.
  lemma {:induction false} LargerShareNoFewer(xs: seq<Alloc>, rest: int, k: nat, l: nat)
    requires Descending(xs) && k < |xs| && l < |xs|
    requires forall i :: 0 <= i < |xs| ==> 0.0 <= xs[i].frac < 1.0
    requires xs[k].base as real + xs[k].frac > xs[l].base as real + xs[l].frac
    ensures CountAt(xs, rest, k) >= CountAt(xs, rest, l)
  {
    if xs[k].base <= xs[l].base {
      assert xs[k].base == xs[l].base && xs[k].frac > xs[l].frac;
      assert k < l;
    }
  }

  // A lower score never gets fewer vnodes.
  ghost predicate Fair(ns: seq<NodeInfo>, counts: Targets) {
    forall i, j :: 0 <= i < |ns| && 0 <= j < |ns| && EffectiveScore(ns[i]) < EffectiveScore(ns[j]) ==>
      Get(counts, ns[i].id) >= Get(counts, ns[j].id)
  }

  ghost predicate MeetsQuota(ns: seq<NodeInfo>, counts: Targets)
    requires ns != []
  {
    forall i :: 0 <= i < |ns| ==> ns[i].id in counts && Quota(ns, ns[i], counts[ns[i].id])
  }

  // counts gives every sorted share its floor, and one more to the first `rest`.
  ghost predicate Follows(counts: Targets, sorted: seq<Alloc>, rest: int) {
    && counts.Keys == Ids(sorted)
    && forall k :: 0 <= k < |sorted| ==> sorted[k].id in counts && counts[sorted[k].id] == CountAt(sorted, rest, k)
  }

  lemma {:induction false} WhereSorted(ns: seq<NodeInfo>, total: real, i: nat) returns (k: nat)
    requires total > 0.0 && i < |ns|
    ensures k < |ns| && Ranked(ns, total)[k] == AllocOf(ns[i], total)
  {
    k := SortedMember(Before, Allocs(ns, total), i);
  }

  lemma {:induction false} ShareRange(ns: seq<NodeInfo>, total: real)
    requires total > 0.0
    ensures forall k :: 0 <= k < |ns| ==> 0.0 <= Ranked(ns, total)[k].frac < 1.0
  {
    forall k | 0 <= k < |ns| ensures 0.0 <= Ranked(ns, total)[k].frac < 1.0 {
      var i := MemberSorted(Before, Allocs(ns, total), k);
      AllocIsIdeal(ns[i], total);
    }
  }

  lemma {:induction false} FollowsIsFair(ns: seq<NodeInfo>, counts: Targets, rest: int)
    requires ns != [] && Follows(counts, Ranked(ns, TotalWeight(ns)), rest)
    ensures Fair(ns, counts)
  {
    var total := TotalWeight(ns);
    var sorted := Ranked(ns, total);
    SortDescends(Allocs(ns, total));
    ShareRange(ns, total);
    forall i, j | 0 <= i < |ns| && 0 <= j < |ns| && EffectiveScore(ns[i]) < EffectiveScore(ns[j])
      ensures Get(counts, ns[i].id) >= Get(counts, ns[j].id)
    {
      var k := WhereSorted(ns, total, i);
      var l := WhereSorted(ns, total, j);
      IdealOrder(ns[i], ns[j], total);
      AllocIsIdeal(ns[i], total);
      AllocIsIdeal(ns[j], total);
      LargerShareNoFewer(sorted, rest, k, l);
    }
  }

  lemma {:induction false} FollowsMeetsQuota(ns: seq<NodeInfo>, counts: Targets, rest: int)
    requires ns != [] && Follows(counts, Ranked(ns, TotalWeight(ns)), rest)
    requires forall k :: 0 <= k < rest && k < |ns| ==> Ranked(ns, TotalWeight(ns))[k].frac > 0.0
    ensures MeetsQuota(ns, counts)
  {
    var total := TotalWeight(ns);
    forall i | 0 <= i < |ns| ensures ns[i].id in counts && Quota(ns, ns[i], counts[ns[i].id]) {
      var k := WhereSorted(ns, total, i);
      AllocIsIdeal(ns[i], total);
    }
  }

  // ---------- The computation ----------

  ghost function IdsOf(ns: seq<NodeInfo>): set<NodeId> {
    set i | 0 <= i < |ns| :: ns[i].id
  }

  lemma {:induction false} SortedIds(ns: seq<NodeInfo>, total: real)
    requires total > 0.0
    ensures Ids(Ranked(ns, total)) == IdsOf(ns)
  {
    var xs := Allocs(ns, total);
    var sorted := Sort(Before, xs);
    forall n | n in Ids(sorted) ensures n in IdsOf(ns) {
      var k :| 0 <= k < |sorted| && sorted[k].id == n;
      var i := MemberSorted(Before, xs, k);
      assert ns[i].id == n;
    }
    forall n | n in IdsOf(ns) ensures n in Ids(sorted) {
      var i :| 0 <= i < |ns| && ns[i].id == n;
      var k := WhereSorted(ns, total, i);
      assert sorted[k].id == n;
    }
  }

  // What the counts promise: one per node, 1024 in all, each the exact share
  // rounded down or up, and never fewer for a lower score.
  ghost predicate Apportions(ns: seq<NodeInfo>, counts: Targets)
    requires ns != []
  {
    && counts.Keys == IdsOf(ns)
    && SumOver(counts.Keys, Gets(counts)) == VNODE_COUNT
    && MeetsQuota(ns, counts)
    && Fair(ns, counts)
  }

  lemma {:induction false} Whole(t: real)
    requires t > 0.0
    ensures (t / t) * 1024.0 == 1024.0
  {}

  lemma {:induction false} RestIsRemainders(ns: seq<NodeInfo>)
    requires ns != []
    ensures (VNODE_COUNT - SumBase(Allocs(ns, TotalWeight(ns)))) as real == SumFrac(Ranked(ns, TotalWeight(ns)))
  {
    var total := TotalWeight(ns);
    SharesAddUp(ns, total);
    Whole(total);
    SortKeepsSums(Allocs(ns, total));
  }

  // Rounding down leaves fewer vnodes than nodes, all for positive remainders.
  lemma {:induction false} RestOf(ns: seq<NodeInfo>, rest: int)
    requires ns != [] && rest == VNODE_COUNT - SumBase(Allocs(ns, TotalWeight(ns)))
    ensures 0 <= rest < |ns|
    ensures forall k :: 0 <= k < rest ==> Ranked(ns, TotalWeight(ns))[k].frac > 0.0
  {
    var sorted := Ranked(ns, TotalWeight(ns));
    RestIsRemainders(ns);
    SortDescends(Allocs(ns, TotalWeight(ns)));
    ShareRange(ns, TotalWeight(ns));
    RestIsSmall(sorted, rest);
  }

  lemma {:induction false} FollowsApportions(ns: seq<NodeInfo>, counts: Targets, rest: int)
    requires ns != [] && DistinctNodes(ns) && rest == VNODE_COUNT - SumBase(Allocs(ns, TotalWeight(ns)))
    requires Follows(counts, Ranked(ns, TotalWeight(ns)), rest)
    ensures Apportions(ns, counts)
  {
    var total := TotalWeight(ns);
    var xs := Allocs(ns, total);
    RestOf(ns, rest);
    FollowsIsFair(ns, counts, rest);
    FollowsMeetsQuota(ns, counts, rest);
    SortedIds(ns, total);
    RankedDistinct(ns, total);
    SortKeepsSums(xs);
    CountsAddUp(Sort(Before, xs), rest, Gets(counts));
  }

  // ---------- The same in numbers ----------

  // What a node costs per vnode: its score, or 1 if that is negative, never zero.
  function Cost(n: NodeInfo): (c: real)
    ensures c > 0.0
  {
    (if n.score < 0.0 then 1.0 else n.score) + 0.000000001
  }

  function Total(xs: seq<real>): real {
    if xs == [] then 0.0 else Total(xs[..|xs| - 1]) + xs[|xs| - 1]
  }

  function Remainder(x: real): real {
    x - x.Floor as real
  }

  // What n pays for its share.
  function Paid(share: real, n: NodeInfo): real {
    share * Cost(n)
  }

  // Shares are inversely proportional to the costs: all nodes pay the same.
  ghost predicate Inverse(ns: seq<NodeInfo>, shares: seq<real>)
    requires |shares| == |ns|
  {
    forall i, j :: 0 <= i < |ns| && 0 <= j < |ns| ==> Paid(shares[i], ns[i]) == Paid(shares[j], ns[j])
  }

  // The count of n is its share rounded up.
  predicate Up(counts: Targets, n: NodeInfo, share: real) {
    Get(counts, n.id) == share.Floor + 1
  }

  ghost predicate Rounded(ns: seq<NodeInfo>, counts: Targets, shares: seq<real>)
    requires |shares| == |ns|
  {
    forall i :: 0 <= i < |ns| ==> ns[i].id in counts && (counts[ns[i].id] == shares[i].Floor || Up(counts, ns[i], shares[i]))
  }

  // The largest remainders are rounded up, equal ones by id.
  ghost predicate LargestUp(ns: seq<NodeInfo>, counts: Targets, shares: seq<real>)
    requires |shares| == |ns|
  {
    forall i, j :: 0 <= i < |ns| && 0 <= j < |ns| && Up(counts, ns[i], shares[i]) && !Up(counts, ns[j], shares[j]) ==>
      || Remainder(shares[i]) > Remainder(shares[j])
      || (Remainder(shares[i]) == Remainder(shares[j]) && Less(ns[i].id, ns[j].id))
  }

  // All of it: the counts are 1024 shares by inverse cost, rounded by largest
  // remainder.
  ghost predicate ByScore(ns: seq<NodeInfo>, counts: Targets, shares: seq<real>) {
    && |shares| == |ns| && Total(shares) == 1024.0
    && Inverse(ns, shares) && Rounded(ns, counts, shares) && LargestUp(ns, counts, shares)
  }

  ghost function Shares(ns: seq<NodeInfo>, total: real): (xs: seq<real>)
    requires total > 0.0
    ensures |xs| == |ns|
  {
    seq(|ns|, i requires 0 <= i < |ns| => Ideal(ns[i], total))
  }

  lemma {:induction false} ShareTotal(ns: seq<NodeInfo>, total: real)
    requires total > 0.0
    ensures Total(Shares(ns, total)) == (TotalWeight(ns) / total) * 1024.0
  {
    if ns != [] {
      var front, n := ns[..|ns| - 1], ns[|ns| - 1];
      ShareTotal(front, total);
      assert Shares(ns, total)[..|ns| - 1] == Shares(front, total);
      ScaleSum(TotalWeight(front), Weight(n), total);
    }
  }

  function Budget(total: real): real
    requires total > 0.0
  {
    (1.0 / total) * 1024.0
  }

  lemma {:induction false} ShareTimesCost(n: NodeInfo, total: real)
    requires total > 0.0
    ensures Paid(Ideal(n, total), n) == Budget(total)
  {
    var w, c := Weight(n), Cost(n);
    assert w * c == 1.0;
    calc {
      (w / total) * 1024.0 * c;
    ==
      (w * c / total) * 1024.0;
    }
  }

  // Rounded up are the first of the ranking, so those with the larger remainders.
  lemma {:induction false} LargestRemainders(ns: seq<NodeInfo>, counts: Targets, rest: int, i: nat, j: nat)
    requires ns != [] && DistinctNodes(ns) && i < |ns| && j < |ns| && Follows(counts, Ranked(ns, TotalWeight(ns)), rest)
    requires var a, b := AllocOf(ns[i], TotalWeight(ns)), AllocOf(ns[j], TotalWeight(ns));
             Get(counts, a.id) == a.base + 1 && Get(counts, b.id) == b.base
    ensures Before(AllocOf(ns[i], TotalWeight(ns)), AllocOf(ns[j], TotalWeight(ns)))
  {
    var total := TotalWeight(ns);
    var k := WhereSorted(ns, total, i);
    var l := WhereSorted(ns, total, j);
    BeforeOrders();
    SortSorted(Before, Allocs(ns, total));
    assert k < rest <= l;
    assert !Before(Ranked(ns, total)[l], Ranked(ns, total)[k]);
    RankedDistinct(ns, total);
    LessTotal(ns[i].id, ns[j].id);
  }

  lemma {:induction false} SharesInverse(ns: seq<NodeInfo>, total: real)
    requires total > 0.0
    ensures Inverse(ns, Shares(ns, total))
  {
    var shares := Shares(ns, total);
    forall i | 0 <= i < |ns| ensures Paid(shares[i], ns[i]) == Budget(total) { ShareTimesCost(ns[i], total); }
  }

  lemma {:induction false} FollowsLargest(ns: seq<NodeInfo>, counts: Targets, rest: int)
    requires ns != [] && DistinctNodes(ns) && Follows(counts, Ranked(ns, TotalWeight(ns)), rest)
    requires Rounded(ns, counts, Shares(ns, TotalWeight(ns)))
    ensures LargestUp(ns, counts, Shares(ns, TotalWeight(ns)))
  {
    var total := TotalWeight(ns);
    var shares := Shares(ns, total);
    forall i, j | 0 <= i < |ns| && 0 <= j < |ns| && Up(counts, ns[i], shares[i]) && !Up(counts, ns[j], shares[j])
      ensures Before(AllocOf(ns[i], total), AllocOf(ns[j], total))
    {
      LargestRemainders(ns, counts, rest, i, j);
    }
  }

  lemma {:induction false} QuotaRounds(ns: seq<NodeInfo>, counts: Targets)
    requires ns != [] && MeetsQuota(ns, counts)
    ensures Rounded(ns, counts, Shares(ns, TotalWeight(ns)))
  {
    forall i | 0 <= i < |ns| ensures Quota(ns, ns[i], Get(counts, ns[i].id)) && ns[i].id in counts {}
  }

  lemma {:induction false} FollowsByScore(ns: seq<NodeInfo>, counts: Targets, rest: int)
    requires ns != [] && DistinctNodes(ns) && Follows(counts, Ranked(ns, TotalWeight(ns)), rest) && MeetsQuota(ns, counts)
    ensures ByScore(ns, counts, Shares(ns, TotalWeight(ns)))
  {
    var total := TotalWeight(ns);
    ShareTotal(ns, total);
    Whole(total);
    SharesInverse(ns, total);
    QuotaRounds(ns, counts);
    FollowsLargest(ns, counts, rest);
  }

  method GetTargetVNodeCount(ns: seq<NodeInfo>) returns (counts: Targets)
    ensures ns == [] ==> counts == map[]
    ensures ns != [] && DistinctNodes(ns) ==> Apportions(ns, counts) && exists shares :: ByScore(ns, counts, shares)
  {
    counts := map[];
    if |ns| == 0 {
      return;
    }
    var total := 0.0;
    for i := 0 to |ns|
      invariant total == TotalWeight(ns[..i])
    {
      total := total + Weight(ns[i]);
      assert ns[..i + 1][..i] == ns[..i];
    }
    assert ns[..|ns|] == ns;
    var allocs, given := [], 0;
    for i := 0 to |ns|
      invariant allocs == Allocs(ns, total)[..i] && given == SumBase(allocs)
    {
      SumsSnoc(allocs, AllocOf(ns[i], total));
      allocs := allocs + [AllocOf(ns[i], total)];
      given := given + AllocOf(ns[i], total).base;
      assert allocs == Allocs(ns, total)[..i + 1];
    }
    assert allocs == Allocs(ns, total);
    var sorted := Sort(Before, allocs);
    var rest := VNODE_COUNT - given;
    RestOf(ns, rest);
    counts := Distribute(sorted, rest);
    if DistinctNodes(ns) {
      RankedDistinct(ns, total);
      FollowsApportions(ns, counts, rest);
      FollowsByScore(ns, counts, rest);
    }
  }

  // Every node gets its floor, then the first `rest` get one more.
  method Distribute(sorted: seq<Alloc>, rest: nat) returns (counts: Targets)
    requires rest <= |sorted|
    ensures DistinctAllocs(sorted) ==> Follows(counts, sorted, rest)
  {
    counts := map[];
    for i := 0 to |sorted|
      invariant counts.Keys == Ids(sorted[..i])
      invariant DistinctAllocs(sorted) ==> forall k :: 0 <= k < i ==> counts[sorted[k].id] == sorted[k].base
    {
      counts := counts[sorted[i].id := sorted[i].base];
      assert Ids(sorted[..i + 1]) == Ids(sorted[..i]) + {sorted[i].id};
    }
    assert sorted[..|sorted|] == sorted;
    for i := 0 to rest
      invariant counts.Keys == Ids(sorted)
      invariant DistinctAllocs(sorted) ==>
                  forall k :: 0 <= k < |sorted| ==> counts[sorted[k].id] == CountAt(sorted, i, k)
    {
      assert sorted[i].id in Ids(sorted);
      counts := counts[sorted[i].id := counts[sorted[i].id] + 1];
    }
  }
}
