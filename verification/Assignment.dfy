// cluster/placement.go, AssignVNodes: moving vnodes between primaries so that
// every node ends with its target count.
module Assignment {
  import opened NodeOrder
  import opened Counting

  type Targets = map<NodeId, int>

  // Rendezvous weight of a node for a vnode (xxhash of "node:vnode").
  type Weigh = (NodeId, nat) -> nat

  // Number of vnodes a node is meant to have; a missing or negative target is none.
  function Want(targets: Targets, n: NodeId): nat {
    if n in targets && targets[n] > 0 then targets[n] else 0
  }

  // ---------- Which vnodes keep their primary ----------

  // Vnode i keeps its primary when the primary is still a node and has no more
  // vnodes from i on than it may have: every node keeps its last vnodes.
  predicate Keeps(ps: seq<NodeId>, targets: Targets, i: nat)
    requires i < |ps|
  {
    ps[i] != "" && ps[i] in targets && Count(ps[i..], ps[i]) <= targets[ps[i]]
  }

  function Strip(ps: seq<NodeId>, targets: Targets): (r: seq<NodeId>)
    ensures |r| == |ps|
  {
    seq(|ps|, i requires 0 <= i < |ps| => if Keeps(ps, targets, i) then ps[i] else "")
  }

  // ---------- Where the others go ----------

  function Deficit(ps: seq<NodeId>, targets: Targets, n: NodeId): int {
    Want(targets, n) - Count(ps, n)
  }

  // n outweighs m for vnode i; equal weights fall to the smaller id.
  predicate Beats(weigh: Weigh, i: nat, n: NodeId, m: NodeId) {
    weigh(n, i) > weigh(m, i) || (weigh(n, i) == weigh(m, i) && Less(n, m))
  }

  // n is a node that still needs vnodes and beats every other such node.
  ghost predicate IsBest(ps: seq<NodeId>, targets: Targets, weigh: Weigh, i: nat, n: NodeId) {
    && n != "" && n in targets && Deficit(ps, targets, n) > 0
    && forall m :: m in targets && m != "" && m != n && Deficit(ps, targets, m) > 0 ==> Beats(weigh, i, n, m)
  }

  ghost function Best(ps: seq<NodeId>, targets: Targets, weigh: Weigh, i: nat): (n: NodeId)
    ensures n != "" ==> IsBest(ps, targets, weigh, i, n)
  {
    if exists n :: IsBest(ps, targets, weigh, i, n) then
      var n :| IsBest(ps, targets, weigh, i, n);
      n
    else ""
  }

  // Gives vnodes i, i+1, ... without a primary to the best node in turn.
  ghost function Fill(ps: seq<NodeId>, targets: Targets, weigh: Weigh, i: nat): (r: seq<NodeId>)
    requires i <= |ps|
    ensures |r| == |ps|
    decreases |ps| - i
  {
    if i == |ps| then ps
    else Fill(if ps[i] == "" then ps[i := Best(ps, targets, weigh, i)] else ps, targets, weigh, i + 1)
  }

  ghost function Reassign(ps: seq<NodeId>, targets: Targets, weigh: Weigh): (r: seq<NodeId>)
    ensures |r| == |ps|
  {
    Fill(Strip(ps, targets), targets, weigh, 0)
  }

  lemma {:induction false} BestIsUnique(ps: seq<NodeId>, targets: Targets, weigh: Weigh, i: nat, n: NodeId, m: NodeId)
    requires IsBest(ps, targets, weigh, i, n) && IsBest(ps, targets, weigh, i, m)
    ensures n == m
  {
    LessTotal(n, m);
  }

  // ---------- A best node exists while any node needs vnodes ----------

  lemma {:induction false} StrongestExists(weigh: Weigh, i: nat, ns: set<NodeId>) returns (n: NodeId)
    requires ns != {}
    ensures n in ns && forall m :: m in ns && m != n ==> Beats(weigh, i, n, m)
    decreases |ns|
  {
    n :| n in ns;
    if ns != {n} {
      var rest := ns - {n};
      assert ns == rest + {n};
      var r := StrongestExists(weigh, i, rest);
      LessTotal(n, r);
      if Beats(weigh, i, r, n) {
        n := r;
      } else {
        forall m | m in rest && m != r && weigh(n, i) == weigh(r, i) == weigh(m, i) ensures Less(n, m) {
          LessTransitive(n, r, m);
        }
      }
    }
  }

  lemma {:induction false} BestExists(ps: seq<NodeId>, targets: Targets, weigh: Weigh, i: nat, n: NodeId)
    requires n in targets && n != "" && Deficit(ps, targets, n) > 0
    ensures Best(ps, targets, weigh, i) != ""
  {
    var needy := set m | m in targets && m != "" && Deficit(ps, targets, m) > 0;
    assert n in needy;
    var b := StrongestExists(weigh, i, needy);
    assert IsBest(ps, targets, weigh, i, b);
  }

  // ---------- What stripping leaves ----------

  function Min(a: int, b: int): int {
    if a < b then a else b
  }

  lemma {:induction false} StripTail(ps: seq<NodeId>, targets: Targets)
    requires ps != []
    ensures Strip(ps, targets)[1..] == Strip(ps[1..], targets)
  {
    forall i: nat | i < |ps| - 1 ensures Keeps(ps[1..], targets, i) == Keeps(ps, targets, i + 1) {
      assert ps[1..][i..] == ps[i + 1..];
    }
  }

  // Each node keeps all its vnodes up to its target.
  lemma {:induction false} StripCounts(ps: seq<NodeId>, targets: Targets, n: NodeId)
    requires n != ""
    ensures Count(Strip(ps, targets), n) == Min(Count(ps, n), Want(targets, n))
  {
    if ps != [] {
      StripTail(ps, targets);
      StripCounts(ps[1..], targets, n);
      assert ps[0..] == ps;
    }
  }

  // ---------- What filling reaches ----------

  ghost function Nodes(targets: Targets): set<NodeId> {
    targets.Keys - {""}
  }

  ghost function Wants(targets: Targets): NodeId -> int {
    n => Want(targets, n)
  }

  ghost function TotalWant(targets: Targets): int {
    SumOver(Nodes(targets), Wants(targets))
  }

  ghost predicate Within(ps: seq<NodeId>, targets: Targets) {
    && (forall i :: 0 <= i < |ps| ==> ps[i] in targets || ps[i] == "")
    && (forall n :: n != "" ==> Count(ps, n) <= Want(targets, n))
  }

  // While a vnode is open some node needs one; when none is, none does.
  lemma {:induction false} OpenMeansNeeded(ps: seq<NodeId>, targets: Targets)
    requires Within(ps, targets) && TotalWant(targets) == |ps|
    ensures Count(ps, "") > 0 ==> exists n :: n in Nodes(targets) && Deficit(ps, targets, n) > 0
    ensures Count(ps, "") == 0 ==> forall n :: n in Nodes(targets) ==> Count(ps, n) == Want(targets, n)
  {
    var ns := Nodes(targets);
    CountInIsSum(ps, ns);
    CountInAll(ps, ns);
    SumAtMost(ns, Counts(ps), Wants(targets));
    if Count(ps, "") > 0 {
      var n :| n in ns && Counts(ps)(n) != Wants(targets)(n);
      assert Deficit(ps, targets, n) > 0;
    } else {
      forall n | n in ns ensures Count(ps, n) == Want(targets, n) {
        assert Counts(ps)(n) == Wants(targets)(n);
      }
    }
  }

  lemma {:induction false} FillOne(ps: seq<NodeId>, targets: Targets, weigh: Weigh, i: nat)
    requires Within(ps, targets) && i < |ps| && ps[i] == "" && Best(ps, targets, weigh, i) != ""
    ensures var ps' := ps[i := Best(ps, targets, weigh, i)];
            && Within(ps', targets)
            && forall m :: m != "" ==> Deficit(ps', targets, m) <= Deficit(ps, targets, m)
  {
    var b := Best(ps, targets, weigh, i);
    var ps' := ps[i := b];
    forall m | m != "" ensures Count(ps', m) == Count(ps, m) + (if b == m then 1 else 0) {
      CountUpdate(ps, i, b, m);
    }
  }

  // r keeps what ps assigns, gives every open vnode to a node that needed one,
  // and gives no node more than its target.
  ghost predicate Completes(ps: seq<NodeId>, targets: Targets, r: seq<NodeId>) {
    && |r| == |ps| && Within(r, targets)
    && forall j :: 0 <= j < |ps| ==>
         r[j] != "" && if ps[j] != "" then r[j] == ps[j] else Deficit(ps, targets, r[j]) > 0
  }

  lemma {:induction false} FillCompletes(ps: seq<NodeId>, targets: Targets, weigh: Weigh, i: nat)
    requires Within(ps, targets) && TotalWant(targets) == |ps| && i <= |ps|
    requires forall j :: 0 <= j < i ==> ps[j] != ""
    ensures Completes(ps, targets, Fill(ps, targets, weigh, i))
    decreases |ps| - i
  {
    if i < |ps| {
      if ps[i] != "" {
        FillCompletes(ps, targets, weigh, i + 1);
      } else {
        CountZero(ps, "");
        OpenMeansNeeded(ps, targets);
        var n :| n in Nodes(targets) && Deficit(ps, targets, n) > 0;
        BestExists(ps, targets, weigh, i, n);
        FillOne(ps, targets, weigh, i);
        FillCompletes(ps[i := Best(ps, targets, weigh, i)], targets, weigh, i + 1);
      }
    }
  }

  lemma {:induction false} StripWithin(ps: seq<NodeId>, targets: Targets)
    ensures Within(Strip(ps, targets), targets)
  {
    forall n | n != "" ensures Count(Strip(ps, targets), n) <= Want(targets, n) {
      StripCounts(ps, targets, n);
    }
  }

  // ---------- The three promises ----------

  // Every node has exactly its target and no vnode is left without a primary.
  ghost predicate Meets(ps: seq<NodeId>, targets: Targets) {
    && (forall i :: 0 <= i < |ps| ==> ps[i] in Nodes(targets))
    && (forall n :: n in Nodes(targets) ==> Count(ps, n) == Want(targets, n))
  }

  lemma {:induction false} ReassignMeetsTargets(ps: seq<NodeId>, targets: Targets, weigh: Weigh)
    requires TotalWant(targets) == |ps|
    ensures Meets(Reassign(ps, targets, weigh), targets)
  {
    StripWithin(ps, targets);
    FillCompletes(Strip(ps, targets), targets, weigh, 0);
    var r := Reassign(ps, targets, weigh);
    CountZero(r, "");
    OpenMeansNeeded(r, targets);
  }

  // A vnode keeps its primary exactly when it is among the last its primary may
  // keep; in particular no revoked vnode returns to its old primary.
  lemma {:induction false} UnmovedExactlyWhenKept(ps: seq<NodeId>, targets: Targets, weigh: Weigh, i: nat)
    requires TotalWant(targets) == |ps| && i < |ps|
    ensures Reassign(ps, targets, weigh)[i] == ps[i] <==> Keeps(ps, targets, i)
  {
    var s := Strip(ps, targets);
    StripWithin(ps, targets);
    FillCompletes(s, targets, weigh, 0);
    if !Keeps(ps, targets, i) && ps[i] != "" {
      StripCounts(ps, targets, ps[i]);
      assert ps == ps[..i] + ps[i..];
      CountConcat(ps[..i], ps[i..], ps[i]);
    }
  }

  // Number of vnodes whose primary differs.
  function Moved(ps: seq<NodeId>, qs: seq<NodeId>): nat
    requires |ps| == |qs|
  {
    if ps == [] then 0 else (if ps[0] != qs[0] then 1 else 0) + Moved(ps[1..], qs[1..])
  }

  lemma {:induction false} MovedSnoc(ps: seq<NodeId>, qs: seq<NodeId>, p: NodeId, q: NodeId)
    requires |ps| == |qs|
    ensures Moved(ps + [p], qs + [q]) == Moved(ps, qs) + if p != q then 1 else 0
  {
    if ps != [] {
      MovedSnoc(ps[1..], qs[1..], p, q);
      assert (ps + [p])[1..] == ps[1..] + [p] && (qs + [q])[1..] == qs[1..] + [q];
    }
  }

  // The common primaries of two placements, and "" where they differ.
  function Common(ps: seq<NodeId>, qs: seq<NodeId>): (r: seq<NodeId>)
    requires |ps| == |qs|
    ensures |r| == |ps|
  {
    seq(|ps|, i requires 0 <= i < |ps| => if ps[i] == qs[i] then ps[i] else "")
  }

  lemma {:induction false} CommonTail(ps: seq<NodeId>, qs: seq<NodeId>)
    requires |ps| == |qs| > 0
    ensures Common(ps, qs)[1..] == Common(ps[1..], qs[1..])
  {}

  lemma {:induction false} MovedPlusCommon(ps: seq<NodeId>, qs: seq<NodeId>, ns: set<NodeId>)
    requires |ps| == |qs| && "" !in ns
    requires forall i :: 0 <= i < |qs| ==> qs[i] in ns
    ensures Moved(ps, qs) + CountIn(Common(ps, qs), ns) == |ps|
  {
    if ps != [] {
      CommonTail(ps, qs);
      MovedPlusCommon(ps[1..], qs[1..], ns);
    }
  }

  lemma {:induction false} CommonAtMost(ps: seq<NodeId>, qs: seq<NodeId>, n: NodeId)
    requires |ps| == |qs| && n != ""
    ensures Count(Common(ps, qs), n) <= Min(Count(ps, n), Count(qs, n))
  {
    if ps != [] {
      CommonTail(ps, qs);
      CommonAtMost(ps[1..], qs[1..], n);
    }
  }

  // No assignment that meets the same targets moves fewer vnodes.
  lemma {:induction false} ReassignMovesFewest(ps: seq<NodeId>, targets: Targets, weigh: Weigh, qs: seq<NodeId>)
    requires TotalWant(targets) == |ps| == |qs| && Meets(qs, targets)
    ensures Moved(ps, Reassign(ps, targets, weigh)) <= Moved(ps, qs)
  {
    var r, ns := Reassign(ps, targets, weigh), Nodes(targets);
    ReassignMeetsTargets(ps, targets, weigh);
    MovedPlusCommon(ps, qs, ns);
    MovedPlusCommon(ps, r, ns);
    StripIsCommon(ps, targets, weigh);
    forall n | n in ns ensures Counts(Common(ps, qs))(n) <= Counts(Strip(ps, targets))(n) {
      CommonAtMost(ps, qs, n);
      StripCounts(ps, targets, n);
    }
    SumAtMost(ns, Counts(Common(ps, qs)), Counts(Strip(ps, targets)));
    CountInIsSum(Common(ps, qs), ns);
    CountInIsSum(Strip(ps, targets), ns);
  }

  // ---------- Who gets a vnode that moves ----------

  // When vnode i is given away, qs is settled before i, and from i on the vnodes
  // that stay have their primary: every other node still short of its target
  // weighs no more for i than the new primary, and has the larger id if it weighs
  // the same.
  ghost predicate WentToHeaviest(ps: seq<NodeId>, qs: seq<NodeId>, targets: Targets, weigh: Weigh, i: nat)
    requires i < |ps| == |qs|
  {
    forall m :: m in targets && m != "" && m != qs[i] && Count(qs[..i] + Common(ps, qs)[i..], m) < targets[m] ==>
      weigh(m, i) <= weigh(qs[i], i) && (weigh(m, i) == weigh(qs[i], i) ==> Less(qs[i], m))
  }

  ghost predicate HeaviestFirst(ps: seq<NodeId>, qs: seq<NodeId>, targets: Targets, weigh: Weigh)
    requires |ps| == |qs|
  {
    forall i :: 0 <= i < |ps| && qs[i] != ps[i] ==> WentToHeaviest(ps, qs, targets, weigh, i)
  }

  // A node that has to give vnodes up keeps its last ones.
  ghost predicate KeepsLast(ps: seq<NodeId>, qs: seq<NodeId>)
    requires |ps| == |qs|
  {
    forall i, j :: 0 <= i < j < |ps| && ps[i] == ps[j] && qs[i] == ps[i] ==> qs[j] == ps[j]
  }

  lemma {:induction false} FillKeepsBefore(ps: seq<NodeId>, targets: Targets, weigh: Weigh, i: nat)
    requires i <= |ps|
    ensures Fill(ps, targets, weigh, i)[..i] == ps[..i]
    decreases |ps| - i
  {
    if i < |ps| {
      var next := if ps[i] == "" then ps[i := Best(ps, targets, weigh, i)] else ps;
      FillKeepsBefore(next, targets, weigh, i + 1);
      var r := Fill(next, targets, weigh, i + 1);
      assert r[..i] == r[..i + 1][..i] == next[..i + 1][..i] == ps[..i];
    }
  }

  // Filling gives open vnode k to the best node of what is settled by then.
  lemma {:induction false} FillGivesBest(ps: seq<NodeId>, targets: Targets, weigh: Weigh, i: nat, k: nat)
    requires i <= k < |ps| && ps[k] == ""
    ensures var r := Fill(ps, targets, weigh, i);
            r[k] == Best(r[..k] + ps[k..], targets, weigh, k)
    decreases |ps| - i
  {
    var r := Fill(ps, targets, weigh, i);
    var next := if ps[i] == "" then ps[i := Best(ps, targets, weigh, i)] else ps;
    FillKeepsBefore(next, targets, weigh, i + 1);
    if i == k {
      assert r[k] == r[..k + 1][k] == next[..k + 1][k];
      assert r[..k] == r[..k + 1][..k] == ps[..k];
      assert r[..k] + ps[k..] == ps;
    } else {
      FillGivesBest(next, targets, weigh, i + 1, k);
      assert next[k..] == ps[k..];
    }
  }

  // Every vnode that moves goes to the heaviest node in need of one.
  lemma {:induction false} ReassignGivesToHeaviest(ps: seq<NodeId>, targets: Targets, weigh: Weigh)
    requires TotalWant(targets) == |ps|
    ensures HeaviestFirst(ps, Reassign(ps, targets, weigh), targets, weigh)
  {
    var r, s := Reassign(ps, targets, weigh), Strip(ps, targets);
    StripIsCommon(ps, targets, weigh);
    ReassignMeetsTargets(ps, targets, weigh);
    forall i | 0 <= i < |ps| && r[i] != ps[i] ensures WentToHeaviest(ps, r, targets, weigh, i) {
      FillGivesBest(s, targets, weigh, 0, i);
      assert IsBest(r[..i] + s[i..], targets, weigh, i, r[i]);
    }
  }

  lemma {:induction false} StripIsCommon(ps: seq<NodeId>, targets: Targets, weigh: Weigh)
    requires TotalWant(targets) == |ps|
    ensures Common(ps, Reassign(ps, targets, weigh)) == Strip(ps, targets)
  {
    var r := Reassign(ps, targets, weigh);
    forall i | 0 <= i < |ps| ensures Common(ps, r)[i] == Strip(ps, targets)[i] {
      UnmovedExactlyWhenKept(ps, targets, weigh, i);
    }
  }

  lemma {:induction false} ReassignKeepsLast(ps: seq<NodeId>, targets: Targets, weigh: Weigh)
    requires TotalWant(targets) == |ps|
    ensures KeepsLast(ps, Reassign(ps, targets, weigh))
  {
    var r := Reassign(ps, targets, weigh);
    forall i, j | 0 <= i < j < |ps| && ps[i] == ps[j] && r[i] == ps[i] ensures r[j] == ps[j] {
      UnmovedExactlyWhenKept(ps, targets, weigh, i);
      UnmovedExactlyWhenKept(ps, targets, weigh, j);
      assert ps[i..] == ps[i..j] + ps[j..];
      CountConcat(ps[i..j], ps[j..], ps[i]);
    }
  }

  lemma {:induction false} ReassignPromises(ps: seq<NodeId>, targets: Targets, weigh: Weigh)
    requires TotalWant(targets) == |ps|
    ensures var r := Reassign(ps, targets, weigh);
            Meets(r, targets) && KeepsLast(ps, r) && HeaviestFirst(ps, r, targets, weigh)
  {
    ReassignMeetsTargets(ps, targets, weigh);
    ReassignKeepsLast(ps, targets, weigh);
    ReassignGivesToHeaviest(ps, targets, weigh);
  }
}
