// cluster/replication.go, ReplicateToAll: how many holders must acknowledge a
// write before it is reported successful.
module Quorum {
  import opened Commands
  import opened NodeOrder
  import opened Counting
  import opened Ring
  import opened ShortTerm
  import opened Control

  datatype Result = Done | PlacementNotReady | Impossible | NotReached

  function EffectiveRF(rf: int, members: nat): int {
    var atLeastOne := if rf > 1 then rf else 1;
    if atLeastOne < members then atLeastOne else members
  }

  // Acknowledgements needed, the writing node's own included.
  function Required(rf: int, members: nat): nat
    requires members > 0
  {
    EffectiveRF(rf, members) / 2 + 1
  }

  // ---------- Whom to ask ----------

  // The named replicas other than the writer, each once, in placement order.
  function Targets(me: NodeId, replicas: seq<NodeId>): seq<NodeId> {
    if replicas == [] then [] else
      var n := |replicas| - 1;
      var before := Targets(me, replicas[..n]);
      if replicas[n] == "" || replicas[n] == me || replicas[n] in before then before else before + [replicas[n]]
  }

  lemma {:induction false} TargetsAre(me: NodeId, replicas: seq<NodeId>)
    ensures Distinct(Targets(me, replicas))
    ensures forall x :: x in Targets(me, replicas) <==> x in replicas && x != "" && x != me
  {
    if replicas != [] {
      var n := |replicas| - 1;
      TargetsAre(me, replicas[..n]);
      assert replicas == replicas[..n] + [replicas[n]];
    }
  }

  method ResolveTargets(me: NodeId, replicas: Option<seq<NodeId>>) returns (targets: seq<NodeId>)
    ensures targets == if replicas.None? then [] else Targets(me, replicas.value)
  {
    targets := [];
    if replicas.None? {
      return;
    }
    var rs := replicas.value;
    var seen: set<NodeId> := {};
    for i := 0 to |rs|
      invariant targets == Targets(me, rs[..i]) && forall x :: x in seen <==> x in targets
    {
      if rs[i] != "" && rs[i] != me && rs[i] !in seen {
        seen := seen + {rs[i]};
        targets := targets + [rs[i]];
      }
      assert rs[..i + 1][..i] == rs[..i];
    }
    assert rs[..|rs|] == rs;
  }

  // ---------- Waiting ----------

  ghost function Ackers(order: seq<NodeId>, answers: NodeId -> bool): set<NodeId> {
    set x | x in order && answers(x)
  }

  // Positive answers among the first n.
  ghost function Yes(order: seq<NodeId>, answers: NodeId -> bool, n: nat): nat
    requires n <= |order|
  {
    if n == 0 then 0 else Yes(order, answers, n - 1) + if answers(order[n - 1]) then 1 else 0
  }

  lemma {:induction false} AckersSnoc(order: seq<NodeId>, answers: NodeId -> bool, x: NodeId)
    requires x !in order
    ensures |Ackers(order + [x], answers)| == |Ackers(order, answers)| + if answers(x) then 1 else 0
  {
    assert Ackers(order + [x], answers) == Ackers(order, answers) + if answers(x) then {x} else {};
  }

  lemma {:induction false} YesIsAckers(order: seq<NodeId>, answers: NodeId -> bool, n: nat)
    requires Distinct(order) && n <= |order|
    ensures Yes(order, answers, n) == |Ackers(order[..n], answers)|
  {
    if n > 0 {
      YesIsAckers(order, answers, n - 1);
      assert order[..n] == order[..n - 1] + [order[n - 1]] && order[n - 1] !in order[..n - 1];
      AckersSnoc(order[..n - 1], answers, order[n - 1]);
    }
  }

  lemma {:induction false} YesBound(order: seq<NodeId>, answers: NodeId -> bool, i: nat, k: nat)
    requires i <= k <= |order|
    ensures Yes(order, answers, i) <= Yes(order, answers, k) <= Yes(order, answers, i) + (k - i)
  {
    if i < k {
      YesBound(order, answers, i, k - 1);
    }
  }

  // Counts replies as they arrive, until the outcome is certain or the caller's
  // context ends after the given number of replies. Every path returns from
  // inside the loop.
  method AwaitQuorum(required: nat, order: seq<NodeId>, answers: NodeId -> bool, patience: nat) returns (r: Result)
    requires Distinct(order) && 1 < required <= 1 + |order|
    ensures r == Done || r == NotReached
    ensures var heard := if patience < |order| then patience else |order|;
            r == Done <==> 1 + |Ackers(order[..heard], answers)| >= required
  {
    var acks, i := 1, 0;
    ghost var heard := if patience < |order| then patience else |order|;
    YesIsAckers(order, answers, heard);
    while i < |order|
      invariant i <= heard && acks == 1 + Yes(order, answers, i)
      invariant acks < required <= acks + (|order| - i)
    {
      if i == patience {
        return NotReached;
      }
      YesBound(order, answers, i + 1, heard);
      if answers(order[i]) {
        acks := acks + 1;
        if acks >= required {
          return Done;
        }
      }
      i := i + 1;
      if acks + (|order| - i) < required {
        return NotReached;
      }
    }
    assert false;
  }

  // ---------- The whole call ----------

  // A leader with no targets recomputes the placement once and looks again.
  ghost function TargetsFor(me: NodeId, first: Option<seq<NodeId>>, refresh: bool, second: Option<seq<NodeId>>): seq<NodeId> {
    var once := if first.None? then [] else Targets(me, first.value);
    if once == [] && refresh then (if second.None? then [] else Targets(me, second.value)) else once
  }

  // x is a named replica in the placement that is not the writer.
  predicate Asked(me: NodeId, replicas: Option<seq<NodeId>>, x: NodeId) {
    replicas.Some? && x in replicas.value && x != me && x != ""
  }

  // The first placement is asked if it names anyone, else the refreshed one if
  // there was a refresh.
  lemma {:induction false} TargetsExactly(me: NodeId, first: Option<seq<NodeId>>, refresh: bool, second: Option<seq<NodeId>>, x: NodeId)
    ensures x in TargetsFor(me, first, refresh, second) <==>
              Asked(me, first, x) || (refresh && Asked(me, second, x) && forall y :: !Asked(me, first, y))
  {
    if first.Some? {
      TargetsAre(me, first.value);
      var once := Targets(me, first.value);
      assert once != [] ==> once[0] in once && Asked(me, first, once[0]);
    }
    if second.Some? {
      TargetsAre(me, second.value);
    }
  }

  // The writer and the targets that answered with success are a quorum.
  ghost predicate Acknowledged(me: NodeId, rf: int, members: nat, targets: seq<NodeId>, answers: NodeId -> bool,
                               ackers: set<NodeId>)
  {
    && members > 0 && |ackers| >= Required(rf, members) && me in ackers
    && forall x :: x in ackers && x != me ==> x in targets && answers(x)
  }

  // How the call ends when so many acknowledgements are needed, the writer's own
  // included, and the replies come in this order until the patience is over.
  ghost predicate Decided(r: Result, order: seq<NodeId>, answers: NodeId -> bool, patience: nat, needed: nat) {
    var n := |order|;
    && (r == PlacementNotReady <==> n == 0)
    && (r == Impossible <==> 0 < n && 1 + n < needed)
    && (r == Done <==> 1 + |Ackers(order[..if patience < n then patience else n], answers)| >= needed)
  }

  method ReplicateToAll(me: NodeId, members: nat, rf: int, first: Option<seq<NodeId>>, refresh: bool,
                        second: Option<seq<NodeId>>, order: seq<NodeId>, answers: NodeId -> bool, patience: nat)
    returns (r: Result, ghost ackers: set<NodeId>)
    requires multiset(order) == multiset(TargetsFor(me, first, refresh, second))
    ensures r == Done && members > 0 ==>
              Acknowledged(me, rf, members, TargetsFor(me, first, refresh, second), answers, ackers)
    ensures rf <= 1 || members <= 1 ==> r == Done
    ensures 1 < rf <= members ==> Decided(r, order, answers, patience, rf / 2 + 1)
    ensures 1 < members < rf ==> Decided(r, order, answers, patience, members / 2 + 1)
  {
    ackers := {me};
    if members == 0 {
      return Done, ackers;
    }
    var required := Required(rf, members);
    if 1 >= required {
      return Done, ackers;
    }
    var targets := ResolveTargets(me, first);
    if |targets| == 0 && refresh {
      targets := ResolveTargets(me, second);
    }
    assert targets == TargetsFor(me, first, refresh, second);
    SameLength(order, targets);
    OrderIsDistinct(me, first, refresh, second, order);
    if |targets| == 0 && members > 1 {
      return PlacementNotReady, ackers;
    }
    if |targets| == 0 {
      // Local only: a single member has returned above.
      assert false;
    }
    if 1 + |targets| < required {
      ghost var heard := if patience < |order| then patience else |order|;
      YesBound(order, answers, 0, heard);
      YesIsAckers(order, answers, heard);
      return Impossible, ackers;
    }
    r := AwaitQuorum(required, order, answers, patience);
    ackers := {me} + Ackers(order[..if patience < |order| then patience else |order|], answers);
  }

  lemma {:induction false} SameLength(a: seq<NodeId>, b: seq<NodeId>)
    requires multiset(a) == multiset(b)
    ensures |a| == |b|
  {
    assert |multiset(a)| == |a| && |multiset(b)| == |b|;
  }

  lemma {:induction false} DistinctCounts(xs: seq<NodeId>, x: NodeId)
    requires Distinct(xs)
    ensures multiset(xs)[x] <= 1
  {
    if xs != [] {
      var n := |xs| - 1;
      DistinctCounts(xs[..n], x);
      assert xs == xs[..n] + [xs[n]];
      assert xs[n] !in xs[..n];
      assert multiset(xs[..n])[xs[n]] == 0;
    }
  }

  lemma {:induction false} CountsDistinct(xs: seq<NodeId>)
    requires forall x :: multiset(xs)[x] <= 1
    ensures Distinct(xs)
  {
    forall i, j | 0 <= i < j < |xs| ensures xs[i] != xs[j] {
      assert xs == xs[..j] + xs[j..];
      assert xs[i] in xs[..j] && xs[j] in xs[j..];
      assert multiset(xs)[xs[j]] == multiset(xs[..j])[xs[j]] + multiset(xs[j..])[xs[j]];
      assert xs[i] in multiset(xs[..j]) && xs[j] in multiset(xs[j..]);
    }
  }

  lemma {:induction false} OrderIsDistinct(me: NodeId, first: Option<seq<NodeId>>, refresh: bool, second: Option<seq<NodeId>>,
                                           order: seq<NodeId>)
    requires multiset(order) == multiset(TargetsFor(me, first, refresh, second))
    ensures Distinct(order) && me !in order
    ensures forall x :: x in order <==> x in TargetsFor(me, first, refresh, second)
  {
    var targets := TargetsFor(me, first, refresh, second);
    if first.Some? {
      TargetsAre(me, first.value);
    }
    if second.Some? {
      TargetsAre(me, second.value);
    }
    forall x ensures multiset(order)[x] <= 1 { DistinctCounts(targets, x); }
    CountsDistinct(order);
    forall x ensures x in order <==> x in targets {
      assert x in order <==> x in multiset(order);
      assert x in targets <==> x in multiset(targets);
    }
  }

  // ---------- What a quorum guarantees ----------

  function HolderSet(v: VNode): set<NodeId> {
    {v.primary} + set x | x in v.replicas
  }

  lemma {:induction false} SeqSetSize(xs: seq<NodeId>)
    requires Distinct(xs)
    ensures |set x | x in xs| == |xs|
  {
    if xs != [] {
      var n := |xs| - 1;
      SeqSetSize(xs[..n]);
      assert (set x | x in xs) == (set x | x in xs[..n]) + {xs[n]};
      assert xs[n] !in xs[..n];
    }
  }

  lemma {:induction false} HolderCount(v: VNode)
    requires GoodVNode(v)
    ensures |HolderSet(v)| == 1 + |v.replicas|
  {
    SeqSetSize(v.replicas);
    assert HolderSet(v) == {v.primary} + (set x | x in v.replicas);
  }

  lemma {:induction false} TakeSubset(h: set<NodeId>, k: nat) returns (w: set<NodeId>)
    requires k <= |h|
    ensures w <= h && |w| == k
  {
    if k == 0 {
      w := {};
    } else {
      var x :| x in h;
      w := TakeSubset(h - {x}, k - 1);
      w := w + {x};
    }
  }

  ghost predicate Meet(h: set<NodeId>, required: nat) {
    forall a, b :: a <= h && b <= h && |a| >= required && |b| >= required ==> a * b != {}
  }

  // Any two sets of holders that reached the quorum share a holder exactly when
  // the quorum is a strict majority of the holders.
  lemma {:induction false} QuorumsMeetExactly(h: set<NodeId>, required: nat)
    ensures Meet(h, required) <==> |h| < 2 * required
  {
    if |h| < 2 * required {
      forall a, b | a <= h && b <= h && |a| >= required && |b| >= required ensures a * b != {} {
        SubsetSize(a + b, h);
        assert |a + b| == |a| + |b| - |a * b|;
      }
    } else {
      var a := TakeSubset(h, required);
      var b := TakeSubset(h - a, required);
      assert a * b == {};
      assert !Meet(h, required);
    }
  }

  // A primary with replicas asks them, and no refreshed placement.
  lemma {:induction false} AsksOwnReplicas(v: VNode, refresh: bool, second: Option<seq<NodeId>>)
    requires GoodVNode(v) && (v.replicas != [] || !refresh)
    ensures TargetsFor(v.primary, Some(v.replicas), refresh, second) == Targets(v.primary, v.replicas)
  {
    TargetsAre(v.primary, v.replicas);
    if v.replicas != [] {
      assert v.replicas[0] in v.replicas && v.replicas[0] in Targets(v.primary, v.replicas);
    }
  }

  // The acknowledgers of a successful write by the primary of v are holders of v.
  lemma {:induction false} AckersAreHolders(v: VNode, rf: int, members: nat, answers: NodeId -> bool, ackers: set<NodeId>)
    requires GoodVNode(v) && Acknowledged(v.primary, rf, members, Targets(v.primary, v.replicas), answers, ackers)
    ensures ackers <= HolderSet(v)
  {
    TargetsAre(v.primary, v.replicas);
  }

  // They are a strict majority when the holders are few enough for the members.
  lemma {:induction false} WriteReachesMajority(v: VNode, rf: int, members: nat, answers: NodeId -> bool, ackers: set<NodeId>)
    requires GoodVNode(v) && members > 0 && |v.replicas| <= EffectiveRF(rf, members) / 2 * 2
    requires Acknowledged(v.primary, rf, members, Targets(v.primary, v.replicas), answers, ackers)
    ensures ackers <= HolderSet(v) && |HolderSet(v)| < 2 * |ackers|
  {
    AckersAreHolders(v, rf, members, answers, ackers);
    HolderCount(v);
  }

  // Two successful writes to a vnode, possibly by different primaries of the same
  // holders, share a holder that has both, as long as their quorums together
  // exceed the holders.
  lemma {:induction false} WritesShareHolder(v: VNode, w: VNode, rf: int, m1: nat, m2: nat, answers1: NodeId -> bool,
                                             answers2: NodeId -> bool, ackers1: set<NodeId>, ackers2: set<NodeId>)
    requires GoodVNode(v) && GoodVNode(w) && HolderSet(v) == HolderSet(w)
    requires Acknowledged(v.primary, rf, m1, Targets(v.primary, v.replicas), answers1, ackers1)
    requires Acknowledged(w.primary, rf, m2, Targets(w.primary, w.replicas), answers2, ackers2)
    requires Required(rf, m1) + Required(rf, m2) > 1 + |v.replicas|
    ensures exists x :: x in ackers1 && x in ackers2 && x in HolderSet(v)
  {
    AckersAreHolders(v, rf, m1, answers1, ackers1);
    AckersAreHolders(w, rf, m2, answers2, ackers2);
    HolderCount(v);
    SubsetSize(ackers1 + ackers2, HolderSet(v));
    assert |ackers1 + ackers2| == |ackers1| + |ackers2| - |ackers1 * ackers2|;
    var x :| x in ackers1 * ackers2;
  }

  // So with as many members as the replication factor every two successful
  // writes to a vnode of a well-formed ring share a holder.
  lemma {:induction false} FullClusterWritesShareHolder(v: VNode, w: VNode, rf: int, m1: nat, m2: nat, answers1: NodeId -> bool,
                                                        answers2: NodeId -> bool, ackers1: set<NodeId>, ackers2: set<NodeId>)
    requires GoodVNode(v) && GoodVNode(w) && HolderSet(v) == HolderSet(w)
    requires |v.replicas| <= MaxReplicas(rf) && m1 >= rf && m2 >= rf
    requires Acknowledged(v.primary, rf, m1, Targets(v.primary, v.replicas), answers1, ackers1)
    requires Acknowledged(w.primary, rf, m2, Targets(w.primary, w.replicas), answers2, ackers2)
    ensures exists x :: x in ackers1 && x in ackers2 && x in HolderSet(v)
  {
    WritesShareHolder(v, w, rf, m1, m2, answers1, answers2, ackers1, ackers2);
  }

  lemma {:induction false} FullClusterQuorumsMeet(v: VNode, rf: int, members: nat)
    requires GoodVNode(v) && |v.replicas| <= MaxReplicas(rf) && members > 0 && members >= rf
    ensures Meet(HolderSet(v), Required(rf, members))
  {
    HolderCount(v);
    QuorumsMeetExactly(HolderSet(v), Required(rf, members));
  }

  // In general they do exactly when the holders are few enough for the members.
  lemma {:induction false} QuorumsMeetByMembers(v: VNode, rf: int, members: nat)
    requires GoodVNode(v) && members > 0
    ensures Meet(HolderSet(v), Required(rf, members)) <==> |v.replicas| <= EffectiveRF(rf, members) / 2 * 2
    ensures 1 <= rf <= members ==> (Meet(HolderSet(v), rf / 2 + 1) <==> |v.replicas| <= rf / 2 * 2)
    ensures rf > members ==> (Meet(HolderSet(v), members / 2 + 1) <==> |v.replicas| <= members / 2 * 2)
  {
    HolderCount(v);
    QuorumsMeetExactly(HolderSet(v), Required(rf, members));
  }

  // Five holders and three remaining members: two writes need not share one.
  lemma {:induction false} ShrunkClusterQuorumsMiss(v: VNode)
    requires GoodVNode(v) && |v.replicas| == 4
    ensures !Meet(HolderSet(v), Required(5, 3))
  {
    QuorumsMeetByMembers(v, 5, 3);
  }
}
