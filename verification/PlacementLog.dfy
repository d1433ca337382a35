// cluster/raft.go: placements as entries of a replicated log, the state machine
// that applies them, and the proposals that cluster/replication.go makes from
// whatever placement a leader has applied.
module PlacementLog {
  import opened Commands
  import opened NodeOrder
  import opened Assignment
  import opened Ring
  import opened Scores
  import opened Metrics
  import opened ShortTerm
  import opened Control
  import R = Replicas

  // ---------- The state machine ----------

  datatype Plan = Plan(epoch: nat, nodes: seq<NodeInfo>, vnodes: seq<VNode>)

  // The zero value, recorded by a snapshot taken before any placement.
  function EmptyPlan(): Plan {
    Plan(0, [], [])
  }

  // An entry that is not a readable install command is unusable.
  datatype Entry = Install(plan: Plan) | Unusable

  function Applied(held: Option<Plan>, e: Entry): Option<Plan> {
    if e.Install? && (held.None? || e.plan.epoch > held.value.epoch) then Some(e.plan) else held
  }

  function FoldFrom(held: Option<Plan>, log: seq<Entry>): Option<Plan> {
    if log == [] then held else Applied(FoldFrom(held, log[..|log| - 1]), log[|log| - 1])
  }

  function Fold(log: seq<Entry>): Option<Plan> {
    FoldFrom(None, log)
  }

  // What a snapshot records.
  function Base(held: Option<Plan>): Plan {
    if held.None? then EmptyPlan() else held.value
  }

  class PlacementFsm {
    var placement: Option<Plan>
    var delivered: seq<Plan>

    constructor ()
      ensures placement == None && delivered == []
    {
      placement, delivered := None, [];
    }

    method Apply(e: Entry) returns (ok: bool)
      modifies this
      ensures ok <==> e.Install?
      ensures placement == Applied(old(placement), e)
      ensures delivered == old(delivered) + if placement == old(placement) then [] else [Base(placement)]
      ensures placement != old(placement) ==> old(placement).None? || placement.value.epoch > old(placement).value.epoch
    {
      ok := e.Install?;
      if ok {
        if placement.Some? && e.plan.epoch <= placement.value.epoch {
          return;
        }
        placement := Some(e.plan);
        delivered := delivered + [e.plan];
      }
    }

    // A machine restored from the snapshot ends like this one on whatever log is
    // to come, as long as its placements have an epoch.
    method Snapshot(ghost log: seq<Entry>) returns (s: Plan)
      ensures HaveEpochs(log) ==> Base(FoldFrom(Some(s), log)) == Base(FoldFrom(placement, log))
    {
      s := EmptyPlan();
      if placement.Some? {
        s := placement.value;
      }
      if HaveEpochs(log) {
        RestoredFollowsLog(Some(s), placement, log);
      }
    }

    method Restore(s: Plan)
      modifies this
      ensures placement == Some(s) && delivered == old(delivered) + [s]
      ensures forall held :: s == Base(held) ==> Base(placement) == Base(held)
    {
      placement := Some(s);
      delivered := delivered + [s];
    }
  }

  // A machine restored from the snapshot of one that held nothing treats an
  // entry like the original exactly when that entry carries a later epoch (or
  // cannot change anything).
  lemma {:induction false} RestoredFollowsExactly(a: Option<Plan>, b: Option<Plan>, e: Entry)
    requires Base(a) == Base(b)
    ensures Base(Applied(a, e)) == Base(Applied(b, e)) <==>
              a == b || e.Unusable? || e.plan.epoch > 0 || e.plan == EmptyPlan()
  {}

  ghost predicate HaveEpochs(log: seq<Entry>) {
    forall i :: 0 <= i < |log| && log[i].Install? ==> log[i].plan.epoch > 0
  }

  lemma {:induction false} RestoredFollowsLog(a: Option<Plan>, b: Option<Plan>, log: seq<Entry>)
    requires Base(a) == Base(b) && HaveEpochs(log)
    ensures Base(FoldFrom(a, log)) == Base(FoldFrom(b, log))
  {
    if log != [] {
      var n := |log| - 1;
      RestoredFollowsLog(a, b, log[..n]);
      RestoredFollowsExactly(FoldFrom(a, log[..n]), FoldFrom(b, log[..n]), log[n]);
    }
  }

  lemma {:induction false} RestoredDivergesOnEpochZero(nodes: seq<NodeInfo>)
    requires nodes != []
    ensures var e := Install(Plan(0, nodes, []));
            Base(Applied(None, e)) != Base(Applied(Some(EmptyPlan()), e))
  {}

  // ---------- Proposals ----------

  ghost function RingOf(b: Plan): seq<VNode> {
    if |b.vnodes| == VNODE_COUNT then b.vnodes else []
  }

  ghost predicate GoodPlan(b: Plan, rf: int) {
    b == EmptyPlan() || (b.epoch >= 1 && WellFormed(b.vnodes, rf))
  }

  ghost predicate LongTerm(b: Plan, p: Plan, rf: int, active: seq<NodeMetrics>, weigh: Weigh, env: R.Env, counts: Targets) {
    && Rebalanced(active, RingOf(b), weigh, env, rf, p.vnodes, counts)
    && p.nodes == ScoresOf(active)
    && p.epoch == (if RingOf(b) == [] then 1 else b.epoch + 1)
    && (RingOf(b) != [] ==> !Negligible(RingOf(b), p.vnodes, rf))
  }

  ghost predicate ShortTermFrom(b: Plan, p: Plan, active: seq<NodeMetrics>, h: History, nh: History,
                                scores: map<NodeId, real>, degraded: set<NodeId>, sustained: set<NodeId>) {
    && RingOf(b) != [] && active != []
    && Judged(active, h, nh, scores, degraded, sustained)
    && SwappedRing(b.vnodes, scores, degraded, sustained, p.vnodes)
    && p.nodes == ScoresOf(active)
    && p.epoch == b.epoch + 1
    && PrimaryDrift(b.vnodes, p.vnodes) >= SWAP_THRESHOLD
  }

  // p is what one long-term or short-term evaluation makes of b.
  ghost predicate Successor(b: Plan, p: Plan, rf: int) {
    || (exists active, weigh, env, counts :: LongTerm(b, p, rf, active, weigh, env, counts))
    || (exists active, h, nh, scores, degraded, sustained :: ShortTermFrom(b, p, active, h, nh, scores, degraded, sustained))
  }

  lemma {:induction false} SuccessorIsGood(b: Plan, p: Plan, rf: int)
    requires GoodPlan(b, rf) && Successor(b, p, rf)
    ensures p.epoch == b.epoch + 1 && GoodPlan(p, rf) && p != EmptyPlan()
  {
    if active, weigh, env, counts :| LongTerm(b, p, rf, active, weigh, env, counts) {
    } else {
      var active, h, nh, scores, degraded, sustained :| ShortTermFrom(b, p, active, h, nh, scores, degraded, sustained);
      SwappedKeepsHolders(b.vnodes, rf, scores, degraded, sustained, p.vnodes);
    }
  }

  // What a leader's program may submit: on a good placement, a successor of it.
  ghost predicate Proposes(b: Plan, p: Plan, rf: int) {
    GoodPlan(b, rf) ==> Successor(b, p, rf)
  }

  ghost predicate Proposable(log: seq<Entry>, p: Plan, rf: int) {
    exists j :: 0 <= j <= |log| && Proposes(Base(Fold(log[..j])), p, rf)
  }

  // Every install entry was computed from the placement of some earlier prefix,
  // not necessarily the latest one.
  ghost predicate LogOk(log: seq<Entry>, rf: int) {
    forall k: nat :: EntryOk(log, k, rf)
  }

  ghost predicate EntryOk(log: seq<Entry>, k: nat, rf: int) {
    k < |log| && log[k].Install? ==> Proposable(log[..k], log[k].plan, rf)
  }

  // ---------- What every such log keeps ----------

  lemma {:induction false} ProposableLater(log: seq<Entry>, n: nat, p: Plan, rf: int)
    requires n <= |log| && Proposable(log[..n], p, rf)
    ensures Proposable(log, p, rf)
  {
    var j :| 0 <= j <= n && Proposes(Base(Fold(log[..n][..j])), p, rf);
    assert log[..n][..j] == log[..j];
  }

  // The prefix that the install entry at k was computed from.
  lemma {:induction false} ComputedFrom(log: seq<Entry>, k: nat, rf: int) returns (j: nat)
    requires LogOk(log, rf) && k < |log| && log[k].Install?
    ensures j <= k && Proposes(Base(Fold(log[..j])), log[k].plan, rf)
  {
    assert EntryOk(log, k, rf);
    j :| 0 <= j <= k && Proposes(Base(Fold(log[..k][..j])), log[k].plan, rf);
    assert log[..k][..j] == log[..j];
  }

  lemma {:induction false} ProposalIsGood(b: Plan, p: Plan, rf: int)
    requires GoodPlan(b, rf) && Proposes(b, p, rf)
    ensures Successor(b, p, rf) && p.epoch == b.epoch + 1 && GoodPlan(p, rf)
  {
    SuccessorIsGood(b, p, rf);
  }

  lemma {:induction false} AppliedIsGood(held: Option<Plan>, e: Entry, rf: int)
    requires GoodPlan(Base(held), rf) && (e.Install? ==> GoodPlan(e.plan, rf))
    ensures GoodPlan(Base(Applied(held, e)), rf)
  {}

  // Whatever prefix is applied, the placement held is well-formed.
  lemma {:induction false} PrefixesAreGood(log: seq<Entry>, i: nat, rf: int)
    requires LogOk(log, rf) && i <= |log|
    ensures GoodPlan(Base(Fold(log[..i])), rf)
    decreases i, 0
  {
    if i > 0 {
      FoldStep(log, i - 1);
      PrefixesAreGood(log, i - 1, rf);
      if log[i - 1].Install? {
        InstallsAreGood(log, i - 1, rf);
      }
      AppliedIsGood(Fold(log[..i - 1]), log[i - 1], rf);
    }
  }

  lemma {:induction false} InstallsAreGood(log: seq<Entry>, k: nat, rf: int)
    requires LogOk(log, rf) && k < |log| && log[k].Install?
    ensures log[k].plan.epoch >= 1 && GoodPlan(log[k].plan, rf)
    decreases k, 1
  {
    var j := ComputedFrom(log, k, rf);
    PrefixesAreGood(log, j, rf);
    ProposalIsGood(Base(Fold(log[..j])), log[k].plan, rf);
  }

  lemma {:induction false} NeverFalls(held: Option<Plan>, e: Entry)
    requires e.Install? ==> e.plan.epoch >= 1
    ensures Base(Applied(held, e)).epoch >= Base(held).epoch
    ensures Base(Applied(held, e)).epoch == Base(held).epoch ==> Base(Applied(held, e)) == Base(held)
  {}

  lemma {:induction false} LogHasEpochs(log: seq<Entry>, rf: int)
    requires LogOk(log, rf)
    ensures HaveEpochs(log)
  {
    forall k | 0 <= k < |log| && log[k].Install? ensures log[k].plan.epoch > 0 { InstallsAreGood(log, k, rf); }
  }

  // Along any log of placements with an epoch, epochs never fall, and an epoch
  // names one placement.
  lemma {:induction false} EpochsIdentify(log: seq<Entry>, i: nat, j: nat)
    requires HaveEpochs(log) && i <= j <= |log|
    ensures Base(Fold(log[..i])).epoch <= Base(Fold(log[..j])).epoch
    ensures Base(Fold(log[..i])).epoch == Base(Fold(log[..j])).epoch ==> Base(Fold(log[..i])) == Base(Fold(log[..j]))
    decreases j
  {
    if i < j {
      EpochsIdentify(log, i, j - 1);
      FoldStep(log, j - 1);
      NeverFalls(Fold(log[..j - 1]), log[j - 1]);
    }
  }

  lemma {:induction false} FoldStep(log: seq<Entry>, k: nat)
    requires k < |log|
    ensures Fold(log[..k + 1]) == Applied(Fold(log[..k]), log[k])
  {
    assert log[..k + 1][..k] == log[..k];
  }

  // An entry one epoch after a placement that is held or older.
  lemma {:induction false} NextEpochInstalls(held: Option<Plan>, from: Plan, p: Plan)
    requires p.epoch == from.epoch + 1 && from.epoch <= Base(held).epoch
    requires from.epoch == Base(held).epoch ==> from == Base(held)
    ensures Base(Applied(held, Install(p))) != Base(held) <==> Base(held) == from
    ensures Base(held) == from ==> Base(Applied(held, Install(p))) == p
  {}

  // A proposal computed from the placement of prefix j and committed at k takes
  // effect exactly when nothing else was installed in between.
  lemma {:induction false} InstallsExactlyWhenCurrent(log: seq<Entry>, j: nat, k: nat, rf: int)
    requires LogOk(log, rf) && j <= k < |log| && log[k].Install?
    requires Successor(Base(Fold(log[..j])), log[k].plan, rf)
    ensures Base(Fold(log[..k + 1])) != Base(Fold(log[..k])) <==> Base(Fold(log[..k])) == Base(Fold(log[..j]))
    ensures Base(Fold(log[..k])) == Base(Fold(log[..j])) ==> Base(Fold(log[..k + 1])) == log[k].plan
  {
    PrefixesAreGood(log, j, rf);
    SuccessorIsGood(Base(Fold(log[..j])), log[k].plan, rf);
    LogHasEpochs(log, rf);
    EpochsIdentify(log, j, k);
    FoldStep(log, k);
    NextEpochInstalls(Fold(log[..k]), Base(Fold(log[..j])), log[k].plan);
  }

  // So each change of placement is one evaluation of the placement it replaces,
  // and epochs count the changes.
  lemma {:induction false} EachChangeSucceeds(log: seq<Entry>, k: nat, rf: int)
    requires LogOk(log, rf) && k < |log|
    requires Base(Fold(log[..k + 1])) != Base(Fold(log[..k]))
    ensures Successor(Base(Fold(log[..k])), Base(Fold(log[..k + 1])), rf)
    ensures Base(Fold(log[..k + 1])).epoch == Base(Fold(log[..k])).epoch + 1
  {
    FoldStep(log, k);
    var j := ComputedFrom(log, k, rf);
    PrefixesAreGood(log, j, rf);
    ProposalIsGood(Base(Fold(log[..j])), log[k].plan, rf);
    InstallsExactlyWhenCurrent(log, j, k, rf);
  }

  // ---------- The cluster ----------

  datatype Local = Local(index: nat, held: Option<Plan>)
  datatype Snap = Snap(index: nat, plan: Plan)
  datatype Cluster = Cluster(log: seq<Entry>, locals: map<NodeId, Local>, pending: set<Plan>, snaps: set<Snap>)

  datatype Event =
    | Propose(node: NodeId, plan: Plan)
    | Commit(plan: Plan)
    | CommitUnusable
    | Deliver(node: NodeId)
    | TakeSnapshot(node: NodeId)
    | RestoreSnapshot(node: NodeId, snap: Snap)
    | Restart(node: NodeId)

  ghost predicate Start(c: Cluster) {
    && c.log == [] && c.pending == {} && c.snaps == {}
    && forall n :: n in c.locals ==> c.locals[n] == Local(0, None)
  }

  // Any node may have been leader when it proposed; a proposal may be committed
  // at any later time, more than once, or never.
  ghost predicate Moves(c: Cluster, e: Event, d: Cluster) {
    match e
    case Propose(n, p) =>
      && n in c.locals
      && d == c.(pending := c.pending + {p})
    case Commit(p) =>
      && p in c.pending
      && d == c.(log := c.log + [Install(p)])
    case CommitUnusable =>
      d == c.(log := c.log + [Unusable])
    case Deliver(n) =>
      && n in c.locals && c.locals[n].index < |c.log|
      && d == c.(locals := c.locals[n := Local(c.locals[n].index + 1, Applied(c.locals[n].held, c.log[c.locals[n].index]))])
    case TakeSnapshot(n) =>
      && n in c.locals
      && d == c.(snaps := c.snaps + {Snap(c.locals[n].index, Base(c.locals[n].held))})
    case RestoreSnapshot(n, s) =>
      && n in c.locals && s in c.snaps
      && d == c.(locals := c.locals[n := Local(s.index, Some(s.plan))])
    case Restart(n) =>
      && n in c.locals
      && d == c.(locals := c.locals[n := Local(0, None)])
  }

  // The nodes propose with the same replication factor.
  ghost predicate Next(c: Cluster, e: Event, d: Cluster, rf: int) {
    Moves(c, e, d) && (e.Propose? ==> Proposes(Base(c.locals[e.node].held), e.plan, rf))
  }

  // The nodes propose with whatever factors, or anything else that has an epoch.
  ghost predicate NextWithEpochs(c: Cluster, e: Event, d: Cluster) {
    Moves(c, e, d) && (e.Propose? ==> e.plan.epoch > 0)
  }

  ghost predicate LocalOk(log: seq<Entry>, l: Local) {
    l.index <= |log| && Base(l.held) == Base(Fold(log[..l.index]))
  }

  ghost predicate SnapOk(log: seq<Entry>, s: Snap) {
    s.index <= |log| && s.plan == Base(Fold(log[..s.index]))
  }

  ghost predicate InvEpochs(c: Cluster) {
    && HaveEpochs(c.log)
    && (forall p :: p in c.pending ==> p.epoch > 0)
    && (forall n :: n in c.locals ==> LocalOk(c.log, c.locals[n]))
    && (forall s :: s in c.snaps ==> SnapOk(c.log, s))
  }

  ghost predicate Inv(c: Cluster, rf: int) {
    InvEpochs(c) && LogOk(c.log, rf) && forall p :: p in c.pending ==> Proposable(c.log, p, rf)
  }

  lemma {:induction false} DeliverKeeps(log: seq<Entry>, l: Local)
    requires HaveEpochs(log) && LocalOk(log, l) && l.index < |log|
    ensures LocalOk(log, Local(l.index + 1, Applied(l.held, log[l.index])))
  {
    assert log[..l.index + 1][..l.index] == log[..l.index];
    RestoredFollowsExactly(l.held, Fold(log[..l.index]), log[l.index]);
  }

  lemma {:induction false} NextKeepsEpochs(c: Cluster, e: Event, d: Cluster)
    requires InvEpochs(c) && NextWithEpochs(c, e, d)
    ensures InvEpochs(d)
  {
    match e
    case Propose(n, p) =>
    case Commit(p) => forall i | 0 <= i <= |c.log| ensures d.log[..i] == c.log[..i] {}
    case CommitUnusable => forall i | 0 <= i <= |c.log| ensures d.log[..i] == c.log[..i] {}
    case Deliver(n) => DeliverKeeps(c.log, c.locals[n]);
    case TakeSnapshot(n) => assert LocalOk(c.log, c.locals[n]);
    case RestoreSnapshot(n, s) => assert SnapOk(c.log, s);
    case Restart(n) => assert c.log[..0] == [];
  }

  lemma {:induction false} GrowingKeeps(log: seq<Entry>, e: Entry, rf: int)
    requires LogOk(log, rf) && (e.Install? ==> Proposable(log, e.plan, rf))
    ensures LogOk(log + [e], rf)
    ensures forall p :: Proposable(log, p, rf) ==> Proposable(log + [e], p, rf)
  {
    var more := log + [e];
    assert more[..|log|] == log;
    forall k: nat ensures EntryOk(more, k, rf) {
      if k < |log| {
        assert EntryOk(log, k, rf) && more[..k] == log[..k];
      }
    }
    forall p | Proposable(log, p, rf) ensures Proposable(more, p, rf) { ProposableLater(more, |log|, p, rf); }
  }

  // A proposal made from what a node holds is one, and has an epoch.
  lemma {:induction false} ProposalFromLocal(c: Cluster, n: NodeId, p: Plan, rf: int)
    requires Inv(c, rf) && n in c.locals && Proposes(Base(c.locals[n].held), p, rf)
    ensures Proposable(c.log, p, rf) && p.epoch > 0
  {
    assert LocalOk(c.log, c.locals[n]);
    PrefixesAreGood(c.log, c.locals[n].index, rf);
    ProposalIsGood(Base(c.locals[n].held), p, rf);
  }

  lemma {:induction false} NextKeepsInv(c: Cluster, e: Event, d: Cluster, rf: int)
    requires Inv(c, rf) && Next(c, e, d, rf)
    ensures NextWithEpochs(c, e, d) && Inv(d, rf)
  {
    match e {
      case Propose(n, p) => ProposalFromLocal(c, n, p, rf);
      case Commit(p) => GrowingKeeps(c.log, Install(p), rf);
      case CommitUnusable => GrowingKeeps(c.log, Unusable, rf);
      case _ =>
    }
    NextKeepsEpochs(c, e, d);
  }

  ghost predicate Run(cs: seq<Cluster>, es: seq<Event>, rf: int) {
    && |cs| == |es| + 1 && Start(cs[0])
    && forall i :: 0 <= i < |es| ==> Next(cs[i], es[i], cs[i + 1], rf)
  }

  lemma {:induction false} RunSnoc(cs: seq<Cluster>, es: seq<Event>, e: Event, d: Cluster, rf: int)
    requires Run(cs, es, rf) && Next(cs[|es|], e, d, rf)
    ensures Run(cs + [d], es + [e], rf)
  {
    var ds, fs := cs + [d], es + [e];
    forall i | 0 <= i < |fs| ensures Next(ds[i], fs[i], ds[i + 1], rf) {
      if i < |es| {
        assert ds[i] == cs[i] && fs[i] == es[i] && ds[i + 1] == cs[i + 1];
      }
    }
  }

  lemma {:induction false} RunKeepsInv(cs: seq<Cluster>, es: seq<Event>, rf: int, i: nat)
    requires Run(cs, es, rf) && i < |cs|
    ensures Inv(cs[i], rf)
  {
    if i > 0 {
      RunKeepsInv(cs, es, rf, i - 1);
      assert Next(cs[i - 1], es[i - 1], cs[i], rf);
      NextKeepsInv(cs[i - 1], es[i - 1], cs[i], rf);
    }
  }

  ghost predicate RunWithEpochs(cs: seq<Cluster>, es: seq<Event>) {
    && |cs| == |es| + 1 && Start(cs[0])
    && forall i :: 0 <= i < |es| ==> NextWithEpochs(cs[i], es[i], cs[i + 1])
  }

  lemma {:induction false} RunKeepsEpochs(cs: seq<Cluster>, es: seq<Event>, i: nat)
    requires RunWithEpochs(cs, es) && i < |cs|
    ensures InvEpochs(cs[i])
  {
    if i > 0 {
      RunKeepsEpochs(cs, es, i - 1);
      assert NextWithEpochs(cs[i - 1], es[i - 1], cs[i]);
      NextKeepsEpochs(cs[i - 1], es[i - 1], cs[i]);
    }
  }

  lemma {:induction false} RunHasEpochs(cs: seq<Cluster>, es: seq<Event>, rf: int)
    requires Run(cs, es, rf)
    ensures RunWithEpochs(cs, es)
  {
    forall i | 0 <= i < |es| ensures NextWithEpochs(cs[i], es[i], cs[i + 1]) {
      RunKeepsInv(cs, es, rf, i);
      NextKeepsInv(cs[i], es[i], cs[i + 1], rf);
    }
  }

  // In every reachable state of every run, whatever the replication factors: two
  // nodes with the same epoch hold the same placement, and more log means no
  // earlier epoch.
  lemma {:induction false} NodesAgree(cs: seq<Cluster>, es: seq<Event>, i: nat, n: NodeId, m: NodeId)
    requires RunWithEpochs(cs, es) && i < |cs| && n in cs[i].locals && m in cs[i].locals
    ensures var a, b := cs[i].locals[n], cs[i].locals[m];
            && (Base(a.held).epoch == Base(b.held).epoch ==> Base(a.held) == Base(b.held))
            && (a.index <= b.index ==> Base(a.held).epoch <= Base(b.held).epoch)
  {
    RunKeepsEpochs(cs, es, i);
    var c := cs[i];
    var a, b := c.locals[n], c.locals[m];
    assert LocalOk(c.log, a) && LocalOk(c.log, b);
    if a.index <= b.index {
      EpochsIdentify(c.log, a.index, b.index);
    } else {
      EpochsIdentify(c.log, b.index, a.index);
    }
  }

  // With one replication factor what a node holds is also well-formed.
  lemma {:induction false} NodesAgreeOnGoodPlans(cs: seq<Cluster>, es: seq<Event>, rf: int, i: nat, n: NodeId, m: NodeId)
    requires Run(cs, es, rf) && i < |cs| && n in cs[i].locals && m in cs[i].locals
    ensures var a, b := cs[i].locals[n], cs[i].locals[m];
            && GoodPlan(Base(a.held), rf)
            && (Base(a.held).epoch == Base(b.held).epoch ==> Base(a.held) == Base(b.held))
            && (a.index <= b.index ==> Base(a.held).epoch <= Base(b.held).epoch)
  {
    RunKeepsInv(cs, es, rf, i);
    RunHasEpochs(cs, es, rf);
    assert LocalOk(cs[i].log, cs[i].locals[n]);
    PrefixesAreGood(cs[i].log, cs[i].locals[n].index, rf);
    NodesAgree(cs, es, i, n, m);
  }

  // In every run, a delivery that changes what a node holds moves it to the one
  // placement that was computed from the one it had.
  lemma {:induction false} DeliveriesSucceed(cs: seq<Cluster>, es: seq<Event>, rf: int, i: nat, n: NodeId)
    requires Run(cs, es, rf) && i < |es| && es[i] == Deliver(n) && n in cs[i].locals && n in cs[i + 1].locals
    requires Base(cs[i + 1].locals[n].held) != Base(cs[i].locals[n].held)
    ensures Successor(Base(cs[i].locals[n].held), Base(cs[i + 1].locals[n].held), rf)
    ensures Base(cs[i + 1].locals[n].held).epoch == Base(cs[i].locals[n].held).epoch + 1
  {
    RunKeepsInv(cs, es, rf, i);
    RunKeepsInv(cs, es, rf, i + 1);
    assert Next(cs[i], es[i], cs[i + 1], rf);
    var l := cs[i].locals[n];
    assert LocalOk(cs[i].log, l) && LocalOk(cs[i + 1].log, cs[i + 1].locals[n]);
    EachChangeSucceeds(cs[i].log, l.index, rf);
  }

  // ---------- The leader's program makes only such proposals ----------

  ghost function Installed(r: Replicator): Plan
    reads r, r.placement
  {
    if r.placement == null then EmptyPlan() else Plan(r.placement.epoch, r.placement.nodes, r.placement.vnodes)
  }

  method ProposeLongTerm(r: Replicator, members: set<NodeId>, weigh: Weigh, hash: (U16, NodeId) -> nat)
    returns (submitted: Option<Plan>)
    requires r.Valid()
    ensures submitted.Some? ==> Proposes(Installed(r), submitted.value, r.replicationFactor)
  {
    var decision, outcome, proposal;
    ghost var ring, counts;
    decision, outcome, proposal, ring, counts := r.UpdatePlacement(members, weigh, hash);
    submitted := None;
    if proposal != null {
      var p := Plan(proposal.epoch, proposal.nodes, proposal.vnodes);
      submitted := Some(p);
      ghost var active := Active(r.metrics, members);
      assert LongTerm(Installed(r), p, r.replicationFactor, active, weigh, R.Env(R.StatsMap(active), r.rttMatrix, hash), counts);
    }
  }

  method ProposeShortTerm(r: Replicator, members: set<NodeId>) returns (submitted: Option<Plan>)
    requires r.Valid()
    modifies r`degradedStreak, r`history
    ensures r.Valid()
    ensures submitted.Some? ==> Proposes(Installed(r), submitted.value, r.replicationFactor)
  {
    ghost var h := r.history;
    var proposal;
    ghost var scores, degraded, sustained, ring;
    proposal, scores, degraded, sustained, ring := r.UpdatePlacementShortTerm(members);
    submitted := None;
    if proposal != null {
      var p := Plan(proposal.epoch, proposal.nodes, proposal.vnodes);
      submitted := Some(p);
      assert ShortTermFrom(Installed(r), p, Active(r.metrics, members), h, r.history, scores, degraded, sustained);
    }
  }
}
