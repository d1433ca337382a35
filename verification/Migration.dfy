// cluster/replication.go, ApplyPlacementFromRaft: what a node does with the
// vnodes whose holders a new placement changes.
module Migration {
  import opened Commands
  import opened NodeOrder
  import opened Counting
  import opened Ring
  import opened ShortTerm
  import opened Control
  import opened PlacementLog
  import L = LastWriterWins
  import S = Store
  import T = Transfer
  import D = Dropper

  // ---------- Classification ----------

  datatype Change = Lost | Gained | Retuned | Added | Untouched

  predicate Holds(x: NodeId, v: VNode) {
    x == v.primary || x in v.replicas
  }

  function ChangeOf(me: NodeId, o: VNode, n: VNode): Change {
    if o.primary == me && n.primary != me then Lost
    else if o.primary != me && n.primary == me then Gained
    else if o.primary == me then (if o.replicas != n.replicas then Retuned else Untouched)
    else if me !in o.replicas && me in n.replicas then Added
    else Untouched
  }

  // The kinds of change, one by one.
  lemma {:induction false} ChangeExactly(me: NodeId, o: VNode, n: VNode)
    ensures ChangeOf(me, o, n).Lost? <==> o.primary == me && n.primary != me
    ensures ChangeOf(me, o, n).Gained? <==> o.primary != me && n.primary == me
    ensures ChangeOf(me, o, n).Retuned? <==> o.primary == me && n.primary == me && o.replicas != n.replicas
    ensures ChangeOf(me, o, n).Added? <==> o.primary != me && n.primary != me && me !in o.replicas && me in n.replicas
  {}

  // For one vnode and all nodes together: exactly the new owner gains, exactly
  // the old one loses, and every holder that is new fetches.
  lemma {:induction false} OneGainsOneLoses(o: VNode, n: VNode, x: NodeId)
    requires GoodVNode(o) && GoodVNode(n)
    ensures ChangeOf(x, o, n).Gained? <==> x == n.primary && o.primary != n.primary
    ensures ChangeOf(x, o, n).Lost? <==> x == o.primary && o.primary != n.primary
    ensures Holds(x, n) && !Holds(x, o) ==> ChangeOf(x, o, n).Gained? || ChangeOf(x, o, n).Added?
    ensures ChangeOf(x, o, n).Added? ==> Holds(x, n) && !Holds(x, o)
  {}

  // The vnodes a node found to have changed in one way, in order.
  ghost predicate Lists(xs: seq<nat>, me: NodeId, olds: seq<VNode>, news: seq<VNode>, upTo: nat, kind: Change)
    requires upTo <= |news|
  {
    && (forall a, b :: 0 <= a < b < |xs| ==> xs[a] < xs[b])
    && forall v: nat :: v in xs <==> v < upTo && ChangeOf(me, OldAt(olds, v), news[v]) == kind
  }

  // A vnode the old placement does not have reads as unowned.
  function OldAt(olds: seq<VNode>, v: nat): VNode {
    if v < |olds| then olds[v] else VNode(0, 0, "", [])
  }

  // Classifying vnode v looks at the old ring's replicas, which must exist.
  predicate LooksBack(me: NodeId, olds: seq<VNode>, news: seq<VNode>, v: nat)
    requires v < |news|
  {
    (OldAt(olds, v).primary == me) == (news[v].primary == me)
  }

  datatype Plans = Skipped | Crashed | Planned(gained: seq<nat>, lost: seq<nat>, retuned: seq<nat>, added: seq<nat>)

  ghost predicate Complete(me: NodeId, olds: seq<VNode>, news: seq<VNode>, upTo: nat, p: Plans)
    requires upTo <= |news|
  {
    && p.Planned?
    && Lists(p.gained, me, olds, news, upTo, Gained) && Lists(p.lost, me, olds, news, upTo, Lost)
    && Lists(p.retuned, me, olds, news, upTo, Retuned) && Lists(p.added, me, olds, news, upTo, Added)
  }

  lemma {:induction false} ListsGrow(xs: seq<nat>, me: NodeId, olds: seq<VNode>, news: seq<VNode>, v: nat, kind: Change)
    requires v < |news| && Lists(xs, me, olds, news, v, kind)
    ensures Lists(if ChangeOf(me, OldAt(olds, v), news[v]) == kind then xs + [v] else xs, me, olds, news, v + 1, kind)
  {
    forall a | 0 <= a < |xs| ensures xs[a] < v { assert xs[a] in xs; }
  }

  function Noted(p: Plans, kind: Change, v: nat): Plans
    requires p.Planned?
  {
    match kind
    case Gained => p.(gained := p.gained + [v])
    case Lost => p.(lost := p.lost + [v])
    case Retuned => p.(retuned := p.retuned + [v])
    case Added => p.(added := p.added + [v])
    case Untouched => p
  }

  lemma {:induction false} CompleteGrows(me: NodeId, olds: seq<VNode>, news: seq<VNode>, v: nat, p: Plans)
    requires v < |news| && Complete(me, olds, news, v, p)
    ensures Complete(me, olds, news, v + 1, Noted(p, ChangeOf(me, OldAt(olds, v), news[v]), v))
  {
    ListsGrow(p.gained, me, olds, news, v, Gained);
    ListsGrow(p.lost, me, olds, news, v, Lost);
    ListsGrow(p.retuned, me, olds, news, v, Retuned);
    ListsGrow(p.added, me, olds, news, v, Added);
  }

  ghost predicate NoneMissing(me: NodeId, olds: seq<VNode>, news: seq<VNode>, upTo: nat)
    requires upTo <= |news|
  {
    forall v: nat :: v < upTo && LooksBack(me, olds, news, v) ==> v < |olds|
  }

  method Classify(me: NodeId, olds: seq<VNode>, news: seq<VNode>) returns (p: Plans)
    requires |news| <= VNODE_COUNT
    ensures p.Crashed? <==> !NoneMissing(me, olds, news, |news|)
    ensures !p.Crashed? ==> Complete(me, olds, news, |news|, p)
  {
    var gained: seq<nat>, lost: seq<nat>, retuned: seq<nat>, added: seq<nat> := [], [], [], [];
    for i := 0 to |news|
      invariant Complete(me, olds, news, i, Planned(gained, lost, retuned, added))
      invariant NoneMissing(me, olds, news, i)
    {
      var oldOwner := if i < |olds| then olds[i].primary else "";
      var newOwner := news[i].primary;
      ghost var before := Planned(gained, lost, retuned, added);
      CompleteGrows(me, olds, news, i, before);
      if oldOwner == me && newOwner != me {
        lost := lost + [i];
      } else if oldOwner != me && newOwner == me {
        gained := gained + [i];
      } else {
        if i >= |olds| {
          assert LooksBack(me, olds, news, i);
          return Crashed;
        }
        if oldOwner == me {
          if olds[i].replicas != news[i].replicas {
            retuned := retuned + [i];
          }
        } else if me !in olds[i].replicas && me in news[i].replicas {
          added := added + [i];
        }
      }
      assert Planned(gained, lost, retuned, added) == Noted(before, ChangeOf(me, OldAt(olds, i), news[i]), i);
    }
    p := Planned(gained, lost, retuned, added);
  }

  // ---------- Where a gaining node fetches from ----------

  // Distinct named nodes other than me, and exactly those of the given ones.
  ghost predicate Sources(xs: seq<NodeId>, me: NodeId, from: set<NodeId>) {
    && (forall a, b :: 0 <= a < b < |xs| ==> xs[a] != xs[b])
    && forall x :: x in xs <==> x in from && x != "" && x != me
  }

  function Members(xs: seq<NodeId>): set<NodeId> {
    set x | x in xs
  }

  method AddSources(xs: seq<NodeId>, me: NodeId, ghost from: set<NodeId>, more: seq<NodeId>) returns (ys: seq<NodeId>)
    requires Sources(xs, me, from)
    ensures Sources(ys, me, from + Members(more))
    ensures xs <= ys
  {
    ys := xs;
    for i := 0 to |more|
      invariant Sources(ys, me, from + Members(more[..i]))
      invariant xs <= ys
    {
      ghost var before := from + Members(more[..i]);
      assert from + Members(more[..i + 1]) == before + {more[i]} by {
        assert more[..i + 1] == more[..i] + [more[i]];
      }
      if more[i] != "" && more[i] != me && more[i] !in ys {
        ys := ys + [more[i]];
      }
    }
    assert more[..|more|] == more;
  }

  // The nodes asked, in order, for a gained vnode: every other holder old or
  // new, the old owner first.
  method GainedSources(me: NodeId, o: VNode, n: VNode) returns (xs: seq<NodeId>)
    ensures Sources(xs, me, {o.primary} + Members(o.replicas) + Members(n.replicas))
    ensures o.primary != "" && o.primary != me ==> |xs| > 0 && xs[0] == o.primary
  {
    xs := [];
    if o.primary != "" && o.primary != me {
      xs := xs + [o.primary];
    }
    assert Sources(xs, me, {o.primary});
    xs := AddSources(xs, me, {o.primary}, o.replicas);
    xs := AddSources(xs, me, {o.primary} + Members(o.replicas), n.replicas);
  }

  method AddedSources(me: NodeId, n: VNode) returns (xs: seq<NodeId>)
    ensures Sources(xs, me, {n.primary} + Members(n.replicas))
    ensures n.primary != "" && n.primary != me ==> |xs| > 0 && xs[0] == n.primary
  {
    xs := [];
    if n.primary != "" && n.primary != me {
      xs := xs + [n.primary];
    }
    assert Sources(xs, me, {n.primary});
    xs := AddSources(xs, me, {n.primary}, n.replicas);
  }

  // ---------- Installing ----------

  class Migrator {
    const me: NodeId
    var placement: Option<Plan>

    constructor (me: NodeId)
      requires me != ""
      ensures this.me == me && placement == None
    {
      this.me, placement := me, None;
    }

    // Fails on an index exactly when a placement with vnodes replaces one
    // without; otherwise every changed vnode is listed once under its change.
    method ApplyPlacementFromRaft(p: Plan, ghost rf: int) returns (plans: Plans)
      requires me != "" && GoodPlan(p, rf) && GoodPlan(Base(placement), rf)
      modifies `placement
      ensures placement == Some(p)
      ensures plans.Skipped? <==> old(placement).None?
      ensures plans.Crashed? <==> Crashes(old(placement), p)
      ensures plans.Planned? ==> Complete(me, old(placement).value.vnodes, p.vnodes, |p.vnodes|, plans)
    {
      var before := placement;
      placement := Some(p);
      if before.None? {
        return Skipped;
      }
      plans := Classify(me, before.value.vnodes, p.vnodes);
      if before.value.vnodes == [] && plans.Planned? && |p.vnodes| > 0 {
        assert !LooksBack(me, [], p.vnodes, 0);
        assert p.vnodes[0].primary == me && 0 in plans.gained;
      }
      // The sources of a gained vnode are read from the old ring by index.
      if plans.Planned? && |plans.gained| > 0 && plans.gained[0] >= |before.value.vnodes| {
        assert plans.gained[0] in plans.gained;
        plans := Crashed;
      }
    }
  }

  // ---------- Crashes in runs ----------

  // The guard of ApplyPlacementFromRaft's failure.
  predicate Crashes(held: Option<Plan>, p: Plan) {
    held == Some(EmptyPlan()) && p != EmptyPlan()
  }

  // In every run, a delivery brings its node down only if the node had restored
  // the snapshot of a machine that held nothing.
  lemma {:induction false} CrashNeedsEmptyRestore(cs: seq<Cluster>, es: seq<Event>, rf: int, i: nat, n: NodeId)
    requires Run(cs, es, rf) && i < |cs| && n in cs[i].locals && cs[i].locals[n].held == Some(EmptyPlan())
    ensures exists r :: 0 <= r < i && es[r].RestoreSnapshot? && es[r].node == n && es[r].snap.plan == EmptyPlan()
  {
    var e := es[i - 1];
    assert Next(cs[i - 1], e, cs[i], rf);
    if !(e.RestoreSnapshot? && e.node == n) {
      RunKeepsInv(cs, es, rf, i - 1);
      if e.Deliver? && e.node == n {
        var l := cs[i - 1].locals[n];
        if cs[i - 1].log[l.index].Install? {
          InstallsAreGood(cs[i - 1].log, l.index, rf);
        }
      }
      CrashNeedsEmptyRestore(cs, es, rf, i - 1, n);
    }
  }

  // And the first placement delivered after such a restore does it. The snapshot
  // is one of a machine that has applied an entry, but no placement.
  lemma {:induction false} EmptyRestoreCrashes(n: NodeId, p: Plan, rf: int) returns (cs: seq<Cluster>, es: seq<Event>)
    requires Successor(EmptyPlan(), p, rf)
    ensures Run(cs, es, rf) && |es| == 7 && es[6] == Deliver(n)
    ensures n in cs[6].locals && n in cs[7].locals && cs[7].locals[n].held == Some(p)
    ensures Crashes(cs[6].locals[n].held, p)
  {
    cs, es := AppliedNothing(n, rf);
    cs, es := RestoreNothing(cs, es, n, rf);
    SuccessorIsGood(EmptyPlan(), p, rf);
    cs, es := InstallFirst(cs, es, n, p, rf);
  }

  // An unusable entry is applied.
  lemma {:induction false} AppliedNothing(n: NodeId, rf: int) returns (cs: seq<Cluster>, es: seq<Event>)
    ensures Run(cs, es, rf) && |es| == 2
    ensures cs[2] == Cluster([Unusable], map[n := Local(1, None)], {}, {})
  {
    var c0 := Cluster([], map[n := Local(0, None)], {}, {});
    var c1 := c0.(log := c0.log + [Unusable]);
    var c2 := c1.(locals := c1.locals[n := Local(1, None)]);
    cs, es := [c0], [];
    assert Run(cs, es, rf);
    RunSnoc(cs, es, CommitUnusable, c1, rf);
    cs, es := cs + [c1], es + [CommitUnusable];
    RunSnoc(cs, es, Deliver(n), c2, rf);
    cs, es := cs + [c2], es + [Deliver(n)];
  }

  lemma {:induction false} RestoreNothing(bs: seq<Cluster>, ds: seq<Event>, n: NodeId, rf: int)
    returns (cs: seq<Cluster>, es: seq<Event>)
    requires Run(bs, ds, rf) && n in bs[|ds|].locals && bs[|ds|].locals[n] == Local(|bs[|ds|].log|, None)
    ensures Run(cs, es, rf) && |es| == |ds| + 2 && cs[|es|].log == bs[|ds|].log
    ensures n in cs[|es|].locals && cs[|es|].locals[n] == Local(|cs[|es|].log|, Some(EmptyPlan()))
  {
    var c := bs[|ds|];
    var snap := Snap(|c.log|, EmptyPlan());
    var c1 := c.(snaps := c.snaps + {snap});
    RunSnoc(bs, ds, TakeSnapshot(n), c1, rf);
    cs, es := bs + [c1], ds + [TakeSnapshot(n)];
    var c2 := c1.(locals := c1.locals[n := Local(|c.log|, Some(EmptyPlan()))]);
    assert Next(c1, RestoreSnapshot(n, snap), c2, rf);
    RunSnoc(cs, es, RestoreSnapshot(n, snap), c2, rf);
    cs, es := cs + [c2], es + [RestoreSnapshot(n, snap)];
  }

  lemma {:induction false} InstallFirst(bs: seq<Cluster>, ds: seq<Event>, n: NodeId, p: Plan, rf: int)
    returns (cs: seq<Cluster>, es: seq<Event>)
    requires Run(bs, ds, rf) && Proposes(EmptyPlan(), p, rf) && p.epoch > 0
    requires n in bs[|ds|].locals && bs[|ds|].locals[n] == Local(|bs[|ds|].log|, Some(EmptyPlan()))
    ensures Run(cs, es, rf) && |es| == |ds| + 3 && es[|ds| + 2] == Deliver(n)
    ensures n in cs[|ds| + 2].locals && cs[|ds| + 2].locals[n].held == Some(EmptyPlan()) && p != EmptyPlan()
    ensures n in cs[|ds| + 3].locals && cs[|ds| + 3].locals[n].held == Some(p)
  {
    var c := bs[|ds|];
    var c1 := c.(pending := c.pending + {p});
    RunSnoc(bs, ds, Propose(n, p), c1, rf);
    cs, es := bs + [c1], ds + [Propose(n, p)];
    var c2 := c1.(log := c1.log + [Install(p)]);
    RunSnoc(cs, es, Commit(p), c2, rf);
    cs, es := cs + [c2], es + [Commit(p)];
    assert c2.log[|c.log|] == Install(p);
    var c3 := c2.(locals := c2.locals[n := Local(|c.log| + 1, Some(p))]);
    RunSnoc(cs, es, Deliver(n), c3, rf);
    cs, es := cs + [c3], es + [Deliver(n)];
  }

  // ---------- Dropping what was lost ----------

  // Each lost vnode has its deletes, which are for keys of that vnode.
  ghost predicate DeletesFor(dels: seq<seq<Cmd>>, lost: seq<nat>, home: Blob -> U16) {
    |dels| == |lost| && forall i :: 0 <= i < |lost| ==> D.AllAt(dels[i], home, lost[i])
  }

  // The live table after the dropper has run for the lost vnodes, one by one.
  ghost function AfterDrops(t: L.Table, home: Blob -> U16, lost: seq<nat>, dels: seq<seq<Cmd>>): L.Table
    requires |dels| == |lost|
  {
    if lost == [] then t else
      var n := |lost| - 1;
      var before := AfterDrops(t, home, lost[..n], dels[..n]);
      if lost[n] < 0x1_0000 then S.RunTable(before, home, D.Dropping(dels[n], lost[n])) else before
  }

  // The deletes and the drops together remove exactly the keys of lost vnodes.
  lemma {:induction false} DropsRemoveExactly(t: L.Table, home: Blob -> U16, lost: seq<nat>, dels: seq<seq<Cmd>>, k: Blob)
    requires DeletesFor(dels, lost, home)
    ensures k in AfterDrops(t, home, lost, dels) <==> k in t && home(k) as int !in lost
    ensures k in AfterDrops(t, home, lost, dels) ==> AfterDrops(t, home, lost, dels)[k] == t[k]
  {
    if lost != [] {
      var n := |lost| - 1;
      DropsRemoveExactly(t, home, lost[..n], dels[..n], k);
      assert lost == lost[..n] + [lost[n]];
      if lost[n] < 0x1_0000 {
        D.DropperLeavesWithout(AfterDrops(t, home, lost[..n], dels[..n]), home, lost[n], dels[n]);
      }
    }
  }

  // A primary that is replaced but stays on as a replica.
  predicate Demoted(me: NodeId, o: VNode, n: VNode) {
    o.primary == me && n.primary != me && me in n.replicas
  }

  // Deleting lost vnodes keeps every key of a vnode the node still holds exactly
  // when the node has no key in a vnode on which it was demoted to replica.
  lemma {:induction false} DropsKeepHeldKeysExactly(me: NodeId, olds: seq<VNode>, news: seq<VNode>, rf: int, plans: Plans,
                                                    t: L.Table, home: Blob -> U16, dels: seq<seq<Cmd>>)
    requires WellFormed(olds, rf) && WellFormed(news, rf) && Complete(me, olds, news, |news|, plans)
    requires forall k :: k in t ==> home(k) < VNODE_COUNT
    requires DeletesFor(dels, plans.lost, home)
    ensures (forall k :: k in t && Holds(me, news[home(k)]) ==> k in AfterDrops(t, home, plans.lost, dels)) <==>
            (forall k :: k in t ==> !Demoted(me, olds[home(k)], news[home(k)]))
  {
    forall k | k in t
      ensures Holds(me, news[home(k)]) && k !in AfterDrops(t, home, plans.lost, dels) <==>
              Demoted(me, olds[home(k)], news[home(k)])
    {
      DropsRemoveExactly(t, home, plans.lost, dels, k);
      var v: nat := home(k);
      assert v in plans.lost <==> v < |news| && ChangeOf(me, OldAt(olds, v), news[v]) == Lost;
    }
  }

  // Every short-term swap demotes: the old primary stays a holder of the vnode,
  // lists it as lost, and after the deletions has none of its keys.
  lemma {:induction false} SwapsEmptyTheDemoted(olds: seq<VNode>, news: seq<VNode>, rf: int, scores: map<NodeId, real>,
                                                degraded: set<NodeId>, sustained: set<NodeId>, v: U16, plans: Plans,
                                                t: L.Table, home: Blob -> U16, dels: seq<seq<Cmd>>)
    requires WellFormed(olds, rf) && SwappedRing(olds, scores, degraded, sustained, news)
    requires v < VNODE_COUNT && olds[v] != news[v]
    requires Complete(olds[v].primary, olds, news, |news|, plans) && DeletesFor(dels, plans.lost, home)
    ensures Demoted(olds[v].primary, olds[v], news[v])
    ensures forall k :: k in AfterDrops(t, home, plans.lost, dels) ==> home(k) != v
  {
    var idx :| GoodPick(olds[v], scores, degraded, idx) && news[v] == SwapAt(olds[v], idx);
    assert news[v].replicas[idx] == olds[v].primary;
    assert v as int in plans.lost <==> v < |news| && ChangeOf(olds[v].primary, OldAt(olds, v), news[v]) == Lost;
    forall k | k in AfterDrops(t, home, plans.lost, dels) ensures home(k) != v {
      DropsRemoveExactly(t, home, plans.lost, dels, k);
    }
  }

  // ---------- Copies of the data ----------

  // The cell is what some client wrote, not a delete of the dropper.
  ghost predicate FromClient(clients: set<Cmd>, k: Blob, cell: L.Cell) {
    exists c :: c in clients && L.WriteFor(c, k) && cell == L.CellOf(c, c.version)
  }

  // t has every key of vnode v that r has: the same cell, or a newer one that a
  // client wrote.
  ghost predicate Covers(t: L.Table, r: L.Table, home: Blob -> U16, v: U16, clients: set<Cmd>) {
    forall k :: k in r && home(k) == v ==>
      k in t && (t[k] == r[k] || (t[k].version > r[k].version && FromClient(clients, k, t[k])))
  }

  // A node's table after it has dealt with the change of one vnode: es is the
  // snapshot it fetches if it gains the vnode, ds the deletes of the dropper if
  // it loses it.
  ghost function Migrated(me: NodeId, o: VNode, n: VNode, d: L.Table, es: seq<S.Entry>, ds: seq<Cmd>, home: Blob -> U16, v: U16)
    : L.Table
  {
    match ChangeOf(me, o, n)
    case Lost => S.RunTable(d, home, D.Dropping(ds, v))
    case Gained => L.ApplyAll(d, T.CommandsOf(v, es))
    case Added => L.ApplyAll(d, T.CommandsOf(v, es))
    case _ => d
  }

  predicate Fetches(me: NodeId, o: VNode, n: VNode) {
    ChangeOf(me, o, n).Gained? || ChangeOf(me, o, n).Added?
  }

  // Whatever the destination has that is newer than at the source, a client wrote.
  ghost predicate OnlyClientsNewer(d: L.Table, src: L.Table, r: L.Table, home: Blob -> U16, v: U16, clients: set<Cmd>) {
    forall k :: k in r && home(k) == v && k in src && k in d && d[k].version > src[k].version ==> FromClient(clients, k, d[k])
  }

  lemma {:induction false} FetchCoversExactly(d: L.Table, r: L.Table, src: L.Table, es: seq<S.Entry>, home: Blob -> U16, v: U16,
                                              clients: set<Cmd>)
    requires T.ListsVNode(es, src, home, v) && L.NoZero(src) && Covers(src, r, home, v, clients)
    ensures Covers(L.ApplyAll(d, T.CommandsOf(v, es)), r, home, v, clients) <==> OnlyClientsNewer(d, src, r, home, v, clients)
  {
    var u := L.ApplyAll(d, T.CommandsOf(v, es));
    forall k | k in r && home(k) == v
      ensures k in u && k in src && u[k] == if k in d && d[k].version > src[k].version then d[k] else src[k]
    {
      T.TransferMerges(d, src, home, v, es, k);
    }
  }

  // Let r be the data of a vnode. If every old holder has it and every node that
  // fetches does so from a node that has it, then after the change a new holder
  // has it exactly when it was not demoted, or there is no data; and, if it had
  // to fetch, when nothing but client writes was newer in its own table.
  lemma {:induction false} CopiesAfterChange(x: NodeId, o: VNode, n: VNode, d: L.Table, r: L.Table, src: L.Table,
                                             es: seq<S.Entry>, ds: seq<Cmd>, home: Blob -> U16, v: U16, clients: set<Cmd>)
    requires GoodVNode(o) && GoodVNode(n) && Holds(x, n) && D.AllAt(ds, home, v)
    requires Holds(x, o) ==> Covers(d, r, home, v, clients)
    requires Fetches(x, o, n) ==> T.ListsVNode(es, src, home, v) && L.NoZero(src) && Covers(src, r, home, v, clients)
    ensures Covers(Migrated(x, o, n, d, es, ds, home, v), r, home, v, clients) <==>
              && (Demoted(x, o, n) ==> forall k :: k in r ==> home(k) != v)
              && (Fetches(x, o, n) ==> OnlyClientsNewer(d, src, r, home, v, clients))
  {
    if Fetches(x, o, n) {
      FetchCoversExactly(d, r, src, es, home, v, clients);
    } else if ChangeOf(x, o, n).Lost? {
      D.DropperLeavesWithout(d, home, v, ds);
    }
  }

  // A node that lost the vnode, restarted and gets it back replays the deletes of
  // its dropper. For a key whose delete is newer than the source's cell it ends
  // up without the data. u is the replayed table before the deletes.
  lemma {:induction false} RegainAfterRestartLoses(x: NodeId, o: VNode, n: VNode, u: L.Table, r: L.Table, src: L.Table,
                                                   es: seq<S.Entry>, home: Blob -> U16, v: U16, clients: set<Cmd>,
                                                   keys: seq<Blob>, next: nat -> U64, i: nat)
    requires Fetches(x, o, n) && T.ListsVNode(es, src, home, v) && L.NoZero(src) && Covers(src, r, home, v, clients)
    requires Distinct(keys) && i < |keys| && keys[i] in r && home(keys[i]) == v
    requires next(i) != 0 && !D.Stale(u, keys[i], next(i)) && !FromClient(clients, keys[i], L.Dead(next(i)))
    requires src[keys[i]].version < next(i)
    ensures !Covers(Migrated(x, o, n, L.ApplyAll(u, D.Deletions(keys, v, next)), es, [], home, v), r, home, v, clients)
  {
    D.DeletedCell(u, keys, v, next, i);
    FetchCoversExactly(L.ApplyAll(u, D.Deletions(keys, v, next)), r, src, es, home, v, clients);
  }
}
