// cluster/replication.go, UpdatePlacement, and cluster/placement.go: the in-place
// writes of a rebalancing, on rows cloned from the installed placement.
module LongTermRows {
  import opened Commands
  import opened NodeOrder
  import opened Assignment
  import opened Ring
  import opened Scores
  import opened Metrics
  import opened Control
  import opened Cloning
  import R = Replicas
  import opened Sorting

  ghost predicate Apart(rows: seq<Row>) {
    forall i, j :: 0 <= i < j < |rows| ==> rows[i] != rows[j]
  }

  // ---------- Single writes ----------

  method SetPrimary(rows: seq<Row>, i: nat, p: NodeId, ghost vs: seq<VNode>)
    requires Apart(rows) && i < |rows| && RowsAre(rows, vs)
    modifies {rows[i]}`primary
    ensures RowsAre(rows, vs[i := vs[i].(primary := p)])
  {
    rows[i].primary := p;
  }

  method SetReplicas(rows: seq<Row>, i: nat, ids: seq<NodeId>, ghost vs: seq<VNode>)
    requires Apart(rows) && i < |rows| && RowsAre(rows, vs)
    modifies {rows[i]}`replicas
    ensures RowsAre(rows, vs[i := vs[i].(replicas := ids)])
    ensures fresh(rows[i].replicas)
  {
    var a := new NodeId[|ids|](k requires 0 <= k < |ids| => ids[k]);
    assert a[..] == ids;
    rows[i].replicas := a;
  }

  method ReadRows(rows: seq<Row>, ghost vs: seq<VNode>) returns (r: seq<VNode>)
    requires RowsAre(rows, vs)
    ensures r == vs
  {
    r := [];
    for i := 0 to |rows|
      invariant r == vs[..i]
    {
      r := r + [rows[i].Value()];
    }
  }

  // ---------- AssignVNodes ----------

  method RevokeRowAt(ghost vs: seq<VNode>, targets: Targets, i: nat, rows: seq<Row>, ghost cur: seq<VNode>,
                     tally: map<NodeId, int>, orphans: seq<nat>)
    returns (ghost next: seq<VNode>, counts: map<NodeId, int>, open: seq<nat>)
    requires Stripping(vs, targets, i, cur, tally, orphans) && i < |vs| && cur[i].id == i
    requires Apart(rows) && RowsAre(rows, cur)
    modifies {rows[i]}`primary
    ensures Stripping(vs, targets, i + 1, next, counts, open) && RowsAre(rows, next)
  {
    StripStep(Primaries(vs), targets, tally, i, Primaries(cur));
    next, counts, open := cur, tally, orphans;
    var owner := rows[i].primary;
    assert owner == cur[i].primary;
    if owner == "" {
      StrippingKeeps(vs, targets, i, cur, counts, open);
      open := open + [rows[i].id];
    } else if owner !in targets || (if owner in counts then counts[owner] else 0) > targets[owner] {
      StrippingRevokes(vs, targets, i, cur, counts, open);
      counts := counts[owner := (if owner in counts then counts[owner] else 0) - 1];
      open := open + [rows[i].id];
      SetPrimary(rows, i, "", cur);
      next := cur[i := cur[i].(primary := "")];
    } else {
      StrippingKeeps(vs, targets, i, cur, counts, open);
    }
  }

  method RevokeRows(rows: seq<Row>, targets: Targets, tally: map<NodeId, int>, ghost vs: seq<VNode>)
    returns (ghost cur: seq<VNode>, counts: map<NodeId, int>, open: seq<nat>)
    requires Apart(rows) && RowsAre(rows, vs) && Tallies(tally, Primaries(vs)) && IdsInOrder(vs)
    modifies rows`primary
    ensures RowsAre(rows, cur) && SameButPrimary(vs, cur) && Primaries(cur) == Strip(Primaries(vs), targets)
    ensures Tallies(counts, Primaries(cur)) && open == OpenOf(Primaries(cur))
  {
    cur, counts, open := vs, tally, [];
    for i := 0 to |rows|
      invariant RowsAre(rows, cur) && Stripping(vs, targets, i, cur, counts, open)
    {
      assert cur[i].id == vs[i].id == i;
      cur, counts, open := RevokeRowAt(vs, targets, i, rows, cur, counts, open);
    }
    assert Strip(Primaries(vs), targets)[..|vs|] == Strip(Primaries(vs), targets);
  }

  // Gives the first open vnode to its best node; best is "" when there is none.
  method ScatterRowAt(ghost vs: seq<VNode>, targets: Targets, weigh: Weigh, rest: seq<nat>, rows: seq<Row>, ghost cur: seq<VNode>,
                      deficits: map<NodeId, int>)
    returns (ghost next: seq<VNode>, left: map<NodeId, int>, best: NodeId)
    requires IdsInOrder(vs) && ScatteringAt(vs, targets, weigh, rest, cur, deficits) && rest != [] && rest[0] < |rows|
    requires Apart(rows) && RowsAre(rows, cur) && TotalWant(targets) + Want(targets, "") == |vs|
    modifies {rows[rest[0]]}`primary
    ensures RowsAre(rows, next) && SameButPrimary(vs, next)
    ensures best == "" ==> Want(targets, "") != 0
    ensures best != "" ==> ScatteringAt(vs, targets, weigh, rest[1..], next, left)
  {
    var v := rest[0];
    next, left := cur, deficits;
    assert cur[v].id == vs[v].id == v;
    best := PickBest(deficits, weigh, v, Primaries(cur), targets);
    if best == "" {
      NoNodeLeft(Primaries(vs), targets, weigh, rest, Primaries(cur), deficits);
    } else {
      ScatterAdvances(vs, targets, weigh, rest, cur, deficits, best);
      SetPrimary(rows, v, best, cur);
      next := cur[v := cur[v].(primary := best)];
      left := deficits[best := deficits[best] - 1];
    }
  }

  method ScatterRows(rows: seq<Row>, targets: Targets, weigh: Weigh, open: seq<nat>, start: map<NodeId, int>, ghost vs: seq<VNode>)
    returns (ghost cur: seq<VNode>, ok: bool)
    requires Apart(rows) && RowsAre(rows, vs) && IdsInOrder(vs) && Within(Primaries(vs), targets)
    requires open == OpenOf(Primaries(vs)) && DeficitsOf(start, Primaries(vs), targets)
    requires TotalWant(targets) + Want(targets, "") == |vs|
    modifies rows`primary
    ensures RowsAre(rows, cur) && SameButPrimary(vs, cur)
    ensures ok <==> Want(targets, "") == 0
    ensures ok ==> Primaries(cur) == Fill(Primaries(vs), targets, weigh, 0)
  {
    cur, ok := vs, true;
    var deficits, rest := start, open;
    OpenLists(Primaries(vs));
    while rest != []
      invariant RowsAre(rows, cur) && ScatteringAt(vs, targets, weigh, rest, cur, deficits)
      decreases |rest|
    {
      var best;
      cur, deficits, best := ScatterRowAt(vs, targets, weigh, rest, rows, cur, deficits);
      if best == "" {
        return cur, false;
      }
      rest := rest[1..];
    }
    FilledUp(Primaries(vs), targets, weigh, Primaries(cur), deficits);
  }

  // AssignVNodes on rows: the same result as on values, written in place.
  method AssignVNodeRows(rows: seq<Row>, targets: Targets, weigh: Weigh, ghost vs: seq<VNode>)
    returns (ghost cur: seq<VNode>, outcome: Outcome)
    requires Apart(rows) && RowsAre(rows, vs) && IdsInOrder(vs)
    modifies rows`primary
    ensures RowsAre(rows, cur) && SameButPrimary(vs, cur)
    ensures outcome.Assigned? <==> TotalWant(targets) == |vs| && Want(targets, "") == 0
    ensures outcome.MismatchPanic? <==> TotalWant(targets) + Want(targets, "") != |vs|
    ensures outcome.Assigned? ==> Primaries(cur) == Reassign(Primaries(vs), targets, weigh)
    ensures outcome.Assigned? ==>
              && Meets(Primaries(cur), targets) && KeepsLast(Primaries(vs), Primaries(cur))
              && HeaviestFirst(Primaries(vs), Primaries(cur), targets, weigh)
  {
    var values := ReadRows(rows, vs);
    var counts := CountOwners(values);
    var left, open;
    cur, left, open := RevokeRows(rows, targets, counts, vs);
    ghost var stripped := cur;
    var deficits := FindDeficits(targets, left, Primaries(stripped));
    var total := SumDeficits(deficits);
    StripWithin(Primaries(vs), targets);
    OpenLists(Primaries(stripped));
    DeficitTotal(deficits, Primaries(stripped), targets);
    if |open| != total {
      return stripped, MismatchPanic;
    }
    var ok;
    cur, ok := ScatterRows(rows, targets, weigh, open, deficits, stripped);
    outcome := if ok then Assigned else NoNodePanic;
    if ok {
      ReassignPromises(Primaries(vs), targets, weigh);
    }
  }

  // ---------- AssignReplicas ----------

  method ReplicateRow(rows: seq<Row>, i: nat, nodes: seq<NodeInfo>, env: R.Env, rf: int, ghost vs: seq<VNode>)
    requires Apart(rows) && i < |rows| && RowsAre(rows, vs)
    modifies {rows[i]}`replicas
    ensures RowsAre(rows, vs[i := R.Given(env, nodes, rf, vs[i])])
    ensures rows[i].replicas == old(rows[i].replicas) || fresh(rows[i].replicas)
  {
    var v := rows[i].Value();
    if rf <= 1 {
      SetReplicas(rows, i, [], vs);
    } else if v.primary != "" {
      var candidates := R.CollectCandidates(env, nodes, v);
      var replicas := R.TakeCheapest(Sort(R.Cheaper, candidates), rf);
      assert replicas == R.Chosen(env, nodes, v, rf);
      SetReplicas(rows, i, replicas, vs);
    }
  }

  // AssignReplicas on rows: each row gets a new replica list of its own.
  method AssignReplicaRows(rows: seq<Row>, nodes: seq<NodeInfo>, env: R.Env, rf: int, ghost vs: seq<VNode>)
    returns (ghost ws: seq<VNode>)
    requires Apart(rows) && RowsAre(rows, vs)
    modifies rows`replicas
    ensures RowsAre(rows, ws) && R.Replicated(env, nodes, rf, vs, ws)
    ensures forall i :: 0 <= i < |rows| ==> rows[i].replicas == old(rows[i].replicas) || fresh(rows[i].replicas)
  {
    ws := vs;
    for i := 0 to |rows|
      invariant RowsAre(rows, ws) && |ws| == |vs| && forall j :: i <= j < |vs| ==> ws[j] == vs[j]
      invariant forall j :: 0 <= j < i ==> ws[j] == R.Given(env, nodes, rf, vs[j])
      invariant forall j :: 0 <= j < |rows| ==> rows[j].replicas == old(rows[j].replicas) || fresh(rows[j].replicas)
    {
      ReplicateRow(rows, i, nodes, env, rf, ws);
      ws := ws[i := R.Given(env, nodes, rf, ws[i])];
    }
  }

  // ---------- The whole rebalancing ----------

  method NewRows() returns (rows: seq<Row>, ghost vs: seq<VNode>)
    ensures Apart(rows) && RowsAre(rows, vs) && forall i :: 0 <= i < |rows| ==> fresh(rows[i]) && fresh(rows[i].replicas)
    ensures FreshRing(vs) && Primaries(vs) == seq(VNODE_COUNT, _ => "")
  {
    var init := InitializeVNodes();
    rows, vs := [], init;
    for i := 0 to |init|
      invariant |rows| == i && Apart(rows) && RowsAre(rows, init[..i])
      invariant forall j :: 0 <= j < i ==> fresh(rows[j]) && fresh(rows[j].replicas)
    {
      var none := new NodeId[0];
      var row := new Row(init[i].id, init[i].token, init[i].primary, none);
      assert row.Value() == init[i];
      rows := rows + [row];
      assert init[..i + 1] == init[..i] + [init[i]];
    }
    assert init[..|init|] == init;
  }

  // The rows a rebalancing writes to: a clone of the installed ones, or a new
  // ring when there are none.
  method WorkingRows(src: seq<Row>, ghost vs: seq<VNode>) returns (rows: seq<Row>, ghost start: seq<VNode>)
    requires RowsAre(src, vs)
    ensures Apart(rows) && RowsAre(rows, start) && forall i :: 0 <= i < |rows| ==> fresh(rows[i]) && fresh(rows[i].replicas)
    ensures if vs == [] then FreshRing(start) && Primaries(start) == seq(VNODE_COUNT, _ => "") else start == vs
  {
    if |src| == 0 {
      rows, start := NewRows();
    } else {
      rows := CloneVNodes(src);
      start := vs;
    }
  }

  method SeatPrimaryRows(rows: seq<Row>, targets: Targets, weigh: Weigh, ghost rf: int, ghost vs: seq<VNode>, ghost start: seq<VNode>)
    returns (outcome: Outcome, ghost mid: seq<VNode>)
    requires Apart(rows) && RowsAre(rows, start) && (vs == [] || WellFormed(vs, rf))
    requires if vs == [] then FreshRing(start) && Primaries(start) == seq(VNODE_COUNT, _ => "") else start == vs
    requires TotalWant(targets) == VNODE_COUNT && Want(targets, "") == 0
    modifies rows`primary
    ensures RowsAre(rows, mid) && outcome.Assigned? && Seated(vs, targets, weigh, mid)
  {
    mid, outcome := AssignVNodeRows(rows, targets, weigh, start);
    AssignedOnRing(vs, rf, mid, targets, weigh);
  }

  method SeatReplicaRows(rows: seq<Row>, active: seq<NodeMetrics>, nodes: seq<NodeInfo>, rtt: map<NodeId, map<NodeId, real>>,
                         hash: (U16, NodeId) -> nat, rf: int, ghost mid: seq<VNode>)
    returns (ghost ws: seq<VNode>)
    requires Clean(active) && GoodNodes(nodes) && OnRing(mid) && Apart(rows) && RowsAre(rows, mid)
    requires forall i :: 0 <= i < |mid| ==> mid[i].primary != ""
    modifies rows`replicas
    ensures RowsAre(rows, ws) && WellFormed(ws, rf) && Primaries(ws) == Primaries(mid)
    ensures R.AllChosen(R.Env(R.StatsMap(active), rtt, hash), nodes, rf, ws)
    ensures forall i :: 0 <= i < |rows| ==> rows[i].replicas == old(rows[i].replicas) || fresh(rows[i].replicas)
  {
    var stats := R.StatsOf(active);
    var env := R.Env(stats, rtt, hash);
    ws := AssignReplicaRows(rows, nodes, env, rf, mid);
    ReplicatedIsWellFormed(env, nodes, rf, mid, ws);
    R.ReplicatedIsChosen(env, nodes, rf, mid, ws);
  }

  // Both assignments on fresh rows.
  method SeatOnClone(src: seq<Row>, active: seq<NodeMetrics>, nodes: seq<NodeInfo>, targets: Targets,
                     rtt: map<NodeId, map<NodeId, real>>, weigh: Weigh, hash: (U16, NodeId) -> nat, rf: int, ghost vs: seq<VNode>)
    returns (dst: seq<Row>, outcome: Outcome, ghost ws: seq<VNode>)
    requires RowsAre(src, vs) && (vs == [] || WellFormed(vs, rf)) && Clean(active) && GoodNodes(nodes)
    requires TotalWant(targets) == VNODE_COUNT && Want(targets, "") == 0
    ensures RowsAre(dst, ws) && forall i :: 0 <= i < |dst| ==> fresh(dst[i]) && fresh(dst[i].replicas)
    ensures outcome.Assigned? && Filled(vs, targets, weigh, R.Env(R.StatsMap(active), rtt, hash), nodes, rf, ws)
  {
    ghost var start, mid;
    dst, start := WorkingRows(src, vs);
    outcome, mid := SeatPrimaryRows(dst, targets, weigh, rf, vs, start);
    ws := SeatReplicaRows(dst, active, nodes, rtt, hash, rf, mid);
  }

  // The long-term computation on rows. It modifies nothing that existed before:
  // the installed rows src still hold vs, and the new rows are the rebalanced
  // ring.
  method RebalanceOnClone(src: seq<Row>, active: seq<NodeMetrics>, rtt: map<NodeId, map<NodeId, real>>, weigh: Weigh,
                          hash: (U16, NodeId) -> nat, rf: int, ghost vs: seq<VNode>)
    returns (dst: seq<Row>, nodes: seq<NodeInfo>, outcome: Outcome, ghost ws: seq<VNode>, ghost counts: Targets)
    requires RowsAre(src, vs) && (vs == [] || WellFormed(vs, rf)) && Clean(active) && active != []
    ensures RowsAre(src, vs)
    ensures RowsAre(dst, ws) && forall i :: 0 <= i < |dst| ==> fresh(dst[i]) && fresh(dst[i].replicas)
    ensures nodes == ScoresOf(active) && outcome.Assigned?
    ensures Rebalanced(active, vs, weigh, R.Env(R.StatsMap(active), rtt, hash), rf, ws, counts)
  {
    var targets;
    nodes, targets := ScoreAndTarget(active);
    counts := targets;
    dst, outcome, ws := SeatOnClone(src, active, nodes, targets, rtt, weigh, hash, rf, vs);
    FilledIsRebalanced(active, vs, weigh, R.Env(R.StatsMap(active), rtt, hash), rf, ws, targets);
  }
}
