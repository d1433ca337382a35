// cluster/placement.go: the vnode ring and the reassignment of its primaries.
module Ring {
  import opened Commands
  import opened NodeOrder
  import opened Counting
  import opened Assignment

  const VNODE_COUNT: nat := 1024
  const TOKEN_BUCKET_SIZE: nat := 0xFFFF_FFFF_FFFF_FFFF / VNODE_COUNT

  datatype VNode = VNode(id: U16, token: U64, primary: NodeId, replicas: seq<NodeId>)

  datatype NodeInfo = NodeInfo(id: NodeId, score: real)

  ghost predicate DistinctNodes(nodes: seq<NodeInfo>) {
    forall i, j :: 0 <= i < j < |nodes| ==> nodes[i].id != nodes[j].id
  }

  function Primaries(vs: seq<VNode>): (ps: seq<NodeId>)
    ensures |ps| == |vs|
  {
    seq(|vs|, i requires 0 <= i < |vs| => vs[i].primary)
  }

  // Vnode ids are their positions in the ring.
  ghost predicate IdsInOrder(vs: seq<VNode>) {
    forall i :: 0 <= i < |vs| ==> vs[i].id == i
  }

  // The same vnodes, possibly with other primaries.
  ghost predicate SameButPrimary(vs: seq<VNode>, ws: seq<VNode>) {
    && |vs| == |ws|
    && forall i :: 0 <= i < |vs| ==>
         ws[i].id == vs[i].id && ws[i].token == vs[i].token && ws[i].replicas == vs[i].replicas
  }

  method InitializeVNodes() returns (vs: seq<VNode>)
    ensures |vs| == VNODE_COUNT && IdsInOrder(vs)
    ensures forall i :: 0 <= i < VNODE_COUNT ==>
              vs[i].token == i * TOKEN_BUCKET_SIZE && vs[i].primary == "" && vs[i].replicas == []
  {
    vs := [];
    for i := 0 to VNODE_COUNT
      invariant |vs| == i && IdsInOrder(vs)
      invariant forall j :: 0 <= j < i ==>
                  vs[j].token == j * TOKEN_BUCKET_SIZE && vs[j].primary == "" && vs[j].replicas == []
    {
      vs := vs + [VNode(i, i * TOKEN_BUCKET_SIZE, "", [])];
    }
  }

  // ---------- Counting and revoking ----------

  function Get(m: map<NodeId, int>, n: NodeId): int {
    if n in m then m[n] else 0
  }

  // counts holds the number of vnodes of every node.
  ghost predicate Tallies(counts: map<NodeId, int>, ps: seq<NodeId>) {
    "" !in counts && forall n :: n != "" ==> Get(counts, n) == Count(ps, n)
  }

  lemma {:induction false} CountSnoc(ps: seq<NodeId>, p: NodeId, n: NodeId)
    ensures Count(ps + [p], n) == Count(ps, n) + (if p == n then 1 else 0)
  {
    CountConcat(ps, [p], n);
  }

  method CountOwners(vs: seq<VNode>) returns (counts: map<NodeId, int>)
    ensures Tallies(counts, Primaries(vs))
  {
    counts := map[];
    for i := 0 to |vs|
      invariant Tallies(counts, Primaries(vs)[..i])
    {
      var p := vs[i].primary;
      ghost var before := counts;
      if p != "" {
        counts := counts[p := (if p in counts then counts[p] else 0) + 1];
      }
      assert Primaries(vs)[..i + 1] == Primaries(vs)[..i] + [p];
      forall n | n != "" ensures Get(counts, n) == Count(Primaries(vs)[..i + 1], n) {
        CountSnoc(Primaries(vs)[..i], p, n);
        assert Get(before, n) == Count(Primaries(vs)[..i], n);
      }
    }
    assert Primaries(vs)[..|vs|] == Primaries(vs);
  }

  // The positions without a primary, in increasing order.
  function OpenOf(ps: seq<NodeId>): seq<nat> {
    if ps == [] then [] else
      var n := |ps| - 1;
      if ps[n] == "" then OpenOf(ps[..n]) + [n] else OpenOf(ps[..n])
  }

  // The running test of the source agrees with the closed form: with everything
  // before i stripped, a node has too many vnodes exactly when it has too many
  // from i on.
  lemma {:induction false} RunningTest(ps: seq<NodeId>, targets: Targets, i: nat)
    requires i < |ps| && ps[i] != "" && ps[i] in targets
    ensures Count(Strip(ps, targets)[..i] + ps[i..], ps[i]) > targets[ps[i]] <==> !Keeps(ps, targets, i)
  {
    CountConcat(Strip(ps, targets)[..i], ps[i..], ps[i]);
    KeptBefore(ps, targets, i, ps[i]);
  }

  lemma {:induction false} KeptBefore(ps: seq<NodeId>, targets: Targets, i: nat, n: NodeId)
    requires i <= |ps| && n != "" && n in targets
    ensures var kept := Count(Strip(ps, targets)[..i], n);
            kept > 0 ==> kept + Count(ps[i..], n) <= targets[n]
    decreases i
  {
    if i > 0 {
      KeptBefore(ps, targets, i - 1, n);
      var s := Strip(ps, targets);
      assert s[..i] == s[..i - 1] + [s[i - 1]];
      CountSnoc(s[..i - 1], s[i - 1], n);
      assert ps[i - 1..] == [ps[i - 1]] + ps[i..];
    }
  }

  lemma {:induction false} OpenSnoc(ps: seq<NodeId>, p: NodeId)
    ensures OpenOf(ps + [p]) == if p == "" then OpenOf(ps) + [|ps|] else OpenOf(ps)
  {
    assert (ps + [p])[..|ps|] == ps;
  }

  lemma {:induction false} TallyWithout(counts: map<NodeId, int>, ps: seq<NodeId>, i: nat)
    requires Tallies(counts, ps) && i < |ps| && ps[i] != ""
    ensures Tallies(counts[ps[i] := Get(counts, ps[i]) - 1], ps[i := ""])
  {
    var after := counts[ps[i] := Get(counts, ps[i]) - 1];
    forall n | n != "" ensures Get(after, n) == Count(ps[i := ""], n) {
      CountUpdate(ps, i, "", n);
      assert Get(counts, n) == Count(ps, n);
    }
  }

  lemma {:induction false} PrimariesUpdate(vs: seq<VNode>, i: nat, p: NodeId)
    requires i < |vs|
    ensures Primaries(vs[i := vs[i].(primary := p)]) == Primaries(vs)[i := p]
  {}

  // One position of the stripping pass over ps: now is the list at position i.
  lemma {:induction false} StripStep(ps: seq<NodeId>, targets: Targets, counts: map<NodeId, int>, i: nat, now: seq<NodeId>)
    requires i < |ps| && now == Strip(ps, targets)[..i] + ps[i..] && Tallies(counts, now)
    ensures now[i] == ps[i]
    ensures Strip(ps, targets)[i] == ps[i] || Strip(ps, targets)[i] == ""
    ensures Strip(ps, targets)[i] == ""
            <==> ps[i] == "" || ps[i] !in targets || Get(counts, ps[i]) > targets[ps[i]]
    ensures now[i := Strip(ps, targets)[i]] == Strip(ps, targets)[..i + 1] + ps[i + 1..]
    ensures Strip(ps, targets)[..i + 1] == Strip(ps, targets)[..i] + [Strip(ps, targets)[i]]
  {
    if ps[i] != "" && ps[i] in targets {
      RunningTest(ps, targets, i);
      assert Get(counts, ps[i]) == Count(now, ps[i]);
    }
  }

  // The state of the stripping pass before position i.
  ghost predicate Stripping(vs: seq<VNode>, targets: Targets, i: nat,
                            cur: seq<VNode>, counts: map<NodeId, int>, open: seq<nat>) {
    && i <= |vs| && SameButPrimary(vs, cur)
    && Primaries(cur) == Strip(Primaries(vs), targets)[..i] + Primaries(vs)[i..]
    && Tallies(counts, Primaries(cur))
    && open == OpenOf(Strip(Primaries(vs), targets)[..i])
  }

  lemma {:induction false} StrippingKeeps(vs: seq<VNode>, targets: Targets, i: nat,
                       cur: seq<VNode>, counts: map<NodeId, int>, open: seq<nat>)
    requires Stripping(vs, targets, i, cur, counts, open) && i < |vs|
    requires Strip(Primaries(vs), targets)[i] == Primaries(vs)[i]
    ensures Stripping(vs, targets, i + 1, cur, counts, if cur[i].primary == "" then open + [i] else open)
  {
    var ps := Primaries(vs);
    StripStep(ps, targets, counts, i, Primaries(cur));
    OpenSnoc(Strip(ps, targets)[..i], ps[i]);
    assert Primaries(cur)[i := ps[i]] == Primaries(cur);
  }

  lemma {:induction false} StrippingRevokes(vs: seq<VNode>, targets: Targets, i: nat,
                         cur: seq<VNode>, counts: map<NodeId, int>, open: seq<nat>)
    requires Stripping(vs, targets, i, cur, counts, open) && i < |vs|
    requires Strip(Primaries(vs), targets)[i] == "" != Primaries(vs)[i]
    ensures var owner := cur[i].primary;
            Stripping(vs, targets, i + 1, cur[i := cur[i].(primary := "")],
                      counts[owner := Get(counts, owner) - 1], open + [i])
  {
    var ps := Primaries(vs);
    StripStep(ps, targets, counts, i, Primaries(cur));
    OpenSnoc(Strip(ps, targets)[..i], "");
    TallyWithout(counts, Primaries(cur), i);
    PrimariesUpdate(cur, i, "");
  }

  // Strips every primary that is gone or has too many vnodes, left to right.
  method Revoke(vs: seq<VNode>, targets: Targets, tally: map<NodeId, int>)
    returns (cur: seq<VNode>, counts: map<NodeId, int>, open: seq<nat>)
    requires Tallies(tally, Primaries(vs)) && IdsInOrder(vs)
    ensures SameButPrimary(vs, cur) && Primaries(cur) == Strip(Primaries(vs), targets)
    ensures Tallies(counts, Primaries(cur)) && open == OpenOf(Primaries(cur))
  {
    cur, counts, open := vs, tally, [];
    for i := 0 to |vs|
      invariant Stripping(vs, targets, i, cur, counts, open)
    {
      assert cur[i].id == vs[i].id == i;
      cur, counts, open := RevokeAt(vs, targets, i, cur, counts, open);
    }
    assert Strip(Primaries(vs), targets)[..|vs|] == Strip(Primaries(vs), targets);
  }

  method RevokeAt(ghost vs: seq<VNode>, targets: Targets, i: nat,
                  vnodes: seq<VNode>, tally: map<NodeId, int>, orphans: seq<nat>)
    returns (cur: seq<VNode>, counts: map<NodeId, int>, open: seq<nat>)
    requires Stripping(vs, targets, i, vnodes, tally, orphans) && i < |vs| && vnodes[i].id == i
    ensures Stripping(vs, targets, i + 1, cur, counts, open)
  {
    StripStep(Primaries(vs), targets, tally, i, Primaries(vnodes));
    cur, counts, open := vnodes, tally, orphans;
    var owner := cur[i].primary;
    if owner == "" {
      StrippingKeeps(vs, targets, i, cur, counts, open);
      open := open + [cur[i].id];
    } else if owner !in targets || (if owner in counts then counts[owner] else 0) > targets[owner] {
      StrippingRevokes(vs, targets, i, cur, counts, open);
      counts := counts[owner := (if owner in counts then counts[owner] else 0) - 1];
      cur := cur[i := cur[i].(primary := "")];
      open := open + [cur[i].id];
    } else {
      StrippingKeeps(vs, targets, i, cur, counts, open);
    }
  }

  // ---------- Deficits ----------

  // What a node still needs; the empty id is counted as having nothing.
  function Need(ps: seq<NodeId>, targets: Targets, n: NodeId): int {
    Want(targets, n) - if n == "" then 0 else Count(ps, n)
  }

  ghost predicate DeficitsOf(deficits: map<NodeId, int>, ps: seq<NodeId>, targets: Targets) {
    && deficits.Keys <= targets.Keys
    && forall n :: n in targets && (Need(ps, targets, n) > 0 || n in deficits) ==>
         n in deficits && deficits[n] == Need(ps, targets, n)
  }

  method FindDeficits(targets: Targets, counts: map<NodeId, int>, ghost ps: seq<NodeId>)
    returns (deficits: map<NodeId, int>)
    requires Tallies(counts, ps)
    ensures DeficitsOf(deficits, ps, targets)
    ensures forall n :: n in deficits ==> deficits[n] > 0
  {
    deficits := map[];
    var todo := targets.Keys;
    while todo != {}
      invariant todo <= targets.Keys && deficits.Keys <= targets.Keys - todo
      invariant forall n :: n in targets.Keys - todo ==>
                  if Need(ps, targets, n) > 0 then n in deficits && deficits[n] == Need(ps, targets, n)
                  else n !in deficits
      decreases |todo|
    {
      var n :| n in todo;
      todo := todo - {n};
      var curr := if n in counts then counts[n] else 0;
      assert n != "" ==> Get(counts, n) == Count(ps, n);
      if targets[n] > curr {
        deficits := deficits[n := targets[n] - curr];
      }
    }
  }

  method SumDeficits(deficits: map<NodeId, int>) returns (total: int)
    ensures total == SumOver(deficits.Keys, Gets(deficits))
  {
    total := 0;
    var todo := deficits.Keys;
    while todo != {}
      invariant todo <= deficits.Keys
      invariant total + SumOver(todo, Gets(deficits)) == SumOver(deficits.Keys, Gets(deficits))
      decreases |todo|
    {
      var n :| n in todo;
      SumWithout(todo, Gets(deficits), n);
      total := total + deficits[n];
      todo := todo - {n};
    }
  }

  ghost function Gets(m: map<NodeId, int>): NodeId -> int {
    n => Get(m, n)
  }

  lemma {:induction false} LeastExists(ns: set<NodeId>)
    requires ns != {}
    ensures exists n :: IsLeast(n, ns)
    decreases |ns|
  {
    var n :| n in ns;
    var rest := ns - {n};
    if rest == {} {
      assert ns == rest + {n};
      assert IsLeast(n, ns);
    } else {
      LeastExists(rest);
      var r :| IsLeast(r, rest);
      LessTotal(n, r);
      if Less(r, n) {
        assert IsLeast(r, ns);
      } else {
        forall m | m in ns && m != n && m != r ensures Less(n, m) { LessTransitive(n, r, m); }
        assert IsLeast(n, ns);
      }
    }
  }

  predicate IsLeast(n: NodeId, ns: set<NodeId>) {
    n in ns && forall m :: m in ns && m != n ==> Less(n, m)
  }

  // The highest-weighing node among those with a remaining deficit, visiting the
  // nodes in increasing order; "" when there is none. The empty id can only come
  // first and then loses to any other node.
  method PickBest(deficits: map<NodeId, int>, weigh: Weigh, v: U16, ghost ps: seq<NodeId>, ghost targets: Targets)
    returns (best: NodeId)
    requires DeficitsOf(deficits, ps, targets)
    ensures best == Best(ps, targets, weigh, v)
    ensures best != "" ==> best in targets && Count(ps, best) < targets[best]
    ensures forall m :: m in targets && m != "" && m != best && Count(ps, m) < targets[m] ==>
              && best != "" && weigh(m, v) <= weigh(best, v)
              && (weigh(m, v) == weigh(best, v) ==> Less(best, m))
  {
    best := "";
    var bestScore := 0;
    var todo := deficits.Keys;
    while todo != {}
      invariant todo <= deficits.Keys
      invariant "" in todo ==> best == ""
      invariant best != "" ==> best in deficits && deficits[best] > 0 && bestScore == weigh(best, v)
      invariant forall m :: m in deficits.Keys - todo && m != "" && m != best && deficits[m] > 0 ==>
                  best != "" && Beats(weigh, v, best, m)
      decreases |todo|
    {
      LeastExists(todo);
      var n :| n in todo && IsLeast(n, todo);
      todo := todo - {n};
      if deficits[n] > 0 {
        var score := weigh(n, v);
        if best == "" || score > bestScore || (score == bestScore && Less(n, best)) {
          if best != "" { Overtakes(deficits.Keys - todo, weigh, v, n, best); }
          best, bestScore := n, score;
        } else {
          LessTotal(n, best);
        }
      }
    }
    if best != "" {
      assert IsBest(ps, targets, weigh, v, best);
      BestIsUnique(ps, targets, weigh, v, best, Best(ps, targets, weigh, v));
    }
  }

  // Whatever the overtaken node beat, the new one beats too.
  lemma {:induction false} Overtakes(ns: set<NodeId>, weigh: Weigh, v: nat, n: NodeId, best: NodeId)
    requires Beats(weigh, v, n, best)
    ensures forall m :: m in ns && Beats(weigh, v, best, m) ==> Beats(weigh, v, n, m)
  {
    forall m | m in ns && Beats(weigh, v, best, m) ensures Beats(weigh, v, n, m) {
      if weigh(n, v) == weigh(best, v) == weigh(m, v) { LessTransitive(n, best, m); }
    }
  }

  // ---------- Scattering ----------

  ghost predicate ListsOpen(open: seq<nat>, ps: seq<NodeId>) {
    && (forall k :: 0 <= k < |open| ==> open[k] < |ps| && ps[open[k]] == "")
    && (forall k, l :: 0 <= k < l < |open| ==> open[k] < open[l])
    && (forall i :: 0 <= i < |ps| && ps[i] == "" ==> i in open)
  }

  lemma {:induction false} ListsOpenSnoc(open: seq<nat>, ps: seq<NodeId>, p: NodeId)
    requires ListsOpen(open, ps)
    ensures ListsOpen(if p == "" then open + [|ps|] else open, ps + [p])
  {
    var qs, os := ps + [p], if p == "" then open + [|ps|] else open;
    forall k | 0 <= k < |os| ensures os[k] < |qs| && qs[os[k]] == "" {
      if k < |open| {
        assert os[k] == open[k] && qs[open[k]] == ps[open[k]];
      }
    }
    forall i | 0 <= i < |qs| && qs[i] == "" ensures i in os {
      if i < |ps| {
        assert ps[i] == qs[i] && i in open;
      } else {
        assert os[|open|] == i;
      }
    }
  }

  lemma {:induction false} OpenLists(ps: seq<NodeId>)
    ensures ListsOpen(OpenOf(ps), ps) && |OpenOf(ps)| == Count(ps, "")
  {
    if ps != [] {
      var n := |ps| - 1;
      OpenLists(ps[..n]);
      assert ps == ps[..n] + [ps[n]];
      CountSnoc(ps[..n], ps[n], "");
      ListsOpenSnoc(OpenOf(ps[..n]), ps[..n], ps[n]);
    }
  }

  lemma {:induction false} FillSkips(ps: seq<NodeId>, targets: Targets, weigh: Weigh, i: nat)
    requires i <= |ps| && forall j :: 0 <= j < i ==> ps[j] != ""
    ensures Fill(ps, targets, weigh, 0) == Fill(ps, targets, weigh, i)
  {
    if i > 0 { FillSkips(ps, targets, weigh, i - 1); }
  }

  lemma {:induction false} FillFirstOpen(ps: seq<NodeId>, targets: Targets, weigh: Weigh, i: nat)
    requires i < |ps| && ps[i] == "" && (forall j :: 0 <= j < i ==> ps[j] != "")
    requires Best(ps, targets, weigh, i) != ""
    ensures Fill(ps, targets, weigh, 0) == Fill(ps[i := Best(ps, targets, weigh, i)], targets, weigh, 0)
  {
    FillSkips(ps, targets, weigh, i);
    FillSkips(ps[i := Best(ps, targets, weigh, i)], targets, weigh, i + 1);
  }

  lemma {:induction false} FirstOpen(open: seq<nat>, ps: seq<NodeId>, b: NodeId)
    requires ListsOpen(open, ps) && open != [] && b != ""
    ensures forall j :: 0 <= j < open[0] ==> ps[j] != ""
    ensures ListsOpen(open[1..], ps[open[0] := b])
  {
    var i := open[0];
    assert forall k :: 0 <= k < |open| ==> i <= open[k];
    assert forall j :: j in open ==> i <= j;
    forall j | 0 <= j < |ps| && ps[i := b][j] == "" ensures j in open[1..] {
      var k :| 0 <= k < |open| && open[k] == j;
      assert open[1..][k - 1] == j;
    }
  }

  lemma {:induction false} DeficitsAfterGift(deficits: map<NodeId, int>, ps: seq<NodeId>, targets: Targets, i: nat, b: NodeId)
    requires DeficitsOf(deficits, ps, targets) && i < |ps| && ps[i] == "" && b != "" && b in deficits
    ensures DeficitsOf(deficits[b := deficits[b] - 1], ps[i := b], targets)
  {
    forall n | n in targets ensures Need(ps[i := b], targets, n) == Need(ps, targets, n) - (if n == b then 1 else 0) {
      CountUpdate(ps, i, b, n);
    }
  }

  // start is the stripped list, ps what the vnodes hold with open still to do.
  ghost predicate Scattering(start: seq<NodeId>, targets: Targets, weigh: Weigh,
                             open: seq<nat>, ps: seq<NodeId>, deficits: map<NodeId, int>) {
    && |ps| == |start| && Within(ps, targets) && ListsOpen(open, ps) && DeficitsOf(deficits, ps, targets)
    && Fill(ps, targets, weigh, 0) == Fill(start, targets, weigh, 0)
  }

  lemma {:induction false} ScatterStep(start: seq<NodeId>, targets: Targets, weigh: Weigh,
                    open: seq<nat>, ps: seq<NodeId>, deficits: map<NodeId, int>, b: NodeId)
    requires Scattering(start, targets, weigh, open, ps, deficits) && open != []
    requires b == Best(ps, targets, weigh, open[0]) != ""
    ensures b in deficits
    ensures Scattering(start, targets, weigh, open[1..], ps[open[0] := b], deficits[b := Get(deficits, b) - 1])
  {
    FirstOpen(open, ps, b);
    FillFirstOpen(ps, targets, weigh, open[0]);
    FillOne(ps, targets, weigh, open[0]);
    DeficitsAfterGift(deficits, ps, targets, open[0], b);
  }

  // No node is left to take an open vnode only when the empty id had a target.
  lemma {:induction false} NoNodeLeft(start: seq<NodeId>, targets: Targets, weigh: Weigh,
                   open: seq<nat>, ps: seq<NodeId>, deficits: map<NodeId, int>)
    requires Scattering(start, targets, weigh, open, ps, deficits) && open != []
    requires Best(ps, targets, weigh, open[0]) == "" && TotalWant(targets) + Want(targets, "") == |ps|
    ensures Want(targets, "") != 0
  {
    if Want(targets, "") == 0 {
      CountZero(ps, "");
      OpenMeansNeeded(ps, targets);
      var n :| n in Nodes(targets) && Deficit(ps, targets, n) > 0;
      BestExists(ps, targets, weigh, open[0], n);
    }
  }

  // Total deficit, counted as the source counts it, against open vnodes.
  lemma {:induction false} DeficitTotal(deficits: map<NodeId, int>, ps: seq<NodeId>, targets: Targets)
    requires DeficitsOf(deficits, ps, targets) && Within(ps, targets)
    ensures SumOver(deficits.Keys, Gets(deficits)) - Count(ps, "")
            == TotalWant(targets) + Want(targets, "") - |ps|
  {
    var ns := Nodes(targets);
    forall n | n in targets.Keys - deficits.Keys ensures Needs(ps, targets)(n) == 0 {
      assert Need(ps, targets, n) <= 0;
    }
    SumOverSubset(deficits.Keys, targets.Keys, Needs(ps, targets));
    SumEqual(deficits.Keys, Gets(deficits), Needs(ps, targets));
    if "" in targets {
      SumWithout(targets.Keys, Needs(ps, targets), "");
    } else {
      assert ns == targets.Keys;
    }
    SumEqual(ns, Needs(ps, targets), Difference(Wants(targets), Counts(ps)));
    SumDifference(ns, Wants(targets), Counts(ps));
    CountInIsSum(ps, ns);
    CountInAll(ps, ns);
  }

  ghost function Needs(ps: seq<NodeId>, targets: Targets): NodeId -> int {
    n => Need(ps, targets, n)
  }

  // How AssignVNodes ends: normally, or at one of its two panics.
  datatype Outcome = Assigned | MismatchPanic | NoNodePanic

  // AssignVNodes on an initialised ring. It ends normally exactly when the
  // targets of named nodes add up to the number of vnodes and the empty id has
  // none.
  method Rebalance(vs: seq<VNode>, targets: Targets, weigh: Weigh) returns (cur: seq<VNode>, outcome: Outcome)
    requires IdsInOrder(vs)
    ensures SameButPrimary(vs, cur)
    ensures outcome.Assigned? <==> TotalWant(targets) == |vs| && Want(targets, "") == 0
    ensures outcome.MismatchPanic? <==> TotalWant(targets) + Want(targets, "") != |vs|
    ensures outcome.Assigned? ==> Primaries(cur) == Reassign(Primaries(vs), targets, weigh)
    ensures outcome.Assigned? ==>
              && Meets(Primaries(cur), targets) && KeepsLast(Primaries(vs), Primaries(cur))
              && HeaviestFirst(Primaries(vs), Primaries(cur), targets, weigh)
  {
    var counts := CountOwners(vs);
    var stripped, left, open := Revoke(vs, targets, counts);
    var deficits := FindDeficits(targets, left, Primaries(stripped));
    var total := SumDeficits(deficits);
    StripWithin(Primaries(vs), targets);
    OpenLists(Primaries(stripped));
    DeficitTotal(deficits, Primaries(stripped), targets);
    if |open| != total {
      return stripped, MismatchPanic;
    }
    var ok;
    cur, ok := Scatter(stripped, targets, weigh, open, deficits);
    outcome := if ok then Assigned else NoNodePanic;
    if ok {
      ReassignPromises(Primaries(vs), targets, weigh);
    }
  }

  // A ring as initialised, apart from its primaries.
  ghost predicate FreshRing(vs: seq<VNode>) {
    && |vs| == VNODE_COUNT && IdsInOrder(vs)
    && forall i :: 0 <= i < |vs| ==> vs[i].token == i * TOKEN_BUCKET_SIZE && vs[i].replicas == []
  }

  ghost predicate ScatteringAt(vs: seq<VNode>, targets: Targets, weigh: Weigh,
                               rest: seq<nat>, cur: seq<VNode>, deficits: map<NodeId, int>) {
    SameButPrimary(vs, cur) && Scattering(Primaries(vs), targets, weigh, rest, Primaries(cur), deficits)
  }

  lemma {:induction false} ScatterAdvances(vs: seq<VNode>, targets: Targets, weigh: Weigh,
                        rest: seq<nat>, cur: seq<VNode>, deficits: map<NodeId, int>, b: NodeId)
    requires ScatteringAt(vs, targets, weigh, rest, cur, deficits) && rest != []
    requires b == Best(Primaries(cur), targets, weigh, rest[0]) != ""
    ensures b in deficits
    ensures ScatteringAt(vs, targets, weigh, rest[1..], cur[rest[0] := cur[rest[0]].(primary := b)],
                         deficits[b := Get(deficits, b) - 1])
  {
    ScatterStep(Primaries(vs), targets, weigh, rest, Primaries(cur), deficits, b);
    PrimariesUpdate(cur, rest[0], b);
  }

  // Gives each open vnode to its best node; fails when no node is left to take one.
  method Scatter(vs: seq<VNode>, targets: Targets, weigh: Weigh, open: seq<nat>, start: map<NodeId, int>)
    returns (cur: seq<VNode>, ok: bool)
    requires IdsInOrder(vs) && Within(Primaries(vs), targets)
    requires open == OpenOf(Primaries(vs)) && DeficitsOf(start, Primaries(vs), targets)
    requires TotalWant(targets) + Want(targets, "") == |vs|
    ensures SameButPrimary(vs, cur)
    ensures ok <==> Want(targets, "") == 0
    ensures ok ==> Primaries(cur) == Fill(Primaries(vs), targets, weigh, 0)
  {
    cur, ok := vs, true;
    var deficits, rest := start, open;
    OpenLists(Primaries(vs));
    while rest != []
      invariant ScatteringAt(vs, targets, weigh, rest, cur, deficits)
      decreases |rest|
    {
      var v := rest[0];
      assert cur[v].id == vs[v].id == v;
      var best := PickBest(deficits, weigh, v, Primaries(cur), targets);
      if best == "" {
        NoNodeLeft(Primaries(vs), targets, weigh, rest, Primaries(cur), deficits);
        return cur, false;
      }
      ScatterAdvances(vs, targets, weigh, rest, cur, deficits, best);
      cur := cur[v := cur[v].(primary := best)];
      deficits := deficits[best := deficits[best] - 1];
      rest := rest[1..];
    }
    FilledUp(Primaries(vs), targets, weigh, Primaries(cur), deficits);
  }

  lemma {:induction false} FilledUp(start: seq<NodeId>, targets: Targets, weigh: Weigh, ps: seq<NodeId>, deficits: map<NodeId, int>)
    requires Scattering(start, targets, weigh, [], ps, deficits)
    requires TotalWant(targets) + Want(targets, "") == |ps|
    ensures ps == Fill(start, targets, weigh, 0) && Want(targets, "") == 0
  {
    FillSkips(ps, targets, weigh, |ps|);
    CountZero(ps, "");
    CountInIsSum(ps, Nodes(targets));
    CountInAll(ps, Nodes(targets));
    SumAtMost(Nodes(targets), Counts(ps), Wants(targets));
  }
}
