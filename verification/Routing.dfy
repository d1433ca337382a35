// cluster/placement.go, cluster/state.go and cluster/router.go: from a key's
// hash to the nodes that hold it, on servers and on clients.
module Routing {
  import opened Commands
  import opened NodeOrder
  import opened Ring
  import opened Control
  import opened PlacementLog

  const BUCKET: nat := 0x40_0000_0000_0000

  // High word of the 128-bit product token * 1024.
  function VNodeIndex(token: U64): nat {
    token * VNODE_COUNT / 0x1_0000_0000_0000_0000
  }

  // ---------- Buckets ----------

  // Vnode i owns exactly the 2^54 tokens from i * 2^54.
  lemma {:induction false} BucketsAreEqual(token: U64, i: nat)
    ensures VNodeIndex(token) < VNODE_COUNT
    ensures VNodeIndex(token) == i <==> i * BUCKET <= token < (i + 1) * BUCKET
  {
    var n := token * VNODE_COUNT;
    assert n == 0x1_0000_0000_0000_0000 * VNodeIndex(token) + n % 0x1_0000_0000_0000_0000;
  }

  lemma {:induction false} IndexIsMonotone(a: U64, b: U64)
    requires a <= b
    ensures VNodeIndex(a) <= VNodeIndex(b)
  {
    BucketsAreEqual(a, VNodeIndex(a));
    BucketsAreEqual(b, VNodeIndex(b));
  }

  // The token stored in vnode i is not where its bucket starts: it lies i tokens
  // below, so beyond the first vnode it belongs to the one before.
  lemma {:induction false} StoredTokenIsBelowBucket(i: nat)
    requires i < VNODE_COUNT
    ensures i * BUCKET - i * TOKEN_BUCKET_SIZE == i
    ensures VNodeIndex(i * TOKEN_BUCKET_SIZE) == if i == 0 then 0 else i - 1
  {
    BucketsAreEqual(i * TOKEN_BUCKET_SIZE, if i == 0 then 0 else i - 1);
  }

  // ---------- Servers ----------

  function GetNodesForKey(vs: seq<VNode>, token: U64): (NodeId, seq<NodeId>) {
    if |vs| != VNODE_COUNT then ("", [])
    else
      BucketsAreEqual(token, 0);
      (vs[VNodeIndex(token)].primary, vs[VNodeIndex(token)].replicas)
  }

  function GetVNodeIDForKey(vs: seq<VNode>, token: U64): U16 {
    if |vs| != VNODE_COUNT then 0
    else
      BucketsAreEqual(token, 0);
      vs[VNodeIndex(token)].id
  }

  datatype Ownership = Ownership(isOwner: bool, isReplica: bool, owner: NodeId)

  function CheckOwnership(me: NodeId, held: Option<Plan>, token: U64): Ownership {
    if held.None? then Ownership(true, false, "")
    else
      var (owner, replicas) := GetNodesForKey(held.value.vnodes, token);
      Ownership(owner == me, me in replicas, owner)
  }

  function GetVNodeForKey(held: Option<Plan>, token: U64): U16 {
    if held.None? then 0 else GetVNodeIDForKey(held.value.vnodes, token)
  }

  // On a well-formed ring exactly one node accepts a write and it is no replica.
  lemma {:induction false} OneOwner(p: Plan, rf: int, token: U64, me: NodeId)
    requires WellFormed(p.vnodes, rf)
    ensures VNodeIndex(token) < |p.vnodes|
    ensures var o := CheckOwnership(me, Some(p), token);
            && o.owner == p.vnodes[VNodeIndex(token)].primary != "" && (o.isOwner <==> me == o.owner)
            && (o.isReplica <==> me in p.vnodes[VNodeIndex(token)].replicas) && !(o.isOwner && o.isReplica)
            && GetVNodeForKey(Some(p), token) == VNodeIndex(token)
  {
    BucketsAreEqual(token, 0);
  }

  // Before any placement every node accepts every write and files it under
  // vnode 0, which is the vnode it will belong to exactly for low tokens.
  lemma {:induction false} EarlyWritesAreMisfiled(me: NodeId, p: Plan, rf: int, token: U64)
    requires WellFormed(p.vnodes, rf)
    ensures CheckOwnership(me, None, token).isOwner
    ensures GetVNodeForKey(None, token) == GetVNodeForKey(Some(p), token) <==> token < BUCKET
  {
    BucketsAreEqual(token, 0);
  }

  // ---------- What clients are told ----------

  datatype ClientVNode = ClientVNode(id: nat, primary: NodeId, replicas: seq<NodeId>)
  datatype ClientNode = ClientNode(id: NodeId, rpcAddr: string)
  datatype ClusterState = ClusterState(epoch: nat, vnodes: seq<ClientVNode>, nodes: seq<ClientNode>)

  function ClientView(v: VNode): ClientVNode {
    ClientVNode(v.id, v.primary, v.replicas)
  }

  function AddrOf(addrs: map<NodeId, string>, n: NodeId): string {
    if n in addrs then addrs[n] else ""
  }

  // The state describes plan p: same epoch and vnodes, and an address for every
  // node whose address is known, under one entry per node.
  ghost predicate Describes(st: ClusterState, p: Plan, addrs: map<NodeId, string>) {
    && st.epoch == p.epoch && |st.vnodes| == |p.vnodes|
    && (forall i :: 0 <= i < |p.vnodes| ==> st.vnodes[i] == ClientView(p.vnodes[i]))
    && (forall i :: 0 <= i < |st.nodes| ==> st.nodes[i].rpcAddr == AddrOf(addrs, st.nodes[i].id))
    && (forall n :: n in addrs ==> exists i :: 0 <= i < |st.nodes| && st.nodes[i].id == n)
  }

  ghost predicate Listed(nodes: seq<ClientNode>, n: NodeId) {
    exists j :: 0 <= j < |nodes| && nodes[j].id == n
  }

  ghost predicate Addressed(nodes: seq<ClientNode>, addrs: map<NodeId, string>, ids: set<NodeId>) {
    && (forall j :: 0 <= j < |nodes| ==> nodes[j].rpcAddr == AddrOf(addrs, nodes[j].id))
    && forall n :: n in ids ==> Listed(nodes, n)
  }

  lemma {:induction false} AddressedGrows(nodes: seq<ClientNode>, addrs: map<NodeId, string>, ids: set<NodeId>, n: NodeId)
    requires Addressed(nodes, addrs, ids)
    ensures Addressed(nodes + [ClientNode(n, AddrOf(addrs, n))], addrs, ids + {n})
  {
    var after := nodes + [ClientNode(n, AddrOf(addrs, n))];
    forall m | m in ids + {n} ensures Listed(after, m) {
      if m == n {
        assert after[|nodes|].id == n;
      } else {
        var j :| 0 <= j < |nodes| && nodes[j].id == m;
        assert after[j].id == m;
      }
    }
  }

  // sorted lists the nodes with a known address.
  method SnapshotClusterState(p: Plan, addrs: map<NodeId, string>, sorted: seq<NodeId>) returns (st: ClusterState)
    requires forall n :: n in sorted <==> n in addrs
    ensures Describes(st, p, addrs)
  {
    var vnodes: seq<ClientVNode> := [];
    for i := 0 to |p.vnodes|
      invariant |vnodes| == i && forall j :: 0 <= j < i ==> vnodes[j] == ClientView(p.vnodes[j])
    {
      vnodes := vnodes + [ClientVNode(p.vnodes[i].id, p.vnodes[i].primary, p.vnodes[i].replicas)];
    }
    var nodes: seq<ClientNode>, known: set<NodeId> := [], {};
    for i := 0 to |p.nodes|
      invariant Addressed(nodes, addrs, known)
    {
      AddressedGrows(nodes, addrs, known, p.nodes[i].id);
      nodes := nodes + [ClientNode(p.nodes[i].id, AddrOf(addrs, p.nodes[i].id))];
      known := known + {p.nodes[i].id};
    }
    for i := 0 to |sorted|
      invariant Addressed(nodes, addrs, known) && forall j :: 0 <= j < i ==> sorted[j] in known
    {
      if sorted[i] !in known {
        AddressedGrows(nodes, addrs, known, sorted[i]);
        nodes := nodes + [ClientNode(sorted[i], addrs[sorted[i]])];
        known := known + {sorted[i]};
      }
    }
    st := ClusterState(p.epoch, vnodes, nodes);
    forall n | n in addrs ensures Listed(nodes, n) { assert n in sorted; }
  }

  // ---------- Clients ----------

  datatype Target = Target(nodeID: NodeId, rpcAddr: string)

  // The nodes of a list whose address is known, in order.
  function Known(addrs: map<NodeId, string>, ids: seq<NodeId>): seq<Target> {
    if ids == [] then [] else
      var n := |ids| - 1;
      Known(addrs, ids[..n]) + if AddrOf(addrs, ids[n]) == "" then [] else [Target(ids[n], AddrOf(addrs, ids[n]))]
  }

  function Rotate<T>(xs: seq<T>, k: nat): seq<T>
    requires k <= |xs|
  {
    xs[k..] + xs[..k]
  }

  // Adding one in 64 bits.
  function Advanced(cursor: U64): U64 {
    if cursor == 0xFFFF_FFFF_FFFF_FFFF then 0 else cursor + 1
  }

  class PlacementRouter {
    var state: Option<ClusterState>
    var readCursor: U64

    constructor ()
      ensures state == None && readCursor == 0
    {
      state, readCursor := None, 0;
    }

    // Writes go to the primary; reads to every holder with a known address,
    // starting from a different one each time.
    method RouteForKey(token: U64, readAnyNode: bool, ghost p: Plan, ghost addrs: map<NodeId, string>)
      returns (r: Option<seq<Target>>)
      requires state.Some? ==> Describes(state.value, p, addrs)
      modifies `readCursor
      ensures r.Some? <==> state.Some? && GetNodesForKey(p.vnodes, token).0 != ""
      ensures r.Some? && !readAnyNode ==> r.value == Known(addrs, [GetNodesForKey(p.vnodes, token).0])
      ensures r.Some? && readAnyNode ==>
                var all := Known(addrs, [GetNodesForKey(p.vnodes, token).0] + GetNodesForKey(p.vnodes, token).1);
                r.value == if |all| > 1 then Rotate(all, readCursor % |all|) else all
      ensures readCursor == if r.Some? && readAnyNode && |r.value| > 1 then Advanced(old(readCursor)) else old(readCursor)
    {
      if state.None? {
        return None;
      }
      var vnode := FindVNode(state.value, token, p, addrs);
      if vnode.None? {
        return None;
      }
      var targets := TargetsOf(state.value, vnode.value, readAnyNode, p, addrs);
      if readAnyNode && |targets| > 1 {
        targets := Spread(targets);
      }
      return Some(targets);
    }

    method Spread(targets: seq<Target>) returns (r: seq<Target>)
      requires |targets| > 1
      modifies `readCursor
      ensures r == Rotate(targets, readCursor % |targets|)
      ensures readCursor == Advanced(old(readCursor))
    {
      readCursor := Advanced(readCursor);
      var offset := readCursor % |targets|;
      r := targets[offset..] + targets[..offset];
    }
  }

  method FindVNode(st: ClusterState, token: U64, ghost p: Plan, ghost addrs: map<NodeId, string>) returns (r: Option<ClientVNode>)
    requires Describes(st, p, addrs)
    ensures r.Some? <==> GetNodesForKey(p.vnodes, token).0 != ""
    ensures r.Some? ==> (r.value.primary, r.value.replicas) == GetNodesForKey(p.vnodes, token)
  {
    if |st.vnodes| != VNODE_COUNT {
      return None;
    }
    BucketsAreEqual(token, 0);
    var vnode := st.vnodes[VNodeIndex(token)];
    if vnode.primary == "" {
      return None;
    }
    return Some(vnode);
  }

  method TargetsOf(st: ClusterState, vnode: ClientVNode, readAnyNode: bool, ghost p: Plan, ghost addrs: map<NodeId, string>)
    returns (targets: seq<Target>)
    requires Describes(st, p, addrs)
    ensures targets == Known(addrs, if readAnyNode then [vnode.primary] + vnode.replicas else [vnode.primary])
  {
    var addrByNode := IndexAddresses(st, p, addrs);
    targets := AppendKnown([], addrByNode, [vnode.primary], addrs);
    ghost var first := Known(addrs, [vnode.primary]);
    assert targets == first;
    if readAnyNode {
      targets := AppendKnown(targets, addrByNode, vnode.replicas, addrs);
      KnownConcat(addrs, [vnode.primary], vnode.replicas);
    }
  }

  method IndexAddresses(st: ClusterState, ghost p: Plan, ghost addrs: map<NodeId, string>) returns (m: map<NodeId, string>)
    requires Describes(st, p, addrs)
    ensures forall n :: AddrOf(m, n) == AddrOf(addrs, n)
  {
    m := map[];
    for i := 0 to |st.nodes|
      invariant forall n :: n in m ==> m[n] == AddrOf(addrs, n)
      invariant forall j :: 0 <= j < i ==> st.nodes[j].id in m
    {
      m := m[st.nodes[i].id := st.nodes[i].rpcAddr];
    }
    forall n ensures AddrOf(m, n) == AddrOf(addrs, n) {
      if n in addrs {
        var j :| 0 <= j < |st.nodes| && st.nodes[j].id == n;
      }
    }
  }

  method AppendKnown(start: seq<Target>, m: map<NodeId, string>, ids: seq<NodeId>, ghost addrs: map<NodeId, string>)
    returns (targets: seq<Target>)
    requires forall n :: AddrOf(m, n) == AddrOf(addrs, n)
    ensures targets == start + Known(addrs, ids)
  {
    targets := start;
    for i := 0 to |ids|
      invariant targets == start + Known(addrs, ids[..i])
    {
      var addr := AddrOf(m, ids[i]);
      if addr != "" {
        targets := targets + [Target(ids[i], addr)];
      }
      assert ids[..i + 1][..i] == ids[..i];
    }
    assert ids[..|ids|] == ids;
  }

  lemma {:induction false} KnownConcat(addrs: map<NodeId, string>, a: seq<NodeId>, b: seq<NodeId>)
    ensures Known(addrs, a + b) == Known(addrs, a) + Known(addrs, b)
  {
    if b == [] {
      assert a + b == a;
    } else {
      var n := |b| - 1;
      KnownConcat(addrs, a, b[..n]);
      assert (a + b)[..|a + b| - 1] == a + b[..n];
    }
  }

  // A target is a listed node under its known address.
  lemma {:induction false} KnownExactly(addrs: map<NodeId, string>, ids: seq<NodeId>, t: Target)
    ensures t in Known(addrs, ids) <==> t.nodeID in ids && t.nodeID in addrs && addrs[t.nodeID] == t.rpcAddr && t.rpcAddr != ""
  {
    if ids != [] {
      var n := |ids| - 1;
      KnownExactly(addrs, ids[..n], t);
      assert ids == ids[..n] + [ids[n]];
    }
  }

  // Targets come in the order of the list.
  lemma {:induction false} KnownInOrder(addrs: map<NodeId, string>, ids: seq<NodeId>, i: nat, j: nat)
    requires i < j < |Known(addrs, ids)|
    ensures exists a, b :: 0 <= a < b < |ids| && ids[a] == Known(addrs, ids)[i].nodeID && ids[b] == Known(addrs, ids)[j].nodeID
  {
    var n := |ids| - 1;
    var front := Known(addrs, ids[..n]);
    if j < |front| {
      KnownInOrder(addrs, ids[..n], i, j);
      var a, b :| 0 <= a < b < n && ids[..n][a] == front[i].nodeID && ids[..n][b] == front[j].nodeID;
      assert ids[a] == front[i].nodeID && ids[b] == front[j].nodeID;
    } else {
      KnownExactly(addrs, ids[..n], front[i]);
      var a :| 0 <= a < n && ids[..n][a] == front[i].nodeID;
      assert ids[a] == front[i].nodeID && ids[n] == Known(addrs, ids)[j].nodeID;
    }
  }

  // ---------- Clients and servers agree ----------

  // A client that knows the placement a server holds sends writes only to the
  // node whose ownership check accepts them; with an older placement the check
  // accepts exactly if the vnode's primary is still the same.
  lemma {:induction false} WritesReachTheOwner(seen: Plan, now: Plan, rf: int, addrs: map<NodeId, string>, token: U64, t: Target)
    requires WellFormed(seen.vnodes, rf) && WellFormed(now.vnodes, rf)
    requires t in Known(addrs, [GetNodesForKey(seen.vnodes, token).0])
    ensures CheckOwnership(t.nodeID, Some(now), token).isOwner <==>
              seen.vnodes[VNodeIndex(token)].primary == now.vnodes[VNodeIndex(token)].primary
    ensures CheckOwnership(t.nodeID, Some(seen), token).isOwner
    ensures VNodeIndex(token) < VNODE_COUNT && GetVNodeForKey(Some(now), token) == VNodeIndex(token)
  {
    BucketsAreEqual(token, 0);
    var owner := GetNodesForKey(seen.vnodes, token).0;
    assert [owner][..0] == [];
    assert Known(addrs, [owner]) == if AddrOf(addrs, owner) == "" then [] else [Target(owner, AddrOf(addrs, owner))];
  }

  lemma {:induction false} RotationKeeps<T>(xs: seq<T>, k: nat)
    requires k <= |xs|
    ensures multiset(Rotate(xs, k)) == multiset(xs)
  {
    assert xs == xs[..k] + xs[k..];
  }

  // The read cursor is a 64-bit counter.
  const CURSORS: nat := 0x1_0000_0000_0000_0000

  // Where the rotation starts k reads after the cursor.
  function Offset(cursor: U64, k: nat, n: nat): nat
    requires n > 0
  {
    (cursor + k) % CURSORS % n
  }

  function AdvancedTimes(cursor: U64, k: nat): U64 {
    if k == 0 then cursor else Advanced(AdvancedTimes(cursor, k - 1))
  }

  // That is where the cursor stands after k advances.
  lemma {:induction false} CursorCounts(cursor: U64, k: nat, n: nat)
    requires n > 0
    ensures AdvancedTimes(cursor, k) == (cursor + k) % CURSORS && AdvancedTimes(cursor, k) % n == Offset(cursor, k, n)
  {
    if k > 0 {
      CursorCounts(cursor, k - 1, n);
    }
  }

  // Among n consecutive reads exactly one starts at j.
  ghost predicate FirstOnce(cursor: U64, n: nat, j: nat)
    requires n > 0
  {
    exists k: nat :: k < n && Offset(cursor, k, n) == j && forall i: nat :: i < n && Offset(cursor, i, n) == j ==> i == k
  }

  // Over as many consecutive reads as there are targets each target comes first
  // exactly once, if the cursor does not pass its maximum on the way or the
  // number of targets divides its range.
  lemma {:induction false} RotationIsFair<T>(xs: seq<T>, cursor: U64, j: nat)
    requires j < |xs| && (cursor + |xs| <= CURSORS || CURSORS % |xs| == 0)
    ensures FirstOnce(cursor, |xs|, j) && Rotate(xs, j)[0] == xs[j]
  {
    var n, c := |xs|, cursor % |xs|;
    var k := if c <= j then j - c else j - c + n;
    OffsetIs(cursor, k, n);
    forall i: nat | i < n && Offset(cursor, i, n) == j ensures i == k { OffsetIs(cursor, i, n); }
  }

  lemma {:induction false} OffsetIs(cursor: U64, k: nat, n: nat)
    requires k < n && (cursor + n <= CURSORS || CURSORS % n == 0)
    ensures Offset(cursor, k, n) == if cursor % n + k < n then cursor % n + k else cursor % n + k - n
  {
    var q, c, x := cursor / n, cursor % n, cursor + k;
    assert cursor == q * n + c;
    var q', r := if c + k < n then q else q + 1, if c + k < n then c + k else c + k - n;
    assert (q + 1) * n == q * n + n;
    assert x == q' * n + r;
    if x < CURSORS {
      Remainder(x, CURSORS, 0, x);
      Remainder(x, n, q', r);
    } else {
      Wrapped(x, n, q', r);
    }
  }

  // Past the maximum, when n divides the range.
  lemma {:induction false} Wrapped(x: nat, n: nat, q: nat, r: nat)
    requires 0 < n && r < n && x == q * n + r && CURSORS % n == 0 && CURSORS <= x < CURSORS + n
    ensures x % CURSORS % n == r
  {
    var p := CURSORS / n;
    assert CURSORS == p * n;
    assert n <= CURSORS;
    Remainder(x, CURSORS, 1, x - CURSORS);
    assert (q - p) * n == q * n - p * n;
    assert q < p ==> (q + 1) * n <= p * n;
    assert (q + 1) * n == q * n + n;
    Remainder(x - CURSORS, n, q - p, r);
  }

  // Otherwise some target comes first twice or never.
  lemma {:induction false} RotationIsUnfairAcrossTheWrap(cursor: U64, n: nat)
    requires 0 < n <= CURSORS && cursor + n > CURSORS && CURSORS % n != 0
    ensures exists j: nat :: j < n && !FirstOnce(cursor, n, j)
  {
    var m, k0 := CURSORS % n, CURSORS - cursor;
    if k0 < m {
      forall k: nat | k < n ensures Offset(cursor, k, n) != n - 1 { NeverLast(cursor, n, k); }
      assert !FirstOnce(cursor, n, n - 1);
    } else {
      Remainder(CURSORS, CURSORS, 1, 0);
      assert Offset(cursor, k0, n) == 0 by { Remainder(0, n, 0, 0); }
      assert Offset(cursor, k0 - m, n) == 0 by {
        BelowRange(n, m);
        Remainder(CURSORS - m, CURSORS, 0, CURSORS - m);
      }
      assert !FirstOnce(cursor, n, 0);
    }
  }

  lemma {:induction false} BelowRange(n: nat, d: nat)
    requires 0 < n <= CURSORS && d <= CURSORS % n
    ensures (CURSORS - d) % n == CURSORS % n - d
  {
    assert CURSORS == (CURSORS / n) * n + CURSORS % n;
    Remainder(CURSORS - d, n, CURSORS / n, CURSORS % n - d);
  }

  lemma {:induction false} NeverLast(cursor: U64, n: nat, k: nat)
    requires k < n <= CURSORS && cursor + n > CURSORS && CURSORS - cursor < CURSORS % n
    ensures Offset(cursor, k, n) != n - 1
  {
    var x := cursor + k;
    if x < CURSORS {
      Remainder(x, CURSORS, 0, x);
      BelowRange(n, CURSORS - x);
    } else {
      Remainder(x, CURSORS, 1, x - CURSORS);
      Remainder(x - CURSORS, n, 0, x - CURSORS);
    }
  }

  lemma {:induction false} Remainder(x: nat, n: nat, q: nat, r: nat)
    requires n > 0 && r < n && x == q * n + r
    ensures x % n == r
  {
    var d := x / n - q;
    assert x == (x / n) * n + x % n;
    assert d * n == r - x % n;
    assert d >= 1 ==> d * n >= n;
    assert d <= -1 ==> d * n <= -1 * n;
  }
}
