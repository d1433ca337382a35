// cluster/replication.go, cloneVNodes and the swap loop that works in place on
// the clone: rows share no storage with the installed placement.
module Cloning {
  import opened Commands
  import opened NodeOrder
  import opened Ring
  import opened ShortTerm
  import opened Control

  class Row {
    const id: U16
    const token: U64
    var primary: NodeId
    var replicas: array<NodeId>

    constructor (id: U16, token: U64, primary: NodeId, replicas: array<NodeId>)
      ensures this.id == id && this.token == token && this.primary == primary && this.replicas == replicas
    {
      this.id, this.token, this.primary, this.replicas := id, token, primary, replicas;
    }

    function Value(): VNode
      reads this, replicas
    {
      VNode(id, token, primary, replicas[..])
    }
  }

  method CloneRow(r: Row) returns (c: Row)
    ensures fresh(c) && fresh(c.replicas) && c.Value() == r.Value()
  {
    var ids := r.replicas[..];
    var copy := new NodeId[|ids|](i requires 0 <= i < |ids| => ids[i]);
    assert copy[..] == ids;
    c := new Row(r.id, r.token, r.primary, copy);
  }

  // No two rows are the same object or use the same replica array.
  ghost predicate Separate(rows: seq<Row>)
    reads rows
  {
    forall i, j :: 0 <= i < j < |rows| ==> rows[i] != rows[j] && rows[i].replicas != rows[j].replicas
  }

  // What a list of rows holds.
  ghost predicate RowsAre(rows: seq<Row>, vs: seq<VNode>)
    reads rows, Arrays(rows)
  {
    |rows| == |vs| && forall i :: 0 <= i < |rows| ==> rows[i].Value() == vs[i]
  }

  ghost function Arrays(rows: seq<Row>): set<array<NodeId>>
    reads rows
  {
    set i | 0 <= i < |rows| :: rows[i].replicas
  }

  method CloneVNodes(src: seq<Row>) returns (dst: seq<Row>)
    ensures |dst| == |src| && Separate(dst)
    ensures forall i :: 0 <= i < |dst| ==> fresh(dst[i]) && fresh(dst[i].replicas) && dst[i].Value() == src[i].Value()
  {
    dst := [];
    for i := 0 to |src|
      invariant |dst| == i && Separate(dst)
      invariant forall j :: 0 <= j < i ==> fresh(dst[j]) && fresh(dst[j].replicas) && dst[j].Value() == src[j].Value()
    {
      var c := CloneRow(src[i]);
      dst := dst + [c];
    }
  }

  method SwapRow(row: Row, idx: nat)
    requires idx < row.replicas.Length
    modifies row`primary, row.replicas
    ensures row.Value() == SwapAt(old(row.Value()), idx)
  {
    var oldPrimary := row.primary;
    row.primary := row.replicas[idx];
    row.replicas[idx] := oldPrimary;
  }

  method EvaluateRow(row: Row, scores: map<NodeId, real>, degraded: set<NodeId>, sustained: set<NodeId>) returns (swapped: bool)
    requires GoodVNode(row.Value()) && forall n :: n in scores ==> scores[n] > 0.0
    modifies row`primary, row.replicas
    ensures Evaluated(old(row.Value()), scores, degraded, sustained, row.Value())
    ensures swapped <==> row.primary != old(row.primary)
  {
    swapped := false;
    if row.primary == "" || row.replicas.Length == 0 || row.primary !in sustained || row.primary !in scores {
      return;
    }
    ghost var v := row.Value();
    var idx := PickReplica(row.Value(), scores, degraded);
    if idx >= 0 && row.replicas[idx] != row.primary {
      SwapRow(row, idx);
      swapped := true;
      assert GoodPick(v, scores, degraded, idx);
    }
  }

  method EvaluateRowAt(rows: seq<Row>, i: nat, scores: map<NodeId, real>, degraded: set<NodeId>, sustained: set<NodeId>,
                       ghost cur: seq<VNode>)
    returns (swapped: bool, ghost w: VNode)
    requires Separate(rows) && i < |rows| && RowsAre(rows, cur) && GoodVNode(cur[i])
    requires forall n :: n in scores ==> scores[n] > 0.0
    modifies {rows[i]}`primary, rows[i].replicas
    ensures RowsAre(rows, cur[i := w]) && Evaluated(cur[i], scores, degraded, sustained, w)
    ensures swapped <==> w.primary != cur[i].primary
  {
    swapped := EvaluateRow(rows[i], scores, degraded, sustained);
    w := rows[i].Value();
  }

  // The swap loop, in place. vs holds what the rows were.
  method SwapInPlace(rows: seq<Row>, scores: map<NodeId, real>, degraded: set<NodeId>, sustained: set<NodeId>,
                     ghost vs: seq<VNode>)
    returns (swaps: nat, ghost ws: seq<VNode>)
    requires Separate(rows) && RowsAre(rows, vs) && forall i :: 0 <= i < |vs| ==> GoodVNode(vs[i])
    requires forall n :: n in scores ==> scores[n] > 0.0
    modifies rows`primary, Arrays(rows)
    ensures SwappedRing(vs, scores, degraded, sustained, ws) && swaps == PrimaryDrift(vs, ws) && RowsAre(rows, ws)
  {
    swaps, ws := 0, vs;
    for i := 0 to |rows|
      invariant RowsAre(rows, ws) && forall j :: i <= j < |vs| ==> ws[j] == vs[j]
      invariant SwappedRing(vs[..i], scores, degraded, sustained, ws[..i]) && swaps == PrimaryDrift(vs[..i], ws[..i])
    {
      assert rows[i].replicas in Arrays(rows);
      ghost var w;
      var swapped;
      swapped, w := EvaluateRowAt(rows, i, scores, degraded, sustained, ws);
      if swapped {
        swaps := swaps + 1;
      }
      SwapsGrow(vs, scores, degraded, sustained, ws[..i], i, w);
      assert ws[i := w][..i + 1] == ws[..i] + [w];
      ws := ws[i := w];
    }
    assert vs[..|vs|] == vs && ws[..|ws|] == ws;
  }

  lemma {:induction false} SwapsGrow(vs: seq<VNode>, scores: map<NodeId, real>, degraded: set<NodeId>, sustained: set<NodeId>,
                                     ws: seq<VNode>, i: nat, w: VNode)
    requires i < |vs| && SwappedRing(vs[..i], scores, degraded, sustained, ws)
    requires Evaluated(vs[i], scores, degraded, sustained, w)
    ensures SwappedRing(vs[..i + 1], scores, degraded, sustained, ws + [w])
    ensures PrimaryDrift(vs[..i + 1], ws + [w]) == PrimaryDrift(vs[..i], ws) + if w.primary != vs[i].primary then 1 else 0
  {
    assert vs[..i + 1] == vs[..i] + [vs[i]];
    DriftSnoc(vs[..i], ws, vs[i], w);
  }

  // The loop over the clone. Nothing that existed before is modified: the
  // installed rows still hold vs, and the clone ends as the value-level
  // evaluation of them.
  method SwapOnClone(src: seq<Row>, scores: map<NodeId, real>, degraded: set<NodeId>, sustained: set<NodeId>, ghost vs: seq<VNode>)
    returns (dst: seq<Row>, swaps: nat, ghost ws: seq<VNode>)
    requires RowsAre(src, vs) && forall i :: 0 <= i < |vs| ==> GoodVNode(vs[i])
    requires forall n :: n in scores ==> scores[n] > 0.0
    ensures RowsAre(src, vs)
    ensures RowsAre(dst, ws) && forall i :: 0 <= i < |dst| ==> fresh(dst[i]) && fresh(dst[i].replicas)
    ensures SwappedRing(vs, scores, degraded, sustained, ws) && swaps == PrimaryDrift(vs, ws)
  {
    dst := CloneVNodes(src);
    swaps, ws := SwapInPlace(dst, scores, degraded, sustained, vs);
  }
}
