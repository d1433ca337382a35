// cluster/placement.go: the placement object whose methods rewrite its vnodes.
module Placements {
  import opened Commands
  import opened NodeOrder
  import opened Assignment
  import opened Ring
  import opened Replicas
  import opened Scores

  class Placement {
    var epoch: nat
    var nodes: seq<NodeInfo>
    var vnodes: seq<VNode>

    constructor (epoch: nat, nodes: seq<NodeInfo>, vnodes: seq<VNode>)
      ensures this.epoch == epoch && this.nodes == nodes && this.vnodes == vnodes
    {
      this.epoch, this.nodes, this.vnodes := epoch, nodes, vnodes;
    }

    // Reassigns primaries in place, initialising the ring first if there is none.
    method AssignVNodes(targets: Targets, weigh: Weigh) returns (outcome: Outcome)
      requires IdsInOrder(vnodes)
      modifies `vnodes
      ensures |old(vnodes)| == 0 ==> |vnodes| == VNODE_COUNT
      ensures |old(vnodes)| > 0 ==> |vnodes| == |old(vnodes)|
      ensures outcome.Assigned? <==> TotalWant(targets) == |vnodes| && Want(targets, "") == 0
      ensures outcome.MismatchPanic? <==> TotalWant(targets) + Want(targets, "") != |vnodes|
      ensures outcome.Assigned? && |old(vnodes)| > 0 ==>
                && SameButPrimary(old(vnodes), vnodes)
                && Primaries(vnodes) == Reassign(Primaries(old(vnodes)), targets, weigh)
                && Meets(Primaries(vnodes), targets) && KeepsLast(Primaries(old(vnodes)), Primaries(vnodes))
                && HeaviestFirst(Primaries(old(vnodes)), Primaries(vnodes), targets, weigh)
      ensures outcome.Assigned? && |old(vnodes)| == 0 ==>
                && FreshRing(vnodes)
                && Primaries(vnodes) == Reassign(seq(VNODE_COUNT, _ => ""), targets, weigh)
                && Meets(Primaries(vnodes), targets)
                && HeaviestFirst(seq(VNODE_COUNT, _ => ""), Primaries(vnodes), targets, weigh)
    {
      if |vnodes| == 0 {
        vnodes := InitializeVNodes();
        assert Primaries(vnodes) == seq(VNODE_COUNT, _ => "");
      }
      vnodes, outcome := Rebalance(vnodes, targets, weigh);
    }

    // Chooses replicas for every vnode with a primary, in place.
    method AssignReplicas(metrics: seq<NodeMetrics>, rtt: map<NodeId, map<NodeId, real>>,
                          hash: (U16, NodeId) -> nat, rf: int)
      returns (ghost env: Env)
      modifies `vnodes
      ensures env == Env(StatsMap(metrics), rtt, hash)
      ensures Replicated(env, nodes, rf, old(vnodes), vnodes)
    {
      var stats := StatsOf(metrics);
      var e := Env(stats, rtt, hash);
      env := e;
      vnodes := ReplicateAll(vnodes, nodes, e, rf);
    }
  }
}
