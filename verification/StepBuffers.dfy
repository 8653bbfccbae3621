/**
 The reused result buffers of a simulation step: what the loop over one node's bridges writes
 into them, where it may stop, and what publishing them makes of the node.
 */
module StepBuffers {
  import opened Dynamics
  import opened MeshState
  import opened Diffusion
  import opened Sums
  import WorkerPool

  /** One node's entries in the parallel result vectors.  Capacity and status entries hold what an
      earlier step left there unless the changed flag of their bridge is set. */
  datatype NodeBuffer = NodeBuffer(
    state: real,
    capacities: seq<real>,
    statuses: seq<BridgeStatus>,
    changed: seq<bool>)

  predicate FitsNode(buffer: NodeBuffer, node: Node) {
    |buffer.capacities| == |buffer.statuses| == |buffer.changed| == |node.bridges|
  }

  ghost predicate BuffersFit(buffers: seq<NodeBuffer>, nodes: seq<Node>) {
    |buffers| == |nodes| && forall i :: 0 <= i < |nodes| ==> FitsNode(buffers[i], nodes[i])
  }

  /** Whether the computation throws at the k-th bridge of node i. */
  type Throws = (nat, nat) -> bool

  predicate Changed(bridge: Bridge, next: Bridge) {
    bridge.capacity != next.capacity || bridge.status != next.status
  }

  /** The k-th bridge of node i is noted; its values are written only if they change. */
  function WriteBridge(nodes: seq<Node>, i: nat, k: nat, buffer: NodeBuffer): (r: NodeBuffer)
    requires Runnable(nodes) && i < |nodes| && k < |nodes[i].bridges| && FitsNode(buffer, nodes[i])
    ensures FitsNode(r, nodes[i])
  {
    var bridge, next := nodes[i].bridges[k], NextBridge(nodes, i, k);
    if Changed(bridge, next)
    then buffer.(changed := buffer.changed[k := true],
                 capacities := buffer.capacities[k := next.capacity],
                 statuses := buffer.statuses[k := next.status])
    else buffer.(changed := buffer.changed[k := false])
  }

  /** The loop over the bridges of node i from the k-th on, with what it has summed up so far:
      the buffer it leaves and whether it threw. */
  function ComputeFrom(nodes: seq<Node>, alpha: real, throws: Throws, i: nat, k: nat, sum: real, buffer: NodeBuffer):
      (r: (NodeBuffer, bool))
    requires Runnable(nodes) && i < |nodes| && k <= |nodes[i].bridges| && FitsNode(buffer, nodes[i])
    ensures FitsNode(r.0, nodes[i])
    decreases |nodes[i].bridges| - k
  {
    if k == |nodes[i].bridges| then (buffer.(state := nodes[i].state + alpha * sum), false)
    else if throws(i, k) then (buffer, true)
    else ComputeFrom(nodes, alpha, throws, i, k + 1, sum + Contribution(nodes, i, k), WriteBridge(nodes, i, k, buffer))
  }

  function Compute(nodes: seq<Node>, alpha: real, throws: Throws, i: nat, buffer: NodeBuffer): (NodeBuffer, bool)
    requires Runnable(nodes)
  {
    if i < |nodes| && FitsNode(buffer, nodes[i]) then ComputeFrom(nodes, alpha, throws, i, 0, 0.0, buffer)
    else (buffer, false)
  }

  /** The work of one step, as the worker pool runs it. */
  function JobOf(nodes: seq<Node>, alpha: real, throws: Throws): WorkerPool.Job<NodeBuffer>
    requires Runnable(nodes)
  {
    (i: nat, buffer: NodeBuffer) => Compute(nodes, alpha, throws, i, buffer)
  }

  /** Publishing a buffer: the state, the health it means, and the bridges flagged as changed. */
  function Published(bridges: seq<Bridge>, buffer: NodeBuffer): seq<Bridge>
    requires |buffer.capacities| == |buffer.statuses| == |buffer.changed| == |bridges|
  {
    seq(|bridges|, k requires 0 <= k < |bridges| =>
      if buffer.changed[k] then bridges[k].(capacity := buffer.capacities[k], status := buffer.statuses[k])
      else bridges[k])
  }

  function CommitNode(node: Node, buffer: NodeBuffer): Node
    requires FitsNode(buffer, node) && node.omega.maxEpsilon > 0.0
  {
    node.(state := buffer.state,
          health := Health(buffer.state, node.omega),
          bridges := Published(node.bridges, buffer))
  }

  // ---------------------------------------------------------------- what the loop computes

  ghost predicate ThrowsFrom(nodes: seq<Node>, throws: Throws, i: nat, k: nat)
    requires i < |nodes|
  {
    exists l: nat :: k <= l < |nodes[i].bridges| && throws(i, l)
  }

  /** The first k bridges of node i have been noted in the buffer. */
  ghost predicate Noted(nodes: seq<Node>, i: nat, k: nat, buffer: NodeBuffer)
    requires Runnable(nodes) && i < |nodes| && k <= |nodes[i].bridges| && FitsNode(buffer, nodes[i])
  {
    forall l :: 0 <= l < k ==> Published(nodes[i].bridges, buffer)[l] == NextBridge(nodes, i, l)
  }

  lemma {:induction false} NotedNext(nodes: seq<Node>, i: nat, k: nat, buffer: NodeBuffer)
    requires Runnable(nodes) && i < |nodes| && k < |nodes[i].bridges| && FitsNode(buffer, nodes[i])
    requires Noted(nodes, i, k, buffer)
    ensures Noted(nodes, i, k + 1, WriteBridge(nodes, i, k, buffer))
  {
    hide Contribution, EvaluateUnchecked;
    var bridges, after := nodes[i].bridges, WriteBridge(nodes, i, k, buffer);
    forall l | 0 <= l < k + 1 ensures Published(bridges, after)[l] == NextBridge(nodes, i, l) {
      if l < k {
        assert Published(bridges, buffer)[l] == NextBridge(nodes, i, l);
      } else {
        NextKeepsGeometry(nodes, i, k);
      }
    }
  }

  lemma {:induction false} NextKeepsGeometry(nodes: seq<Node>, i: nat, k: nat)
    requires Runnable(nodes) && i < |nodes| && k < |nodes[i].bridges|
    ensures NextBridge(nodes, i, k) == nodes[i].bridges[k].(capacity := NextBridge(nodes, i, k).capacity,
                                                            status := NextBridge(nodes, i, k).status)
  {
  }

  lemma {:induction false} ComputeFromMeans(nodes: seq<Node>, alpha: real, throws: Throws, i: nat, k: nat, sum: real,
                                            buffer: NodeBuffer)
    requires Runnable(nodes) && i < |nodes| && k <= |nodes[i].bridges| && FitsNode(buffer, nodes[i])
    requires Noted(nodes, i, k, buffer) && sum == Sum(Contributions(nodes, i)[..k])
    ensures var r := ComputeFrom(nodes, alpha, throws, i, k, sum, buffer);
            && (r.1 <==> ThrowsFrom(nodes, throws, i, k))
            && (!r.1 ==> r.0.state == NextState(nodes, alpha, i) && Noted(nodes, i, |nodes[i].bridges|, r.0))
    decreases |nodes[i].bridges| - k
  {
    hide Runnable, Noted, Contribution, Contributions, WriteBridge, NextBridge, NextState, ThrowsFrom;
    ThrowsNext(nodes, throws, i, k);
    if k == |nodes[i].bridges| {
      WholeSum(nodes, alpha, i, buffer);
    } else {
      NotedNext(nodes, i, k, buffer);
      NextSum(nodes, i, k);
      ComputeFromMeans(nodes, alpha, throws, i, k + 1, sum + Contribution(nodes, i, k),
          WriteBridge(nodes, i, k, buffer));
    }
  }

  lemma {:induction false} ThrowsNext(nodes: seq<Node>, throws: Throws, i: nat, k: nat)
    requires i < |nodes| && k <= |nodes[i].bridges|
    ensures ThrowsFrom(nodes, throws, i, k) <==>
      k < |nodes[i].bridges| && (throws(i, k) || ThrowsFrom(nodes, throws, i, k + 1))
  {
  }

  /** At the end of the loop the sum is that of all contributions. */
  lemma {:induction false} WholeSum(nodes: seq<Node>, alpha: real, i: nat, buffer: NodeBuffer)
    requires Runnable(nodes) && i < |nodes| && FitsNode(buffer, nodes[i])
    requires Noted(nodes, i, |nodes[i].bridges|, buffer)
    ensures var sum := Sum(Contributions(nodes, i)[..|nodes[i].bridges|]);
            NextState(nodes, alpha, i) == nodes[i].state + alpha * sum
    ensures forall state: real :: Noted(nodes, i, |nodes[i].bridges|, buffer.(state := state))
  {
    hide Contribution, NextBridge;
    assert Contributions(nodes, i)[..|nodes[i].bridges|] == Contributions(nodes, i);
    forall state: real ensures Noted(nodes, i, |nodes[i].bridges|, buffer.(state := state)) {
      assert Published(nodes[i].bridges, buffer.(state := state)) == Published(nodes[i].bridges, buffer);
    }
  }

  lemma {:induction false} NextSum(nodes: seq<Node>, i: nat, k: nat)
    requires Runnable(nodes) && i < |nodes| && k < |nodes[i].bridges|
    ensures k <= |Contributions(nodes, i)| - 1
    ensures Sum(Contributions(nodes, i)[..k + 1]) == Sum(Contributions(nodes, i)[..k]) + Contribution(nodes, i, k)
  {
    hide Contribution, Sum;
    SumPrefix(Contributions(nodes, i), k);
  }

  /** Whatever an earlier step left in a buffer, computing a node into it and publishing it gives
      the synchronous step of that node; the computation throws exactly if it does at some bridge. */
  lemma {:induction false} StaleEntriesNeverShow(nodes: seq<Node>, alpha: real, throws: Throws, i: nat,
                                                 stale: NodeBuffer)
    requires Runnable(nodes) && i < |nodes| && FitsNode(stale, nodes[i])
    ensures var r := Compute(nodes, alpha, throws, i, stale);
            && FitsNode(r.0, nodes[i])
            && (r.1 <==> ThrowsFrom(nodes, throws, i, 0))
            && (!r.1 ==> CommitNode(nodes[i], r.0) == StepNode(nodes, alpha, i))
  {
    assert Contributions(nodes, i)[..0] == [];
    ComputeFromMeans(nodes, alpha, throws, i, 0, 0.0, stale);
    var r := Compute(nodes, alpha, throws, i, stale);
    if !r.1 {
      assert Published(nodes[i].bridges, r.0) == NextBridges(nodes, i);
    }
  }

  // ---------------------------------------------------------------- whole steps

  ghost predicate Interrupted(nodes: seq<Node>, throws: Throws) {
    exists i: nat, k: nat :: i < |nodes| && k < |nodes[i].bridges| && throws(i, k)
  }

  /** Publishing what one pass over all nodes computed is the synchronous step. */
  lemma {:induction false} PassIsStep(nodes: seq<Node>, alpha: real, throws: Throws, stale: seq<NodeBuffer>)
    requires Runnable(nodes) && BuffersFit(stale, nodes)
    ensures var pass := WorkerPool.Sequential(JobOf(nodes, alpha, throws), stale, 0, |nodes|);
            && (pass.1 <==> Interrupted(nodes, throws))
            && (!pass.1 ==>
                  && BuffersFit(pass.0, nodes)
                  && forall i :: 0 <= i < |nodes| ==> CommitNode(nodes[i], pass.0[i]) == StepNodes(nodes, alpha)[i])
  {
    var job := JobOf(nodes, alpha, throws);
    var pass := WorkerPool.Sequential(job, stale, 0, |nodes|);
    WorkerPool.SequentialResult(job, stale, 0, |nodes|);
    hide Compute, StepNode, CommitNode, WorkerPool.Sequential;
    forall i: nat | i < |nodes|
      ensures WorkerPool.ThrowsAt(job, stale, i) <==> ThrowsFrom(nodes, throws, i, 0)
      ensures FitsNode(job(i, stale[i]).0, nodes[i])
      ensures !job(i, stale[i]).1 ==> CommitNode(nodes[i], job(i, stale[i]).0) == StepNode(nodes, alpha, i)
    {
      StaleEntriesNeverShow(nodes, alpha, throws, i, stale[i]);
    }
    InterruptedIff(nodes, throws);
  }

  lemma {:induction false} InterruptedIff(nodes: seq<Node>, throws: Throws)
    ensures Interrupted(nodes, throws) <==> exists i: nat :: i < |nodes| && ThrowsFrom(nodes, throws, i, 0)
  {
    if i: nat, k: nat :| i < |nodes| && k < |nodes[i].bridges| && throws(i, k) {
      assert ThrowsFrom(nodes, throws, i, 0);
    }
    if i: nat :| i < |nodes| && ThrowsFrom(nodes, throws, i, 0) {
      var k: nat :| k < |nodes[i].bridges| && throws(i, k);
    }
  }

  /** The shape of the buffers, as the pool keeps it. */
  function ShapeOf(nodes: seq<Node>): (nat, NodeBuffer) -> bool {
    (i: nat, b: NodeBuffer) => i < |nodes| ==> FitsNode(b, nodes[i])
  }

  lemma {:induction false} JobKeepsShape(nodes: seq<Node>, alpha: real, throws: Throws)
    requires Runnable(nodes)
    ensures WorkerPool.Reshapes(ShapeOf(nodes), JobOf(nodes, alpha, throws))
  {
    hide ComputeFrom, Runnable;
  }

  lemma {:induction false} ShapedIff(nodes: seq<Node>, buffers: seq<NodeBuffer>)
    requires |buffers| == |nodes|
    ensures WorkerPool.Shaped(ShapeOf(nodes), buffers) <==> BuffersFit(buffers, nodes)
  {
    if WorkerPool.Shaped(ShapeOf(nodes), buffers) {
      forall i: nat | i < |nodes| ensures FitsNode(buffers[i], nodes[i]) {
        assert ShapeOf(nodes)(i, buffers[i]);
      }
    }
  }
}
