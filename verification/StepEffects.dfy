/**
 What one step makes of every field of a mesh, told from the states, healths and bridges before
 it, and what pruning at threshold zero removes after it.
 */
module StepEffects {
  import opened Dynamics
  import opened MeshState
  import opened Topology
  import opened Diffusion
  import opened Pruning
  import opened Sums

  /** The state of node j is further from the baseline of node i than the bound of i allows. */
  predicate Drifts(nodes: seq<Node>, i: nat, j: nat)
    requires i < |nodes| && j < |nodes|
  {
    var omega := nodes[i].omega;
    nodes[j].state > omega.baseline + omega.maxEpsilon || nodes[j].state < omega.baseline - omega.maxEpsilon
  }

  /** It is within that bound but more than 1.2 away, and node i is healthy enough to welcome it. */
  predicate Stirs(nodes: seq<Node>, i: nat, j: nat)
    requires i < |nodes| && j < |nodes|
  {
    var omega := nodes[i].omega;
    && !Drifts(nodes, i, j)
    && nodes[i].health > 0.7
    && (nodes[j].state > omega.baseline + 1.2 || nodes[j].state < omega.baseline - 1.2)
  }

  /** After a step a bridge is isolated exactly if the state it brought drifts; otherwise it is
      strengthened or damped by what its owner made of that state. */
  lemma {:induction false} StepBridge(nodes: seq<Node>, alpha: real, i: nat, k: nat)
    requires Runnable(nodes) && i < |nodes| && k < |nodes[i].bridges|
    ensures |StepNodes(nodes, alpha)| == |nodes| && |StepNodes(nodes, alpha)[i].bridges| == |nodes[i].bridges|
    ensures var before, after := nodes[i].bridges[k], StepNodes(nodes, alpha)[i].bridges[k];
            var j, c := before.target, before.capacity;
            && after.target == j && after.distance == before.distance && after.orientation == before.orientation
            && (after.status == Isolated <==> Drifts(nodes, i, j))
            && (Drifts(nodes, i, j) ==> after.capacity == 0.0)
            && (Stirs(nodes, i, j) ==>
                  && after.capacity == (if c > 0.85 then 1.0 else c + 0.15)
                  && after.status == (if c >= 0.75 then Normal else Recovery))
            && (!Drifts(nodes, i, j) && !Stirs(nodes, i, j) ==>
                  after.capacity == (if c * 0.85 < 0.01 then 0.01 else c * 0.85) && after.status == Damping)
  {
    hide NextState, Health;
    var b := nodes[i].bridges[k];
    assert nodes[i].state + Difference(nodes, i, k) == nodes[b.target].state;
    assert StepNodes(nodes, alpha)[i].bridges[k] == NextBridge(nodes, i, k);
  }

  /** What each bridge of node i draws over, weighed as the step leaves it. */
  function Drawn(nodes: seq<Node>, next: seq<Node>, i: nat): seq<real>
    requires Runnable(nodes) && Runnable(next) && |next| == |nodes| && i < |nodes|
  {
    seq(|next[i].bridges|, k requires 0 <= k < |next[i].bridges| =>
      EffectiveCoupling(next[i].bridges[k]) * (nodes[next[i].bridges[k].target].state - nodes[i].state))
  }

  lemma {:induction false} StepIsRunnable(nodes: seq<Node>, alpha: real)
    requires Runnable(nodes)
    ensures Runnable(StepNodes(nodes, alpha)) && |StepNodes(nodes, alpha)| == |nodes|
  {
    hide EffectiveCoupling, UpdateBridge, EvaluateUnchecked, Health, NextState;
  }

  /** The documented diffusion equation, with the new weights and the old states; the published
      health is that of the new state; place and identity stay. */
  lemma {:induction false} StepNodeState(nodes: seq<Node>, alpha: real, i: nat)
    requires Runnable(nodes) && i < |nodes|
    ensures Runnable(StepNodes(nodes, alpha)) && |StepNodes(nodes, alpha)| == |nodes|
    ensures var next := StepNodes(nodes, alpha);
            && next[i].state == nodes[i].state + alpha * Sum(Drawn(nodes, next, i))
            && next[i].position == nodes[i].position
            && next[i].omega == nodes[i].omega
    ensures var node := StepNodes(nodes, alpha)[i];
            var omega := node.omega;
            var drift := if node.state >= omega.baseline then node.state - omega.baseline
                         else omega.baseline - node.state;
            node.health == if drift >= omega.maxEpsilon then 0.0 else 1.0 - drift / omega.maxEpsilon
  {
    StepIsRunnable(nodes, alpha);
    var next := StepNodes(nodes, alpha);
    DrawnIs(nodes, alpha, i);
    HealthIs(next[i].state, nodes[i].omega);
    hide EffectiveCoupling, UpdateBridge, EvaluateUnchecked, Contribution, Runnable, Health, Drawn;
  }

  lemma {:induction false} DrawnIs(nodes: seq<Node>, alpha: real, i: nat)
    requires Runnable(nodes) && i < |nodes| && Runnable(StepNodes(nodes, alpha))
    requires |StepNodes(nodes, alpha)| == |nodes|
    ensures Drawn(nodes, StepNodes(nodes, alpha), i) == Contributions(nodes, i)
  {
    hide EffectiveCoupling, UpdateBridge, EvaluateUnchecked, Health, NextState;
    var next := StepNodes(nodes, alpha);
    assert next[i].bridges == NextBridges(nodes, i);
    forall k | 0 <= k < |nodes[i].bridges| ensures Drawn(nodes, next, i)[k] == Contribution(nodes, i, k) {
      assert next[i].bridges[k] == NextBridge(nodes, i, k);
    }
  }

  /** Pruning at zero after a step removes exactly the pairs of which one end saw the other drift,
      both directions and both records; every state stands as the step left it. */
  lemma {:induction false} PruneAfterStep(m: Mesh, i: nat, j: nat)
    requires Inv(m) && Runnable(m.nodes) && i < |m.nodes| && j < |m.nodes|
    ensures var next := Prune(m.(nodes := StepNodes(m.nodes, m.alpha)), 0.0);
            && (HasBridge(next.nodes, i, j) <==>
                  HasBridge(m.nodes, i, j) && !Drifts(m.nodes, i, j) && !Drifts(m.nodes, j, i))
            && ((i, j) in next.relationships <==> HasBridge(next.nodes, i, j))
            && |next.nodes| == |m.nodes|
            && next.nodes[i].state == StepNodes(m.nodes, m.alpha)[i].state
            && next.nodes[i].health == StepNodes(m.nodes, m.alpha)[i].health
  {
    var stepped := m.(nodes := StepNodes(m.nodes, m.alpha));
    StepInv(m);
    PrunedIndexed(stepped, 0.0);
    PrunedHasBridge(stepped.nodes, 0.0);
    StepSameShape(m.nodes, m.alpha);
    SameShapeHasBridge(m.nodes, stepped.nodes);
    LinkedOf(m);
    LinkedOf(stepped);
    hide Inv, Runnable, StepNodes, Drifts, StableAlpha, PresentOnly, Surviving, Survives;
    if HasBridge(m.nodes, i, j) {
      StepSurvives(m, i, j);
    }
  }

  lemma {:induction false} Neighbours(m: Mesh, i: nat, j: nat)
    requires Inv(m) && HasBridge(m.nodes, i, j)
    ensures i != j && HasBridge(m.nodes, j, i)
  {
    TargetsIff(m.nodes[i].bridges, j);
  }

  lemma {:induction false} StepSurvives(m: Mesh, i: nat, j: nat)
    requires Inv(m) && Runnable(m.nodes) && i < |m.nodes| && j < |m.nodes| && HasBridge(m.nodes, i, j)
    ensures Survives(StepNodes(m.nodes, m.alpha), 0.0, i, j) <==> !Drifts(m.nodes, i, j) && !Drifts(m.nodes, j, i)
  {
    hide Inv, Runnable, StepNodes, Drifts, HasBridge, Unhealthy;
    var next := StepNodes(m.nodes, m.alpha);
    Neighbours(m, i, j);
    StepSameShape(m.nodes, m.alpha);
    SameShapeHasBridge(m.nodes, next);
    SidesHealthy(m, i, j);
    SidesHealthy(m, j, i);
  }

  lemma {:induction false} StepHealthy(m: Mesh, i: nat, k: nat)
    requires Inv(m) && Runnable(m.nodes) && i < |m.nodes| && k < |m.nodes[i].bridges|
    ensures |StepNodes(m.nodes, m.alpha)| == |m.nodes|
    ensures |StepNodes(m.nodes, m.alpha)[i].bridges| == |m.nodes[i].bridges|
    ensures var after := StepNodes(m.nodes, m.alpha)[i].bridges[k];
            && after.target == m.nodes[i].bridges[k].target
            && (!Unhealthy(after, 0.0) <==> !Drifts(m.nodes, i, after.target))
  {
    StepInv(m);
    LinkedOf(m.(nodes := StepNodes(m.nodes, m.alpha)));
    StepBridge(m.nodes, m.alpha, i, k);
    hide Inv, Runnable, StepNodes, Drifts, Stirs, Symmetric, Calibrated;
    assert SoundBridge(StepNodes(m.nodes, m.alpha)[i].bridges[k]);
  }

  lemma {:induction false} SidesHealthy(m: Mesh, i: nat, j: nat)
    requires Inv(m) && Runnable(m.nodes) && i < |m.nodes| && j < |m.nodes| && HasBridge(m.nodes, i, j)
    ensures |StepNodes(m.nodes, m.alpha)| == |m.nodes|
    ensures var bridges := StepNodes(m.nodes, m.alpha)[i].bridges;
            (forall k :: 0 <= k < |bridges| && bridges[k].target == j ==> !Unhealthy(bridges[k], 0.0)) <==>
              !Drifts(m.nodes, i, j)
  {
    TargetsIff(m.nodes[i].bridges, j);
    var l :| 0 <= l < |m.nodes[i].bridges| && m.nodes[i].bridges[l].target == j;
    hide Inv, Runnable, StepNodes, Drifts, Unhealthy, HasBridge;
    StepHealthy(m, i, l);
    var next := StepNodes(m.nodes, m.alpha);
    forall k | 0 <= k < |next[i].bridges| && next[i].bridges[k].target == j
      ensures !Unhealthy(next[i].bridges[k], 0.0) <==> !Drifts(m.nodes, i, j)
    {
      StepHealthy(m, i, k);
    }
  }
}
