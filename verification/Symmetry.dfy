/**
 When weights stay symmetric, and what that conserves.  A step updates the two directions of a
 bridge by the signals that its two ends make of each other's state; which signals keep two equal
 weights equal can be told from the two bridges.
 */
module Symmetry {
  import opened Dynamics
  import opened MeshState
  import opened Topology
  import opened Diffusion
  import opened Sums
  import opened Weights

  /** What node i makes of the state of node j. */
  function Signal(nodes: seq<Node>, i: nat, j: nat): SignalCategory
    requires i < |nodes| && j < |nodes|
  {
    EvaluateUnchecked(nodes[j].state, nodes[i].health, nodes[i].omega)
  }

  function BridgeTo(nodes: seq<Node>, i: nat, j: nat): Bridge
    requires HasBridge(nodes, i, j)
  {
    nodes[i].bridges[Find(nodes[i].bridges, j)]
  }

  predicate Paired(nodes: seq<Node>, i: nat, j: nat) {
    i < |nodes| && j < |nodes| && HasBridge(nodes, i, j) && HasBridge(nodes, j, i)
  }

  predicate SameWeight(b: Bridge, c: Bridge) {
    b.capacity == c.capacity && b.distance == c.distance && b.orientation == c.orientation
  }

  predicate Agree(nodes: seq<Node>, i: nat, j: nat)
    requires i < |nodes| && j < |nodes|
  {
    Signal(nodes, i, j) == Signal(nodes, j, i)
  }

  /** The two directions of every bridge have the same capacity and geometry. */
  ghost predicate Mirrored(nodes: seq<Node>) {
    forall i: nat, j: nat :: Paired(nodes, i, j) ==> SameWeight(BridgeTo(nodes, i, j), BridgeTo(nodes, j, i))
  }

  /** No bridge points so steeply down that it carries nothing. */
  ghost predicate Passable(nodes: seq<Node>) {
    forall i: nat, j: nat :: Paired(nodes, i, j) ==> BridgeTo(nodes, i, j).orientation > 0.0
  }

  /** The two ends of every bridge make the same of each other's state. */
  ghost predicate Agreeing(nodes: seq<Node>) {
    forall i: nat, j: nat :: Paired(nodes, i, j) ==> Agree(nodes, i, j)
  }

  // ---------------------------------------------------------------- one pair

  /** From equal capacities the three signals lead to three different ones. */
  lemma {:induction false} SignalDecidesCapacity(b: Bridge, c: Bridge, one: SignalCategory, other: SignalCategory)
    requires b.capacity == c.capacity && 0.0 <= b.capacity <= 1.0
    ensures UpdateBridge(b, one).capacity == UpdateBridge(c, other).capacity <==> one == other
  {
  }

  lemma {:induction false} SoundTo(nodes: seq<Node>, i: nat, j: nat)
    requires Linked(nodes) && HasBridge(nodes, i, j)
    ensures SoundBridge(BridgeTo(nodes, i, j)) && BridgeTo(nodes, i, j).target == j
  {
    var k := Find(nodes[i].bridges, j);
    assert SoundBridge(nodes[i].bridges[k]);
  }

  /** The coupling that a step uses is that of the bridge after the signal. */
  lemma {:induction false} CouplingTo(nodes: seq<Node>, i: nat, j: nat)
    requires Runnable(nodes) && j < |nodes| && HasBridge(nodes, i, j)
    ensures var next := UpdateBridge(BridgeTo(nodes, i, j), Signal(nodes, i, j));
            && NextBridge(nodes, i, Find(nodes[i].bridges, j)) == next
            && next.distance >= 0.0
            && Coupling(nodes, i, j) == EffectiveCoupling(next)
  {
    hide EffectiveCoupling;
    var k := Find(nodes[i].bridges, j);
    assert nodes[i].state + Difference(nodes, i, k) == nodes[j].state;
  }

  /** The weight of the direction from i to j as it is stored; zero where there is no bridge. */
  function Weight(nodes: seq<Node>, i: nat, j: nat): real
    requires Runnable(nodes) && i < |nodes|
  {
    if HasBridge(nodes, i, j) then EffectiveCoupling(BridgeTo(nodes, i, j)) else 0.0
  }

  /** The documented assumption: the two directions of every pair weigh the same. */
  ghost predicate WeightsSymmetric(nodes: seq<Node>)
    requires Runnable(nodes)
  {
    forall i: nat, j: nat :: i < |nodes| && j < |nodes| ==> Weight(nodes, i, j) == Weight(nodes, j, i)
  }

  /** The signals of a pair keep its weights equal. */
  predicate Lasts(nodes: seq<Node>, i: nat, j: nat)
    requires Runnable(nodes) && Paired(nodes, i, j)
  {
    Lasting(BridgeTo(nodes, i, j), BridgeTo(nodes, j, i), Signal(nodes, i, j), Signal(nodes, j, i))
  }

  ghost predicate AllLast(nodes: seq<Node>)
    requires Runnable(nodes)
  {
    forall i: nat, j: nat :: Paired(nodes, i, j) ==> Lasts(nodes, i, j)
  }

  /** In any pair of equal weights the couplings that a step uses are equal exactly when its signals
      last. */
  lemma {:induction false} CouplingsEqualIff(nodes: seq<Node>, i: nat, j: nat)
    requires Runnable(nodes) && Linked(nodes) && Paired(nodes, i, j)
    requires Weight(nodes, i, j) == Weight(nodes, j, i)
    ensures Coupling(nodes, i, j) == Coupling(nodes, j, i) <==> Lasts(nodes, i, j)
  {
    SoundTo(nodes, i, j);
    SoundTo(nodes, j, i);
    CouplingTo(nodes, i, j);
    CouplingTo(nodes, j, i);
    hide Coupling, BridgeTo, Signal, EffectiveCoupling, Runnable, Linked, NextBridge, UpdateBridge, Lasting;
    WeightsLastIff(BridgeTo(nodes, i, j), BridgeTo(nodes, j, i), Signal(nodes, i, j), Signal(nodes, j, i));
  }

  /** For a pair of the same capacity and geometry that is open, its ends must agree. */
  lemma {:induction false} MirroredLasts(nodes: seq<Node>, i: nat, j: nat)
    requires Runnable(nodes) && Linked(nodes) && Paired(nodes, i, j)
    requires SameWeight(BridgeTo(nodes, i, j), BridgeTo(nodes, j, i)) && BridgeTo(nodes, i, j).orientation > 0.0
    ensures Weight(nodes, i, j) == Weight(nodes, j, i)
    ensures Lasts(nodes, i, j) <==> Agree(nodes, i, j)
  {
    SoundTo(nodes, i, j);
    SoundTo(nodes, j, i);
    hide BridgeTo, Signal, EffectiveCoupling, Runnable, Linked, Lasting;
    MirroredLasting(BridgeTo(nodes, i, j), BridgeTo(nodes, j, i), Signal(nodes, i, j), Signal(nodes, j, i));
  }

  // ---------------------------------------------------------------- one step

  lemma {:induction false} FindSame(bridges: seq<Bridge>, next: seq<Bridge>, j: int)
    requires SameEnds(bridges, next)
    ensures Find(next, j) == Find(bridges, j)
  {
    assert forall k :: 0 <= k < |bridges| ==> next[k].target == bridges[k].target;
  }

  /** A step keeps who is connected, and updates each bridge by its owner's signal. */
  lemma {:induction false} StepBridgeTo(nodes: seq<Node>, alpha: real, i: nat, j: nat)
    requires Runnable(nodes)
    ensures Paired(StepNodes(nodes, alpha), i, j) <==> Paired(nodes, i, j)
    ensures Paired(nodes, i, j) ==>
      BridgeTo(StepNodes(nodes, alpha), i, j) == UpdateBridge(BridgeTo(nodes, i, j), Signal(nodes, i, j))
  {
    var next := StepNodes(nodes, alpha);
    StepSameShape(nodes, alpha);
    SameShapeHasBridge(nodes, next);
    if Paired(nodes, i, j) {
      assert SameEnds(nodes[i].bridges, next[i].bridges);
      FindSame(nodes[i].bridges, next[i].bridges, j);
      CouplingTo(nodes, i, j);
      hide NextBridge, EffectiveCoupling, UpdateBridge, NextState, Health;
      assert next[i].bridges == NextBridges(nodes, i);
    }
  }

  /** The coupling a step uses is the weight it leaves. */
  lemma {:induction false} CouplingIsNextWeight(nodes: seq<Node>, alpha: real, i: nat, j: nat)
    requires Runnable(nodes) && Runnable(StepNodes(nodes, alpha)) && i < |nodes| && j < |nodes|
    ensures Weight(StepNodes(nodes, alpha), i, j) == Coupling(nodes, i, j)
  {
    var next := StepNodes(nodes, alpha);
    StepSameShape(nodes, alpha);
    SameShapeHasBridge(nodes, next);
    if HasBridge(nodes, i, j) {
      assert SameEnds(nodes[i].bridges, next[i].bridges);
      FindSame(nodes[i].bridges, next[i].bridges, j);
      hide NextBridge, EffectiveCoupling, NextState, Health;
      assert next[i].bridges == NextBridges(nodes, i);
    }
  }

  lemma {:induction false} UnpairedCouplings(nodes: seq<Node>, i: nat, j: nat)
    requires Runnable(nodes) && Symmetric(nodes) && i < |nodes| && j < |nodes| && !Paired(nodes, i, j)
    ensures Coupling(nodes, i, j) == Coupling(nodes, j, i) == 0.0
  {
    assert !HasBridge(nodes, i, j) && !HasBridge(nodes, j, i);
  }

  lemma {:induction false} NextWeightsIff(nodes: seq<Node>, i: nat, j: nat)
    requires Runnable(nodes) && Linked(nodes) && Symmetric(nodes) && WeightsSymmetric(nodes)
    requires i < |nodes| && j < |nodes|
    ensures Coupling(nodes, i, j) == Coupling(nodes, j, i) <==> (Paired(nodes, i, j) ==> Lasts(nodes, i, j))
  {
    hide Runnable, Linked, Symmetric, Coupling, Lasts, HasBridge, Weight;
    if Paired(nodes, i, j) {
      CouplingsEqualIff(nodes, i, j);
    } else {
      UnpairedCouplings(nodes, i, j);
    }
  }

  /** A step keeps symmetric weights symmetric exactly when the signals of every pair last. */
  lemma {:induction false} SymmetryKeptIff(nodes: seq<Node>, alpha: real)
    requires Runnable(nodes) && Runnable(StepNodes(nodes, alpha)) && Linked(nodes) && Symmetric(nodes)
    requires WeightsSymmetric(nodes)
    ensures WeightsSymmetric(StepNodes(nodes, alpha)) <==> AllLast(nodes)
  {
    var next := StepNodes(nodes, alpha);
    assert |next| == |nodes|;
    hide StepNodes, Runnable, Linked, Symmetric, Coupling, Lasts, HasBridge, Weight;
    forall i: nat, j: nat | i < |nodes| && j < |nodes|
      ensures Weight(next, i, j) == Weight(next, j, i) <==> (Paired(nodes, i, j) ==> Lasts(nodes, i, j))
    {
      CouplingIsNextWeight(nodes, alpha, i, j);
      CouplingIsNextWeight(nodes, alpha, j, i);
      NextWeightsIff(nodes, i, j);
    }
  }

  /** A step keeps equal capacities equal exactly when the ends of every bridge agree beforehand. */
  lemma {:induction false} MirroredKeptIff(nodes: seq<Node>, alpha: real)
    requires Runnable(nodes) && Linked(nodes) && Mirrored(nodes)
    ensures Mirrored(StepNodes(nodes, alpha)) <==> Agreeing(nodes)
  {
    var next := StepNodes(nodes, alpha);
    hide StepNodes, Runnable, Linked, BridgeTo, Signal, UpdateBridge, HasBridge;
    forall i: nat, j: nat
      ensures Paired(next, i, j) <==> Paired(nodes, i, j)
      ensures Paired(nodes, i, j) && Paired(next, i, j) ==>
        (SameWeight(BridgeTo(next, i, j), BridgeTo(next, j, i)) <==> Agree(nodes, i, j))
    {
      StepBridgeTo(nodes, alpha, i, j);
      PairedSwaps(nodes, i, j);
      StepBridgeTo(nodes, alpha, j, i);
      if Paired(nodes, i, j) {
        PairStep(nodes, i, j);
      }
    }
    AgreeingIffMirrored(nodes, next);
  }

  lemma {:induction false} PairedSwaps(nodes: seq<Node>, i: nat, j: nat)
    ensures Paired(nodes, i, j) <==> Paired(nodes, j, i)
  {
  }

  lemma {:induction false} PairStep(nodes: seq<Node>, i: nat, j: nat)
    requires Linked(nodes) && Paired(nodes, i, j) && SameWeight(BridgeTo(nodes, i, j), BridgeTo(nodes, j, i))
    ensures var b := UpdateBridge(BridgeTo(nodes, i, j), Signal(nodes, i, j));
            var c := UpdateBridge(BridgeTo(nodes, j, i), Signal(nodes, j, i));
            SameWeight(b, c) <==> Agree(nodes, i, j)
  {
    SoundTo(nodes, i, j);
    SoundTo(nodes, j, i);
    hide BridgeTo, Linked, EvaluateUnchecked;
    var b, c := BridgeTo(nodes, i, j), BridgeTo(nodes, j, i);
    UpdateBridgeSound(b, Signal(nodes, i, j));
    UpdateBridgeSound(c, Signal(nodes, j, i));
    SignalDecidesCapacity(b, c, Signal(nodes, i, j), Signal(nodes, j, i));
  }

  lemma {:induction false} AgreeingIffMirrored(nodes: seq<Node>, next: seq<Node>)
    requires forall i: nat, j: nat :: Paired(next, i, j) <==> Paired(nodes, i, j)
    requires forall i: nat, j: nat :: Paired(nodes, i, j) && Paired(next, i, j) ==>
      (SameWeight(BridgeTo(next, i, j), BridgeTo(next, j, i)) <==> Agree(nodes, i, j))
    ensures Mirrored(next) <==> Agreeing(nodes)
  {
    hide BridgeTo, SameWeight, Agree, HasBridge;
  }

  // ---------------------------------------------------------------- conservation by signals

  /** What a pair exchanges in a step does not cancel. */
  function Net(nodes: seq<Node>, i: nat, j: nat): real
    requires Runnable(nodes) && i < |nodes| && j < |nodes|
  {
    (Coupling(nodes, i, j) - Coupling(nodes, j, i)) * (nodes[j].state - nodes[i].state)
  }

  /** The pair does not pull the total anywhere: not connected, or its signals last, or its ends have
      the same state. */
  predicate AtPeace(nodes: seq<Node>, i: nat, j: nat)
    requires Runnable(nodes)
  {
    Paired(nodes, i, j) ==> Lasts(nodes, i, j) || nodes[i].state == nodes[j].state
  }

  /** With symmetric weights a pair is balanced in a step exactly when it is at peace before it. */
  lemma {:induction false} PeaceIffBalanced(nodes: seq<Node>, i: nat, j: nat)
    requires Runnable(nodes) && Linked(nodes) && Symmetric(nodes) && WeightsSymmetric(nodes)
    requires i < |nodes| && j < |nodes|
    ensures Net(nodes, i, j) == 0.0 <==> AtPeace(nodes, i, j)
  {
    hide Runnable, Linked, Symmetric, WeightsSymmetric, Coupling, Lasts, HasBridge;
    NextWeightsIff(nodes, i, j);
    ProductZero(Coupling(nodes, i, j) - Coupling(nodes, j, i), nodes[j].state - nodes[i].state);
    if !Paired(nodes, i, j) {
      UnpairedCouplings(nodes, i, j);
    }
  }

  /** Without tilt, at peace means that the ends agree. */
  lemma {:induction false} MirroredPeace(nodes: seq<Node>, i: nat, j: nat)
    requires Runnable(nodes) && Linked(nodes) && Mirrored(nodes) && Passable(nodes)
    ensures AtPeace(nodes, i, j) <==>
      (Paired(nodes, i, j) ==> Agree(nodes, i, j) || nodes[i].state == nodes[j].state)
  {
    hide Runnable, Linked, Lasts, Agree, HasBridge, BridgeTo;
    if Paired(nodes, i, j) {
      MirroredLasts(nodes, i, j);
    }
  }

  ghost predicate AllBalanced(nodes: seq<Node>)
    requires Runnable(nodes)
  {
    forall i: nat, j: nat :: i < |nodes| && j < |nodes| ==> Net(nodes, i, j) == 0.0
  }

  /** Every pair exchanges without loss exactly when it is at peace: the condition can be read off
      the mesh before the step. */
  lemma {:induction false} AllBalancedIff(nodes: seq<Node>)
    requires Runnable(nodes) && Linked(nodes) && Symmetric(nodes) && WeightsSymmetric(nodes)
    ensures AllBalanced(nodes) <==> forall i: nat, j: nat :: i < |nodes| && j < |nodes| ==> AtPeace(nodes, i, j)
  {
    hide Runnable, Linked, Symmetric, WeightsSymmetric, Net, AtPeace;
    forall i: nat, j: nat | i < |nodes| && j < |nodes| ensures Net(nodes, i, j) == 0.0 <==> AtPeace(nodes, i, j) {
      PeaceIffBalanced(nodes, i, j);
    }
  }

  lemma {:induction false} BalancedPairs(nodes: seq<Node>)
    requires Runnable(nodes) && AllBalanced(nodes)
    ensures Imbalance(nodes) == 0.0
  {
    hide Coupling, Runnable;
    var x := ExchangeOf(nodes);
    forall i: nat, j: nat | i < j < |nodes| ensures x.Asymmetry(i, j) == 0.0 {
      assert x.c[i][j] == Coupling(nodes, i, j) && x.c[j][i] == Coupling(nodes, j, i);
      assert Net(nodes, i, j) == 0.0;
    }
    BalancedImbalance(x, |nodes|);
  }

  /** Balanced pairs conserve the total. */
  lemma {:induction false} BalancedConserves(nodes: seq<Node>, alpha: real)
    requires Runnable(nodes) && Linked(nodes) && AllBalanced(nodes)
    ensures TotalState(StepNodes(nodes, alpha)) == TotalState(nodes)
  {
    hide Runnable, Linked, AllBalanced, Imbalance, TotalState, StepNodes;
    BalancedPairs(nodes);
    MassBalance(nodes, alpha);
  }

  /** A step conserves the total if every pair of symmetric weight is at peace beforehand. */
  lemma {:induction false} SignalsConserve(m: Mesh)
    requires Inv(m) && Runnable(m.nodes) && WeightsSymmetric(m.nodes)
    requires forall i: nat, j: nat :: i < |m.nodes| && j < |m.nodes| ==> AtPeace(m.nodes, i, j)
    ensures TotalState(StepNodes(m.nodes, m.alpha)) == TotalState(m.nodes)
  {
    hide Inv, Runnable, Linked, Symmetric, WeightsSymmetric, AtPeace, AllBalanced, TotalState, StepNodes;
    LinkedOf(m);
    AllBalancedIff(m.nodes);
    BalancedConserves(m.nodes, m.alpha);
  }

  lemma {:induction false} OneUnbalanced(nodes: seq<Node>, a: nat, b: nat)
    requires Runnable(nodes) && a < b < |nodes|
    requires forall i: nat, j: nat :: i < j < |nodes| && (i, j) != (a, b) ==> Net(nodes, i, j) == 0.0
    ensures Imbalance(nodes) == Net(nodes, a, b)
  {
    hide Coupling, Runnable;
    var x := ExchangeOf(nodes);
    forall i: nat, j: nat | i < j < |nodes| ensures x.Asymmetry(i, j) == Net(nodes, i, j) {
      assert x.c[i][j] == Coupling(nodes, i, j) && x.c[j][i] == Coupling(nodes, j, i);
    }
    OneImbalance(x, a, b, |nodes|);
  }

  /** With symmetric weights and all other pairs at peace, a step conserves the total exactly when
      this pair is at peace too: nothing but several such pairs cancelling each other can make up
      for one. */
  lemma {:induction false} ConservedIffAtPeace(m: Mesh, a: nat, b: nat)
    requires Inv(m) && Runnable(m.nodes) && WeightsSymmetric(m.nodes) && a < b < |m.nodes|
    requires forall i: nat, j: nat :: i < j < |m.nodes| && (i, j) != (a, b) ==> AtPeace(m.nodes, i, j)
    ensures TotalState(StepNodes(m.nodes, m.alpha)) == TotalState(m.nodes) <==> AtPeace(m.nodes, a, b)
  {
    hide Inv, Runnable, StepNodes, TotalState, Imbalance, Net, Linked, Symmetric, WeightsSymmetric, AtPeace;
    LinkedOf(m);
    forall i: nat, j: nat | i < j < |m.nodes| && (i, j) != (a, b) ensures Net(m.nodes, i, j) == 0.0 {
      PeaceIffBalanced(m.nodes, i, j);
    }
    OneUnbalanced(m.nodes, a, b);
    PeaceIffBalanced(m.nodes, a, b);
    ConservedIff(m);
  }

  // ---------------------------------------------------------------- new bridges

  lemma {:induction false} FindPush(bridges: seq<Bridge>, bridge: Bridge, j: int)
    ensures Targets(bridges, j) ==> Find(bridges + [bridge], j) == Find(bridges, j)
    ensures !Targets(bridges, j) && bridge.target == j ==> Find(bridges + [bridge], j) == |bridges|
  {
    PushTargets(bridges, bridge, j);
    var k := Find(bridges + [bridge], j);
    assert forall l :: 0 <= l < |bridges| ==> (bridges + [bridge])[l] == bridges[l];
    if k < |bridges| {
      assert bridges[k].target == j;
      TargetsIff(bridges, j);
    }
  }

  lemma {:induction false} PushBridgeTo(nodes: seq<Node>, a: nat, bridge: Bridge, i: nat, j: nat)
    requires a < |nodes| && !HasBridge(nodes, a, bridge.target)
    ensures HasBridge(nodes, i, j) ==>
      HasBridge(PushBridge(nodes, a, bridge), i, j)
          && BridgeTo(PushBridge(nodes, a, bridge), i, j) == BridgeTo(nodes, i, j)
    ensures i == a && j == bridge.target ==>
      HasBridge(PushBridge(nodes, a, bridge), i, j) && BridgeTo(PushBridge(nodes, a, bridge), i, j) == bridge
  {
    PushHasBridge(nodes, a, bridge);
    if i == a {
      FindPush(nodes[a].bridges, bridge, j);
    }
  }

  /** Connecting leaves every other bridge as it was. */
  lemma {:induction false} ConnectBridgeTo(metric: Metric, m: Mesh, a: nat, b: nat, i: nat, j: nat)
    requires |m.incarnations| == |m.nodes| && a < |m.nodes| && b < |m.nodes| && a != b
    requires !HasBridge(m.nodes, a, b) && !HasBridge(m.nodes, b, a)
    ensures var next := ConnectPair(metric, m, a, b).nodes;
            && (HasBridge(m.nodes, i, j) ==> HasBridge(next, i, j) && BridgeTo(next, i, j) == BridgeTo(m.nodes, i, j))
            && ((i, j) == (a, b) ==> HasBridge(next, i, j) && BridgeTo(next, i, j) == NewBridge(metric, m.nodes, a, b))
            && ((i, j) == (b, a) ==> HasBridge(next, i, j) && BridgeTo(next, i, j) == NewBridge(metric, m.nodes, b, a))
  {
    var ab, ba := NewBridge(metric, m.nodes, a, b), NewBridge(metric, m.nodes, b, a);
    hide HasBridge, BridgeTo, StableAlpha, OrientationFactor;
    PushHasBridge(m.nodes, a, ab);
    PushBridgeTo(m.nodes, a, ab, i, j);
    var once := PushBridge(m.nodes, a, ab);
    PushBridgeTo(once, b, ba, i, j);
  }

  predicate Even(metric: Metric, p: Vector3D, q: Vector3D) {
    metric.dist(p, q) < COINCIDENT || p.z == q.z
  }

  lemma {:induction false} NewIsEven(metric: Metric, m: Mesh, a: nat, b: nat)
    requires metric.Valid() && a < |m.nodes| && b < |m.nodes|
    ensures SameWeight(NewBridge(metric, m.nodes, a, b), NewBridge(metric, m.nodes, b, a)) <==>
      Even(metric, m.nodes[a].position, m.nodes[b].position)
    ensures SameWeight(NewBridge(metric, m.nodes, b, a), NewBridge(metric, m.nodes, a, b)) <==>
      Even(metric, m.nodes[a].position, m.nodes[b].position)
  {
    hide OrientationFactor;
    OrientationSymmetricIff(metric, m.nodes[a].position, m.nodes[b].position);
    assert metric.dist(m.nodes[a].position, m.nodes[b].position) ==
        metric.dist(m.nodes[b].position, m.nodes[a].position);
  }

  predicate Joins(i: nat, j: nat, a: nat, b: nat) {
    (i, j) == (a, b) || (i, j) == (b, a)
  }

  /** The new pair is even or not; every other pair is as before. */
  lemma {:induction false} ConnectSameWeight(metric: Metric, m: Mesh, a: nat, b: nat, i: nat, j: nat)
    requires metric.Valid() && |m.incarnations| == |m.nodes| && a < |m.nodes| && b < |m.nodes| && a != b
    requires !HasBridge(m.nodes, a, b) && !HasBridge(m.nodes, b, a) && Mirrored(m.nodes)
    requires Paired(ConnectPair(metric, m, a, b).nodes, i, j)
    ensures var next := ConnectPair(metric, m, a, b).nodes;
            SameWeight(BridgeTo(next, i, j), BridgeTo(next, j, i)) <==>
              (Joins(i, j, a, b) ==> Even(metric, m.nodes[a].position, m.nodes[b].position))
  {
    hide HasBridge, BridgeTo, ConnectPair, NewBridge, Even;
    ConnectPairHasBridge(metric, m, a, b);
    ConnectBridgeTo(metric, m, a, b, i, j);
    ConnectBridgeTo(metric, m, a, b, j, i);
    NewIsEven(metric, m, a, b);
    if !Joins(i, j, a, b) {
      SameCount(metric, m, a, b);
      assert HasBridge(m.nodes, i, j) && HasBridge(m.nodes, j, i);
    }
  }

  lemma {:induction false} SameCount(metric: Metric, m: Mesh, a: nat, b: nat)
    requires |m.incarnations| == |m.nodes| && a < |m.nodes| && b < |m.nodes|
    ensures |ConnectPair(metric, m, a, b).nodes| == |m.nodes|
  {
  }

  lemma {:induction false} NeitherWay(m: Mesh, a: nat, b: nat)
    requires Inv(m) && !HasBridge(m.nodes, a, b)
    ensures !HasBridge(m.nodes, b, a) && |m.incarnations| == |m.nodes|
  {
    assert HasBridge(m.nodes, b, a) ==> HasBridge(m.nodes, a, b);
  }

  /** A connection keeps a symmetric mesh symmetric exactly when its nodes are level or coincide. */
  lemma {:induction false} ConnectMirroredIff(metric: Metric, m: Mesh, a: nat, b: nat)
    requires metric.Valid() && Inv(m) && Admissible(metric, m, a, b) && Mirrored(m.nodes)
    ensures |m.incarnations| == |m.nodes|
    ensures Mirrored(Connect(metric, m, a, b).nodes) <==> Even(metric, m.nodes[a].position, m.nodes[b].position)
  {
    hide Inv, HasBridge, BridgeTo, ConnectPair, Even, SameWeight;
    NeitherWay(m, a, b);
    var next := ConnectPair(metric, m, a, b).nodes;
    forall i: nat, j: nat | Paired(next, i, j)
      ensures SameWeight(BridgeTo(next, i, j), BridgeTo(next, j, i)) <==>
        (Joins(i, j, a, b) ==> Even(metric, m.nodes[a].position, m.nodes[b].position))
    {
      ConnectSameWeight(metric, m, a, b, i, j);
    }
    ConnectPairHasBridge(metric, m, a, b);
    SameCount(metric, m, a, b);
    assert HasBridge(next, a, b) && HasBridge(next, b, a);
    assert Paired(next, a, b) && Joins(a, b, a, b);
  }

  /** The two new bridges weigh the same exactly for such nodes. */
  lemma {:induction false} NewWeights(metric: Metric, m: Mesh, a: nat, b: nat)
    requires metric.Valid() && a < |m.nodes| && b < |m.nodes|
    ensures var ab, ba := NewBridge(metric, m.nodes, a, b), NewBridge(metric, m.nodes, b, a);
            && SoundBridge(ab) && SoundBridge(ba)
            && (EffectiveCoupling(ab) == EffectiveCoupling(ba) <==>
                  Even(metric, m.nodes[a].position, m.nodes[b].position))
  {
    var ab, ba := NewBridge(metric, m.nodes, a, b), NewBridge(metric, m.nodes, b, a);
    hide OrientationFactor, EffectiveCoupling, Gain, Even;
    NewBridgeSound(metric, m.nodes, a, b);
    NewBridgeSound(metric, m.nodes, b, a);
    NewIsEven(metric, m, a, b);
    assert metric.dist(m.nodes[a].position, m.nodes[b].position) ==
        metric.dist(m.nodes[b].position, m.nodes[a].position);
    CouplingIsGain(ab);
    CouplingIsGain(ba);
    GainsByOrientation(ab, ba);
  }

  lemma {:induction false} ConnectWeight(metric: Metric, m: Mesh, a: nat, b: nat, i: nat, j: nat)
    requires metric.Valid() && |m.incarnations| == |m.nodes| && a < |m.nodes| && b < |m.nodes| && a != b
    requires !HasBridge(m.nodes, a, b) && !HasBridge(m.nodes, b, a) && i < |m.nodes|
    requires Runnable(m.nodes) && Runnable(ConnectPair(metric, m, a, b).nodes)
    ensures |ConnectPair(metric, m, a, b).nodes| == |m.nodes|
    ensures SoundBridge(NewBridge(metric, m.nodes, a, b)) && SoundBridge(NewBridge(metric, m.nodes, b, a))
    ensures Weight(ConnectPair(metric, m, a, b).nodes, i, j) ==
      if (i, j) == (a, b) then EffectiveCoupling(NewBridge(metric, m.nodes, a, b))
      else if (i, j) == (b, a) then EffectiveCoupling(NewBridge(metric, m.nodes, b, a))
      else Weight(m.nodes, i, j)
  {
    hide HasBridge, BridgeTo, ConnectPair, NewBridge, EffectiveCoupling, Runnable, Metric.Valid;
    SameCount(metric, m, a, b);
    NewBridgeSound(metric, m.nodes, a, b);
    NewBridgeSound(metric, m.nodes, b, a);
    ConnectPairHasBridge(metric, m, a, b);
    ConnectBridgeTo(metric, m, a, b, i, j);
  }

  /** From symmetric weights, whatever the geometry of the old bridges: a connection keeps them
      symmetric exactly when its nodes are level or coincide. */
  lemma {:induction false} ConnectSymmetricIff(metric: Metric, m: Mesh, a: nat, b: nat)
    requires metric.Valid() && Inv(m) && Admissible(metric, m, a, b)
    requires Runnable(m.nodes) && WeightsSymmetric(m.nodes)
    ensures |m.incarnations| == |m.nodes| && Runnable(Connect(metric, m, a, b).nodes)
    ensures WeightsSymmetric(Connect(metric, m, a, b).nodes) <==>
      Even(metric, m.nodes[a].position, m.nodes[b].position)
  {
    hide Inv, Runnable, HasBridge, ConnectPair, NewBridge, Even, Weight, EffectiveCoupling, Metric.Valid;
    NeitherWay(m, a, b);
    ConnectPairInv(metric, m, a, b);
    var next := ConnectPair(metric, m, a, b);
    LinkedOf(next);
    InvRunnable(next);
    NewWeights(metric, m, a, b);
    forall i: nat, j: nat | i < |m.nodes| && j < |m.nodes|
      ensures |next.nodes| == |m.nodes|
      ensures Weight(next.nodes, i, j) == Weight(next.nodes, j, i) <==>
        (Joins(i, j, a, b) ==> Even(metric, m.nodes[a].position, m.nodes[b].position))
    {
      ConnectWeight(metric, m, a, b, i, j);
      ConnectWeight(metric, m, a, b, j, i);
    }
    assert Joins(a, b, a, b);
  }

  /** The bridges between such nodes are open in both directions. */
  lemma {:induction false} EvenIsPassable(metric: Metric, m: Mesh, a: nat, b: nat)
    requires metric.Valid() && a < |m.nodes| && b < |m.nodes| && Even(metric, m.nodes[a].position, m.nodes[b].position)
    ensures NewBridge(metric, m.nodes, a, b).orientation >= 0.5 && NewBridge(metric, m.nodes, b, a).orientation >= 0.5
  {
    hide OrientationFactor;
    OrientationComplement(metric, m.nodes[a].position, m.nodes[b].position);
    OrientationSymmetricIff(metric, m.nodes[a].position, m.nodes[b].position);
  }
}
