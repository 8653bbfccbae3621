/**
 Where the documented conservation of the total state ends: symmetric weights are not kept by a
 step, so a mesh that starts symmetric need not conserve anything.
 */
module Conservation {
  import opened Dynamics
  import opened MeshState
  import opened Topology
  import opened CommitRuns
  import opened Connecting
  import opened Diffusion
  import opened Runs
  import opened Symmetry
  import opened SymmetricRuns
  import Persistence

  const ORIGIN: Vector3D := Vector3D(0.0, 0.0, 0.0)
  const BESIDE: Vector3D := Vector3D(1.0, 0.0, 0.0)

  /** Two level nodes one apart, with baselines 0 and 1. */
  function TwoNodes(): Mesh {
    AddNode(AddNode(EmptyMesh(), 0, ORIGIN, 0.0), 1, BESIDE, 1.0)
  }

  function Unshocked(metric: Metric): Mesh {
    Connect(metric, TwoNodes(), 0, 1)
  }

  /** Connected, and then the second shocked by 1. */
  function Example(metric: Metric): Mesh {
    Shock(Unshocked(metric), 1, 1.0)
  }

  ghost predicate Placed(metric: Metric) {
    metric.Valid() && metric.finite(ORIGIN, BESIDE) && metric.dist(ORIGIN, BESIDE) == 1.0
  }

  lemma {:induction false} SameSize(m: Mesh)
    requires Inv(m)
    ensures |m.incarnations| == |m.nodes|
  {
  }

  lemma {:induction false} ExampleInv(metric: Metric)
    requires Placed(metric)
    ensures Inv(Example(metric))
  {
    hide Inv, AddNode, Connect, Shock;
    EmptyInv();
    var one := AddNode(EmptyMesh(), 0, ORIGIN, 0.0);
    AddNodeInv(EmptyMesh(), 0, ORIGIN, 0.0);
    var two := AddNode(one, 1, BESIDE, 1.0);
    AddNodeInv(one, 1, BESIDE, 1.0);
    SameSize(two);
    ConnectInv(metric, two, 0, 1);
    ShockInv(Connect(metric, two, 0, 1), 1, 1.0);
  }

  function Link(target: int): Bridge {
    Bridge(target, 1.0, 0.5, 1.0, Normal)
  }

  lemma {:induction false} FirstBridge(nodes: seq<Node>, i: nat, bridge: Bridge)
    requires i < |nodes| && nodes[i].bridges == []
    ensures PushBridge(nodes, i, bridge) == nodes[i := nodes[i].(bridges := [bridge])]
  {
    assert [] + [bridge] == [bridge];
  }

  lemma {:induction false} ExampleNodes(metric: Metric)
    requires Placed(metric)
    ensures Example(metric).nodes ==
      [Node(ORIGIN, 0.0, 1.0, IdentityInvariant(0.0, MAX_EPSILON), [Link(1)]),
       Node(BESIDE, 2.0, 0.9, IdentityInvariant(1.0, MAX_EPSILON), [Link(0)])]
  {
    var two := AddNode(AddNode(EmptyMesh(), 0, ORIGIN, 0.0), 1, BESIDE, 1.0);
    assert two.nodes == [NewNode(ORIGIN, 0.0), NewNode(BESIDE, 1.0)];
    assert metric.dist(BESIDE, ORIGIN) == 1.0;
    assert NewBridge(metric, two.nodes, 0, 1) == Link(1) && NewBridge(metric, two.nodes, 1, 0) == Link(0);
    hide StableAlpha, NewBridge;
    var connected := Connect(metric, two, 0, 1).nodes;
    assert Admissible(metric, two, 0, 1);
    var once := PushBridge(two.nodes, 0, Link(1));
    FirstBridge(two.nodes, 0, Link(1));
    assert once == [NewNode(ORIGIN, 0.0).(bridges := [Link(1)]), NewNode(BESIDE, 1.0)];
    FirstBridge(once, 1, Link(0));
    assert connected == PushBridge(once, 1, Link(0));
    assert connected == [NewNode(ORIGIN, 0.0).(bridges := [Link(1)]), NewNode(BESIDE, 1.0).(bridges := [Link(0)])];
    hide ConnectPair;
    assert ReflexFilter(1.0, 2.0) == 2.0;
    assert Health(2.0, IdentityInvariant(1.0, MAX_EPSILON)) == 0.9;
  }

  function ExampleRun(): seq<Event> {
    [AddedNode(0, ORIGIN, 0.0), AddedNode(1, BESIDE, 1.0), Connected(0, 1), Shocked(1, 1.0)]
  }

  lemma {:induction false} OperatedMesh(w: World, s: System, ev: Event)
    requires Fits(s.mesh) && !ev.CommitAttempted?
    ensures Next(w, s, ev).mesh == Operate(w.metric, s.mesh, ev)
  {
  }

  /** The example is what a run of four operations reaches. */
  lemma {:induction false} ExampleReached(w: World)
    requires Placed(w.metric)
    ensures Reached(w, ExampleRun()).mesh == Example(w.metric)
  {
    StartInv();
    hide SystemInv, Next, Fits, RunAll, AddNode, Connect, Shock;
    var events, s0 := ExampleRun(), Start();
    assert events == [events[0]] + ([events[1]] + ([events[2]] + ([events[3]] + [])));
    AfterThat(w, s0, events[0], [events[1]] + ([events[2]] + ([events[3]] + [])));
    OperatedMesh(w, s0, events[0]);
    var s1 := Next(w, s0, events[0]);
    AfterThat(w, s1, events[1], [events[2]] + ([events[3]] + []));
    OperatedMesh(w, s1, events[1]);
    var s2 := Next(w, s1, events[1]);
    AfterThat(w, s2, events[2], [events[3]] + []);
    OperatedMesh(w, s2, events[2]);
    var s3 := Next(w, s2, events[2]);
    AfterThat(w, s3, events[3], []);
    OperatedMesh(w, s3, events[3]);
    RunNone(w, Next(w, s3, events[3]));
  }

  /** A reachable level pair, both directions of the same weight, whose next step changes the total
      although nothing is connected, pruned or shocked any more: the two ends judge the exchanged
      signal by their own baselines, and only one of them damps its bridge. */
  lemma {:induction false} SymmetryIsNotEnough(w: World)
    requires Placed(w.metric)
    ensures var m := Reached(w, ExampleRun()).mesh;
            && Inv(m) && Runnable(m.nodes)
            && |m.nodes| == 2 && |m.nodes[0].bridges| == |m.nodes[1].bridges| == 1
            && EffectiveCoupling(m.nodes[0].bridges[0]) == EffectiveCoupling(m.nodes[1].bridges[0])
            && Signal(m.nodes, 0, 1) != Signal(m.nodes, 1, 0)
            && TotalState(StepNodes(m.nodes, m.alpha)) != TotalState(m.nodes)
  {
    var m := Example(w.metric);
    ExampleReached(w);
    ExampleInv(w.metric);
    ExampleNodes(w.metric);
    InvRunnable(m);
    ExampleImbalance(m.nodes);
    hide Example, Inv, Imbalance, StepNodes, TotalState, Reached;
    ConservedIff(m);
  }

  lemma {:induction false} ExampleImbalance(nodes: seq<Node>)
    requires nodes ==
      [Node(ORIGIN, 0.0, 1.0, IdentityInvariant(0.0, MAX_EPSILON), [Link(1)]),
       Node(BESIDE, 2.0, 0.9, IdentityInvariant(1.0, MAX_EPSILON), [Link(0)])]
    requires Runnable(nodes)
    ensures Imbalance(nodes) != 0.0
  {
    var x := ExchangeOf(nodes);
    assert NextBridge(nodes, 0, 0) == Link(1);
    assert NextBridge(nodes, 1, 0).capacity == 0.85;
    assert Find(nodes[0].bridges, 1) == 0 && Find(nodes[1].bridges, 0) == 0;
    assert x.c[0][1] == Coupling(nodes, 0, 1) && x.c[1][0] == Coupling(nodes, 1, 0);
    assert x.Imbalance(2) == x.Imbalance(1) + x.NetWith(1, 1);
    assert x.Imbalance(1) == x.Imbalance(0) + x.NetWith(0, 0) == 0.0;
    assert x.NetWith(1, 1) == x.NetWith(0, 1) + x.Asymmetry(0, 1);
    Weights();
  }

  lemma {:induction false} Weights()
    ensures var near := Link(1); EffectiveCoupling(near) == near.capacity * (1.0 / 1.1) * 0.5
    ensures (1.0 * (1.0 / 1.1) * 0.5 - 0.85 * (1.0 / 1.1) * 0.5) * 2.0 > 0.0
  {
  }

  lemma {:induction false} PairImbalance(nodes: seq<Node>)
    requires Runnable(nodes) && |nodes| == 2
    ensures Imbalance(nodes) == (Coupling(nodes, 0, 1) - Coupling(nodes, 1, 0)) * (nodes[1].state - nodes[0].state)
  {
    hide Coupling;
    var x := ExchangeOf(nodes);
    assert x.c[0][1] == Coupling(nodes, 0, 1) && x.c[1][0] == Coupling(nodes, 1, 0);
    assert x.Imbalance(1) == x.Imbalance(0) + x.NetWith(0, 0) == 0.0;
    assert x.NetWith(1, 1) == x.NetWith(0, 1) + x.Asymmetry(0, 1);
  }

  /** Whatever the weights, two nodes conserve their total over a step exactly when the directions
      weigh the same after the update, or there is nothing to exchange. */
  lemma {:induction false} CouplingsDecide(m: Mesh)
    requires Inv(m) && Runnable(m.nodes) && |m.nodes| == 2
    ensures TotalState(StepNodes(m.nodes, m.alpha)) == TotalState(m.nodes) <==>
      Coupling(m.nodes, 0, 1) == Coupling(m.nodes, 1, 0) || m.nodes[0].state == m.nodes[1].state
  {
    hide Inv, Runnable, StepNodes, TotalState, Imbalance, Coupling;
    ConservedIff(m);
    PairImbalance(m.nodes);
    ProductZero(Coupling(m.nodes, 0, 1) - Coupling(m.nodes, 1, 0), m.nodes[1].state - m.nodes[0].state);
  }

  /** With symmetric weights this can be told before the step: they conserve it exactly when they
      are not connected, their signals last, or they have the same state. */
  lemma {:induction false} PairConservesIff(m: Mesh)
    requires Inv(m) && Runnable(m.nodes) && |m.nodes| == 2 && WeightsSymmetric(m.nodes)
    ensures TotalState(StepNodes(m.nodes, m.alpha)) == TotalState(m.nodes) <==>
      (Paired(m.nodes, 0, 1) ==> Lasts(m.nodes, 0, 1) || m.nodes[0].state == m.nodes[1].state)
  {
    hide Inv, Runnable, StepNodes, TotalState, WeightsSymmetric, Lasts, HasBridge;
    ConservedIffAtPeace(m, 0, 1);
  }

  /** Two level nodes: exactly when they agree on the signal, or one of these. */
  lemma {:induction false} LevelPairConservesIff(m: Mesh)
    requires Inv(m) && Runnable(m.nodes) && |m.nodes| == 2 && Mirrored(m.nodes) && Passable(m.nodes)
    ensures TotalState(StepNodes(m.nodes, m.alpha)) == TotalState(m.nodes) <==>
      (Paired(m.nodes, 0, 1) ==> Agree(m.nodes, 0, 1) || m.nodes[0].state == m.nodes[1].state)
  {
    hide Inv, Runnable, StepNodes, TotalState, WeightsSymmetric, Mirrored, Passable, Lasts, Agree, HasBridge, Linked,
      Symmetric, Balanced;
    LinkedOf(m);
    MirroredWeights(m);
    BalancedIs(m);
    ConservedIffAtPeace(m, 0, 1);
    MirroredPeace(m.nodes, 0, 1);
  }

  lemma {:induction false} UnlinkedMirrored(nodes: seq<Node>)
    requires forall i :: 0 <= i < |nodes| ==> nodes[i].bridges == []
    ensures Mirrored(nodes)
  {
  }

  lemma {:induction false} TwoNodesInv()
    ensures Inv(TwoNodes())
  {
    hide Inv, AddNode;
    EmptyInv();
    AddNodeInv(EmptyMesh(), 0, ORIGIN, 0.0);
    AddNodeInv(AddNode(EmptyMesh(), 0, ORIGIN, 0.0), 1, BESIDE, 1.0);
  }

  lemma {:induction false} TwoNodesAre()
    ensures TwoNodes().nodes == [NewNode(ORIGIN, 0.0), NewNode(BESIDE, 1.0)]
    ensures TwoNodes().incarnations == [1, 2]
  {
  }

  lemma {:induction false} UnshockedIs(metric: Metric)
    requires Placed(metric)
    ensures Admissible(metric, TwoNodes(), 0, 1) && |TwoNodes().incarnations| == |TwoNodes().nodes|
    ensures Unshocked(metric) == ConnectPair(metric, TwoNodes(), 0, 1)
  {
    TwoNodesAre();
    hide ConnectPair, TwoNodes;
  }

  lemma {:induction false} UnshockedQuiet(metric: Metric)
    requires Placed(metric)
    ensures Quiet(Unshocked(metric).nodes, 0.0, 1.0)
    ensures (0, 1) in Unshocked(metric).relationships
    ensures Unshocked(metric).relationships[(0, 1)].persistence.gate == Persistence.Fresh(Persistence.Preserve)
  {
    TwoNodesAre();
    UnshockedIs(metric);
    hide TwoNodes, Unshocked, NewBridge, StableAlpha;
  }

  /** Without the shock they are symmetric and quiet, so their total is constant for good; and the
      gate of their relationship is fresh. */
  lemma {:induction false} UnshockedConserves(metric: Metric, n: nat)
    requires Placed(metric)
    ensures var m := Unshocked(metric);
            && Inv(m) && (0, 1) in m.relationships
            && m.relationships[(0, 1)].persistence.gate == Persistence.Fresh(Persistence.Preserve)
            && TotalState(Steps(m, n).nodes) == TotalState(m.nodes)
  {
    TwoNodesAre();
    hide Inv, Mirrored, Quiet, TwoNodes, Unshocked, Connect, ConnectPair, Admissible, Steps, TotalState;
    TwoNodesInv();
    UnlinkedMirrored(TwoNodes().nodes);
    UnshockedIs(metric);
    ConnectedIs(metric);
    ConnectInv(metric, TwoNodes(), 0, 1);
    ConnectMirroredIff(metric, TwoNodes(), 0, 1);
    UnshockedQuiet(metric);
    QuietConserves(Unshocked(metric), 0.0, 1.0, n);
  }

  lemma {:induction false} ConnectedIs(metric: Metric)
    requires |TwoNodes().incarnations| == |TwoNodes().nodes|
    ensures Unshocked(metric) == Connect(metric, TwoNodes(), 0, 1)
  {
    hide Connect;
  }
}
