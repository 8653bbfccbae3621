/**
 Reachable meshes at which two expectations fail: that symmetric weights last while the two ends of
 every bridge agree, and that a change of a gate always makes a snapshot stale.
 */
module Examples {
  import opened CommitRuns
  import opened Common
  import opened Conservation
  import opened Diffusion
  import opened Dynamics
  import opened MeshState
  import opened Authority
  import opened Revalidation
  import opened Runs
  import opened Symmetry
  import opened Topology
  import opened Weights

  /** The place 37 away from the origin and 3 above it. */
  const ABOVE: Vector3D := Vector3D(36.0, 8.0, 3.0)

  ghost predicate Tilted(metric: Metric) {
    metric.Valid() && metric.finite(ORIGIN, ABOVE) && metric.dist(ORIGIN, ABOVE) == 37.0
  }

  function SomeDistance(p: Vector3D, q: Vector3D): real {
    if (p == ORIGIN && q == ABOVE) || (p == ABOVE && q == ORIGIN) then 37.0 else Manhattan(p, q)
  }

  lemma {:induction false} SomeDistanceMeans(p: Vector3D, q: Vector3D)
    ensures SomeDistance(p, q) >= 0.0 && SomeDistance(p, q) == SomeDistance(q, p)
    ensures RealAbs(q.z - p.z) <= SomeDistance(p, q)
  {
  }

  function Somewhere(): Metric {
    Metric((p, q) => SomeDistance(p, q), (p, q) => true)
  }

  lemma {:induction false} SomewhereValid()
    ensures Somewhere().Valid()
  {
    hide SomeDistance;
    forall p: Vector3D, q: Vector3D
      ensures Somewhere().dist(p, q) >= 0.0 && Somewhere().dist(p, q) == Somewhere().dist(q, p)
      ensures RealAbs(q.z - p.z) <= Somewhere().dist(p, q)
    {
      SomeDistanceMeans(p, q);
    }
  }

  /** There is a metric with the distances of all examples. */
  lemma {:induction false} PlacesExist()
    ensures exists metric: Metric :: Placed(metric) && Tilted(metric)
  {
    hide Placed, Tilted, Somewhere;
    SomewhereIs();
  }

  lemma {:induction false} SomewhereIs()
    ensures Placed(Somewhere()) && Tilted(Somewhere())
  {
    SomewhereValid();
    hide Metric.Valid;
    assert SomeDistance(ORIGIN, BESIDE) == 1.0;
    assert SomeDistance(ORIGIN, ABOVE) == 37.0;
  }

  // ---------------------------------------------------------------- a tilted pair

  function Apart(): Mesh {
    AddNode(AddNode(EmptyMesh(), 0, ORIGIN, 0.0), 1, ABOVE, 2.0)
  }

  function Tilt(metric: Metric): Mesh {
    Connect(metric, Apart(), 0, 1)
  }

  function Up(capacity: real, status: BridgeStatus): Bridge {
    Bridge(1, 37.0, 20.0 / 37.0, capacity, status)
  }

  function Down(): Bridge {
    Bridge(0, 37.0, 17.0 / 37.0, 1.0, Normal)
  }

  function TiltNodes(up: Bridge): seq<Node> {
    [Node(ORIGIN, 0.0, 1.0, IdentityInvariant(0.0, MAX_EPSILON), [up]),
     Node(ABOVE, 2.0, 1.0, IdentityInvariant(2.0, MAX_EPSILON), [Down()])]
  }

  lemma {:induction false} ApartIs()
    ensures Apart().nodes == [NewNode(ORIGIN, 0.0), NewNode(ABOVE, 2.0)]
    ensures Apart().incarnations == [1, 2] && Apart().nextLineage == 1
  {
  }

  lemma {:induction false} NewBridges(metric: Metric, nodes: seq<Node>)
    requires Tilted(metric) && nodes == [NewNode(ORIGIN, 0.0), NewNode(ABOVE, 2.0)]
    ensures NewBridge(metric, nodes, 0, 1) == Up(1.0, Normal) && NewBridge(metric, nodes, 1, 0) == Down()
  {
    assert metric.dist(ABOVE, ORIGIN) == 37.0;
  }

  lemma {:induction false} TiltIs(metric: Metric)
    requires Tilted(metric)
    ensures Tilt(metric).nodes == TiltNodes(Up(1.0, Normal))
    ensures (0, 1) in Tilt(metric).relationships && Tilt(metric).nextLineage == 3
  {
    ApartIs();
    var nodes := Apart().nodes;
    NewBridges(metric, nodes);
    hide Apart, NewBridge, StableAlpha, Up, Down;
    assert Admissible(metric, Apart(), 0, 1);
    FirstBridge(nodes, 0, Up(1.0, Normal));
    FirstBridge(PushBridge(nodes, 0, Up(1.0, Normal)), 1, Down());
  }

  function TiltRun(): seq<Event> {
    [AddedNode(0, ORIGIN, 0.0), AddedNode(1, ABOVE, 2.0), Connected(0, 1)]
  }

  lemma {:induction false} OperatedSystem(w: World, s: System, ev: Event)
    requires Fits(s.mesh) && (ev.AddedNode? || ev.Connected?)
    ensures var next := Next(w, s, ev);
            next.mesh == Operate(w.metric, s.mesh, ev) && next.tokens == s.tokens
  {
    hide Fits;
  }

  lemma {:induction false} TiltReached(w: World)
    requires Tilted(w.metric)
    ensures Reached(w, TiltRun()).mesh == Tilt(w.metric) && Reached(w, TiltRun()).tokens == []
  {
    StartInv();
    hide SystemInv, Next, Fits, RunAll, AddNode, Connect;
    var events, s0 := TiltRun(), Start();
    assert events == [events[0]] + ([events[1]] + ([events[2]] + []));
    AfterThat(w, s0, events[0], [events[1]] + ([events[2]] + []));
    OperatedSystem(w, s0, events[0]);
    var s1 := Next(w, s0, events[0]);
    AfterThat(w, s1, events[1], [events[2]] + []);
    OperatedSystem(w, s1, events[1]);
    var s2 := Next(w, s1, events[1]);
    AfterThat(w, s2, events[2], []);
    OperatedSystem(w, s2, events[2]);
    RunNone(w, Next(w, s2, events[2]));
  }

  lemma {:induction false} FreshAllocator(s: System)
    requires s.tokens == []
    ensures 0 !in AllocatorOf(s).locals && AllocatorOf(s).counter == 1
  {
  }

  /** A run that ends with one constraining commit on the pair. */
  ghost function TiltCommitRun(w: World): seq<Event>
    requires Tilted(w.metric)
  {
    TiltReached(w);
    TiltIs(w.metric);
    TiltRun() + CommitRun(w, Reached(w, TiltRun()), (0, 1), Constraining, 0)
  }

  lemma {:induction false} TiltCommitted(w: World)
    requires Tilted(w.metric)
    ensures HasBridge(Tilt(w.metric).nodes, 0, 1) && (0, 1) in Tilt(w.metric).relationships
    ensures Reached(w, TiltCommitRun(w)).mesh == Commit(Tilt(w.metric), (0, 1), Constraining)
    ensures Inv(Reached(w, TiltCommitRun(w)).mesh)
  {
    hide SystemInv, RunAll, CommitRun, Commit, AllocatorOf, HasBridge, Tilt, Inv;
    var s := Reached(w, TiltRun());
    TiltReached(w);
    TiltIs(w.metric);
    ReachedInv(w, TiltRun());
    FreshAllocator(s);
    CommitReachable(w, s, (0, 1), Constraining, 0);
    StartInv();
    RunSplits(w, Start(), TiltRun(), CommitRun(w, s, (0, 1), Constraining, 0));
    ReachableInv(w, TiltCommitRun(w));
  }

  lemma {:induction false} TiltCommitIs(metric: Metric)
    requires Tilted(metric) && HasBridge(Tilt(metric).nodes, 0, 1) && (0, 1) in Tilt(metric).relationships
    ensures Commit(Tilt(metric), (0, 1), Constraining).nodes == TiltNodes(Up(0.85, Damping))
  {
    TiltIs(metric);
    hide Tilt;
    var nodes, next := Tilt(metric).nodes, Commit(Tilt(metric), (0, 1), Constraining).nodes;
    assert Find(nodes[0].bridges, 1) == 0;
    assert Transitioned(Up(1.0, Normal), Constraining) == Up(0.85, Damping);
    assert nodes[0].bridges[0 := Up(0.85, Damping)] == [Up(0.85, Damping)];
    assert next == nodes[0 := nodes[0].(bridges := [Up(0.85, Damping)])];
  }

  /** Both weights are equal, both ends judge the signal creative, and the raised capacities of 1
      leave the weights as far apart as the orientations. */
  lemma {:induction false} TiltBreaks(nodes: seq<Node>)
    requires nodes == TiltNodes(Up(0.85, Damping)) && Runnable(nodes)
    ensures Paired(nodes, 0, 1) && !Paired(nodes, 0, 0) && !Paired(nodes, 1, 1)
    ensures Agreeing(nodes) && Weight(nodes, 0, 1) == Weight(nodes, 1, 0)
    ensures !Lasts(nodes, 0, 1)
  {
    assert Find(nodes[0].bridges, 1) == 0 && Find(nodes[1].bridges, 0) == 0;
    assert !HasBridge(nodes, 0, 0) && !HasBridge(nodes, 1, 1);
    assert Signal(nodes, 0, 1) == Signal(nodes, 1, 0) == CreativeSignal;
    assert Gain(Up(0.85, Damping)) > Gain(Down()) > 0.0;
    assert EffectiveCoupling(Up(0.85, Damping)) == EffectiveCoupling(Down());
  }

  lemma {:induction false} TwoSymmetric(nodes: seq<Node>)
    requires Runnable(nodes) && |nodes| == 2 && Weight(nodes, 0, 1) == Weight(nodes, 1, 0)
    ensures WeightsSymmetric(nodes)
  {
    hide Weight;
    forall i: nat, j: nat | i < |nodes| && j < |nodes| ensures Weight(nodes, i, j) == Weight(nodes, j, i) {
      assert (i, j) in {(0, 0), (0, 1), (1, 0), (1, 1)};
    }
  }

  /** A reachable pair of equal weights whose ends agree: the next step makes the weights unequal and
      changes the total. */
  lemma {:induction false} AgreementIsNotEnough(w: World)
    requires Tilted(w.metric)
    ensures var m := Reached(w, TiltCommitRun(w)).mesh;
            && Inv(m) && Runnable(m.nodes) && Runnable(StepNodes(m.nodes, m.alpha))
            && WeightsSymmetric(m.nodes) && Agreeing(m.nodes)
            && !WeightsSymmetric(StepNodes(m.nodes, m.alpha))
            && TotalState(StepNodes(m.nodes, m.alpha)) != TotalState(m.nodes)
  {
    hide Inv, StepNodes, TotalState, Reached, TiltCommitRun, Tilt, Commit, HasBridge, WeightsSymmetric, Agreeing, Lasts,
      Runnable, Linked, Symmetric, Weight;
    var m := Reached(w, TiltCommitRun(w)).mesh;
    TiltCommitted(w);
    TiltCommitIs(w.metric);
    LinkedOf(m);
    InvRunnable(m);
    TiltBreaks(m.nodes);
    TwoSymmetric(m.nodes);
    PairConservesIff(m);
    StepStaysRunnable(m);
    SymmetryKeptIff(m.nodes, m.alpha);
    assert !AllLast(m.nodes);
  }

  lemma {:induction false} StepStaysRunnable(m: Mesh)
    requires Inv(m) && Runnable(m.nodes)
    ensures Runnable(StepNodes(m.nodes, m.alpha))
  {
    hide Inv, Runnable, StepNodes;
    StepInv(m);
    InvRunnable(m.(nodes := StepNodes(m.nodes, m.alpha)));
  }

  // ---------------------------------------------------------------- a fresh gate

  /** The failed renewals, at a reachable system. */
  lemma {:induction false} RenewalsFailAtReached(w: World)
    requires Placed(w.metric)
    ensures var s := Reached(w, ExampleRun());
            var raised, lowered := Observed((0, 1), 0.6, false), Observed((0, 1), 0.0, false);
            && SystemInv(s) && (0, 1) in s.mesh.relationships
            && !Revalidates(RunAll(w, s, [raised]).mesh, SnapshotOf(s.mesh, (0, 1)))
            && Revalidates(RunAll(w, s, [raised, lowered]).mesh, SnapshotOf(s.mesh, (0, 1)))
  {
    ReachedInv(w, ExampleRun());
    ExampleReached(w);
    UnshockedQuiet(w.metric);
    hide SystemInv, Reached, RunAll, Revalidates, SnapshotOf, Unshocked;
    FailedRenewalsHideChanges(w, Reached(w, ExampleRun()), (0, 1));
  }
}
