/**
 Conservation over any number of steps: the documented conjecture as it stands, how a mesh comes to
 be symmetric, and a condition on the states alone under which it stays so for good.
 */
module SymmetricRuns {
  import opened Common
  import opened Dynamics
  import opened MeshState
  import opened Topology
  import opened Diffusion
  import opened Symmetry
  import opened Runs

  ghost function StepMesh(m: Mesh): (r: Mesh)
    requires Inv(m)
    ensures Inv(r)
  {
    InvRunnable(m);
    StepInv(m);
    m.(nodes := StepNodes(m.nodes, m.alpha))
  }

  /** The mesh after n steps and nothing else. */
  ghost function Steps(m: Mesh, n: nat): (r: Mesh)
    requires Inv(m)
    ensures Inv(r)
  {
    if n == 0 then m else StepMesh(Steps(m, n - 1))
  }

  lemma {:induction false} StepsFront(m: Mesh, n: nat)
    requires Inv(m)
    ensures Steps(StepMesh(m), n) == Steps(m, n + 1)
  {
    hide Inv, StepMesh;
    if n > 0 {
      StepsFront(m, n - 1);
    }
  }

  lemma {:induction false} SystemMesh(s: System)
    requires SystemInv(s)
    ensures Inv(s.mesh)
  {
  }

  function StepEvents(n: nat): seq<Event> {
    seq(n, _ => Stepped)
  }

  lemma {:induction false} StepEventsAre(n: nat)
    ensures StepEvents(0) == []
    ensures n > 0 ==> StepEvents(n) != [] && StepEvents(n)[0] == Stepped && StepEvents(n)[1..] == StepEvents(n - 1)
  {
  }

  /** They are what a run of n steps reaches. */
  lemma {:induction false} StepsAreRun(w: World, s: System, n: nat)
    requires w.metric.Valid() && SystemInv(s)
    ensures Inv(s.mesh) && RunAll(w, s, StepEvents(n)).mesh == Steps(s.mesh, n)
    decreases n
  {
    hide SystemInv, Inv, Next, Fits, RunAll, StepMesh, StepEvents;
    SystemMesh(s);
    StepEventsAre(n);
    if n > 0 {
      RunFirst(w, s, StepEvents(n));
      SteppedIs(w, s);
      StepsAreRun(w, Next(w, s, Stepped), n - 1);
      StepsFront(s.mesh, n - 1);
    } else {
      RunNone(w, s);
    }
  }

  lemma {:induction false} SteppedIs(w: World, s: System)
    requires Fits(s.mesh)
    ensures Inv(s.mesh) && Next(w, s, Stepped).mesh == StepMesh(s.mesh)
  {
    hide Inv, StepNodes;
  }

  // ---------------------------------------------------------------- the conjecture

  ghost predicate Balanced(m: Mesh)
    requires Inv(m)
  {
    InvRunnable(m);
    WeightsSymmetric(m.nodes)
  }

  lemma {:induction false} BalancedIs(m: Mesh)
    requires Inv(m) && Balanced(m)
    ensures Runnable(m.nodes) && WeightsSymmetric(m.nodes)
  {
    InvRunnable(m);
    hide Inv, WeightsSymmetric, Runnable;
  }

  ghost predicate SignalsLast(m: Mesh)
    requires Inv(m)
  {
    InvRunnable(m);
    AllLast(m.nodes)
  }

  lemma {:induction false} SymmetricStepConserves(m: Mesh)
    requires Inv(m) && Balanced(StepMesh(m))
    ensures TotalState(StepMesh(m).nodes) == TotalState(m.nodes)
  {
    InvRunnable(m);
    InvRunnable(StepMesh(m));
    hide Inv, Runnable, Coupling, Weight, StepNodes, TotalState;
    forall i, j | 0 <= i < j < |m.nodes| ensures Coupling(m.nodes, i, j) == Coupling(m.nodes, j, i) {
      CouplingIsNextWeight(m.nodes, m.alpha, i, j);
      CouplingIsNextWeight(m.nodes, m.alpha, j, i);
      SameNumber(m);
    }
    LinkedOf(m);
    SymmetricConserves(m.nodes, m.alpha);
  }

  lemma {:induction false} SameNumber(m: Mesh)
    requires Inv(m)
    ensures |StepMesh(m).nodes| == |m.nodes|
  {
  }

  /** The weights are symmetric after each of n steps. */
  ghost predicate StaysSymmetric(m: Mesh, n: nat)
    requires Inv(m)
  {
    n > 0 ==> Balanced(Steps(m, n)) && StaysSymmetric(m, n - 1)
  }

  /** The conjecture: on a fixed topology and without shocks, weights that are symmetric after every
      step keep the total state constant over any number of steps. */
  lemma {:induction false} ConjectureHolds(m: Mesh, n: nat)
    requires Inv(m) && StaysSymmetric(m, n)
    ensures TotalState(Steps(m, n).nodes) == TotalState(m.nodes)
  {
    hide Inv, TotalState, StepMesh, Balanced;
    if n > 0 {
      ConjectureHolds(m, n - 1);
      SymmetricStepConserves(Steps(m, n - 1));
    }
  }

  /** The signals of every pair last before each of n steps. */
  ghost predicate StaysLasting(m: Mesh, n: nat)
    requires Inv(m)
  {
    n > 0 ==> SignalsLast(Steps(m, n - 1)) && StaysLasting(m, n - 1)
  }

  lemma {:induction false} StepBalancedIff(m: Mesh)
    requires Inv(m) && Balanced(m)
    ensures Balanced(StepMesh(m)) <==> SignalsLast(m)
  {
    InvRunnable(m);
    InvRunnable(StepMesh(m));
    LinkedOf(m);
    hide Inv, WeightsSymmetric, AllLast, Runnable, StepNodes, Linked, Symmetric;
    SymmetryKeptIff(m.nodes, m.alpha);
  }

  lemma {:induction false} LastBalanced(m: Mesh, n: nat)
    requires Inv(m) && Balanced(m) && StaysSymmetric(m, n)
    ensures Balanced(Steps(m, n))
  {
    hide Inv, StepMesh, Balanced;
  }

  /** Exactly when symmetric weights last: if and only if the signals of every pair last before each
      step. */
  lemma {:induction false} SymmetryLastsIff(m: Mesh, n: nat)
    requires Inv(m) && Balanced(m)
    ensures StaysSymmetric(m, n) <==> StaysLasting(m, n)
  {
    hide Inv, StepMesh, Balanced, SignalsLast;
    if n > 0 {
      SymmetryLastsIff(m, n - 1);
      if StaysSymmetric(m, n - 1) {
        LastBalanced(m, n - 1);
        StepBalancedIff(Steps(m, n - 1));
      }
    }
  }

  /** And while they do, the total is constant. */
  lemma {:induction false} LastingConserves(m: Mesh, n: nat)
    requires Inv(m) && Balanced(m) && StaysLasting(m, n)
    ensures TotalState(Steps(m, n).nodes) == TotalState(m.nodes)
  {
    hide Inv, Steps, Balanced, StaysLasting, StaysSymmetric, TotalState;
    SymmetryLastsIff(m, n);
    ConjectureHolds(m, n);
  }

  // ---------------------------------------------------------------- without tilt

  /** The two directions of every bridge are alike now and after each of n steps. */
  ghost predicate StaysMirrored(m: Mesh, n: nat)
    requires Inv(m)
  {
    Mirrored(Steps(m, n).nodes) && (n > 0 ==> StaysMirrored(m, n - 1))
  }

  /** The ends of every bridge agree before each of n steps. */
  ghost predicate StaysAgreeing(m: Mesh, n: nat)
    requires Inv(m)
  {
    n > 0 ==> Agreeing(Steps(m, n - 1).nodes) && StaysAgreeing(m, n - 1)
  }

  lemma {:induction false} StepKeepsIff(m: Mesh)
    requires Inv(m) && Mirrored(m.nodes)
    ensures Mirrored(StepMesh(m).nodes) <==> Agreeing(m.nodes)
  {
    InvRunnable(m);
    LinkedOf(m);
    hide Inv, Mirrored, Agreeing, Runnable, StepNodes;
    MirroredKeptIff(m.nodes, m.alpha);
  }

  /** Bridges of two like directions stay so exactly when their ends agree before each step. */
  lemma {:induction false} MirrorLastsIff(m: Mesh, n: nat)
    requires Inv(m) && Mirrored(m.nodes)
    ensures StaysMirrored(m, n) <==> StaysAgreeing(m, n)
  {
    hide Inv, StepMesh, Mirrored, Agreeing;
    if n > 0 {
      MirrorLastsIff(m, n - 1);
      if StaysMirrored(m, n - 1) {
        StepKeepsIff(Steps(m, n - 1));
      }
    }
  }

  lemma {:induction false} MirroredIsSymmetric(m: Mesh, n: nat)
    requires Inv(m) && StaysMirrored(m, n)
    ensures StaysSymmetric(m, n)
  {
    hide Inv, StepMesh, Mirrored, Balanced;
    if n > 0 {
      MirroredIsSymmetric(m, n - 1);
      MirroredWeights(Steps(m, n));
    }
  }

  /** And while it does, the total is constant. */
  lemma {:induction false} MirroredConserves(m: Mesh, n: nat)
    requires Inv(m) && Mirrored(m.nodes) && StaysAgreeing(m, n)
    ensures TotalState(Steps(m, n).nodes) == TotalState(m.nodes)
  {
    hide Inv, Steps, Mirrored, StaysMirrored, StaysAgreeing, StaysSymmetric, TotalState;
    MirrorLastsIff(m, n);
    MirroredIsSymmetric(m, n);
    ConjectureHolds(m, n);
  }

  lemma {:induction false} PairWeights(nodes: seq<Node>, i: nat, j: nat)
    requires Runnable(nodes) && Symmetric(nodes) && Mirrored(nodes) && i < |nodes| && j < |nodes|
    ensures Weight(nodes, i, j) == Weight(nodes, j, i)
  {
    hide EffectiveCoupling;
    assert HasBridge(nodes, i, j) ==> HasBridge(nodes, j, i);
    assert HasBridge(nodes, j, i) ==> HasBridge(nodes, i, j);
    hide Symmetric, HasBridge;
    if Paired(nodes, i, j) {
      assert SameWeight(BridgeTo(nodes, i, j), BridgeTo(nodes, j, i));
      hide Mirrored;
      SameCoupling(BridgeTo(nodes, i, j), BridgeTo(nodes, j, i));
    }
  }

  lemma {:induction false} SameCoupling(b: Bridge, c: Bridge)
    requires b.distance >= 0.0 && SameWeight(b, c)
    ensures EffectiveCoupling(b) == EffectiveCoupling(c)
  {
  }

  lemma {:induction false} MirroredWeights(m: Mesh)
    requires Inv(m) && Mirrored(m.nodes)
    ensures Balanced(m)
  {
    InvRunnable(m);
    LinkedOf(m);
    hide Inv, Runnable, Linked, Symmetric, Mirrored, Weight;
    forall i: nat, j: nat | i < |m.nodes| && j < |m.nodes| ensures Weight(m.nodes, i, j) == Weight(m.nodes, j, i) {
      PairWeights(m.nodes, i, j);
    }
  }

  // ---------------------------------------------------------------- quiet meshes

  const QUIET: real := 1.2

  /** All states lie in a band that is within the noise margin of every baseline. */
  ghost predicate Quiet(nodes: seq<Node>, lo: real, hi: real) {
    && InBand(nodes, lo, hi)
    && forall i :: 0 <= i < |nodes| ==> hi - nodes[i].omega.baseline <= QUIET && nodes[i].omega.baseline - lo <= QUIET
  }

  lemma {:induction false} QuietIsNoise(m: Mesh, lo: real, hi: real, i: nat, j: nat)
    requires Inv(m) && Quiet(m.nodes, lo, hi) && i < |m.nodes| && j < |m.nodes|
    ensures Signal(m.nodes, i, j) == Noise
  {
    assert Calibrated(m.nodes);
    hide Inv;
  }

  lemma {:induction false} QuietAgrees(m: Mesh, lo: real, hi: real)
    requires Inv(m) && Quiet(m.nodes, lo, hi)
    ensures Agreeing(m.nodes)
  {
    hide Inv, Quiet, Signal, HasBridge;
    forall i: nat, j: nat | Paired(m.nodes, i, j) ensures Agree(m.nodes, i, j) {
      QuietIsNoise(m, lo, hi, i, j);
      QuietIsNoise(m, lo, hi, j, i);
    }
  }

  lemma {:induction false} QuietStep(m: Mesh, lo: real, hi: real)
    requires Inv(m) && Quiet(m.nodes, lo, hi)
    ensures Quiet(StepMesh(m).nodes, lo, hi)
  {
    InvRunnable(m);
    StepInBand(m, lo, hi);
    hide Inv, Runnable, NextState, NextBridges, Health;
  }

  lemma {:induction false} StaysQuiet(m: Mesh, lo: real, hi: real, n: nat)
    requires Inv(m) && Quiet(m.nodes, lo, hi)
    ensures Quiet(Steps(m, n).nodes, lo, hi)
  {
    hide Inv, StepMesh, Quiet;
    if n > 0 {
      StaysQuiet(m, lo, hi, n - 1);
      QuietStep(Steps(m, n - 1), lo, hi);
    }
  }

  /** A symmetric mesh whose states all lie within the noise margin of all baselines stays in its
      band, stays symmetric and keeps its total, for every number of steps. */
  lemma {:induction false} QuietConserves(m: Mesh, lo: real, hi: real, n: nat)
    requires Inv(m) && Mirrored(m.nodes) && Quiet(m.nodes, lo, hi)
    ensures InBand(Steps(m, n).nodes, lo, hi)
    ensures Mirrored(Steps(m, n).nodes)
    ensures TotalState(Steps(m, n).nodes) == TotalState(m.nodes)
  {
    hide Inv, Quiet, Steps, Mirrored, StaysMirrored, StaysAgreeing, TotalState;
    QuietStaysAgreeing(m, lo, hi, n);
    StaysQuiet(m, lo, hi, n);
    QuietInBand(Steps(m, n).nodes, lo, hi);
    MirrorLastsIff(m, n);
    LastMirrored(m, n);
    MirroredConserves(m, n);
  }

  lemma {:induction false} QuietStaysAgreeing(m: Mesh, lo: real, hi: real, n: nat)
    requires Inv(m) && Quiet(m.nodes, lo, hi)
    ensures StaysAgreeing(m, n)
  {
    hide Inv, Quiet, StepMesh, Agreeing;
    if n > 0 {
      QuietStaysAgreeing(m, lo, hi, n - 1);
      StaysQuiet(m, lo, hi, n - 1);
      QuietAgrees(Steps(m, n - 1), lo, hi);
    }
  }

  lemma {:induction false} QuietInBand(nodes: seq<Node>, lo: real, hi: real)
    requires Quiet(nodes, lo, hi)
    ensures InBand(nodes, lo, hi)
  {
  }

  lemma {:induction false} LastMirrored(m: Mesh, n: nat)
    requires Inv(m) && StaysMirrored(m, n)
    ensures Mirrored(Steps(m, n).nodes)
  {
    hide Inv, Steps, Mirrored;
  }

  lemma {:induction false} QuietBridges(m: Mesh, lo: real, hi: real, n: nat, i: nat, j: nat)
    requires Inv(m) && Quiet(m.nodes, lo, hi) && Paired(m.nodes, i, j)
    ensures Paired(Steps(m, n).nodes, i, j)
    ensures BridgeTo(Steps(m, n).nodes, i, j) == Repeated(BridgeTo(m.nodes, i, j), Noise, n)
  {
    hide Inv, Quiet, BridgeTo, Paired, UpdateBridge, Signal, StepNodes, Runnable, Linked, Calibrated;
    if n > 0 {
      var before := Steps(m, n - 1);
      LinkedOf(before);
      QuietBridges(m, lo, hi, n - 1, i, j);
      StaysQuiet(m, lo, hi, n - 1);
      PairedInRange(before.nodes, i, j);
      QuietIsNoise(before, lo, hi, i, j);
      InvRunnable(before);
      StepBridgeTo(before.nodes, before.alpha, i, j);
    }
  }

  lemma {:induction false} PairedInRange(nodes: seq<Node>, i: nat, j: nat)
    requires Paired(nodes, i, j)
    ensures i < |nodes| && j < |nodes|
  {
  }

  /** Meanwhile every bridge decays geometrically to 0.01 and is damped. */
  lemma {:induction false} QuietDecay(m: Mesh, lo: real, hi: real, n: nat, i: nat, j: nat)
    requires Inv(m) && Quiet(m.nodes, lo, hi) && n > 0 && Paired(m.nodes, i, j)
    ensures Paired(Steps(m, n).nodes, i, j)
    ensures BridgeTo(Steps(m, n).nodes, i, j).capacity == RealMax(0.01, Decayed(BridgeTo(m.nodes, i, j).capacity, n))
    ensures BridgeTo(Steps(m, n).nodes, i, j).status == Damping
  {
    hide Inv, Quiet, BridgeTo, HasBridge, Repeated, Decayed, Steps;
    QuietBridges(m, lo, hi, n, i, j);
    RepeatedNoise(BridgeTo(m.nodes, i, j), n);
  }

  /** And no node's health ever runs out. */
  lemma {:induction false} QuietStaysHealthy(m: Mesh, lo: real, hi: real, n: nat)
    requires Inv(m) && Quiet(m.nodes, lo, hi) && n > 0
    ensures forall i :: 0 <= i < |Steps(m, n).nodes| ==> 0.0 < Steps(m, n).nodes[i].health <= 1.0
  {
    hide Inv, Quiet, StepMesh;
    StaysQuiet(m, lo, hi, n - 1);
    QuietHealth(Steps(m, n - 1), lo, hi);
  }

  lemma {:induction false} QuietHealth(m: Mesh, lo: real, hi: real)
    requires Inv(m) && Quiet(m.nodes, lo, hi)
    ensures forall i :: 0 <= i < |StepMesh(m).nodes| ==> 0.0 < StepMesh(m).nodes[i].health <= 1.0
  {
    InvRunnable(m);
    StepInBand(m, lo, hi);
    assert Calibrated(m.nodes);
    hide Inv, Runnable, NextState, NextBridges, Health;
    var next := StepMesh(m).nodes;
    forall i | 0 <= i < |next| ensures 0.0 < next[i].health <= 1.0 {
      HealthMeans(next[i].state, m.nodes[i].omega, 1.0);
      assert lo <= next[i].state <= hi;
    }
  }
}
