/**
 One synchronous diffusion step, computed for every node from the old states, and the two
 numerical claims made for it: states stay between their bounds, and the total state changes by
 exactly what asymmetric couplings let through.
 */
module Diffusion {
  import opened Common
  import opened Dynamics
  import opened MeshState
  import opened Topology
  import opened Sums

  /** What the loop needs in order to run: targets that exist and values it can divide by. */
  ghost predicate Runnable(nodes: seq<Node>) {
    && (forall i, k :: 0 <= i < |nodes| && 0 <= k < |nodes[i].bridges| ==>
          0 <= nodes[i].bridges[k].target < |nodes| && nodes[i].bridges[k].distance >= 0.0)
    && (forall i :: 0 <= i < |nodes| ==> nodes[i].omega.maxEpsilon > 0.0)
  }

  function Difference(nodes: seq<Node>, i: nat, k: nat): real
    requires Runnable(nodes) && i < |nodes| && k < |nodes[i].bridges|
  {
    nodes[nodes[i].bridges[k].target].state - nodes[i].state
  }

  /** The k-th bridge of node i after the signal of its neighbour. */
  function NextBridge(nodes: seq<Node>, i: nat, k: nat): (b: Bridge)
    requires Runnable(nodes) && i < |nodes| && k < |nodes[i].bridges|
    ensures b.distance == nodes[i].bridges[k].distance && b.target == nodes[i].bridges[k].target
  {
    UpdateBridge(nodes[i].bridges[k],
                 EvaluateUnchecked(nodes[i].state + Difference(nodes, i, k), nodes[i].health, nodes[i].omega))
  }

  /** What the k-th bridge adds to the diffusion of node i. */
  function Contribution(nodes: seq<Node>, i: nat, k: nat): real
    requires Runnable(nodes) && i < |nodes| && k < |nodes[i].bridges|
  {
    EffectiveCoupling(NextBridge(nodes, i, k)) * Difference(nodes, i, k)
  }

  function Contributions(nodes: seq<Node>, i: nat): seq<real>
    requires Runnable(nodes) && i < |nodes|
  {
    seq(|nodes[i].bridges|, k requires 0 <= k < |nodes[i].bridges| => Contribution(nodes, i, k))
  }

  function NextState(nodes: seq<Node>, alpha: real, i: nat): real
    requires Runnable(nodes) && i < |nodes|
  {
    nodes[i].state + alpha * Sum(Contributions(nodes, i))
  }

  function NextBridges(nodes: seq<Node>, i: nat): seq<Bridge>
    requires Runnable(nodes) && i < |nodes|
  {
    seq(|nodes[i].bridges|, k requires 0 <= k < |nodes[i].bridges| => NextBridge(nodes, i, k))
  }

  function StepNode(nodes: seq<Node>, alpha: real, i: nat): Node
    requires Runnable(nodes) && i < |nodes|
  {
    nodes[i].(state := NextState(nodes, alpha, i),
              health := Health(NextState(nodes, alpha, i), nodes[i].omega),
              bridges := NextBridges(nodes, i))
  }

  /** The synchronous step. */
  function StepNodes(nodes: seq<Node>, alpha: real): seq<Node>
    requires Runnable(nodes)
  {
    seq(|nodes|, i requires 0 <= i < |nodes| => StepNode(nodes, alpha, i))
  }

  lemma {:induction false} InvRunnable(m: Mesh)
    requires Linked(m.nodes) && Calibrated(m.nodes)
    ensures Runnable(m.nodes)
  {
  }

  /** A step touches no position, bridge end or record. */
  lemma {:induction false} StepInv(m: Mesh)
    requires Inv(m) && Runnable(m.nodes)
    ensures Inv(m.(nodes := StepNodes(m.nodes, m.alpha)))
  {
    StepSameShape(m.nodes, m.alpha);
    SameShapeInv(m, m.(nodes := StepNodes(m.nodes, m.alpha)));
  }

  lemma {:induction false} StepSameShape(nodes: seq<Node>, alpha: real)
    requires Runnable(nodes)
    ensures SameShape(nodes, StepNodes(nodes, alpha))
  {
    forall i | 0 <= i < |nodes| ensures SameEnds(nodes[i].bridges, StepNodes(nodes, alpha)[i].bridges) {
      forall k | 0 <= k < |nodes[i].bridges| && SoundBridge(nodes[i].bridges[k])
        ensures SoundBridge(NextBridge(nodes, i, k))
      {
      }
    }
  }

  /** The simulation's unchecked copy of the signal rule decides as the meta-evaluator does. */
  lemma {:induction false} UncheckedAgrees(candidate: real, health: real, omega: IdentityInvariant)
    ensures EvaluateUnchecked(candidate, health, omega) == Evaluate(candidate, health, omega)
  {
  }

  // ---------------------------------------------------------------- maximum principle

  lemma {:induction false} AlphaBounds(degree: nat)
    ensures 0.0 < AlphaFor(degree) <= 0.2
    ensures AlphaFor(degree) * (degree as real) <= 0.8
  {
    if degree > 0 {
      var d := degree as real;
      var share := 1.0 / d * 0.8;
      assert (1.0 / d) * d == 1.0;
      assert share * d == 0.8 by {
        assert share * d == (1.0 / d) * d * 0.8;
      }
      assert share > 0.0;
      MulMonotone(AlphaFor(degree), share, d);
    }
  }

  /** After every operation alpha is positive, at most 0.2, and at most 0.8 per bridge of any node. */
  lemma {:induction false} StableEverywhere(m: Mesh, i: nat)
    requires m.alpha == StableAlpha(m.nodes) && i < |m.nodes|
    ensures 0.0 < m.alpha <= 0.2
    ensures m.alpha * (|m.nodes[i].bridges| as real) <= 0.8
  {
    var degree := MaxDegree(m.nodes);
    AlphaBounds(degree);
    assert |m.nodes[i].bridges| <= degree;
    MulMonotone(|m.nodes[i].bridges| as real, degree as real, m.alpha);
  }

  ghost predicate InBand(nodes: seq<Node>, lo: real, hi: real) {
    forall i :: 0 <= i < |nodes| ==> lo <= nodes[i].state <= hi
  }

  lemma {:induction false} ContributionBounded(nodes: seq<Node>, i: nat, k: nat, lo: real, hi: real)
    requires Runnable(nodes) && Linked(nodes) && InBand(nodes, lo, hi)
    requires i < |nodes| && k < |nodes[i].bridges|
    ensures lo - nodes[i].state <= Contribution(nodes, i, k) <= hi - nodes[i].state
  {
    var b := NextBridge(nodes, i, k);
    assert SoundBridge(nodes[i].bridges[k]);
    CouplingInUnit(b);
    ScaledTerm(EffectiveCoupling(b), Difference(nodes, i, k), lo - nodes[i].state, hi - nodes[i].state);
  }

  /** One step keeps every state within any band that held them all. */
  lemma {:induction false} StepInBand(m: Mesh, lo: real, hi: real)
    requires Inv(m) && Runnable(m.nodes) && InBand(m.nodes, lo, hi)
    ensures InBand(StepNodes(m.nodes, m.alpha), lo, hi)
  {
    forall i | 0 <= i < |m.nodes| ensures lo <= NextState(m.nodes, m.alpha, i) <= hi {
      StableEverywhere(m, i);
      NextStateInBand(m.nodes, m.alpha, i, lo, hi);
    }
  }

  lemma {:induction false} NextStateInBand(nodes: seq<Node>, alpha: real, i: nat, lo: real, hi: real)
    requires Runnable(nodes) && Linked(nodes) && InBand(nodes, lo, hi) && i < |nodes|
    requires 0.0 < alpha && alpha * (|nodes[i].bridges| as real) <= 0.8
    ensures lo <= NextState(nodes, alpha, i) <= hi
  {
    hide Contribution;
    var terms, s := Contributions(nodes, i), nodes[i].state;
    forall k | 0 <= k < |terms| ensures lo - s <= terms[k] <= hi - s {
      ContributionBounded(nodes, i, k, lo, hi);
    }
    StaysBetween(s, alpha, terms, lo, hi);
  }

  // ---------------------------------------------------------------- mass balance

  function States(nodes: seq<Node>): seq<real> {
    seq(|nodes|, i requires 0 <= i < |nodes| => nodes[i].state)
  }

  function TotalState(nodes: seq<Node>): real {
    Sum(States(nodes))
  }

  /** The coupling from j into i after the step's update; zero where there is no bridge. */
  function Coupling(nodes: seq<Node>, i: nat, j: nat): real
    requires Runnable(nodes) && i < |nodes|
  {
    if HasBridge(nodes, i, j) then EffectiveCoupling(NextBridge(nodes, i, Find(nodes[i].bridges, j))) else 0.0
  }

  function Couplings(nodes: seq<Node>, i: nat): seq<real>
    requires Runnable(nodes) && i < |nodes|
  {
    seq(|nodes|, j requires 0 <= j < |nodes| => Coupling(nodes, i, j))
  }

  /** The step as an exchange between nodes, with post-update couplings and old states. */
  function ExchangeOf(nodes: seq<Node>): (x: Exchange)
    requires Runnable(nodes)
    ensures x.Valid()
  {
    Exchange(seq(|nodes|, i requires 0 <= i < |nodes| => Couplings(nodes, i)), States(nodes))
  }

  /** The sum over unordered pairs of (c_ij - c_ji) * (s_j - s_i). */
  function Imbalance(nodes: seq<Node>): real
    requires Runnable(nodes)
  {
    ExchangeOf(nodes).Imbalance(|nodes|)
  }

  function TargetsOf(bridges: seq<Bridge>): seq<int> {
    seq(|bridges|, k requires 0 <= k < |bridges| => bridges[k].target)
  }

  lemma {:induction false} FlowAt(nodes: seq<Node>, i: nat, k: nat)
    requires Runnable(nodes) && Linked(nodes) && i < |nodes| && k < |nodes[i].bridges|
    ensures ExchangeOf(nodes).Flow(i, nodes[i].bridges[k].target) == Contribution(nodes, i, k)
  {
    hide EffectiveCoupling, UpdateBridge, EvaluateUnchecked;
    var j := nodes[i].bridges[k].target;
    TargetsIff(nodes[i].bridges, j);
    assert Find(nodes[i].bridges, j) == k;
    assert ExchangeOf(nodes).c[i][j] == Coupling(nodes, i, j) == EffectiveCoupling(NextBridge(nodes, i, k));
  }

  lemma {:induction false} FlowNowhere(nodes: seq<Node>, i: nat, j: nat)
    requires Runnable(nodes) && i < |nodes| && j < |nodes| && !HasBridge(nodes, i, j)
    ensures ExchangeOf(nodes).Flow(i, j) == 0.0
  {
    var d := nodes[j].state - nodes[i].state;
    assert ExchangeOf(nodes).c[i][j] == Coupling(nodes, i, j) == 0.0;
    assert ExchangeOf(nodes).Flow(i, j) == 0.0 * d;
  }

  /** The contributions of a node's bridges, filed by target, are its flows. */
  lemma {:induction false} FiledIsFlow(nodes: seq<Node>, i: nat, j: nat)
    requires Runnable(nodes) && Linked(nodes) && i < |nodes| && j < |nodes|
    ensures Filed(TargetsOf(nodes[i].bridges), Contributions(nodes, i), |nodes|)[j] == ExchangeOf(nodes).Flow(i, j)
  {
    var bridges := nodes[i].bridges;
    var targets, terms := TargetsOf(bridges), Contributions(nodes, i);
    FiledAt(targets, terms, |nodes|, j);
    TargetsIff(bridges, j);
    if HasBridge(nodes, i, j) {
      var k :| 0 <= k < |bridges| && bridges[k].target == j;
      FlowAt(nodes, i, k);
      assert targets[k] == j;
    } else {
      FlowNowhere(nodes, i, j);
    }
  }

  lemma {:induction false} RowPrefix(x: Exchange, row: seq<real>, i: nat, n: nat)
    requires x.Valid() && i < |x.s| && n <= |x.s| == |row|
    requires forall j :: 0 <= j < |row| ==> row[j] == x.Flow(i, j)
    ensures x.RowSum(i, n) == Sum(row[..n])
  {
    if n > 0 {
      RowPrefix(x, row, i, n - 1);
      SumPrefix(row, n - 1);
    }
  }

  lemma {:induction false} ContributionsAreRow(nodes: seq<Node>, i: nat)
    requires Runnable(nodes) && Linked(nodes) && i < |nodes|
    ensures Sum(Contributions(nodes, i)) == ExchangeOf(nodes).RowSum(i, |nodes|)
  {
    var targets, terms := TargetsOf(nodes[i].bridges), Contributions(nodes, i);
    var row := Filed(targets, terms, |nodes|);
    FiledSum(targets, terms, |nodes|);
    forall j | 0 <= j < |row| ensures row[j] == ExchangeOf(nodes).Flow(i, j) {
      FiledIsFlow(nodes, i, j);
    }
    RowPrefix(ExchangeOf(nodes), row, i, |nodes|);
    assert row[..|nodes|] == row;
  }

  lemma {:induction false} StepMoves(nodes: seq<Node>, alpha: real)
    requires Runnable(nodes) && Linked(nodes)
    ensures Moved(ExchangeOf(nodes), alpha, States(StepNodes(nodes, alpha)))
  {
    hide Coupling, Contribution, Health;
    var x, after := ExchangeOf(nodes), States(StepNodes(nodes, alpha));
    forall i | 0 <= i < |nodes| ensures after[i] == x.s[i] + alpha * x.RowSum(i, |nodes|) {
      ContributionsAreRow(nodes, i);
      assert after[i] == NextState(nodes, alpha, i);
    }
  }

  /** A step changes the total state by alpha times the imbalance, exactly. */
  lemma {:induction false} MassBalance(nodes: seq<Node>, alpha: real)
    requires Runnable(nodes) && Linked(nodes)
    ensures TotalState(StepNodes(nodes, alpha)) == TotalState(nodes) + alpha * Imbalance(nodes)
  {
    hide Coupling, Couplings, StepNode, NextState, Runnable, Linked, Moved;
    StepMoves(nodes, alpha);
    MovedTotal(ExchangeOf(nodes), alpha, States(StepNodes(nodes, alpha)));
  }

  lemma {:induction false} ZeroProduct(a: real, x: real)
    requires a > 0.0
    ensures a * x == 0.0 <==> x == 0.0
  {
  }

  /** The total is conserved by a step exactly when the imbalance vanishes. */
  lemma {:induction false} ConservedIff(m: Mesh)
    requires Inv(m) && Runnable(m.nodes)
    ensures TotalState(StepNodes(m.nodes, m.alpha)) == TotalState(m.nodes) <==> Imbalance(m.nodes) == 0.0
  {
    hide StepNodes, Imbalance, TotalState, Runnable, Linked;
    MassBalance(m.nodes, m.alpha);
    AlphaBounds(MaxDegree(m.nodes));
    ZeroProduct(m.alpha, Imbalance(m.nodes));
  }

  /** The documented conjecture: symmetric couplings conserve the total state. */
  lemma {:induction false} SymmetricConserves(nodes: seq<Node>, alpha: real)
    requires Runnable(nodes) && Linked(nodes)
    requires forall i, j :: 0 <= i < j < |nodes| ==> Coupling(nodes, i, j) == Coupling(nodes, j, i)
    ensures TotalState(StepNodes(nodes, alpha)) == TotalState(nodes)
  {
    MassBalance(nodes, alpha);
    SymmetricBalance(nodes);
  }

  lemma {:induction false} SymmetricBalance(nodes: seq<Node>)
    requires Runnable(nodes)
    requires forall i, j :: 0 <= i < j < |nodes| ==> Coupling(nodes, i, j) == Coupling(nodes, j, i)
    ensures Imbalance(nodes) == 0.0
  {
    var x := ExchangeOf(nodes);
    forall i, j | 0 <= i < j < |nodes| ensures x.c[i][j] == x.c[j][i] {
      assert x.c[i][j] == Coupling(nodes, i, j) && x.c[j][i] == Coupling(nodes, j, i);
    }
    SymmetricImbalance(x, |nodes|);
  }
}
