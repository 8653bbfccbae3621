/**
 When the gate changes its recommendation, in the thresholds, the sample limits and the values
 alone: for every sequence of observations, exactly which one is the first to change it.
 */
module GateThresholds {
  import opened Persistence
  import MeshState

  /** The n values before position j are all at least the bound. */
  ghost predicate AtLeast(values: seq<real>, j: nat, n: nat, bound: real) {
    n <= j <= |values| && forall i :: j - n <= i < j ==> values[i] >= bound
  }

  ghost predicate AtMost(values: seq<real>, j: nat, n: nat, bound: real) {
    n <= j <= |values| && forall i :: j - n <= i < j ==> values[i] <= bound
  }

  /** The same against the negative of the bound. */
  ghost predicate AtLeastMinus(values: seq<real>, j: nat, n: nat, bound: real) {
    n <= j <= |values| && forall i :: j - n <= i < j ==> values[i] >= -bound
  }

  ghost predicate AtMostMinus(values: seq<real>, j: nat, n: nat, bound: real) {
    n <= j <= |values| && forall i :: j - n <= i < j ==> values[i] <= -bound
  }

  // ---------------------------------------------------------------- one direction at a time

  /** The n values before position j all pull the same given way. */
  ghost predicate Pulled(config: Config, r: Recommendation, d: Direction, values: seq<real>, j: nat, n: nat) {
    n <= j <= |values| && forall i :: j - n <= i < j ==> Pull(config, r, values[i]) == d
  }

  /** No position before the end closes a run that is long enough. */
  ghost predicate NoneDecisive(config: Config, r: Recommendation, values: seq<real>) {
    forall d: Direction, j: nat :: d != Nowhere && j < |values| ==> !Pulled(config, r, d, values, j, Limit(config, r))
  }

  lemma {:induction false} PulledLast(config: Config, r: Recommendation, d: Direction, values: seq<real>, n: nat)
    requires |values| > 0 && n > 0
    ensures var last := |values| - 1;
            Pulled(config, r, d, values, |values|, n) <==>
              Pull(config, r, values[last]) == d && Pulled(config, r, d, values[..last], last, n - 1)
  {
    hide Pull;
    var last := |values| - 1;
    assert forall i :: 0 <= i < last ==> values[..last][i] == values[i];
  }

  lemma {:induction false} PulledFront(config: Config, r: Recommendation, d: Direction, values: seq<real>,
                                       k: nat, j: nat, n: nat)
    requires j <= k <= |values|
    ensures Pulled(config, r, d, values[..k], j, n) <==> Pulled(config, r, d, values, j, n)
  {
    hide Pull;
    assert forall i :: 0 <= i < k ==> values[..k][i] == values[i];
  }

  lemma {:induction false} NoneDecisiveFront(config: Config, r: Recommendation, values: seq<real>)
    requires |values| > 0 && NoneDecisive(config, r, values)
    ensures var last := |values| - 1;
            && NoneDecisive(config, r, values[..last])
            && forall d: Direction :: d != Nowhere ==> !Pulled(config, r, d, values[..last], last, Limit(config, r))
  {
    hide Pulled, Limit;
    var last := |values| - 1;
    forall d: Direction, j: nat | d != Nowhere && j <= last
      ensures !Pulled(config, r, d, values[..last], j, Limit(config, r))
    {
      PulledFront(config, r, d, values, last, j, Limit(config, r));
    }
  }

  /** The pending count is the length of the run at the end. */
  ghost predicate Counts(config: Config, r: Recommendation, values: seq<real>, gate: Gate) {
    gate.recommendation == r
    && forall d: Direction, n: nat :: d != Nowhere && n > 0 ==>
         (Pulled(config, r, d, values, |values|, n) <==> gate.pending == d && n <= gate.samples)
  }

  lemma {:induction false} CountsNext(config: Config, r: Recommendation, values: seq<real>, before: Gate)
    requires config.Valid() && |values| > 0 && Settled(config, before)
    requires Counts(config, r, values[..|values| - 1], before)
    ensures var next, v := Step(config, before, values[|values| - 1]), values[|values| - 1];
            var d := Pull(config, r, v);
            if d != Nowhere && Pulled(config, r, d, values, |values|, Limit(config, r)) then next == Fresh(Toward(d))
            else Counts(config, r, values, next)
  {
    hide Pull;
    var last := |values| - 1;
    var v := values[last];
    forall d: Direction, n: nat | d != Nowhere && n > 0
      ensures Pulled(config, r, d, values, |values|, n) <==>
        Pull(config, r, v) == d && (n == 1 || (before.pending == d && n - 1 <= before.samples))
    {
      PulledLast(config, r, d, values, n);
    }
    hide Pulled;
  }

  /** Until some run is long enough, the gate stays and counts; then it turns, and is fresh. */
  lemma {:induction false} Turns(config: Config, r: Recommendation, values: seq<real>)
    requires config.Valid() && NoneDecisive(config, r, values)
    ensures var gate := Run(config, Fresh(r), values);
            || Counts(config, r, values, gate)
            || (values != []
                && var d := Pull(config, r, values[|values| - 1]);
                   d != Nowhere && Pulled(config, r, d, values, |values|, Limit(config, r)) && gate == Fresh(Toward(d)))
    decreases |values|
  {
    if values == [] {
      assert Counts(config, r, values, Fresh(r));
    } else {
      hide Pull, Step, Pulled, Counts, NoneDecisive, Settled;
      var last := |values| - 1;
      NoneDecisiveFront(config, r, values);
      Turns(config, r, values[..last]);
      RunStaysSettled(config, Fresh(r), values[..last]);
      RunLast(config, Fresh(r), values);
      CountsNext(config, r, values, Run(config, Fresh(r), values[..last]));
    }
  }

  lemma {:induction false} RunStaysSettled(config: Config, gate: Gate, values: seq<real>)
    requires config.Valid()
    requires Settled(config, gate) || gate == Fresh(gate.recommendation)
    ensures Settled(config, Run(config, gate, values))
    decreases |values|
  {
    assert Settled(config, gate);
    if values != [] {
      hide Step, Settled;
      StepSettled(config, gate, values[0]);
      RunStaysSettled(config, Step(config, gate, values[0]), values[1..]);
    }
  }

  // ---------------------------------------------------------------- the thresholds

  lemma {:induction false} PulledMeans(config: Config, values: seq<real>, j: nat, n: nat)
    requires config.Valid()
    ensures Pulled(config, Preserve, ToSupport, values, j, n) <==> AtLeast(values, j, n, config.activation)
    ensures Pulled(config, Preserve, ToConstrain, values, j, n) <==> AtMostMinus(values, j, n, config.activation)
    ensures Pulled(config, Support, ToPreserve, values, j, n) <==> AtMost(values, j, n, config.release)
    ensures Pulled(config, Constrain, ToPreserve, values, j, n) <==> AtLeastMinus(values, j, n, config.release)
  {
  }

  lemma {:induction false} NoOtherWay(config: Config, values: seq<real>, j: nat, n: nat)
    requires n > 0
    ensures !Pulled(config, Preserve, ToPreserve, values, j, n)
    ensures !Pulled(config, Support, ToSupport, values, j, n) && !Pulled(config, Support, ToConstrain, values, j, n)
    ensures !Pulled(config, Constrain, ToSupport, values, j, n) && !Pulled(config, Constrain, ToConstrain, values, j, n)
  {
    if n <= j <= |values| {
      var v := values[j - 1];
      assert Pull(config, Preserve, v) != ToPreserve;
      assert Pull(config, Support, v) in {Nowhere, ToPreserve} && Pull(config, Constrain, v) in {Nowhere, ToPreserve};
    }
  }

  /** From rest at preserve, where nothing before the end was decisive: the last value turns the gate
      to support exactly if it completes enough values at or above the activation threshold, to
      constrain exactly if it completes enough at or below its negative, and otherwise the gate
      counts how many of either kind it has just seen. */
  lemma {:induction false} ActivatesExactly(config: Config, values: seq<real>)
    requires config.Valid()
    requires forall j: nat :: j < |values| ==>
      && !AtLeast(values, j, config.activationSamples, config.activation)
      && !AtMostMinus(values, j, config.activationSamples, config.activation)
    ensures var gate := Run(config, Fresh(Preserve), values);
            var up, down := AtLeast(values, |values|, config.activationSamples, config.activation),
                            AtMostMinus(values, |values|, config.activationSamples, config.activation);
            && (gate.recommendation == Support <==> up)
            && (gate.recommendation == Constrain <==> down)
            && (up || down ==> gate.pending == Nowhere && gate.samples == 0)
    ensures var gate := Run(config, Fresh(Preserve), values);
            gate.recommendation == Preserve ==> forall n: nat :: n > 0 ==>
              && (AtLeast(values, |values|, n, config.activation) <==>
                    gate.pending == ToSupport && n <= gate.samples)
              && (AtMostMinus(values, |values|, n, config.activation) <==>
                    gate.pending == ToConstrain && n <= gate.samples)
  {
    hide AtLeast, AtMost, AtLeastMinus, AtMostMinus, Pulled, Pull, Step, Run, Settled;
    forall d: Direction, j: nat | d != Nowhere && j < |values|
      ensures !Pulled(config, Preserve, d, values, j, config.activationSamples)
    {
      PulledMeans(config, values, j, config.activationSamples);
      NoOtherWay(config, values, j, config.activationSamples);
    }
    Turns(config, Preserve, values);
    RunStaysSettled(config, Fresh(Preserve), values);
    forall n: nat
      ensures Pulled(config, Preserve, ToSupport, values, |values|, n) <==>
        AtLeast(values, |values|, n, config.activation)
      ensures Pulled(config, Preserve, ToConstrain, values, |values|, n) <==>
        AtMostMinus(values, |values|, n, config.activation)
    {
      PulledMeans(config, values, |values|, n);
    }
    BelowLimit(config, Run(config, Fresh(Preserve), values));
    NoOtherWay(config, values, |values|, config.activationSamples);
    NotBoth(config, values);
  }

  lemma {:induction false} NotBoth(config: Config, values: seq<real>)
    requires config.Valid()
    ensures !(AtLeast(values, |values|, config.activationSamples, config.activation)
              && AtMostMinus(values, |values|, config.activationSamples, config.activation))
  {
    if config.activationSamples <= |values| {
      var v := values[|values| - 1];
      assert !(v >= config.activation && v <= -config.activation);
    }
  }

  lemma {:induction false} BelowLimit(config: Config, gate: Gate)
    requires Settled(config, gate)
    ensures gate.samples < Limit(config, gate.recommendation)
  {
  }

  /** From rest at support: the last value releases the gate exactly if it completes enough values at
      or below the release threshold; otherwise the gate counts them. */
  lemma {:induction false} SupportReleasesExactly(config: Config, values: seq<real>)
    requires config.Valid()
    requires forall j: nat :: j < |values| ==> !AtMost(values, j, config.releaseSamples, config.release)
    ensures var gate := Run(config, Fresh(Support), values);
            var released := AtMost(values, |values|, config.releaseSamples, config.release);
            && (gate.recommendation == Preserve <==> released)
            && (gate.recommendation == Support <==> !released)
            && (released ==> gate.pending == Nowhere && gate.samples == 0)
            && (!released ==> forall n: nat :: n > 0 ==>
                  (AtMost(values, |values|, n, config.release) <==> gate.pending == ToPreserve && n <= gate.samples))
  {
    hide AtLeast, AtMost, AtLeastMinus, AtMostMinus, Pulled, Pull, Step, Run, Settled;
    forall d: Direction, j: nat | d != Nowhere && j < |values|
      ensures !Pulled(config, Support, d, values, j, config.releaseSamples)
    {
      PulledMeans(config, values, j, config.releaseSamples);
      NoOtherWay(config, values, j, config.releaseSamples);
    }
    Turns(config, Support, values);
    RunStaysSettled(config, Fresh(Support), values);
    forall n: nat
      ensures Pulled(config, Support, ToPreserve, values, |values|, n) <==> AtMost(values, |values|, n, config.release)
    {
      PulledMeans(config, values, |values|, n);
    }
    BelowLimit(config, Run(config, Fresh(Support), values));
    NoOtherWay(config, values, |values|, config.releaseSamples);
  }

  /** From rest at constrain: exactly if it completes enough values at or above the negative of the
      release threshold. */
  lemma {:induction false} ConstrainReleasesExactly(config: Config, values: seq<real>)
    requires config.Valid()
    requires forall j: nat :: j < |values| ==> !AtLeastMinus(values, j, config.releaseSamples, config.release)
    ensures var gate := Run(config, Fresh(Constrain), values);
            var released := AtLeastMinus(values, |values|, config.releaseSamples, config.release);
            && (gate.recommendation == Preserve <==> released)
            && (gate.recommendation == Constrain <==> !released)
            && (released ==> gate.pending == Nowhere && gate.samples == 0)
            && (!released ==> forall n: nat :: n > 0 ==>
                  (AtLeastMinus(values, |values|, n, config.release) <==>
                     gate.pending == ToPreserve && n <= gate.samples))
  {
    hide AtLeast, AtMost, AtLeastMinus, AtMostMinus, Pulled, Pull, Step, Run, Settled;
    forall d: Direction, j: nat | d != Nowhere && j < |values|
      ensures !Pulled(config, Constrain, d, values, j, config.releaseSamples)
    {
      PulledMeans(config, values, j, config.releaseSamples);
      NoOtherWay(config, values, j, config.releaseSamples);
    }
    Turns(config, Constrain, values);
    RunStaysSettled(config, Fresh(Constrain), values);
    forall n: nat
      ensures Pulled(config, Constrain, ToPreserve, values, |values|, n) <==>
        AtLeastMinus(values, |values|, n, config.release)
    {
      PulledMeans(config, values, |values|, n);
    }
    BelowLimit(config, Run(config, Fresh(Constrain), values));
    NoOtherWay(config, values, |values|, config.releaseSamples);
  }

  /** A value beyond no threshold clears the pending count, whatever it was. */
  lemma {:induction false} OthersClear(config: Config, gate: Gate, value: real)
    requires config.Valid() && Settled(config, gate)
    ensures gate.recommendation == Preserve && -config.activation < value < config.activation ==>
      Step(config, gate, value) == Gate(Preserve, Nowhere, 0)
    ensures gate.recommendation == Support && value > config.release ==>
      Step(config, gate, value) == Gate(Support, Nowhere, 0)
    ensures gate.recommendation == Constrain && value < -config.release ==>
      Step(config, gate, value) == Gate(Constrain, Nowhere, 0)
  {
  }

  /** Whatever turns the gate leaves it with nothing pending, so that the statements above apply to
      what follows. */
  lemma {:induction false} TurnedIsAtRest(config: Config, gate: Gate, value: real)
    requires config.Valid() && Settled(config, gate)
    ensures var next := Step(config, gate, value);
            next.recommendation != gate.recommendation ==> next == Fresh(next.recommendation)
  {
  }

  /** What the gate of a relationship recommends after two values, from rest at r. */
  function AfterTwo(r: Recommendation, v: real, w: real): Recommendation {
    Run(MeshState.GATE_CONFIG, Fresh(r), [v, w]).recommendation
  }

  lemma {:induction false} TwoSteps(config: Config, gate: Gate, v: real, w: real)
    ensures Run(config, gate, [v, w]) == Step(config, Step(config, gate, v), w)
  {
    hide Step;
    assert [v, w][1..] == [w] && [w][1..] == [];
    var once := Step(config, gate, v);
    assert Run(config, gate, [v, w]) == Run(config, once, [w]);
    assert Run(config, once, [w]) == Run(config, Step(config, once, w), []);
  }

  /** Its thresholds: two values decide, at 0.5 to act and at 0.25 to let go. */
  lemma {:induction false} ProductionGate(v: real, w: real)
    ensures AfterTwo(Preserve, v, w) == Support <==> v >= 0.5 && w >= 0.5
    ensures AfterTwo(Preserve, v, w) == Constrain <==> v <= -0.5 && w <= -0.5
    ensures AfterTwo(Support, v, w) == Preserve <==> v <= 0.25 && w <= 0.25
    ensures AfterTwo(Constrain, v, w) == Preserve <==> v >= -0.25 && w >= -0.25
  {
    hide Run;
    TwoSteps(MeshState.GATE_CONFIG, Fresh(Preserve), v, w);
    TwoSteps(MeshState.GATE_CONFIG, Fresh(Support), v, w);
    TwoSteps(MeshState.GATE_CONFIG, Fresh(Constrain), v, w);
  }
}
