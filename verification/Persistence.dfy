/**
 The hysteresis gate that turns a stream of signed evidence into a bridge recommendation.

 `Step` gives the meaning of one observation; the class below is proved against it.  The rest
 of the module says what whole runs of the gate do: what part of the history its state
 depends on, how many observations a change of recommendation costs, and how negating the
 evidence mirrors a run.
 */
module Persistence {
  import opened Common

  datatype Recommendation = Preserve | Constrain | Support

  datatype Direction = Nowhere | ToConstrain | ToSupport | ToPreserve

  datatype Config = Config(activation: real, release: real, activationSamples: nat, releaseSamples: nat)
  {
    predicate Valid() {
      && 0.0 <= release < activation <= 1.0
      && activationSamples >= 2
      && releaseSamples >= 2
    }
  }

  datatype Gate = Gate(recommendation: Recommendation, pending: Direction, samples: nat)

  function Fresh(recommendation: Recommendation): Gate {
    Gate(recommendation, Nowhere, 0)
  }

  /** The direction, if any, in which one value of evidence pulls a recommendation. */
  function Pull(config: Config, recommendation: Recommendation, value: real): Direction {
    match recommendation
    case Preserve =>
      if value >= config.activation then ToSupport
      else if value <= -config.activation then ToConstrain
      else Nowhere
    case Support => if value <= config.release then ToPreserve else Nowhere
    case Constrain => if value >= -config.release then ToPreserve else Nowhere
  }

  function Limit(config: Config, recommendation: Recommendation): nat {
    if recommendation == Preserve then config.activationSamples else config.releaseSamples
  }

  function Toward(direction: Direction): Recommendation {
    match direction
    case ToConstrain => Constrain
    case ToSupport => Support
    case _ => Preserve
  }

  /** One observation: an agreeing value extends the pending run, and a run that reaches its
      limit changes the recommendation. */
  function Step(config: Config, gate: Gate, value: real): Gate {
    var direction := Pull(config, gate.recommendation, value);
    var samples := if direction == gate.pending then gate.samples + 1 else 1;
    if direction == Nowhere then Fresh(gate.recommendation)
    else if samples >= Limit(config, gate.recommendation) then Fresh(Toward(direction))
    else Gate(gate.recommendation, direction, samples)
  }

  /** What holds of the gate between calls; in particular the counter is below its limit. */
  predicate Settled(config: Config, gate: Gate) {
    && gate.samples < Limit(config, gate.recommendation)
    && (gate.pending == Nowhere <==> gate.samples == 0)
    && (gate.pending == ToPreserve ==> gate.recommendation != Preserve)
    && (gate.pending == ToSupport || gate.pending == ToConstrain ==> gate.recommendation == Preserve)
  }

  lemma {:induction false} StepSettled(config: Config, gate: Gate, value: real)
    requires config.Valid() && Settled(config, gate)
    ensures Settled(config, Step(config, gate, value))
  {
  }

  /** A recommendation changes only to or from Preserve. */
  lemma {:induction false} ChangesPassThroughPreserve(config: Config, gate: Gate, value: real)
    requires Settled(config, gate)
    ensures var next := Step(config, gate, value).recommendation;
            next != gate.recommendation ==> (gate.recommendation == Preserve) != (next == Preserve)
  {
  }

  class BridgePersistence {
    const config: Config
    var recommendation: Recommendation
    var pending: Direction
    var samples: nat

    ghost predicate Valid()
      reads this
    {
      config.Valid() && Settled(config, View())
    }

    function View(): Gate
      reads this
    {
      Gate(recommendation, pending, samples)
    }

    constructor (config: Config)
      requires config.Valid()
      ensures Valid() && this.config == config && View() == Fresh(Preserve)
    {
      this.config := config;
      recommendation, pending, samples := Preserve, Nowhere, 0;
    }

    /** Rejects thresholds outside 0 <= R < A <= 1 and sample requirements below two. */
    static method Make(config: Config) returns (gate: BridgePersistence?)
      ensures gate != null <==> config.Valid()
      ensures gate != null <==>
        && 0.0 <= config.release < config.activation <= 1.0
        && config.activationSamples >= 2 && config.releaseSamples >= 2
      ensures gate != null ==> fresh(gate) && gate.Valid() && gate.config == config && gate.View() == Fresh(Preserve)
    {
      if config.release < 0.0 || config.activation > 1.0 || config.release >= config.activation {
        return null;
      }
      if config.activationSamples < 2 || config.releaseSamples < 2 {
        return null;
      }
      gate := new BridgePersistence(config);
    }

    method Observe(value: real) returns (result: Recommendation)
      requires Valid()
      modifies this
      ensures Valid() && View() == Step(config, old(View()), value)
      ensures result == View().recommendation
    {
      if recommendation == Preserve {
        if RealAbs(value) < config.activation {
          ClearPending();
          return recommendation;
        }
        var direction := if value < 0.0 then ToConstrain else ToSupport;
        AdvancePending(direction, config.activationSamples);
        if samples == config.activationSamples {
          recommendation := if direction == ToConstrain then Constrain else Support;
          ClearPending();
        }
        return recommendation;
      }
      var releasePending := if recommendation == Support
        then value <= config.release
        else value >= -config.release;
      if !releasePending {
        ClearPending();
        return recommendation;
      }
      AdvancePending(ToPreserve, config.releaseSamples);
      if samples == config.releaseSamples {
        recommendation := Preserve;
        ClearPending();
      }
      return recommendation;
    }

    method Reset()
      requires Valid()
      modifies this
      ensures Valid() && View() == Fresh(Preserve)
    {
      recommendation := Preserve;
      ClearPending();
    }

    method ClearPending()
      modifies this`pending, this`samples
      ensures pending == Nowhere && samples == 0
    {
      pending := Nowhere;
      samples := 0;
    }

    method AdvancePending(direction: Direction, limit: nat)
      modifies this`pending, this`samples
      ensures pending == direction
      ensures samples == if old(pending) != direction then 1
                         else if old(samples) < limit then old(samples) + 1
                         else old(samples)
    {
      if pending != direction {
        pending := direction;
        samples := 1;
      } else if samples < limit {
        samples := samples + 1;
      }
    }

    /** Observes once and tells whether any part of the state changed. */
    method Evolve(value: real) returns (result: Recommendation, changed: bool)
      requires Valid()
      modifies this
      ensures Valid() && View() == Step(config, old(View()), value)
      ensures result == View().recommendation
      ensures changed <==> View() != old(View())
    {
      var before := View();
      result := Observe(value);
      changed := View() != before;
    }
  }

  // ---------------------------------------------------------------- whole runs

  function Run(config: Config, gate: Gate, values: seq<real>): Gate
    decreases |values|
  {
    if values == [] then gate else Run(config, Step(config, gate, values[0]), values[1..])
  }

  lemma {:induction false} RunSplits(config: Config, gate: Gate, values: seq<real>, n: nat)
    requires n <= |values|
    ensures Run(config, gate, values) == Run(config, Run(config, gate, values[..n]), values[n..])
    decreases n
  {
    if n == 0 {
      assert values[..0] == [] && values[0..] == values;
    } else {
      RunSplits(config, Step(config, gate, values[0]), values[1..], n - 1);
      assert values[..n][1..] == values[1..][..n - 1];
      assert values[1..][n - 1..] == values[n..];
    }
  }

  lemma {:induction false} RunLast(config: Config, gate: Gate, values: seq<real>)
    requires |values| > 0
    ensures Run(config, gate, values)
         == Step(config, Run(config, gate, values[..|values| - 1]), values[|values| - 1])
  {
    var n := |values| - 1;
    RunSplits(config, gate, values, n);
    assert values[n..] == [values[n]];
    assert Run(config, Step(config, Run(config, gate, values[..n]), values[n]), []) ==
           Step(config, Run(config, gate, values[..n]), values[n]);
  }

  // ---------------------------------------------------------------- history

  /** The last n values all pull the same way. */
  ghost predicate Agreeing(config: Config, recommendation: Recommendation, values: seq<real>, n: nat)
  {
    && n <= |values|
    && (n > 0 ==> Pull(config, recommendation, values[|values| - 1]) != Nowhere)
    && forall i :: |values| - n <= i < |values| ==>
         Pull(config, recommendation, values[i]) == Pull(config, recommendation, values[|values| - 1])
  }

  /** n is the length of the longest run of agreeing values at the end. */
  ghost predicate LongestSuffix(config: Config, recommendation: Recommendation, values: seq<real>, n: nat)
  {
    && Agreeing(config, recommendation, values, n)
    && !Agreeing(config, recommendation, values, n + 1)
  }

  /** The values up to position j end in a run long enough to change the recommendation. */
  ghost predicate Decisive(config: Config, recommendation: Recommendation, values: seq<real>, j: nat)
  {
    && j <= |values|
    && Agreeing(config, recommendation, values[..j], Limit(config, recommendation))
  }

  ghost predicate FirstDecisive(config: Config, recommendation: Recommendation, values: seq<real>, j: nat)
  {
    && Decisive(config, recommendation, values, j)
    && forall i: nat :: i < j ==> !Decisive(config, recommendation, values, i)
  }

  /**
   What the gate holds after seeing some values, with no reference to the gate: if the values
   never end in a decisive run, the recommendation stands and the pending count is the length
   of the longest agreeing suffix; otherwise everything up to the first decisive run is
   forgotten and the rest is read under the recommendation that run calls for.
   */
  ghost predicate Explains(config: Config, recommendation: Recommendation, values: seq<real>, gate: Gate)
    requires config.Valid()
    decreases |values|
  {
    if exists j: nat :: Decisive(config, recommendation, values, j) then
      exists j: nat :: 0 < j <= |values|
        && FirstDecisive(config, recommendation, values, j)
        && Explains(config, Toward(Pull(config, recommendation, values[j - 1])), values[j..], gate)
    else
      && gate.recommendation == recommendation
      && LongestSuffix(config, recommendation, values, gate.samples)
      && gate.pending == if gate.samples == 0 then Nowhere
                         else Pull(config, recommendation, values[|values| - 1])
  }

  /** Without a decisive run the gate has just counted the agreeing suffix. */
  lemma {:induction false} Undecided(config: Config, recommendation: Recommendation, values: seq<real>)
    requires config.Valid()
    requires forall j: nat :: !Decisive(config, recommendation, values, j)
    ensures var gate := Run(config, Fresh(recommendation), values);
            && gate.recommendation == recommendation
            && LongestSuffix(config, recommendation, values, gate.samples)
            && gate.samples < Limit(config, recommendation)
            && gate.pending == if gate.samples == 0 then Nowhere
                               else Pull(config, recommendation, values[|values| - 1])
    decreases |values|
  {
    if |values| > 0 {
      var n := |values| - 1;
      var front := values[..n];
      forall j: nat ensures !Decisive(config, recommendation, front, j) {
        if j <= n {
          assert front[..j] == values[..j];
          assert !Decisive(config, recommendation, values, j);
        }
      }
      Undecided(config, recommendation, front);
      RunLast(config, Fresh(recommendation), values);
      var before := Run(config, Fresh(recommendation), front);
      var after := Run(config, Fresh(recommendation), values);
      SuffixGrows(config, recommendation, values, before.samples);
      assert values[..n + 1] == values;
      assert !Decisive(config, recommendation, values, n + 1);
      if Pull(config, recommendation, values[n]) != Nowhere {
        var m := if before.pending == Pull(config, recommendation, values[n]) then before.samples + 1 else 1;
        assert LongestSuffix(config, recommendation, values, m);
        assert m >= Limit(config, recommendation)
          ==> Agreeing(config, recommendation, values, Limit(config, recommendation));
      }
    }
  }

  /** How one more value changes the longest agreeing suffix. */
  lemma {:induction false} SuffixGrows(config: Config, recommendation: Recommendation, values: seq<real>, n: nat)
    requires |values| > 0
    requires LongestSuffix(config, recommendation, values[..|values| - 1], n)
    ensures var last := Pull(config, recommendation, values[|values| - 1]);
            LongestSuffix(config, recommendation, values,
              if last == Nowhere then 0
              else if n > 0 && Pull(config, recommendation, values[|values| - 2]) == last then n + 1
              else 1)
  {
    var front := values[..|values| - 1];
    var last := Pull(config, recommendation, values[|values| - 1]);
    assert forall i :: 0 <= i < |front| ==> front[i] == values[i];
    AgreeingFront(config, recommendation, values, n + 1);
    AgreeingFront(config, recommendation, values, 1);
  }

  lemma {:induction false} AgreeingFront(config: Config, recommendation: Recommendation, values: seq<real>, n: nat)
    requires |values| > 0
    ensures Agreeing(config, recommendation, values, n + 1) ==>
              && Agreeing(config, recommendation, values[..|values| - 1], n)
              && (n == 0 || Pull(config, recommendation, values[|values| - 2])
                         == Pull(config, recommendation, values[|values| - 1]))
  {
  }

  /** The first decisive run is exactly where the gate changes its recommendation. */
  lemma {:induction false} DecisiveChanges(config: Config, recommendation: Recommendation, values: seq<real>, j: nat)
    requires config.Valid()
    requires FirstDecisive(config, recommendation, values, j)
    ensures 0 < j <= |values|
    ensures Run(config, Fresh(recommendation), values[..j])
         == Fresh(Toward(Pull(config, recommendation, values[j - 1])))
  {
    var head, limit := values[..j], Limit(config, recommendation);
    var front := head[..j - 1];
    forall i: nat ensures !Decisive(config, recommendation, front, i) {
      if i <= j - 1 {
        assert front[..i] == values[..i];
        assert !Decisive(config, recommendation, values, i);
      }
    }
    Undecided(config, recommendation, front);
    RunLast(config, Fresh(recommendation), head);
    var before := Run(config, Fresh(recommendation), front);
    assert head[j - 1] == values[j - 1];
    assert Pull(config, recommendation, head[j - 2]) == Pull(config, recommendation, head[j - 1]);
    assert front[|front| - 1] == head[j - 2];
    assert Agreeing(config, recommendation, front, limit - 1) by {
      assert forall i :: 0 <= i < |front| ==> front[i] == head[i];
    }
    AgreeingShrinks(config, recommendation, front, limit - 1, before.samples);
  }

  lemma {:induction false} AgreeingShrinks(config: Config, recommendation: Recommendation, values: seq<real>, m: nat,
                                           n: nat)
    requires Agreeing(config, recommendation, values, m) && LongestSuffix(config, recommendation, values, n)
    ensures m <= n
  {
    var next: nat := n + 1;
    assert next <= m ==> Agreeing(config, recommendation, values, next);
  }

  lemma {:induction false} EarliestDecisive(config: Config, recommendation: Recommendation, values: seq<real>,
                                            some: nat)
    returns (j: nat)
    requires Decisive(config, recommendation, values, some)
    ensures FirstDecisive(config, recommendation, values, j)
    decreases some
  {
    if i: nat :| i < some && Decisive(config, recommendation, values, i) {
      j := EarliestDecisive(config, recommendation, values, i);
    } else {
      j := some;
    }
  }

  lemma {:induction false} RunIsExplained(config: Config, recommendation: Recommendation, values: seq<real>)
    requires config.Valid()
    ensures Explains(config, recommendation, values, Run(config, Fresh(recommendation), values))
    decreases |values|
  {
    if some: nat :| Decisive(config, recommendation, values, some) {
      var j := EarliestDecisive(config, recommendation, values, some);
      DecisiveChanges(config, recommendation, values, j);
      RunSplits(config, Fresh(recommendation), values, j);
      RunIsExplained(config, Toward(Pull(config, recommendation, values[j - 1])), values[j..]);
    } else {
      Undecided(config, recommendation, values);
    }
  }

  lemma {:induction false} ExplainedIsRun(config: Config, recommendation: Recommendation, values: seq<real>, gate: Gate)
    requires config.Valid()
    requires Explains(config, recommendation, values, gate)
    ensures gate == Run(config, Fresh(recommendation), values)
    decreases |values|
  {
    if exists j: nat :: Decisive(config, recommendation, values, j) {
      var j: nat :| 0 < j <= |values| && FirstDecisive(config, recommendation, values, j)
        && Explains(config, Toward(Pull(config, recommendation, values[j - 1])), values[j..], gate);
      DecisiveChanges(config, recommendation, values, j);
      RunSplits(config, Fresh(recommendation), values, j);
      ExplainedIsRun(config, Toward(Pull(config, recommendation, values[j - 1])), values[j..], gate);
    } else {
      Undecided(config, recommendation, values);
      var samples := Run(config, Fresh(recommendation), values).samples;
      AgreeingShrinks(config, recommendation, values, gate.samples, samples);
      AgreeingShrinks(config, recommendation, values, samples, gate.samples);
    }
  }

  /** After any observations the gate is in the one state that its history explains. */
  lemma {:induction false} HistorySemantics(config: Config, recommendation: Recommendation, values: seq<real>,
                                            gate: Gate)
    requires config.Valid()
    ensures Explains(config, recommendation, values, gate) <==> gate == Run(config, Fresh(recommendation), values)
  {
    RunIsExplained(config, recommendation, values);
    if Explains(config, recommendation, values, gate) {
      ExplainedIsRun(config, recommendation, values, gate);
    }
  }

  // ---------------------------------------------------------------- resets

  datatype Event = Observed(value: real) | WasReset

  function RunEvents(config: Config, gate: Gate, events: seq<Event>): Gate
    decreases |events|
  {
    if events == [] then gate
    else
      var next := match events[0]
        case Observed(value) => Step(config, gate, value)
        case WasReset => Fresh(Preserve);
      RunEvents(config, next, events[1..])
  }

  /** The values observed since the last reset, after those already seen. */
  function SinceReset(seen: seq<real>, events: seq<Event>): seq<real>
    decreases |events|
  {
    if events == [] then seen
    else SinceReset(match events[0] case Observed(value) => seen + [value] case WasReset => [], events[1..])
  }

  /** With resets in the run, the history that counts begins at the last one. */
  lemma {:induction false} ResetSemantics(config: Config, seen: seq<real>, events: seq<Event>)
    requires config.Valid()
    ensures RunEvents(config, Run(config, Fresh(Preserve), seen), events)
         == Run(config, Fresh(Preserve), SinceReset(seen, events))
    ensures Explains(config, Preserve, SinceReset(seen, events),
                     RunEvents(config, Run(config, Fresh(Preserve), seen), events))
    decreases |events|
  {
    RunIsExplained(config, Preserve, SinceReset(seen, events));
    if events != [] {
      match events[0]
      case Observed(value) =>
        RunLast(config, Fresh(Preserve), seen + [value]);
        assert (seen + [value])[..|seen|] == seen;
        ResetSemantics(config, seen + [value], events[1..]);
      case WasReset =>
        ResetSemantics(config, [], events[1..]);
    }
  }

  // ---------------------------------------------------------------- switching bound

  /** What a run has cost and achieved so far; changes made by a reset are not counted. */
  datatype Tally = Tally(gate: Gate, observations: nat, activations: nat, releases: nat)

  function Count(config: Config, tally: Tally, event: Event): Tally {
    match event
    case WasReset => tally.(gate := Fresh(Preserve))
    case Observed(value) =>
      var next := Step(config, tally.gate, value);
      Tally(next,
            tally.observations + 1,
            tally.activations
              + if tally.gate.recommendation == Preserve && next.recommendation != Preserve then 1 else 0,
            tally.releases + if tally.gate.recommendation != Preserve && next.recommendation == Preserve then 1 else 0)
  }

  function CountAll(config: Config, tally: Tally, events: seq<Event>): Tally
    decreases |events|
  {
    if events == [] then tally else CountAll(config, Count(config, tally, events[0]), events[1..])
  }

  ghost predicate Paid(config: Config, tally: Tally) {
    && Settled(config, tally.gate)
    && tally.activations * config.activationSamples + tally.releases * config.releaseSamples
         + tally.gate.samples <= tally.observations
  }

  lemma {:induction false} CountPaid(config: Config, tally: Tally, event: Event)
    requires config.Valid() && Paid(config, tally)
    ensures Paid(config, Count(config, tally, event))
  {
    var a, r := config.activationSamples, config.releaseSamples;
    assert (tally.activations + 1) * a == tally.activations * a + a;
    assert (tally.releases + 1) * r == tally.releases * r + r;
  }

  /** Every activation and every release is paid for in full by observations of its own, and
      the pending samples come on top. */
  lemma {:induction false} SwitchingIsPaid(config: Config, tally: Tally, events: seq<Event>)
    requires config.Valid() && Paid(config, tally)
    ensures Paid(config, CountAll(config, tally, events))
    decreases |events|
  {
    if events != [] {
      CountPaid(config, tally, events[0]);
      SwitchingIsPaid(config, Count(config, tally, events[0]), events[1..]);
    }
  }

  function Observations(values: seq<real>): seq<Event> {
    seq(|values|, i requires 0 <= i < |values| => Observed(values[i]))
  }

  function Start(): Tally {
    Tally(Fresh(Preserve), 0, 0, 0)
  }

  function Changes(tally: Tally): nat {
    tally.activations + tally.releases
  }

  lemma {:induction false} Alternation(config: Config, tally: Tally, values: seq<real>)
    requires config.Valid() && Settled(config, tally.gate)
    requires tally.activations - tally.releases == if tally.gate.recommendation == Preserve then 0 else 1
    ensures var end := CountAll(config, tally, Observations(values));
            && end.activations - end.releases == (if end.gate.recommendation == Preserve then 0 else 1)
            && end.observations == tally.observations + |values|
            && end.gate == Run(config, tally.gate, values)
    decreases |values|
  {
    if values != [] {
      ChangesPassThroughPreserve(config, tally.gate, values[0]);
      StepSettled(config, tally.gate, values[0]);
      assert Observations(values)[1..] == Observations(values[1..]);
      Alternation(config, Count(config, tally, Observed(values[0])), values[1..]);
    }
  }

  /** What k changes cost at least: ceil(k/2) activations and floor(k/2) releases. */
  function Cost(config: Config, k: nat): nat {
    (k + 1) / 2 * config.activationSamples + k / 2 * config.releaseSamples
  }

  /** k changes of recommendation cost at least ceil(k/2) activations and floor(k/2) releases. */
  lemma {:induction false} SwitchingBound(config: Config, values: seq<real>)
    requires config.Valid()
    ensures var end := CountAll(config, Start(), Observations(values));
            |values| >= Cost(config, Changes(end)) + end.gate.samples
  {
    SwitchingIsPaid(config, Start(), Observations(values));
    Alternation(config, Start(), values);
    var end := CountAll(config, Start(), Observations(values));
    assert end.activations == (Changes(end) + 1) / 2 && end.releases == Changes(end) / 2;
  }

  /** Evidence that makes k changes as fast as can be. */
  function Fastest(config: Config, k: nat): seq<real> {
    if k == 0 then []
    else if k % 2 == 1 then Fastest(config, k - 1) + seq(config.activationSamples, i => 1.0)
    else Fastest(config, k - 1) + seq(config.releaseSamples, i => -1.0)
  }

  lemma {:induction false} CountSplits(config: Config, tally: Tally, first: seq<Event>, second: seq<Event>)
    ensures CountAll(config, tally, first + second) == CountAll(config, CountAll(config, tally, first), second)
    decreases |first|
  {
    if first == [] {
      assert first + second == second;
    } else {
      assert (first + second)[1..] == first[1..] + second;
      CountSplits(config, Count(config, tally, first[0]), first[1..], second);
    }
  }

  /** Enough identical values change the recommendation once, on the last of them. */
  lemma {:induction false} Insist(config: Config, tally: Tally, value: real, n: nat)
    requires config.Valid() && Settled(config, tally.gate)
    requires Pull(config, tally.gate.recommendation, value) != Nowhere
    requires tally.gate.pending == Nowhere || tally.gate.pending == Pull(config, tally.gate.recommendation, value)
    requires tally.gate.samples + n == Limit(config, tally.gate.recommendation)
    ensures var end := CountAll(config, tally, Observations(seq(n, i => value)));
            && end.gate == Fresh(Toward(Pull(config, tally.gate.recommendation, value)))
            && Changes(end) == Changes(tally) + 1
    decreases n
  {
    var values := seq(n, i => value);
    var next := Count(config, tally, Observed(value));
    StepSettled(config, tally.gate, value);
    assert Observations(values)[0] == Observed(value);
    assert Observations(values)[1..] == Observations(seq(n - 1, i => value));
    if n == 1 {
      assert Observations(values)[1..] == [];
    } else {
      Insist(config, next, value, n - 1);
    }
  }

  lemma {:induction false} CostGrows(config: Config, k: nat)
    ensures Cost(config, k + 1) - Cost(config, k)
         == if k % 2 == 0 then config.activationSamples else config.releaseSamples
  {
    var a, r := config.activationSamples, config.releaseSamples;
    if k % 2 == 0 {
      assert (k + 2) / 2 == (k + 1) / 2 + 1 && (k + 1) / 2 == k / 2;
      assert ((k + 1) / 2 + 1) * a == (k + 1) / 2 * a + a;
    } else {
      assert (k + 2) / 2 == (k + 1) / 2 && (k + 1) / 2 == k / 2 + 1;
      assert (k / 2 + 1) * r == k / 2 * r + r;
    }
  }

  lemma {:induction false} InsistFromRest(config: Config, before: seq<real>, value: real, n: nat)
    requires config.Valid()
    requires var at := CountAll(config, Start(), Observations(before)).gate;
             && at == Fresh(at.recommendation)
             && Pull(config, at.recommendation, value) != Nowhere
             && n == Limit(config, at.recommendation)
    ensures var start := CountAll(config, Start(), Observations(before));
            var end := CountAll(config, Start(), Observations(before + seq(n, i => value)));
            && end.gate == Fresh(Toward(Pull(config, start.gate.recommendation, value)))
            && Changes(end) == Changes(start) + 1
  {
    var last := seq(n, i => value);
    assert Observations(before + last) == Observations(before) + Observations(last);
    CountSplits(config, Start(), Observations(before), Observations(last));
    Insist(config, CountAll(config, Start(), Observations(before)), value, n);
  }

  /** The switching bound is exact: for every k some evidence meets it. */
  lemma {:induction false} BoundIsTight(config: Config, k: nat)
    requires config.Valid()
    ensures |Fastest(config, k)| == Cost(config, k)
    ensures var end := CountAll(config, Start(), Observations(Fastest(config, k)));
            && Changes(end) == k
            && end.gate == Fresh(if k % 2 == 0 then Preserve else Support)
  {
    if k > 0 {
      hide CountAll, Cost, Observations;
      BoundIsTight(config, k - 1);
      CostGrows(config, k - 1);
      if k % 2 == 1 {
        Activate(config, Fastest(config, k - 1));
      } else {
        Release(config, Fastest(config, k - 1));
      }
    }
  }

  lemma {:induction false} Activate(config: Config, before: seq<real>)
    requires config.Valid()
    requires CountAll(config, Start(), Observations(before)).gate == Fresh(Preserve)
    ensures var start := CountAll(config, Start(), Observations(before));
            var end := CountAll(config, Start(), Observations(before + seq(config.activationSamples, i => 1.0)));
            end.gate == Fresh(Support) && Changes(end) == Changes(start) + 1
  {
    hide CountAll, Observations;
    InsistFromRest(config, before, 1.0, config.activationSamples);
  }

  lemma {:induction false} Release(config: Config, before: seq<real>)
    requires config.Valid()
    requires CountAll(config, Start(), Observations(before)).gate == Fresh(Support)
    ensures var start := CountAll(config, Start(), Observations(before));
            var end := CountAll(config, Start(), Observations(before + seq(config.releaseSamples, i => -1.0)));
            end.gate == Fresh(Preserve) && Changes(end) == Changes(start) + 1
  {
    hide CountAll, Observations;
    InsistFromRest(config, before, -1.0, config.releaseSamples);
  }

  // ---------------------------------------------------------------- mirror

  function MirrorRecommendation(r: Recommendation): Recommendation {
    match r case Preserve => Preserve case Constrain => Support case Support => Constrain
  }

  function MirrorDirection(d: Direction): Direction {
    match d
    case Nowhere => Nowhere
    case ToConstrain => ToSupport
    case ToSupport => ToConstrain
    case ToPreserve => ToPreserve
  }

  function Mirror(gate: Gate): Gate {
    Gate(MirrorRecommendation(gate.recommendation), MirrorDirection(gate.pending), gate.samples)
  }

  function Negated(values: seq<real>): seq<real> {
    seq(|values|, i requires 0 <= i < |values| => -values[i])
  }

  lemma {:induction false} StepMirror(config: Config, gate: Gate, value: real)
    requires config.Valid()
    ensures Step(config, Mirror(gate), -value) == Mirror(Step(config, gate, value))
  {
  }

  /** Negating all evidence mirrors the run, with Support and Constrain exchanged. */
  lemma {:induction false} MirrorRun(config: Config, gate: Gate, values: seq<real>)
    requires config.Valid()
    ensures Run(config, Mirror(gate), Negated(values)) == Mirror(Run(config, gate, values))
    decreases |values|
  {
    if values != [] {
      StepMirror(config, gate, values[0]);
      assert Negated(values)[1..] == Negated(values[1..]);
      MirrorRun(config, Step(config, gate, values[0]), values[1..]);
    }
  }

  function NegatedEvents(events: seq<Event>): seq<Event> {
    seq(|events|, i requires 0 <= i < |events| =>
      match events[i] case Observed(value) => Observed(-value) case WasReset => WasReset)
  }

  /** Runs with resets are mirrored too. */
  lemma {:induction false} MirrorEvents(config: Config, gate: Gate, events: seq<Event>)
    requires config.Valid()
    ensures RunEvents(config, Mirror(gate), NegatedEvents(events)) == Mirror(RunEvents(config, gate, events))
    decreases |events|
  {
    if events != [] {
      assert NegatedEvents(events)[1..] == NegatedEvents(events[1..]);
      match events[0]
      case Observed(value) =>
        StepMirror(config, gate, value);
        MirrorEvents(config, Step(config, gate, value), events[1..]);
      case WasReset =>
        MirrorEvents(config, Fresh(Preserve), events[1..]);
    }
  }

  /** Signed evidence from a compatibility and a confidence, both in [0, 1]. */
  function Evidence(compatibility: real, confidence: real): real {
    (2.0 * compatibility - 1.0) * confidence
  }

  /** Full compatibility counts for, none against, with the whole confidence; half counts for nothing,
      and between them evidence is linear. */
  lemma {:induction false} EvidenceMeans(compatibility: real, confidence: real)
    ensures Evidence(1.0, confidence) == confidence && Evidence(0.0, confidence) == -confidence
    ensures Evidence(0.5, confidence) == 0.0
    ensures Evidence(compatibility, confidence) + confidence == compatibility * (2.0 * confidence)
  {
    assert (2.0 * compatibility - 1.0) * confidence == 2.0 * (compatibility * confidence) - confidence;
  }

  datatype Sample = Sample(compatibility: real, confidence: real)

  function EvidenceOf(samples: seq<Sample>): seq<real> {
    seq(|samples|, i requires 0 <= i < |samples| => Evidence(samples[i].compatibility, samples[i].confidence))
  }

  function Complemented(samples: seq<Sample>): seq<Sample> {
    seq(|samples|, i requires 0 <= i < |samples| => Sample(1.0 - samples[i].compatibility, samples[i].confidence))
  }

  /** Complementing every compatibility mirrors the run as well. */
  lemma {:induction false} ComplementMirrors(config: Config, samples: seq<Sample>)
    requires config.Valid()
    ensures Run(config, Fresh(Preserve), EvidenceOf(Complemented(samples)))
         == Mirror(Run(config, Fresh(Preserve), EvidenceOf(samples)))
  {
    forall i | 0 <= i < |samples|
      ensures EvidenceOf(Complemented(samples))[i] == Negated(EvidenceOf(samples))[i]
    {
      var c, q := samples[i].compatibility, samples[i].confidence;
      assert (2.0 * (1.0 - c) - 1.0) * q == -((2.0 * c - 1.0) * q);
    }
    assert EvidenceOf(Complemented(samples)) == Negated(EvidenceOf(samples));
    MirrorRun(config, Fresh(Preserve), EvidenceOf(samples));
  }
}
