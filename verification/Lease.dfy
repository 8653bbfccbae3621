/**
 Evaluation leases against invalidate-and-drain.  Each action is one critical section, or one
 step that touches only a lease owned by its thread; actions interleave freely.
 */
module Lease {
  /** A lease variable is empty, holds the binding, or has given the binding back but not yet
      dropped its own references. */
  datatype LeaseState = Empty | Live | Releasing

  datatype Binding = Binding(
    accepting: bool,
    hasBackend: bool,
    active: nat,
    leases: map<nat, LeaseState>,
    waiting: set<nat>,
    drained: nat,
    calls: nat)

  function Start(): Binding {
    Binding(true, true, 0, map[], {}, 0, 0)
  }

  datatype Action =
    | Acquire(lease: nat)
    | Move(target: nat, source: nat)
    | Release(lease: nat)
    | FinishRelease(lease: nat)
    | Invalidate(drainer: nat)
    | FinishDrain(drainer: nat)
    | Call(lease: nat)

  predicate Holds(b: Binding, lease: nat, state: LeaseState) {
    lease in b.leases && b.leases[lease] == state
  }

  predicate Vacant(b: Binding, lease: nat) {
    lease !in b.leases || b.leases[lease] == Empty
  }

  predicate Enabled(b: Binding, a: Action) {
    match a
    case Acquire(l) => Vacant(b, l)
    // a move assignment first releases its target; moving a lease onto itself does nothing
    case Move(t, s) => t != s && Vacant(b, t) && s in b.leases && b.leases[s] != Releasing
    case Release(l) => Holds(b, l, Live)
    case FinishRelease(l) => Holds(b, l, Releasing)
    case Invalidate(d) => d !in b.waiting
    case FinishDrain(d) => d in b.waiting && b.active == 0
    case Call(l) => Holds(b, l, Live)
  }

  function Next(b: Binding, a: Action): Binding {
    if !Enabled(b, a) then b
    else match a
      case Acquire(l) =>
        if b.accepting && b.hasBackend then b.(active := b.active + 1, leases := b.leases[l := Live])
        else b.(leases := b.leases[l := Empty])
      case Move(t, s) => b.(leases := b.leases[t := b.leases[s]][s := Empty])
      case Release(l) =>
        b.(active := if b.active > 0 then b.active - 1 else 0, leases := b.leases[l := Releasing])
      case FinishRelease(l) => b.(leases := b.leases[l := Empty])
      case Invalidate(d) => b.(accepting := false, waiting := b.waiting + {d})
      case FinishDrain(d) => b.(hasBackend := false, waiting := b.waiting - {d}, drained := b.drained + 1)
      case Call(l) => b.(calls := b.calls + 1)
  }

  function RunAll(b: Binding, actions: seq<Action>): Binding
    decreases |actions|
  {
    if actions == [] then b else RunAll(Next(b, actions[0]), actions[1..])
  }

  function LiveLeases(leases: map<nat, LeaseState>): set<nat> {
    set l | l in leases && leases[l] == Live
  }

  ghost predicate Conserved(b: Binding) {
    && b.active == |LiveLeases(b.leases)|
    && (b.drained > 0 ==> !b.accepting && b.active == 0 && !b.hasBackend)
    && (!b.hasBackend ==> b.drained > 0)
    && (b.waiting != {} ==> !b.accepting)
  }

  lemma {:induction false} BecomesLive(leases: map<nat, LeaseState>, l: nat)
    requires l !in LiveLeases(leases)
    ensures |LiveLeases(leases[l := Live])| == |LiveLeases(leases)| + 1
  {
    assert LiveLeases(leases[l := Live]) == LiveLeases(leases) + {l};
  }

  lemma {:induction false} CeasesToBeLive(leases: map<nat, LeaseState>, l: nat, state: LeaseState)
    requires state != Live
    ensures |LiveLeases(leases[l := state])| == |LiveLeases(leases)| - if l in LiveLeases(leases) then 1 else 0
  {
    assert LiveLeases(leases[l := state]) == LiveLeases(leases) - {l};
  }

  lemma {:induction false} NextConserved(b: Binding, a: Action)
    requires Conserved(b)
    ensures Conserved(Next(b, a))
  {
    if Enabled(b, a) {
      match a
      case Acquire(l) => BecomesLive(b.leases, l); CeasesToBeLive(b.leases, l, Empty);
      case Move(t, s) =>
        var moved := b.leases[t := b.leases[s]];
        CeasesToBeLive(moved, s, Empty);
        if b.leases[s] == Live { BecomesLive(b.leases, t); } else { CeasesToBeLive(b.leases, t, Empty); }
      case Release(l) => CeasesToBeLive(b.leases, l, Releasing);
      case FinishRelease(l) => CeasesToBeLive(b.leases, l, Empty);
      case Invalidate(d) =>
      case FinishDrain(d) =>
      case Call(l) =>
    }
  }

  lemma {:induction false} RunConserved(b: Binding, actions: seq<Action>)
    requires Conserved(b)
    ensures Conserved(RunAll(b, actions))
    decreases |actions|
  {
    if actions != [] {
      NextConserved(b, actions[0]);
      RunConserved(Next(b, actions[0]), actions[1..]);
    }
  }

  /** A move hands over what the source holds and leaves it empty; the count and every other lease
      stay. */
  lemma {:induction false} MoveHandsOver(b: Binding, target: nat, source: nat, other: nat)
    requires Enabled(b, Move(target, source)) && other != target && other != source
    ensures var next := Next(b, Move(target, source));
            && (Holds(next, target, Live) <==> Holds(b, source, Live))
            && Vacant(next, source)
            && (forall state :: Holds(next, other, state) <==> Holds(b, other, state))
            && next.(leases := b.leases) == b
  {
  }

  /** Under every interleaving the count of active leases is the number of live ones, and the
      guard against decrementing zero is never needed. */
  lemma {:induction false} LeaseConservation(actions: seq<Action>, l: nat)
    ensures var b := RunAll(Start(), actions);
            && b.active == |LiveLeases(b.leases)|
            && (Enabled(b, Release(l)) ==> b.active > 0)
  {
    RunConserved(Start(), actions);
    var b := RunAll(Start(), actions);
    if Enabled(b, Release(l)) {
      assert l in LiveLeases(b.leases);
    }
  }

  /** Once withdrawn, acceptance never returns, and no new lease becomes live. */
  lemma {:induction false} AcceptanceStaysWithdrawn(b: Binding, actions: seq<Action>)
    requires Conserved(b) && !b.accepting
    ensures !RunAll(b, actions).accepting
    ensures RunAll(b, actions).active <= b.active
    decreases |actions|
  {
    if actions != [] {
      NextConserved(b, actions[0]);
      AcceptanceStaysWithdrawn(Next(b, actions[0]), actions[1..]);
    }
  }

  /** When a drain has completed no lease is live, none ever becomes live again and the backend
      is never called again. */
  lemma {:induction false} DrainIsFinal(b: Binding, actions: seq<Action>)
    requires Conserved(b) && b.drained > 0
    ensures LiveLeases(b.leases) == {} && LiveLeases(RunAll(b, actions).leases) == {}
    ensures RunAll(b, actions).calls == b.calls
    decreases |actions|
  {
    assert |LiveLeases(b.leases)| == 0;
    if actions != [] {
      var a := actions[0];
      NextConserved(b, a);
      assert forall l :: Enabled(b, Call(l)) ==> l in LiveLeases(b.leases);
      DrainIsFinal(Next(b, a), actions[1..]);
    }
  }

  lemma {:induction false} DrainSafety(actions: seq<Action>, more: seq<Action>)
    requires RunAll(Start(), actions).drained > 0
    ensures var b := RunAll(Start(), actions);
            && LiveLeases(b.leases) == {}
            && RunAll(b, more).calls == b.calls
  {
    RunConserved(Start(), actions);
    DrainIsFinal(RunAll(Start(), actions), more);
  }

  /** A waiting drain is never stuck: it can finish, or some live lease can be released, and
      every release brings it strictly nearer. */
  lemma {:induction false} DrainProgress(actions: seq<Action>, d: nat)
    requires d in RunAll(Start(), actions).waiting
    ensures var b := RunAll(Start(), actions);
            || Enabled(b, FinishDrain(d))
            || exists l :: Enabled(b, Release(l)) && Next(b, Release(l)).active == b.active - 1
  {
    RunConserved(Start(), actions);
    var b := RunAll(Start(), actions);
    if b.active > 0 {
      assert LiveLeases(b.leases) != {};
      var l :| l in LiveLeases(b.leases);
      assert Enabled(b, Release(l));
    }
  }

  /** The shared state behind every handle and lease. */
  class BindingState {
    var activeLeases: nat
    var acceptingLeases: bool
    var hasBackend: bool
    ghost var leases: map<nat, LeaseState>
    ghost var waiting: set<nat>
    ghost var drained: nat
    ghost var calls: nat

    ghost function View(): Binding
      reads this
    {
      Binding(acceptingLeases, hasBackend, activeLeases, leases, waiting, drained, calls)
    }

    constructor ()
      ensures View() == Start() && Conserved(View())
    {
      activeLeases, acceptingLeases, hasBackend := 0, true, true;
      leases, waiting, drained, calls := map[], {}, 0, 0;
    }

    method AcquireEvaluationLease(l: nat) returns (granted: bool)
      requires Conserved(View()) && Vacant(View(), l)
      modifies this
      ensures View() == Next(old(View()), Acquire(l)) && Conserved(View())
      ensures granted <==> old(View()).accepting
      ensures granted <==> Holds(View(), l, Live)
    {
      NextConserved(View(), Acquire(l));
      if !acceptingLeases || !hasBackend {
        leases := leases[l := Empty];
        return false;
      }
      activeLeases := activeLeases + 1;
      leases := leases[l := Live];
      return true;
    }

    method ReleaseLease(l: nat)
      requires Conserved(View()) && Holds(View(), l, Live)
      modifies this
      ensures View() == Next(old(View()), Release(l)) && Conserved(View())
      ensures activeLeases == old(activeLeases) - 1
    {
      assert l in LiveLeases(leases);
      NextConserved(View(), Release(l));
      if activeLeases > 0 {
        activeLeases := activeLeases - 1;
      }
      leases := leases[l := Releasing];
    }

    method BeginInvalidate(ghost d: nat)
      requires Conserved(View()) && d !in waiting
      modifies this
      ensures View() == Next(old(View()), Invalidate(d)) && Conserved(View())
    {
      NextConserved(View(), Invalidate(d));
      acceptingLeases := false;
      waiting := waiting + {d};
    }

    method EndDrain(ghost d: nat)
      requires Conserved(View()) && d in waiting && activeLeases == 0
      modifies this
      ensures View() == Next(old(View()), FinishDrain(d)) && Conserved(View())
      ensures LiveLeases(leases) == {}
    {
      NextConserved(View(), FinishDrain(d));
      hasBackend := false;
      waiting := waiting - {d};
      drained := drained + 1;
    }
  }
}
