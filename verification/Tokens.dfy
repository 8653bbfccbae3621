/**
 The lock-free allocator of identity tokens: a relaxed load, then weak compare-and-swap until
 it succeeds.  Threads interleave freely, a load or a failed swap may see a stale value of the
 counter, and a swap may fail for no reason.
 */
module Tokens {
  import opened Common

  const MAX_U64: nat := 0xFFFF_FFFF_FFFF_FFFF

  /** The shared counter, each thread's local copy of it, and what has been handed out. */
  datatype Allocator = Allocator(counter: nat, locals: map<nat, nat>, returned: seq<nat>, thrown: nat)

  function Start(): Allocator {
    Allocator(1, map[], [], 0)
  }

  datatype Action =
    | Load(thread: nat, seen: nat)
    | Swap(thread: nat)
    | Miss(thread: nat, seen: nat)
    | Throw(thread: nat)

  predicate Exhausted(current: nat) {
    current == 0 || current == MAX_U64
  }

  predicate Enabled(s: Allocator, a: Action) {
    match a
    case Load(t, seen) => t !in s.locals && 1 <= seen <= s.counter
    case Swap(t) => t in s.locals && !Exhausted(s.locals[t]) && s.counter == s.locals[t]
    case Miss(t, seen) => t in s.locals && !Exhausted(s.locals[t]) && s.locals[t] <= seen <= s.counter
    case Throw(t) => t in s.locals && Exhausted(s.locals[t])
  }

  function Next(s: Allocator, a: Action): Allocator {
    if !Enabled(s, a) then s
    else match a
      case Load(t, seen) => s.(locals := s.locals[t := seen])
      case Swap(t) => s.(counter := s.locals[t] + 1, returned := s.returned + [s.locals[t]], locals := s.locals - {t})
      case Miss(t, seen) => s.(locals := s.locals[t := seen])
      case Throw(t) => s.(thrown := s.thrown + 1, locals := s.locals - {t})
  }

  function RunAll(s: Allocator, actions: seq<Action>): Allocator
    decreases |actions|
  {
    if actions == [] then s else RunAll(Next(s, actions[0]), actions[1..])
  }

  /** The i-th token handed out is i + 1, and every local copy is a value the counter had. */
  ghost predicate Consecutive(s: Allocator) {
    && 1 <= s.counter <= MAX_U64
    && |s.returned| == s.counter - 1
    && (forall i :: 0 <= i < |s.returned| ==> s.returned[i] == i + 1)
    && (forall t :: t in s.locals ==> 1 <= s.locals[t] <= s.counter)
    && (s.thrown > 0 ==> s.counter == MAX_U64)
  }

  lemma {:induction false} NextConsecutive(s: Allocator, a: Action)
    requires Consecutive(s)
    ensures Consecutive(Next(s, a))
    ensures s.counter <= Next(s, a).counter
    ensures s.returned <= Next(s, a).returned
  {
  }

  lemma {:induction false} RunConsecutive(s: Allocator, actions: seq<Action>)
    requires Consecutive(s)
    ensures Consecutive(RunAll(s, actions))
    ensures s.counter <= RunAll(s, actions).counter
    ensures s.returned <= RunAll(s, actions).returned
    decreases |actions|
  {
    if actions != [] {
      NextConsecutive(s, actions[0]);
      RunConsecutive(Next(s, actions[0]), actions[1..]);
    }
  }

  /** Under every interleaving the n calls that returned got exactly 1..n, none of them 0 or the
      largest 64-bit value. */
  lemma {:induction false} TokensAreConsecutive(actions: seq<Action>)
    ensures var s := RunAll(Start(), actions);
            && s.returned == seq(|s.returned|, i => i + 1)
            && (forall i :: 0 <= i < |s.returned| ==> 0 < s.returned[i] < MAX_U64)
  {
    RunConsecutive(Start(), actions);
  }

  lemma {:induction false} TokensAreUnique(actions: seq<Action>, i: nat, j: nat)
    requires i < j < |RunAll(Start(), actions).returned|
    ensures RunAll(Start(), actions).returned[i] != RunAll(Start(), actions).returned[j]
  {
    RunConsecutive(Start(), actions);
  }

  /** Whatever is handed out later has never been handed out before. */
  lemma {:induction false} LaterTokensAreNew(actions: seq<Action>, more: seq<Action>, i: nat)
    requires |RunAll(Start(), actions).returned| <= i < |RunAll(RunAll(Start(), actions), more).returned|
    ensures var s := RunAll(Start(), actions);
            RunAll(s, more).returned[i] !in s.returned
  {
    RunConsecutive(Start(), actions);
    RunConsecutive(RunAll(Start(), actions), more);
  }

  /** A throw means that nothing will be handed out ever again. */
  lemma {:induction false} ThrowMeansExhausted(actions: seq<Action>, more: seq<Action>)
    requires RunAll(Start(), actions).thrown > 0
    ensures var s := RunAll(Start(), actions);
            && s.counter == MAX_U64
            && RunAll(s, more).returned == s.returned
  {
    RunConsecutive(Start(), actions);
    RunConsecutive(RunAll(Start(), actions), more);
  }

  lemma {:induction false} RunSplits(s: Allocator, first: seq<Action>, second: seq<Action>)
    ensures RunAll(s, first + second) == RunAll(RunAll(s, first), second)
    decreases |first|
  {
    if first == [] {
      assert first + second == second;
    } else {
      assert (first + second)[1..] == first[1..] + second;
      RunSplits(Next(s, first[0]), first[1..], second);
    }
  }

  /** What the others do before one attempt, and whether that attempt fails spuriously. */
  datatype Turn = Turn(others: seq<Action>, spurious: bool)

  ghost predicate Elsewhere(actions: seq<Action>, thread: nat) {
    forall i :: 0 <= i < |actions| ==> actions[i].thread != thread
  }

  lemma {:induction false} OthersKeepLocal(s: Allocator, actions: seq<Action>, thread: nat)
    requires Elsewhere(actions, thread)
    ensures thread in s.locals <==> thread in RunAll(s, actions).locals
    ensures thread in s.locals ==> RunAll(s, actions).locals[thread] == s.locals[thread]
    decreases |actions|
  {
    if actions != [] {
      assert actions[0].thread != thread;
      forall i | 0 <= i < |actions[1..]| ensures actions[1..][i].thread != thread {
        assert actions[1..][i] == actions[i + 1];
      }
      OthersKeepLocal(Next(s, actions[0]), actions[1..], thread);
    }
  }

  lemma {:induction false} RunNothing(s: Allocator)
    ensures RunAll(s, []) == s
  {
  }

  lemma {:induction false} ThenOne(start: Allocator, trace: seq<Action>, s: Allocator, a: Action)
    requires s == RunAll(start, trace) && Consecutive(s)
    ensures RunAll(start, trace + [a]) == Next(s, a)
    ensures Consecutive(Next(s, a)) && s.returned <= Next(s, a).returned
  {
    RunSplits(start, trace, [a]);
    assert RunAll(s, [a]) == RunAll(Next(s, a), []);
    NextConsecutive(s, a);
  }

  lemma {:induction false} ThenOthers(start: Allocator, trace: seq<Action>, s: Allocator, others: seq<Action>,
                                      thread: nat)
    requires s == RunAll(start, trace) && Consecutive(s) && Elsewhere(others, thread)
    ensures RunAll(start, trace + others) == RunAll(s, others)
    ensures Consecutive(RunAll(s, others)) && s.returned <= RunAll(s, others).returned
    ensures thread in s.locals <==> thread in RunAll(s, others).locals
    ensures thread in s.locals ==> RunAll(s, others).locals[thread] == s.locals[thread]
  {
    RunSplits(start, trace, others);
    RunConsecutive(s, others);
    OthersKeepLocal(s, others, thread);
  }

  class AtomicCounter {
    var machine: Allocator

    constructor ()
      ensures machine == Start() && Consecutive(machine)
    {
      machine := Start();
    }

    /** One call, against any schedule of interference.  Once the schedule is spent nothing
        disturbs the attempt.  Everything the call does is a run of the machine above. */
    method NextMonotonicToken(thread: nat, stale: nat, schedule: seq<Turn>)
      returns (token: Option<nat>, ghost trace: seq<Action>)
      requires Consecutive(machine) && thread !in machine.locals
      requires 1 <= stale <= machine.counter
      requires forall k :: 0 <= k < |schedule| ==> Elsewhere(schedule[k].others, thread)
      modifies this
      ensures Consecutive(machine) && thread !in machine.locals
      ensures machine == RunAll(old(machine), trace)
      ensures token.Some? ==> |machine.returned| > |old(machine).returned|
      ensures token.Some? ==> machine.returned[|machine.returned| - 1] == token.value
      ensures token.None? ==> machine.counter == MAX_U64
    {
      hide RunAll;
      trace := [];
      assert RunAll(old(machine), trace) == old(machine) by {
        RunNothing(old(machine));
      }
      ThenOne(old(machine), trace, machine, Load(thread, stale));
      trace := trace + [Load(thread, stale)];
      machine := Next(machine, Load(thread, stale));
      var current := stale;
      var k := 0;
      while true
        invariant 0 <= k <= |schedule| + 1
        invariant k == |schedule| + 1 ==> !Exhausted(current) ==> current == machine.counter
        invariant Consecutive(machine)
        invariant thread in machine.locals && machine.locals[thread] == current
        invariant machine == RunAll(old(machine), trace)
        invariant old(machine).returned <= machine.returned
        decreases |schedule| + 1 - k
      {
        if Exhausted(current) {
          ThenOne(old(machine), trace, machine, Throw(thread));
          machine := Next(machine, Throw(thread));
          trace := trace + [Throw(thread)];
          return None, trace;
        }
        if k < |schedule| {
          ThenOthers(old(machine), trace, machine, schedule[k].others, thread);
          machine := RunAll(machine, schedule[k].others);
          trace := trace + schedule[k].others;
        }
        if machine.counter == current && !(k < |schedule| && schedule[k].spurious) {
          ThenOne(old(machine), trace, machine, Swap(thread));
          machine := Next(machine, Swap(thread));
          trace := trace + [Swap(thread)];
          return Some(current), trace;
        }
        var seen := machine.counter;
        ThenOne(old(machine), trace, machine, Miss(thread, seen));
        machine := Next(machine, Miss(thread, seen));
        trace := trace + [Miss(thread, seen)];
        current := seen;
        k := k + 1;
      }
    }
  }
}
