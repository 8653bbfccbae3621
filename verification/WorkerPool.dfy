/**
 The persistent workers behind a simulation step, as a machine whose actions interleave freely.
 A dispatch raises the generation of every slot; each worker copies the dispatch under the lock,
 computes its slice one node at a time without it, and acknowledges under it; the step waits
 until no worker is behind.

 `job` computes one node's buffer from what the buffer held and says whether the computation
 threw.  `initial` and `picks` are history: the buffers at dispatch, and how often each worker
 picked up each generation.
 */
module WorkerPool {

  datatype Slot = Slot(ordered: nat, completed: nat)

  datatype Worker =
    | Resting
    | Computing(generation: nat, cursor: nat, last: nat, threw: bool)

  type Job<!T> = (nat, T) -> (T, bool)

  datatype Pool<!T> = Pool(
    slots: seq<Slot>,
    workers: seq<Worker>,
    generation: nat,
    activeNodes: nat,
    activeWorkers: nat,
    remaining: nat,
    dispatched: bool,
    failed: bool,
    waiting: bool,
    buffers: seq<T>,
    job: Job<T>,
    initial: seq<T>,
    picks: multiset<(nat, nat)>)

  function Start<T>(job: Job<T>): Pool<T> {
    Pool([], [], 0, 0, 0, 0, false, false, false, [], job, [], multiset{})
  }

  // ---------------------------------------------------------------- slices

  function First(w: nat, n: nat, count: nat): nat
    requires count > 0
  {
    w * n / count
  }

  lemma {:induction false} MulMonotoneInt(c: nat, x: int, y: int)
    requires x <= y
    ensures c * x <= c * y
  {
  }

  lemma {:induction false} DivMonotone(a: nat, b: nat, c: nat)
    requires a <= b && c > 0
    ensures a / c <= b / c
  {
    var x, y := a / c, b / c;
    MulMonotoneInt(c, y + 1, if x > y then x else y + 1);
  }

  lemma {:induction false} DivCancel(n: nat, c: nat)
    requires c > 0
    ensures c * n / c == n
  {
    var q := c * n / c;
    assert c * q <= c * n < c * q + c;
    MulMonotoneInt(c, n + 1, if q > n then q else n + 1);
    MulMonotoneInt(c, q + 1, if q < n then n else q + 1);
  }

  /** Slices follow one another without overlap. */
  lemma {:induction false} SlicesOrdered(v: nat, w: nat, n: nat, count: nat)
    requires v <= w && count > 0
    ensures First(v, n, count) <= First(w, n, count)
  {
    assert v * n <= w * n;
    DivMonotone(v * n, w * n, count);
  }

  lemma {:induction false} SlicesCover(n: nat, count: nat)
    requires count > 0
    ensures First(0, n, count) == 0 && First(count, n, count) == n
  {
    DivCancel(n, count);
  }

  /** Every node below n lies in the slice of some worker: the slices partition the nodes. */
  lemma {:induction false} SliceOf(i: nat, n: nat, count: nat, upTo: nat) returns (w: nat)
    requires count > 0 && upTo <= count && i < First(upTo, n, count)
    ensures w < upTo && First(w, n, count) <= i < First(w + 1, n, count)
    decreases upTo
  {
    SlicesCover(n, count);
    if First(upTo - 1, n, count) <= i {
      w := upTo - 1;
    } else {
      w := SliceOf(i, n, count, upTo - 1);
    }
  }

  predicate InSlice(i: nat, w: nat, n: nat, count: nat)
    requires count > 0
  {
    First(w, n, count) <= i < First(w + 1, n, count)
  }

  /** A slice begins at its share of the nodes, rounded down, and slices differ in length by at most
      one node. */
  lemma {:induction false} SliceBounds(w: nat, n: nat, count: nat)
    requires count > 0
    ensures First(w, n, count) * count <= w * n < First(w, n, count) * count + count
    ensures First(w + 1, n, count) - First(w, n, count) <= n / count + 1
    ensures n / count <= First(w + 1, n, count) - First(w, n, count)
  {
    var a, q := w * n, n / count;
    assert (w + 1) * n == a + n;
    QuotientStep(a, n, count);
  }

  lemma {:induction false} QuotientStep(a: nat, n: nat, count: nat)
    requires count > 0
    ensures (a / count) * count <= a < (a / count) * count + count
    ensures n / count <= (a + n) / count - a / count <= n / count + 1
  {
    var x, y, q := a / count, (a + n) / count, n / count;
    assert a == x * count + a % count && n == q * count + n % count && a + n == y * count + (a + n) % count;
    assert (y - x - q) * count == y * count - x * count - q * count;
    Between(y - x - q, count);
  }

  lemma {:induction false} Between(d: int, count: nat)
    requires count > 0 && 0 < d * count + count && d * count < 2 * count
    ensures 0 <= d <= 1
  {
    if d < 0 {
      MulMonotoneInt(count, d, -1);
    } else if d > 1 {
      MulMonotoneInt(count, 2, d);
    }
  }

  lemma {:induction false} SlicesPartition(i: nat, n: nat, count: nat)
    requires count > 0 && i < n
    ensures exists w: nat :: w < count && InSlice(i, w, n, count)
    ensures forall v: nat, w: nat :: InSlice(i, v, n, count) && InSlice(i, w, n, count) ==> v == w
  {
    hide First;
    SlicesCover(n, count);
    var owner := SliceOf(i, n, count, count);
    assert InSlice(i, owner, n, count);
    forall v: nat, w: nat | InSlice(i, v, n, count) && InSlice(i, w, n, count) ensures v == w {
      SlicesDisjoint(i, n, count, v, w);
    }
  }

  lemma {:induction false} SlicesDisjoint(i: nat, n: nat, count: nat, v: nat, w: nat)
    requires count > 0
    requires First(v, n, count) <= i < First(v + 1, n, count)
    requires First(w, n, count) <= i < First(w + 1, n, count)
    ensures v == w
  {
    hide First;
    if v < w {
      SlicesOrdered(v + 1, w, n, count);
    } else if w < v {
      SlicesOrdered(w + 1, v, n, count);
    }
  }

  // ---------------------------------------------------------------- actions

  datatype Action<!T> =
    | Grow(required: nat)
    | Dispatch(newJob: Job<T>, reused: seq<T>)
    | Pick(worker: nat)
    | Compute(worker: nat)
    | Acknowledge(worker: nat)
    | Open

  predicate Done(worker: Worker) {
    worker.Computing? && (worker.threw || worker.cursor >= worker.last)
  }

  predicate Enabled<T>(p: Pool<T>, a: Action<T>) {
    match a
    case Grow(required) => !p.waiting
    case Dispatch(job, reused) => !p.waiting && |p.slots| > 0 && |p.workers| == |p.slots|
    case Pick(w) =>
      && w < |p.workers| && w < |p.slots|
      && p.workers[w].Resting?
      && p.slots[w].ordered > p.slots[w].completed
      && p.activeWorkers > 0
    case Compute(w) =>
      && w < |p.workers|
      && p.workers[w].Computing? && !Done(p.workers[w])
      && p.workers[w].cursor < |p.buffers|
    case Acknowledge(w) => w < |p.workers| && w < |p.slots| && Done(p.workers[w])
    case Open => p.waiting && p.remaining == 0
  }

  /** The checks made before a completion is recorded. */
  predicate Accepts<T>(p: Pool<T>, w: nat)
    requires w < |p.workers| && w < |p.slots| && p.workers[w].Computing?
  {
    var generation := p.workers[w].generation;
    && generation == p.generation
    && w < p.activeWorkers
    && generation == p.slots[w].ordered
    && p.slots[w].completed < generation
    && p.remaining != 0
  }

  function Ordered(slots: seq<Slot>, generation: nat): seq<Slot> {
    seq(|slots|, w requires 0 <= w < |slots| => slots[w].(ordered := generation))
  }

  function Next<T>(p: Pool<T>, a: Action<T>): Pool<T>
    requires Enabled(p, a)
  {
    match a
    case Grow(required) =>
      var more := if required > |p.slots| then required - |p.slots| else 0;
      p.(slots := p.slots + seq(more, i => Slot(p.generation, p.generation)),
         workers := p.workers + seq(more, i => Resting))
    case Dispatch(job, reused) =>
      p.(activeNodes := |reused|, activeWorkers := |p.slots|, remaining := |p.slots|, failed := false,
         dispatched := true, generation := p.generation + 1, slots := Ordered(p.slots, p.generation + 1),
         waiting := true, buffers := reused, job := job, initial := reused)
    case Pick(w) =>
      p.(workers := p.workers[w := Computing(p.slots[w].ordered,
                                             First(w, p.activeNodes, p.activeWorkers),
                                             First(w + 1, p.activeNodes, p.activeWorkers),
                                             false)],
         picks := p.picks + multiset{(w, p.slots[w].ordered)})
    case Compute(w) =>
      var worker := p.workers[w];
      var result := p.job(worker.cursor, p.buffers[worker.cursor]);
      p.(buffers := p.buffers[worker.cursor := result.0],
         workers := p.workers[w := if result.1 then worker.(threw := true) else worker.(cursor := worker.cursor + 1)])
    case Acknowledge(w) =>
      var noted := p.(failed := p.failed || p.workers[w].threw, workers := p.workers[w := Resting]);
      if !Accepts(p, w) then noted
      else noted.(slots := p.slots[w := p.slots[w].(completed := p.workers[w].generation)],
                  remaining := p.remaining - 1)
    case Open => p.(dispatched := false, failed := false, waiting := false)
  }

  // ---------------------------------------------------------------- invariant

  predicate Behind(slot: Slot) {
    slot.completed < slot.ordered
  }

  function CountBehind(slots: seq<Slot>): nat {
    if slots == [] then 0
    else CountBehind(slots[..|slots| - 1]) + if Behind(slots[|slots| - 1]) then 1 else 0
  }

  ghost predicate Written<T>(p: Pool<T>, i: nat)
    requires i < |p.buffers| && i < |p.initial|
  {
    !p.job(i, p.initial[i]).1 && p.buffers[i] == p.job(i, p.initial[i]).0
  }

  ghost predicate Throws<T>(p: Pool<T>, i: nat)
    requires i < |p.initial|
  {
    p.job(i, p.initial[i]).1
  }

  ghost predicate AllWritten<T>(p: Pool<T>, from: nat, to: nat)
    requires |p.buffers| == |p.initial|
  {
    forall i: nat :: from <= i < to && i < |p.initial| ==> Written(p, i)
  }

  ghost predicate Untouched<T>(p: Pool<T>, from: nat, to: nat)
    requires |p.buffers| == |p.initial|
  {
    forall i: nat :: from <= i < to && i < |p.initial| ==> p.buffers[i] == p.initial[i]
  }

  /** How far one worker's slice has come. */
  ghost predicate SliceOk<T>(p: Pool<T>, w: nat)
    requires |p.buffers| == |p.initial| && w < |p.slots| && w < |p.workers| && p.activeWorkers > 0
  {
    var from, to := First(w, p.activeNodes, p.activeWorkers), First(w + 1, p.activeNodes, p.activeWorkers);
    match p.workers[w]
    case Resting =>
      if Behind(p.slots[w]) then Untouched(p, from, to)
      else p.failed || AllWritten(p, from, to)
    case Computing(generation, cursor, last, threw) =>
      && Behind(p.slots[w])
      && generation == p.generation
      && from <= cursor <= last == to
      && AllWritten(p, from, cursor)
      && (if threw then cursor < last && cursor < |p.initial| && Throws(p, cursor) else Untouched(p, cursor, to))
  }

  ghost predicate Quiet<T>(p: Pool<T>) {
    && |p.workers| == |p.slots|
    && p.remaining == 0 && !p.dispatched
    && (forall w :: 0 <= w < |p.slots| ==> p.slots[w] == Slot(p.generation, p.generation) && p.workers[w].Resting?)
  }

  ghost predicate Busy<T>(p: Pool<T>) {
    && |p.workers| == |p.slots|
    && p.dispatched && p.generation > 0
    && p.activeWorkers == |p.slots| > 0
    && p.activeNodes == |p.buffers| == |p.initial|
    && p.remaining == CountBehind(p.slots)
    && (forall w :: 0 <= w < |p.slots| ==>
          p.slots[w].ordered == p.generation && p.generation - 1 <= p.slots[w].completed <= p.generation)
    && (forall w :: 0 <= w < |p.slots| ==> SliceOk(p, w))
    && (p.failed ==> exists i :: 0 <= i < |p.initial| && Throws(p, i))
  }

  /** Each worker has picked up each generation at most once, and the current one exactly if it
      has begun it. */
  ghost predicate PickedOnce<T>(p: Pool<T>)
    requires |p.workers| == |p.slots|
  {
    && (forall w: nat, g: nat :: p.picks[(w, g)] <= 1)
    && (forall w: nat, g: nat :: g > p.generation || w >= |p.slots| ==> p.picks[(w, g)] == 0)
    && (p.waiting ==> forall w :: 0 <= w < |p.slots| ==>
          p.picks[(w, p.generation)] == if p.workers[w].Resting? && Behind(p.slots[w]) then 0 else 1)
  }

  ghost predicate PoolInv<T>(p: Pool<T>) {
    && (if p.waiting then Busy(p) else Quiet(p))
    && PickedOnce(p)
  }

  // ---------------------------------------------------------------- what each action keeps

  lemma {:induction false} StartInv<T>(job: Job<T>)
    ensures PoolInv(Start(job))
  {
  }

  lemma {:induction false} GrowInv<T>(p: Pool<T>, required: nat)
    requires PoolInv(p) && Enabled(p, Grow(required))
    ensures PoolInv(Next(p, Grow(required)))
  {
  }

  lemma {:induction false} AllBehind(slots: seq<Slot>)
    requires forall w :: 0 <= w < |slots| ==> Behind(slots[w])
    ensures CountBehind(slots) == |slots|
    decreases |slots|
  {
    if slots != [] {
      AllBehind(slots[..|slots| - 1]);
    }
  }

  lemma {:induction false} NoneBehind(slots: seq<Slot>)
    ensures CountBehind(slots) == 0 <==> forall w :: 0 <= w < |slots| ==> !Behind(slots[w])
    decreases |slots|
  {
    if slots != [] {
      NoneBehind(slots[..|slots| - 1]);
      assert forall w :: 0 <= w < |slots| - 1 ==> slots[..|slots| - 1][w] == slots[w];
    }
  }

  lemma {:induction false} OneCompletes(slots: seq<Slot>, w: nat, slot: Slot)
    requires w < |slots| && Behind(slots[w]) && !Behind(slot)
    ensures CountBehind(slots[w := slot]) == CountBehind(slots) - 1
    decreases |slots|
  {
    var n := |slots| - 1;
    if w == n {
      assert slots[w := slot][..n] == slots[..n];
    } else {
      OneCompletes(slots[..n], w, slot);
      assert slots[w := slot][..n] == slots[..n][w := slot];
    }
  }

  lemma {:induction false} DispatchInv<T>(p: Pool<T>, job: Job<T>, reused: seq<T>)
    requires PoolInv(p) && Enabled(p, Dispatch(job, reused))
    ensures PoolInv(Next(p, Dispatch(job, reused)))
  {
    hide First;
    var q := Next(p, Dispatch(job, reused));
    AllBehind(q.slots);
    forall w | 0 <= w < |q.slots| ensures SliceOk(q, w) {
    }
  }

  /** A worker's state stands while another worker's slice is written. */
  lemma {:induction false} OtherSlice<T>(p: Pool<T>, q: Pool<T>, v: nat, c: nat)
    requires |p.buffers| == |p.initial| && p.activeWorkers > 0 && v < |p.slots| && v < |p.workers|
    requires q.initial == p.initial && q.job == p.job
    requires q.activeWorkers == p.activeWorkers && q.activeNodes == p.activeNodes && q.generation == p.generation
    requires |q.slots| == |p.slots| && |q.workers| == |p.workers|
    requires q.slots[v] == p.slots[v] && q.workers[v] == p.workers[v]
    requires p.failed ==> q.failed
    requires |q.buffers| == |p.buffers|
    requires forall i :: 0 <= i < |p.buffers| && i != c ==> q.buffers[i] == p.buffers[i]
    requires !(First(v, p.activeNodes, p.activeWorkers) <= c < First(v + 1, p.activeNodes, p.activeWorkers))
    requires SliceOk(p, v)
    ensures SliceOk(q, v)
  {
    hide First;
    Carry(p, q, c);
  }

  /** What has been written stays written, and what throws still throws. */
  lemma {:induction false} Carry<T>(p: Pool<T>, q: Pool<T>, c: nat)
    requires |p.buffers| == |p.initial| && |q.buffers| == |p.buffers|
    requires q.initial == p.initial && q.job == p.job
    requires forall i :: 0 <= i < |p.buffers| && i != c ==> q.buffers[i] == p.buffers[i]
    ensures forall i: nat :: i < |p.initial| && i != c ==> (Written(q, i) <==> Written(p, i))
    ensures forall i: nat :: i < |p.initial| ==> (Throws(q, i) <==> Throws(p, i))
  {
  }

  lemma {:induction false} StillFails<T>(p: Pool<T>, q: Pool<T>)
    requires q.initial == p.initial && q.job == p.job
    requires exists i :: 0 <= i < |p.initial| && Throws(p, i)
    ensures exists i :: 0 <= i < |q.initial| && Throws(q, i)
  {
    var i :| 0 <= i < |p.initial| && Throws(p, i);
    assert Throws(q, i);
  }

  lemma {:induction false} PickSlices<T>(p: Pool<T>, w: nat)
    requires Busy(p) && Enabled(p, Pick(w))
    ensures forall v :: 0 <= v < |p.slots| ==> SliceOk(Next(p, Pick(w)), v)
  {
    var q := Next(p, Pick(w));
    SlicesOrdered(w, w + 1, p.activeNodes, p.activeWorkers);
    hide First;
    Carry(p, q, |p.buffers|);
    forall v | 0 <= v < |p.slots| ensures SliceOk(q, v) {
      assert SliceOk(p, v);
      if v != w {
        assert q.workers[v] == p.workers[v] && q.slots[v] == p.slots[v];
      }
    }
  }

  lemma {:induction false} PickInv<T>(p: Pool<T>, w: nat)
    requires PoolInv(p) && Enabled(p, Pick(w))
    ensures p.waiting && PoolInv(Next(p, Pick(w)))
  {
    PickSlices(p, w);
    hide First, SliceOk, Throws;
    var q := Next(p, Pick(w));
    if p.failed {
      StillFails(p, q);
    }
    forall v: nat, g: nat ensures q.picks[(v, g)] == p.picks[(v, g)] + if (v, g) == (w, p.generation) then 1 else 0 {
    }
  }

  lemma {:induction false} ComputeSlices<T>(p: Pool<T>, w: nat)
    requires Busy(p) && Enabled(p, Compute(w))
    ensures forall v :: 0 <= v < |p.slots| ==> SliceOk(Next(p, Compute(w)), v)
  {
    var q := Next(p, Compute(w));
    var c := p.workers[w].cursor;
    assert SliceOk(p, w);
    ComputeSlice(p, w);
    forall v | 0 <= v < |p.slots| && v != w ensures SliceOk(q, v) {
      OwnSlice(p, w, v);
      OtherSlice(p, q, v, c);
    }
  }

  lemma {:induction false} OwnSlice<T>(p: Pool<T>, w: nat, v: nat)
    requires Busy(p) && Enabled(p, Compute(w)) && v < |p.slots| && v != w
    ensures var c := p.workers[w].cursor;
            !(First(v, p.activeNodes, p.activeWorkers) <= c < First(v + 1, p.activeNodes, p.activeWorkers))
  {
    hide First;
    assert SliceOk(p, w);
    var c := p.workers[w].cursor;
    if First(v, p.activeNodes, p.activeWorkers) <= c < First(v + 1, p.activeNodes, p.activeWorkers) {
      SlicesDisjoint(c, p.activeNodes, p.activeWorkers, v, w);
    }
  }

  lemma {:induction false} ComputeSlice<T>(p: Pool<T>, w: nat)
    requires Busy(p) && Enabled(p, Compute(w)) && SliceOk(p, w)
    ensures SliceOk(Next(p, Compute(w)), w)
  {
    hide First;
    var q := Next(p, Compute(w));
    var c := p.workers[w].cursor;
    Carry(p, q, c);
    assert p.buffers[c] == p.initial[c];
    assert Throws(q, c) || Written(q, c);
  }

  lemma {:induction false} ComputeInv<T>(p: Pool<T>, w: nat)
    requires PoolInv(p) && Enabled(p, Compute(w))
    ensures p.waiting && PoolInv(Next(p, Compute(w)))
  {
    ComputeSlices(p, w);
    hide First, SliceOk, Throws;
    if p.failed {
      StillFails(p, Next(p, Compute(w)));
    }
  }

  /** The guard never turns a genuine completion away. */
  lemma {:induction false} CompletionAccepted<T>(p: Pool<T>, w: nat)
    requires PoolInv(p) && Enabled(p, Acknowledge(w))
    ensures p.waiting && Accepts(p, w)
  {
    hide First;
    assert SliceOk(p, w);
    NoneBehind(p.slots);
  }

  lemma {:induction false} AcknowledgeSlices<T>(p: Pool<T>, w: nat)
    requires Busy(p) && Enabled(p, Acknowledge(w)) && Accepts(p, w)
    ensures forall v :: 0 <= v < |p.slots| ==> SliceOk(Next(p, Acknowledge(w)), v)
  {
    hide First;
    var q := Next(p, Acknowledge(w));
    Carry(p, q, |p.buffers|);
    forall v | 0 <= v < |p.slots| ensures SliceOk(q, v) {
      assert SliceOk(p, v);
      if v != w {
        assert q.workers[v] == p.workers[v] && q.slots[v] == p.slots[v];
      }
    }
  }

  lemma {:induction false} AcknowledgeInv<T>(p: Pool<T>, w: nat)
    requires PoolInv(p) && Enabled(p, Acknowledge(w))
    ensures PoolInv(Next(p, Acknowledge(w)))
  {
    CompletionAccepted(p, w);
    AcknowledgeSlices(p, w);
    assert SliceOk(p, w);
    hide First, SliceOk;
    var q := Next(p, Acknowledge(w));
    OneCompletes(p.slots, w, q.slots[w]);
    if p.workers[w].threw {
      assert Throws(q, p.workers[w].cursor);
    } else if p.failed {
      var i :| 0 <= i < |p.initial| && Throws(p, i);
      assert Throws(q, i);
    }
  }

  /** When the barrier opens every worker rests, none holds the dispatched buffers, and the
      current generation has been picked up exactly once by each. */
  lemma {:induction false} AtBarrier<T>(p: Pool<T>)
    requires PoolInv(p) && Enabled(p, Open)
    ensures forall w :: 0 <= w < |p.slots| ==>
      p.workers[w].Resting? && p.slots[w].completed == p.generation && p.picks[(w, p.generation)] == 1
  {
    hide First;
    NoneBehind(p.slots);
    forall w | 0 <= w < |p.slots|
      ensures p.workers[w].Resting? && p.slots[w].completed == p.generation && p.picks[(w, p.generation)] == 1
    {
      assert SliceOk(p, w);
    }
  }

  lemma {:induction false} OpenInv<T>(p: Pool<T>)
    requires PoolInv(p) && Enabled(p, Open)
    ensures PoolInv(Next(p, Open))
  {
    AtBarrier(p);
  }

  lemma {:induction false} NextInv<T>(p: Pool<T>, a: Action<T>)
    requires PoolInv(p) && Enabled(p, a)
    ensures PoolInv(Next(p, a))
  {
    hide Next, Enabled, PoolInv;
    match a
    case Grow(required) => GrowInv(p, required);
    case Dispatch(job, reused) => DispatchInv(p, job, reused);
    case Pick(w) => PickInv(p, w);
    case Compute(w) => ComputeInv(p, w);
    case Acknowledge(w) => AcknowledgeInv(p, w);
    case Open => OpenInv(p);
  }

  /** Any sequence of actions; one that is not enabled does nothing. */
  function RunAll<T>(p: Pool<T>, actions: seq<Action<T>>): Pool<T>
    decreases |actions|
  {
    if actions == [] then p
    else RunAll(if Enabled(p, actions[0]) then Next(p, actions[0]) else p, actions[1..])
  }

  /** The barrier invariant holds after every run of growing, dispatching, picking up, computing,
      acknowledging and opening. */
  lemma {:induction false} RunInv<T>(p: Pool<T>, actions: seq<Action<T>>)
    requires PoolInv(p)
    ensures PoolInv(RunAll(p, actions))
    decreases |actions|
  {
    hide Next, Enabled, PoolInv;
    if actions != [] {
      if Enabled(p, actions[0]) {
        NextInv(p, actions[0]);
        RunInv(Next(p, actions[0]), actions[1..]);
      } else {
        RunInv(p, actions[1..]);
      }
    }
  }

  /** In every reachable pool all slots carry the current generation, each is complete or exactly
      one generation behind, the counter is the number that are behind, and the buffers are handed
      out only while the step waits. */
  lemma {:induction false} GenerationBarrier<T>(job: Job<T>, actions: seq<Action<T>>)
    ensures var p := RunAll(Start(job), actions);
            && (forall w :: 0 <= w < |p.slots| ==>
                  p.slots[w].ordered == p.generation && p.generation - 1 <= p.slots[w].completed <= p.generation)
            && p.remaining == CountBehind(p.slots)
            && (p.dispatched <==> p.waiting)
            && (forall w :: 0 <= w < |p.workers| && p.workers[w].Computing? ==> p.dispatched)
            && (forall w: nat, g: nat :: p.picks[(w, g)] <= 1)
  {
    StartInv(job);
    RunInv(Start(job), actions);
    hide SliceOk;
    NoneBehind(RunAll(Start(job), actions).slots);
  }

  // ---------------------------------------------------------------- outcome

  /** The nodes from first to last, computed one after the other from the buffers given; stops
      where a computation throws. */
  function Sequential<T>(job: Job<T>, buffers: seq<T>, first: nat, last: nat): (seq<T>, bool)
    requires last <= |buffers|
    decreases last - first
  {
    if first >= last then (buffers, false)
    else
      var result := job(first, buffers[first]);
      if result.1 then (buffers[first := result.0], true)
      else Sequential(job, buffers[first := result.0], first + 1, last)
  }

  ghost predicate ThrowsAt<T>(job: Job<T>, buffers: seq<T>, i: nat)
    requires i < |buffers|
  {
    job(i, buffers[i]).1
  }

  lemma {:induction false} SequentialResult<T>(job: Job<T>, buffers: seq<T>, first: nat, last: nat)
    requires first <= last <= |buffers|
    ensures var r := Sequential(job, buffers, first, last);
            && |r.0| == |buffers|
            && (r.1 <==> exists i: nat :: first <= i < last && ThrowsAt(job, buffers, i))
            && (!r.1 ==> forall i :: 0 <= i < |buffers| ==>
                  r.0[i] == if first <= i < last then job(i, buffers[i]).0 else buffers[i])
    decreases last - first
  {
    if first < last && !ThrowsAt(job, buffers, first) {
      var next := buffers[first := job(first, buffers[first]).0];
      SequentialResult(job, next, first + 1, last);
      forall i: nat | first < i < last ensures ThrowsAt(job, next, i) <==> ThrowsAt(job, buffers, i) {
      }
      if i: nat :| first <= i < last && ThrowsAt(job, buffers, i) {
        assert ThrowsAt(job, next, i);
      }
      if i: nat :| first + 1 <= i < last && ThrowsAt(job, next, i) {
        assert ThrowsAt(job, buffers, i);
      }
    }
  }

  lemma {:induction false} CompletedSlice<T>(p: Pool<T>, i: nat)
    requires Busy(p) && p.remaining == 0 && i < |p.initial|
    ensures p.failed || Written(p, i)
  {
    hide First;
    SlicesPartition(i, p.activeNodes, p.activeWorkers);
    var w: nat :| w < p.activeWorkers && InSlice(i, w, p.activeNodes, p.activeWorkers);
    NoneBehind(p.slots);
    assert SliceOk(p, w);
  }

  /** When no worker is behind, what the workers left is what one sequential pass over all nodes
      would have left, and a computation has thrown exactly if that pass throws. */
  lemma {:induction false} BarrierRefinesSequential<T>(p: Pool<T>)
    requires PoolInv(p) && Enabled(p, Open)
    ensures p.failed <==> Sequential(p.job, p.initial, 0, |p.initial|).1
    ensures !p.failed ==> p.buffers == Sequential(p.job, p.initial, 0, |p.initial|).0
  {
    var n := |p.initial|;
    SequentialResult(p.job, p.initial, 0, n);
    if p.failed {
      var i: nat :| i < n && Throws(p, i);
      assert ThrowsAt(p.job, p.initial, i);
    } else {
      var passed := Sequential(p.job, p.initial, 0, n).0;
      forall i: nat | i < n ensures Written(p, i) && !ThrowsAt(p.job, p.initial, i) {
        CompletedSlice(p, i);
      }
      forall i: nat | i < n ensures p.buffers[i] == passed[i] {
        assert Written(p, i);
      }
    }
  }

  // ---------------------------------------------------------------- progress

  /** The steps a worker still has to take in this generation. */
  function WorkOf<T>(p: Pool<T>, w: nat): nat
    requires w < |p.slots| && w < |p.workers|
  {
    match p.workers[w]
    case Resting =>
      if Behind(p.slots[w]) && p.activeWorkers > 0 then
        var from, to := First(w, p.activeNodes, p.activeWorkers), First(w + 1, p.activeNodes, p.activeWorkers);
        2 + if to > from then to - from else 0
      else 0
    case Computing(generation, cursor, last, threw) =>
      1 + if threw || cursor >= last then 0 else last - cursor
  }

  function Work<T>(p: Pool<T>, upTo: nat): nat
    requires upTo <= |p.slots| && upTo <= |p.workers|
  {
    if upTo == 0 then 0 else Work(p, upTo - 1) + WorkOf(p, upTo - 1)
  }

  lemma {:induction false} WorkFalls<T>(p: Pool<T>, q: Pool<T>, w: nat, upTo: nat)
    requires |p.workers| == |p.slots| && |q.workers| == |q.slots| == |p.slots| && upTo <= |p.slots|
    requires w < |p.slots| && WorkOf(q, w) < WorkOf(p, w)
    requires forall v :: 0 <= v < |p.slots| && v != w ==> WorkOf(q, v) == WorkOf(p, v)
    ensures Work(q, upTo) <= Work(p, upTo)
    ensures w < upTo ==> Work(q, upTo) < Work(p, upTo)
  {
    hide WorkOf;
    if upTo > 0 {
      WorkFalls(p, q, w, upTo - 1);
    }
  }

  predicate IsWorkerStep<T>(a: Action<T>) {
    a.Pick? || a.Compute? || a.Acknowledge?
  }

  /** Every step of a worker leaves strictly less to do. */
  lemma {:induction false} WorkDecreases<T>(p: Pool<T>, a: Action<T>)
    requires PoolInv(p) && Enabled(p, a) && IsWorkerStep(a)
    ensures PoolInv(Next(p, a)) && Next(p, a).waiting
    ensures Work(Next(p, a), |p.slots|) < Work(p, |p.slots|)
  {
    NextInv(p, a);
    StepKeepsDispatch(p, a);
    OwnWorkFalls(p, a);
    OthersWorkStays(p, a);
    hide First, SliceOk, WorkOf, PoolInv, Next;
    WorkFalls(p, Next(p, a), a.worker, |p.slots|);
  }

  lemma {:induction false} OwnWorkFalls<T>(p: Pool<T>, a: Action<T>)
    requires PoolInv(p) && Enabled(p, a) && IsWorkerStep(a)
    ensures a.worker < |p.slots| == |p.workers| == |Next(p, a).slots| == |Next(p, a).workers|
    ensures Next(p, a).waiting
    ensures WorkOf(Next(p, a), a.worker) < WorkOf(p, a.worker)
  {
    hide First, SliceOk;
    if a.Acknowledge? {
      CompletionAccepted(p, a.worker);
    }
  }

  lemma {:induction false} OthersWorkStays<T>(p: Pool<T>, a: Action<T>)
    requires PoolInv(p) && Enabled(p, a) && IsWorkerStep(a)
    ensures |p.slots| == |p.workers| == |Next(p, a).slots| == |Next(p, a).workers|
    ensures forall v :: 0 <= v < |p.slots| && v != a.worker ==> WorkOf(Next(p, a), v) == WorkOf(p, v)
  {
    hide First, SliceOk;
  }

  lemma {:induction false} StepKeepsDispatch<T>(p: Pool<T>, a: Action<T>)
    requires PoolInv(p) && Enabled(p, a) && IsWorkerStep(a)
    ensures p.waiting
    ensures var q := Next(p, a);
            q.job == p.job && q.initial == p.initial && |q.slots| == |p.slots| && q.generation == p.generation
  {
    hide First;
  }

  /** While a worker is behind, some worker can take a step. */
  lemma {:induction false} SomeStep<T>(p: Pool<T>) returns (w: nat)
    requires PoolInv(p) && p.waiting && p.remaining != 0
    ensures w < |p.slots|
    ensures Enabled(p, Pick(w)) || Enabled(p, Compute(w)) || Enabled(p, Acknowledge(w))
  {
    NoneBehind(p.slots);
    w :| w < |p.slots| && Behind(p.slots[w]);
    assert SliceOk(p, w);
    LastSlice(p, w);
    hide First;
  }

  lemma {:induction false} LastSlice<T>(p: Pool<T>, w: nat)
    requires Busy(p) && w < |p.slots|
    ensures First(w + 1, p.activeNodes, p.activeWorkers) <= |p.buffers|
  {
    SlicesOrdered(w + 1, p.activeWorkers, p.activeNodes, p.activeWorkers);
    SlicesCover(p.activeNodes, p.activeWorkers);
  }

  /** The step a worker would take next. */
  function StepOf<T>(p: Pool<T>, w: nat): Action<T>
    requires w < |p.workers|
  {
    if p.workers[w].Resting? then Pick(w) else if Done(p.workers[w]) then Acknowledge(w) else Compute(w)
  }

  /** Every buffer has the shape that the job needs. */
  ghost predicate Shaped<T>(shape: (nat, T) -> bool, buffers: seq<T>) {
    forall i: nat :: i < |buffers| ==> shape(i, buffers[i])
  }

  ghost predicate Reshapes<T(!new)>(shape: (nat, T) -> bool, job: Job<T>) {
    forall i: nat, b: T :: shape(i, b) ==> shape(i, job(i, b).0)
  }

  lemma {:induction false} StepKeepsShape<T(!new)>(p: Pool<T>, a: Action<T>, shape: (nat, T) -> bool)
    requires Enabled(p, a) && IsWorkerStep(a)
    requires Shaped(shape, p.buffers) && Reshapes(shape, p.job)
    ensures Shaped(shape, Next(p, a).buffers)
  {
    hide First;
  }

  /** Waits for all workers, letting any of them take the next step at every turn.  Whatever they
      compute, even if some computation throws, the buffers keep their shape. */
  method Await<T(!new)>(start: Pool<T>, ghost shape: (nat, T) -> bool) returns (p: Pool<T>)
    requires PoolInv(start) && start.waiting
    requires Shaped(shape, start.buffers) && Reshapes(shape, start.job)
    ensures PoolInv(p) && Enabled(p, Open)
    ensures p.job == start.job && p.initial == start.initial && |p.slots| == |start.slots|
    ensures p.generation == start.generation
    ensures Shaped(shape, p.buffers)
  {
    p := start;
    while p.remaining != 0
      invariant PoolInv(p) && p.waiting
      invariant p.job == start.job && p.initial == start.initial && |p.slots| == |start.slots|
      invariant p.generation == start.generation
      invariant Shaped(shape, p.buffers)
      decreases Work(p, |p.slots|)
    {
      ghost var some := SomeStep(p);
      assert Enabled(p, StepOf(p, some));
      var w :| 0 <= w < |p.slots| && Enabled(p, StepOf(p, w));
      WorkDecreases(p, StepOf(p, w));
      StepKeepsDispatch(p, StepOf(p, w));
      StepKeepsShape(p, StepOf(p, w), shape);
      p := Next(p, StepOf(p, w));
    }
  }
}
