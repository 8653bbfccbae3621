/**
 The mesh object: its fields, its exclusive operations as they run, and the buffers, flags and
 workers they reuse.  Every operation is proved to make of the mesh what its specification says,
 to keep the invariant, and to leave the mesh alone when it faults.
 */
module MeshRuntime {
  import opened Common
  import opened Dynamics
  import opened MeshState
  import opened Topology
  import opened Connecting
  import opened Pruning
  import opened Diffusion
  import opened StepBuffers
  import opened MeshLoops
  import opened PruneLoops
  import opened Publication
  import opened Authority
  import P = WorkerPool
  import Persistence
  import Tokens

  /** Where an operation may run out of memory or threads. */
  datatype FaultSite =
    | AtIncarnations
    | AtNode
    | AtPair(k: nat)
    | AtReserve
    | AtInsertion(k: nat)
    | AtWorker(k: nat)
    | AtBuffers
    | AtBuffer(k: nat)

  type Faults = FaultSite -> bool

  lemma {:induction false} InRangeNext(m: Mesh, pairs: seq<Pair>, k: nat)
    requires AllInRange(m, pairs) && k < |pairs|
    ensures 0 <= pairs[k].0 < |m.nodes| && 0 <= pairs[k].1 < |m.nodes|
    ensures AllInRange(m, pairs[..k]) && AllInRange(m, pairs[..k + 1])
  {
    assert InRange(m, pairs[k].0, pairs[k].1);
  }

  lemma {:induction false} FiniteNext(metric: Metric, nodes: seq<Node>, pairs: seq<Pair>, k: nat)
    requires k < |pairs| && 0 <= pairs[k].0 < |nodes| && 0 <= pairs[k].1 < |nodes|
    ensures FiniteGeometry(metric, nodes, pairs[..k + 1]) <==>
      FiniteGeometry(metric, nodes, pairs[..k]) && metric.finite(nodes[pairs[k].0].position, nodes[pairs[k].1].position)
  {
    assert forall l :: 0 <= l < k ==> pairs[..k + 1][l] == pairs[..k][l];
    assert pairs[..k + 1][k] == pairs[k];
  }

  lemma {:induction false} PendingNext(metric: Metric, m: Mesh, pairs: seq<Pair>, k: nat)
    requires |m.incarnations| == |m.nodes| && k < |pairs|
    requires 0 <= pairs[k].0 < |m.nodes| && 0 <= pairs[k].1 < |m.nodes|
    requires AllInRange(m, pairs[..k]) && AllInRange(m, pairs[..k + 1])
    ensures PendingFor(metric, m, pairs[..k + 1])
         == PendingFor(metric, m, pairs[..k]) + PendingPair(metric, m, pairs[k].0, pairs[k].1, k)
  {
    assert pairs[..k + 1][..k] == pairs[..k];
    hide PendingPair, AllInRange;
  }

  lemma {:induction false} PendingPairIs(metric: Metric, m: Mesh, a: nat, b: nat, k: nat)
    requires |m.incarnations| == |m.nodes| && a < |m.nodes| && b < |m.nodes|
    ensures var generation, lineage := m.nextGeneration + 2 * k, m.nextLineage + 2 * k;
            var identity := m.nextIdentity + 2 * k;
            PendingPair(metric, m, a, b, k) ==
              [PendingEdge((a, b), NewBridge(metric, m.nodes, a, b),
                           Lifecycle(m.incarnations[a], m.incarnations[b], generation, lineage,
                                     PersistenceRecord(Persistence.Fresh(Persistence.Preserve), identity))),
               PendingEdge((b, a), NewBridge(metric, m.nodes, b, a),
                           Lifecycle(m.incarnations[b], m.incarnations[a], generation + 1, lineage + 1,
                                     PersistenceRecord(Persistence.Fresh(Persistence.Preserve), identity + 1)))]
  {
    hide NewBridge;
  }

  lemma {:induction false} PrepareStart(metric: Metric, m: Mesh, pairs: seq<Pair>)
    requires |m.incarnations| == |m.nodes| && AllInRange(m, pairs)
    ensures AllInRange(m, pairs[..0]) && PendingFor(metric, m, pairs[..0]) == []
    ensures FiniteGeometry(metric, m.nodes, pairs[..0])
  {
  }

  /** A pair too far apart stays so however many follow. */
  lemma {:induction false} InfiniteStays(metric: Metric, nodes: seq<Node>, pairs: seq<Pair>, k: nat)
    requires k <= |pairs| && !FiniteGeometry(metric, nodes, pairs[..k])
    ensures !FiniteGeometry(metric, nodes, pairs)
  {
    assert forall l :: 0 <= l < k ==> pairs[..k][l] == pairs[l];
  }

  datatype Outcome =
    | Done
    | IdMismatch
    | NegativeArgument
    | Refused(reason: Refusal)
    | NonFiniteGeometry
    | RelationshipExists
    | OutOfMemory
    | NoThread
    | ComputationThrew
    | NonFiniteState

  ghost predicate PreparesAll(faults: Faults, pairs: nat) {
    forall k: nat :: k < pairs ==> !faults(AtPair(k))
  }

  ghost predicate InsertsAll(faults: Faults, edges: nat) {
    forall k: nat :: k < edges ==> !faults(AtInsertion(k))
  }

  /** Some pair lies too far apart, and no allocation for a pair before it fails. */
  ghost predicate TooFar(metric: Metric, nodes: seq<Node>, pairs: seq<Pair>, faults: Faults) {
    exists k: nat :: k < |pairs|
      && 0 <= pairs[k].0 < |nodes| && 0 <= pairs[k].1 < |nodes|
      && !metric.finite(nodes[pairs[k].0].position, nodes[pairs[k].1].position)
      && PreparesAll(faults, k)
  }

  lemma {:induction false} FarOrNear(metric: Metric, nodes: seq<Node>, pairs: seq<Pair>, faults: Faults)
    ensures TooFar(metric, nodes, pairs, faults) ==> !FiniteGeometry(metric, nodes, pairs)
  {
  }

  /** An allocation that fails before the first distant pair. */
  lemma {:induction false} NeverReached(metric: Metric, nodes: seq<Node>, pairs: seq<Pair>, faults: Faults, k: nat)
    requires k < |pairs| && FiniteGeometry(metric, nodes, pairs[..k + 1]) && faults(AtPair(k))
    ensures !TooFar(metric, nodes, pairs, faults)
  {
    forall l: nat | l <= k
      ensures 0 <= pairs[l].0 < |nodes| && 0 <= pairs[l].1 < |nodes|
      ensures metric.finite(nodes[pairs[l].0].position, nodes[pairs[l].1].position)
    {
      assert pairs[..k + 1][l] == pairs[l];
    }
  }

  lemma {:induction false} ReachedFar(metric: Metric, nodes: seq<Node>, pairs: seq<Pair>, faults: Faults, k: nat)
    requires k < |pairs| && 0 <= pairs[k].0 < |nodes| && 0 <= pairs[k].1 < |nodes|
    requires !metric.finite(nodes[pairs[k].0].position, nodes[pairs[k].1].position) && PreparesAll(faults, k)
    ensures TooFar(metric, nodes, pairs, faults)
  {
  }

  lemma {:induction false} PreparesNext(faults: Faults, k: nat)
    ensures PreparesAll(faults, 0)
    ensures PreparesAll(faults, k + 1) <==> PreparesAll(faults, k) && !faults(AtPair(k))
  {
  }

  lemma {:induction false} PreparesNotAll(faults: Faults, k: nat, n: nat)
    requires k < n && faults(AtPair(k))
    ensures !PreparesAll(faults, n)
  {
  }

  /** Some worker of a range cannot be started. */
  ghost predicate NoWorker(faults: Faults, first: nat, count: nat) {
    exists w: nat :: first <= w < count && faults(AtWorker(w))
  }

  /** The buffers are due and one of their allocations fails. */
  ghost predicate NoBuffer(faults: Faults, due: bool, count: nat) {
    due && (faults(AtBuffers) || exists i: nat :: i < count && faults(AtBuffer(i)))
  }

  /** Nothing faults while the given number of pairs is connected. */
  ghost predicate Faultless(faults: Faults, pairs: nat) {
    PreparesAll(faults, pairs) && !faults(AtReserve) && InsertsAll(faults, 2 * pairs)
  }

  lemma {:induction false} SingleObjection(m: Mesh, a: int, b: int)
    requires Inv(m) && InRange(m, a, b) && a != b && !HasBridge(m.nodes, a, b)
    ensures NoObjection(m, [(a, b)], 1)
  {
    assert !HasBridge(m.nodes, b, a) by {
      assert HasBridge(m.nodes, b, a) ==> HasBridge(m.nodes, a, b);
    }
    assert [(a, b)][0] == (a, b);
  }

  lemma {:induction false} SingleFar(metric: Metric, nodes: seq<Node>, a: nat, b: nat, faults: Faults)
    requires a < |nodes| && b < |nodes|
    ensures TooFar(metric, nodes, [(a, b)], faults) <==> !metric.finite(nodes[a].position, nodes[b].position)
  {
    assert PreparesAll(faults, 0);
    assert [(a, b)][0] == (a, b);
  }

  /** The first objection to a batch. */
  ghost predicate RefusedFor(m: Mesh, pairs: seq<Pair>, reason: Refusal) {
    exists k :: 0 <= k < |pairs| && NoObjection(m, pairs, k) && Objection(m, pairs, k) == Some(reason)
  }

  lemma {:induction false} RefusedNotAdmissible(m: Mesh, pairs: seq<Pair>, reason: Refusal)
    requires RefusedFor(m, pairs, reason)
    ensures !NoObjection(m, pairs, |pairs|)
  {
  }

  /** The insertion of all records or none, its faults among those of the whole operation. */
  method Insert(relationships: map<Edge, Lifecycle>, pending: seq<PendingEdge>, faults: Faults)
    returns (inserted: map<Edge, Lifecycle>, outcome: Outcome)
    ensures outcome == Done <==> Unrecorded(relationships, pending) && InsertsAll(faults, |pending|)
    ensures outcome == Done ==> inserted == Recorded(relationships, pending)
    ensures outcome != Done ==> inserted == relationships
    ensures outcome == Done || outcome == OutOfMemory
       || (outcome == RelationshipExists && !Unrecorded(relationships, pending))
  {
    hide Unrecorded, Recorded;
    var insertion := (k: nat) => faults(AtInsertion(k));
    var result;
    inserted, result := InsertAll(relationships, pending, insertion);
    assert forall k: nat :: insertion(k) == faults(AtInsertion(k));
    assert (forall k: nat :: k < |pending| ==> !insertion(k)) <==> InsertsAll(faults, |pending|);
    outcome := match result
      case AllInserted => Done
      case Faulted => OutOfMemory
      case AlreadyThere => RelationshipExists;
  }

  lemma {:induction false} SingleBatch(metric: Metric, m: Mesh, a: int, b: int)
    requires Inv(m)
    ensures Admissible(metric, m, a, b) <==> BatchAdmissible(metric, m, [(a, b)])
    ensures Admissible(metric, m, a, b) ==>
      AllInRange(m, [(a, b)]) && ConnectAll(metric, m, [(a, b)]) == ConnectPair(metric, m, a, b)
  {
    if InRange(m, a, b) {
      assert HasBridge(m.nodes, a, b) ==> HasBridge(m.nodes, b, a);
      assert HasBridge(m.nodes, b, a) ==> HasBridge(m.nodes, a, b);
    }
    hide Inv, HasBridge, ConnectPair;
    assert [(a, b)][..0] == [];
    assert BatchAdmissible(metric, m, [(a, b)]) ==> [(a, b)][0] == (a, b);
  }

  /** What the object keeps between operations: the mesh invariant; while the shape is clean every
      buffer fits its node; while no validation is required the full validation would accept; no
      worker is at work. */
  ghost predicate Coherent(metric: Metric, m: Mesh, buffers: seq<NodeBuffer>, shapeDirty: bool,
                           validationRequired: bool, pool: P.Pool<NodeBuffer>)
  {
    && metric.Valid()
    && Inv(m)
    && (!shapeDirty ==> BuffersFit(buffers, m.nodes))
    && (!validationRequired ==> WellFormed(m.nodes))
    && P.PoolInv(pool) && !pool.waiting
  }

  /** The bridges of one node after publication. */
  method PublishBridges(bridges: seq<Bridge>, buffer: NodeBuffer) returns (r: seq<Bridge>)
    requires |buffer.capacities| == |buffer.statuses| == |buffer.changed| == |bridges|
    ensures r == Published(bridges, buffer)
  {
    r := bridges;
    for k := 0 to |bridges|
      invariant |r| == |bridges|
      invariant forall l :: 0 <= l < k ==> r[l] == Published(bridges, buffer)[l]
      invariant forall l :: k <= l < |r| ==> r[l] == bridges[l]
    {
      if buffer.changed[k] {
        r := r[k := r[k].(capacity := buffer.capacities[k])];
        r := r[k := r[k].(status := buffer.statuses[k])];
      }
    }
  }

  function EmptyBuffer(): NodeBuffer {
    NodeBuffer(0.0, [], [], [])
  }

  function ResizedTo<T>(s: seq<T>, n: nat, fill: T): (r: seq<T>)
    ensures |r| == n
    ensures forall i :: 0 <= i < n && i < |s| ==> r[i] == s[i]
  {
    if n <= |s| then s[..n] else s + seq(n - |s|, _ => fill)
  }

  function Resized(buffer: NodeBuffer, bridges: nat): NodeBuffer {
    NodeBuffer(buffer.state, ResizedTo(buffer.capacities, bridges, 0.0), ResizedTo(buffer.statuses, bridges, Normal),
               ResizedTo(buffer.changed, bridges, false))
  }

  lemma {:induction false} FitsInNumber(buffers: seq<NodeBuffer>, nodes: seq<Node>)
    requires BuffersFit(buffers, nodes)
    ensures |buffers| == |nodes|
  {
  }

  lemma {:induction false} Dispatched(p: P.Pool<NodeBuffer>, job: P.Job<NodeBuffer>, buffers: seq<NodeBuffer>)
    requires P.PoolInv(p) && !p.waiting && |p.slots| > 0
    ensures P.Enabled(p, P.Dispatch(job, buffers))
    ensures var q := P.Next(p, P.Dispatch(job, buffers));
            && P.PoolInv(q) && q.waiting && |q.slots| == |p.slots|
            && q.job == job && q.initial == buffers && q.buffers == buffers
  {
    P.DispatchInv(p, job, buffers);
  }

  lemma {:induction false} Opened(p: P.Pool<NodeBuffer>)
    requires P.PoolInv(p) && P.Enabled(p, P.Open)
    ensures |p.buffers| == |p.initial|
    ensures var q := P.Next(p, P.Open);
            P.PoolInv(q) && !q.waiting && |q.slots| == |p.slots|
  {
    P.OpenInv(p);
  }

  /** No worker or buffer is refused to a step. */
  ghost predicate StepFaultless(faults: Faults) {
    && (forall w: nat :: !faults(AtWorker(w)))
    && !faults(AtBuffers)
    && (forall i: nat :: !faults(AtBuffer(i)))
  }

  ghost predicate AllFiniteStates(nonFinite: nat -> bool, count: nat) {
    forall i: nat :: i < count ==> !nonFinite(i)
  }

  ghost predicate SameCounts(nodes: seq<Node>, next: seq<Node>) {
    |next| == |nodes| && forall i :: 0 <= i < |nodes| ==> |next[i].bridges| == |nodes[i].bridges|
  }

  lemma {:induction false} SameCountsAlways(nodes: seq<Node>)
    ensures SameCounts(nodes, nodes)
  {
  }

  lemma {:induction false} Assembled(metric: Metric, m: Mesh, buffers: seq<NodeBuffer>, dirty: bool, required: bool,
                                     pool: P.Pool<NodeBuffer>)
    requires metric.Valid() && Inv(m) && (!dirty ==> BuffersFit(buffers, m.nodes))
    requires P.PoolInv(pool) && !pool.waiting
    ensures Coherent(metric, m, buffers, dirty, required, pool)
  {
    InvWellFormed(m);
    hide Inv, WellFormed, P.PoolInv, BuffersFit;
  }

  lemma {:induction false} EmptyStep(nodes: seq<Node>, alpha: real, throws: Throws, buffers: seq<NodeBuffer>)
    requires Runnable(nodes) && BuffersFit(buffers, nodes)
    ensures |buffers| == |nodes|
    ensures nodes == [] ==> StepNodes(nodes, alpha) == nodes && !Interrupted(nodes, throws)
  {
  }

  /** Committing the results of an uninterrupted pass is the step; invariant and shape are kept. */
  lemma {:induction false} CommittedIsStep(m: Mesh, buffers: seq<NodeBuffer>, next: seq<Node>)
    requires Inv(m) && Runnable(m.nodes) && BuffersFit(buffers, m.nodes) && |next| == |m.nodes|
    requires forall i :: 0 <= i < |next| ==>
       next[i] == CommitNode(m.nodes[i], buffers[i]) == StepNodes(m.nodes, m.alpha)[i]
    ensures next == StepNodes(m.nodes, m.alpha)
    ensures Inv(m.(nodes := next)) && BuffersFit(buffers, next)
  {
    StepInv(m);
    hide Inv, Runnable, Health, Published;
    assert next == StepNodes(m.nodes, m.alpha);
    forall i | 0 <= i < |next| ensures FitsNode(buffers[i], next[i]) {
      assert FitsNode(buffers[i], m.nodes[i]);
    }
  }

  /** A recorded relationship has both its nodes and a sound bridge. */
  lemma {:induction false} RecordedIsThere(m: Mesh, e: Edge)
    requires Inv(m) && e in m.relationships
    ensures e.0 < |m.nodes| && e.1 < |m.nodes| && HasBridge(m.nodes, e.0, e.1)
    ensures Find(m.nodes[e.0].bridges, e.1) < |m.nodes[e.0].bridges|
    ensures SoundBridge(m.nodes[e.0].bridges[Find(m.nodes[e.0].bridges, e.1)])
    ensures m.nextLineage > 0
  {
    assert Linked(m.nodes) && Symmetric(m.nodes) && Indexed(m);
    hide Inv, Symmetric, Linked;
    assert (e.0, e.1) in m.relationships && HasBridge(m.nodes, e.0, e.1);
    BothThere(m.nodes, e.0, e.1);
    LinkedAt(m.nodes, e.0, Find(m.nodes[e.0].bridges, e.1));
  }

  /** A refused attempt leaves the mesh; an accepted one publishes the prepared bridge. */
  lemma {:induction false} CommittedMesh(domain: nat, m: Mesh, records: map<nat, LedgerRecord>, c: Capability)
    ensures Verdict(domain, m, records, c) != Committed ==> MeshAfter(domain, m, records, c) == m
    ensures var e := (c.binding.relationship.source, c.binding.relationship.target);
            Verdict(domain, m, records, c) == Committed && e in m.relationships && HasBridge(m.nodes, e.0, e.1) ==>
              MeshAfter(domain, m, records, c) == Commit(m, e, c.binding.direction)
  {
    hide Verdict, HasBridge, Commit;
  }

  /** The new state of a commit, bridge, record and counter. */
  lemma {:induction false} CommitIs(m: Mesh, e: Edge, direction: TransitionDirection, bridge: Bridge)
    requires e in m.relationships && HasBridge(m.nodes, e.0, e.1)
    requires bridge == Transitioned(m.nodes[e.0].bridges[Find(m.nodes[e.0].bridges, e.1)], direction)
    ensures var bridges := m.nodes[e.0].bridges;
            Commit(m, e, direction) ==
              m.(nodes := m.nodes[e.0 := m.nodes[e.0].(bridges := bridges[Find(bridges, e.1) := bridge])],
                 relationships := m.relationships[e := m.relationships[e].(lineage := m.nextLineage)],
                 nextLineage := m.nextLineage + 1)
  {
    hide Transitioned;
  }

  lemma {:induction false} TransitionedCapacity(bridge: Bridge, direction: TransitionDirection)
    requires SoundBridge(bridge)
    ensures 0.0 <= Transitioned(bridge, direction).capacity <= 1.0
  {
    UpdateBridgeSound(bridge, if direction.Constraining? then Noise else CreativeSignal);
  }

  lemma {:induction false} BothThere(nodes: seq<Node>, i: nat, j: nat)
    requires Symmetric(nodes) && HasBridge(nodes, i, j)
    ensures j < |nodes|
  {
    assert HasBridge(nodes, j, i);
  }

  lemma {:induction false} LinkedAt(nodes: seq<Node>, i: nat, k: nat)
    requires Linked(nodes) && i < |nodes| && k < |nodes[i].bridges|
    ensures SoundBridge(nodes[i].bridges[k])
  {
  }

  lemma {:induction false} CommitCounts(m: Mesh, e: Edge, direction: TransitionDirection)
    requires e in m.relationships && HasBridge(m.nodes, e.0, e.1)
    ensures SameCounts(m.nodes, Commit(m, e, direction).nodes)
  {
  }

  class SpatialAdaptiveMesh {
    const metric: Metric
    const workerLimit: nat
    const hardwareThreads: nat
    const ledger: AuthorityLedger
    var nodes: seq<Node>
    var incarnations: seq<nat>
    var relationships: map<Edge, Lifecycle>
    var nextIncarnation: nat
    var nextGeneration: nat
    var nextLineage: nat
    var nextIdentity: nat
    var alpha: real
    var pool: P.Pool<NodeBuffer>
    var buffers: seq<NodeBuffer>
    var bufferShapeDirty: bool
    var validationRequired: bool

    /** The mesh as a value. */
    function View(): Mesh
      reads this
    {
      Mesh(nodes, incarnations, relationships, nextIncarnation, nextGeneration, nextLineage, nextIdentity, alpha)
    }

    ghost predicate Valid()
      reads this
    {
      Coherent(metric, View(), buffers, bufferShapeDirty, validationRequired, pool)
    }

    lemma {:induction false} InvHolds()
      requires Valid()
      ensures metric.Valid() && Inv(View()) && |incarnations| == |nodes|
    {
    }

    /** The mesh may become any other that keeps the invariant, with any flags, as long as buffers
        that no longer fit are flagged; the validator would accept it even when it is not asked. */
    lemma {:induction false} MayBecome(next: Mesh, dirty: bool, required: bool)
      requires Valid() && Inv(next)
      requires dirty || (!bufferShapeDirty && SameCounts(nodes, next.nodes))
      ensures Coherent(metric, next, buffers, dirty, required, pool)
    {
      InvWellFormed(next);
      hide Inv, WellFormed, P.PoolInv;
    }

    constructor (metric: Metric, workerLimit: nat, hardwareThreads: nat, domain: nat)
      requires metric.Valid()
      ensures Valid() && View() == EmptyMesh()
      ensures nodes == [] && incarnations == [] && relationships == map[] && alpha == 0.15
      ensures nextIncarnation == nextGeneration == nextLineage == nextIdentity == 1
      ensures this.metric == metric && this.workerLimit == workerLimit && this.hardwareThreads == hardwareThreads
      ensures fresh(ledger) && ledger.domain == domain && ledger.records == map[]
      ensures bufferShapeDirty && validationRequired
    {
      this.metric, this.workerLimit, this.hardwareThreads := metric, workerLimit, hardwareThreads;
      ledger := new AuthorityLedger(domain);
      nodes, incarnations, relationships := [], [], map[];
      nextIncarnation, nextGeneration, nextLineage, nextIdentity := 1, 1, 1, 1;
      alpha := 0.15;
      pool := P.Start((i: nat, buffer: NodeBuffer) => (buffer, false));
      buffers := [];
      bufferShapeDirty, validationRequired := true, true;
      new;
      EmptyInv();
    }

    // ---------------------------------------------------------------- stability and nodes

    method EnforceStabilityUnlocked()
      modifies this`alpha
      ensures alpha == StableAlpha(nodes)
    {
      var degree := LargestDegree(nodes);
      if degree > 0 {
        var safe := 1.0 / degree as real;
        alpha := RealMin(0.2, safe * 0.8);
      } else {
        alpha := 0.15;
      }
    }

    lemma {:induction false} AlphaIsStable(m: Mesh)
      requires Inv(m)
      ensures m.alpha == StableAlpha(m.nodes)
    {
    }

    /** Always a no-op on the mesh: alpha is already what it computes. */
    method EnforceStabilityCondition()
      requires Valid()
      modifies this
      ensures Valid() && View() == old(View())
      ensures validationRequired && unchanged(`pool, `buffers, `bufferShapeDirty)
    {
      hide Coherent, Inv, StableAlpha;
      InvHolds();
      MayBecome(View(), bufferShapeDirty, true);
      AlphaIsStable(View());
      EnforceStabilityUnlocked();
      validationRequired := true;
      assert View() == old(View());
    }

    /** On every outcome there are as many incarnation numbers as nodes. */
    method AddNode(id: nat, position: Vector3D, baseline: real, faults: Faults) returns (outcome: Outcome)
      requires Valid()
      modifies this
      ensures Valid() && |incarnations| == |nodes|
      ensures outcome == (if id != old(|nodes|) then IdMismatch
                          else if faults(AtIncarnations) || faults(AtNode) then OutOfMemory
                          else Done)
      ensures View() == if outcome == Done then MeshState.AddNode(old(View()), id, position, baseline) else old(View())
      ensures outcome == Done ==> bufferShapeDirty && validationRequired
      ensures unchanged(`pool, `buffers)
      ensures outcome != Done ==> unchanged(this)
    {
      hide Inv, Coherent;
      InvHolds();
      AddNodeInv(View(), id, position, baseline);
      MayBecome(MeshState.AddNode(View(), id, position, baseline), true, true);
      if id != |nodes| {
        return IdMismatch;
      }
      if faults(AtIncarnations) {
        return OutOfMemory;
      }
      if faults(AtNode) {
        return OutOfMemory;
      }
      nodes := nodes + [NewNode(position, baseline)];
      incarnations := incarnations + [nextIncarnation];
      nextIncarnation := nextIncarnation + 1;
      bufferShapeDirty := true;
      validationRequired := true;
      assert View() == MeshState.AddNode(old(View()), id, position, baseline);
      return Done;
    }

    // ---------------------------------------------------------------- connecting

    /** Prepares both directions of every pair; touches nothing. */
    method PreparePairs(pairs: seq<Pair>, faults: Faults) returns (outcome: Outcome, pending: seq<PendingEdge>)
      requires |incarnations| == |nodes| && AllInRange(View(), pairs)
      ensures outcome == Done <==>
        FiniteGeometry(metric, nodes, pairs) && PreparesAll(faults, |pairs|)
      ensures outcome == Done ==> pending == PendingFor(metric, View(), pairs)
      ensures outcome in {Done, NonFiniteGeometry, OutOfMemory}
      ensures outcome == NonFiniteGeometry ==> !FiniteGeometry(metric, nodes, pairs)
      ensures outcome == NonFiniteGeometry <==> TooFar(metric, nodes, pairs, faults)
    {
      hide NewBridge, NewLifecycle, InRange, AllInRange, PendingFor, PendingPair, FiniteGeometry, PreparesAll, TooFar;
      PrepareStart(metric, View(), pairs);
      PreparesNext(faults, 0);
      pending := [];
      var generation, lineage, identity := nextGeneration, nextLineage, nextIdentity;
      for k := 0 to |pairs|
        invariant AllInRange(View(), pairs[..k]) && pending == PendingFor(metric, View(), pairs[..k])
        invariant generation == nextGeneration + 2 * k
        invariant lineage == nextLineage + 2 * k && identity == nextIdentity + 2 * k
        invariant FiniteGeometry(metric, nodes, pairs[..k])
        invariant PreparesAll(faults, k)
      {
        InRangeNext(View(), pairs, k);
        FiniteNext(metric, nodes, pairs, k);
        PendingNext(metric, View(), pairs, k);
        PreparesNext(faults, k);
        var a: nat, b: nat := pairs[k].0, pairs[k].1;
        if !metric.finite(nodes[a].position, nodes[b].position) {
          InfiniteStays(metric, nodes, pairs, k + 1);
          ReachedFar(metric, nodes, pairs, faults, k);
          return NonFiniteGeometry, [];
        }
        if faults(AtPair(k)) {
          NeverReached(metric, nodes, pairs, faults, k);
          PreparesNotAll(faults, k, |pairs|);
          return OutOfMemory, [];
        }
        PendingPairIs(metric, View(), a, b, k);
        pending := pending
          + [PendingEdge((a, b), NewBridge(metric, nodes, a, b),
                         Lifecycle(incarnations[a], incarnations[b], generation, lineage,
                                   PersistenceRecord(Persistence.Fresh(Persistence.Preserve), identity))),
             PendingEdge((b, a), NewBridge(metric, nodes, b, a),
                         Lifecycle(incarnations[b], incarnations[a], generation + 1, lineage + 1,
                                   PersistenceRecord(Persistence.Fresh(Persistence.Preserve), identity + 1)))];
        generation, lineage, identity := generation + 2, lineage + 2, identity + 2;
      }
      assert pairs[..|pairs|] == pairs;
      FarOrNear(metric, nodes, pairs, faults);
      return Done, pending;
    }

    /** From here on nothing can fail: the records are in, and capacity is reserved. */
    method Publish(inserted: map<Edge, Lifecycle>, pending: seq<PendingEdge>)
      requires forall k :: 0 <= k < |pending| ==> pending[k].key.0 < |nodes|
      requires inserted == Recorded(relationships, pending)
      modifies `nodes, `relationships, `nextGeneration, `nextLineage, `nextIdentity, `alpha, `bufferShapeDirty,
        `validationRequired
      ensures View() == PublishedMesh(old(View()), pending)
      ensures bufferShapeDirty == (old(bufferShapeDirty) || pending != [])
      ensures validationRequired == (old(validationRequired) || pending != [])
    {
      hide Pushed, Recorded, StableAlpha;
      relationships := inserted;
      nodes := PublishAll(nodes, pending);
      nextGeneration := nextGeneration + |pending|;
      nextLineage := nextLineage + |pending|;
      nextIdentity := nextIdentity + |pending|;
      if pending != [] {
        EnforceStabilityUnlocked();
        bufferShapeDirty := true;
        validationRequired := true;
      }
    }

    /** Connects all pairs or none: whichever distance, allocation or insertion fails, nothing of
        the object has changed afterwards. */
    method ConnectPairsUnlocked(pairs: seq<Pair>, faults: Faults) returns (outcome: Outcome)
      requires |incarnations| == |nodes| && AllInRange(View(), pairs)
      modifies this
      ensures outcome == Done <==>
        && FiniteGeometry(metric, old(nodes), pairs)
        && Unrecorded(old(relationships), PendingFor(metric, old(View()), pairs))
        && Faultless(faults, |pairs|)
      ensures outcome == NonFiniteGeometry ==> !FiniteGeometry(metric, old(nodes), pairs)
      ensures outcome == NonFiniteGeometry <==> TooFar(metric, old(nodes), pairs, faults)
      ensures outcome == RelationshipExists ==>
        FiniteGeometry(metric, old(nodes), pairs)
            && !Unrecorded(old(relationships), PendingFor(metric, old(View()), pairs))
      ensures outcome in {Done, NonFiniteGeometry, OutOfMemory, RelationshipExists}
      ensures outcome == Done ==> View() == PublishedMesh(old(View()), PendingFor(metric, old(View()), pairs))
      ensures outcome == Done ==> unchanged(`pool, `buffers)
      ensures outcome == Done ==> bufferShapeDirty == (old(bufferShapeDirty) || pairs != [])
      ensures outcome == Done ==> validationRequired == (old(validationRequired) || pairs != [])
      ensures outcome != Done ==> unchanged(this)
    {
      hide FiniteGeometry, Unrecorded, PendingFor, PublishedMesh, AllInRange, Recorded, ConnectAll, PreparesAll,
        InsertsAll, TooFar;
      var pending;
      outcome, pending := PreparePairs(pairs, faults);
      if outcome != Done {
        return;
      }
      if faults(AtReserve) {
        return OutOfMemory;
      }
      var inserted;
      inserted, outcome := Insert(relationships, pending, faults);
      if outcome == Done {
        Publish(inserted, pending);
      }
    }

    lemma {:induction false} Admitted(m: Mesh, pairs: seq<Pair>)
      requires metric.Valid() && Inv(m) && NoObjection(m, pairs, |pairs|)
      ensures BatchAdmissible(metric, m, pairs) <==> FiniteGeometry(metric, m.nodes, pairs)
      ensures AllInRange(m, pairs)
      ensures FiniteGeometry(metric, m.nodes, pairs) ==>
        && Unrecorded(m.relationships, PendingFor(metric, m, pairs))
        && PublishedMesh(m, PendingFor(metric, m, pairs)) == ConnectBatch(metric, m, pairs)
        && Inv(ConnectBatch(metric, m, pairs))
    {
      NoObjectionInRange(m, pairs);
      BatchIffNoObjection(metric, m, pairs);
      hide Inv, FiniteGeometry, NoObjection, PendingFor, PublishedMesh, Unrecorded, ConnectAll;
      if FiniteGeometry(metric, m.nodes, pairs) {
        AdmissibleUnrecorded(metric, m, pairs);
        PublishedMeshIs(metric, m, pairs);
        BatchRefinesSequence(metric, m, pairs);
      }
    }

    /** What connecting amounts to for callers that have checked the pairs: no relationship is
        ever in the way, and only distances and faults decide. */
    method ConnectChecked(pairs: seq<Pair>, faults: Faults) returns (outcome: Outcome)
      requires Valid() && NoObjection(View(), pairs, |pairs|)
      modifies this
      ensures Valid()
      ensures outcome == Done <==> BatchAdmissible(metric, old(View()), pairs) && Faultless(faults, |pairs|)
      ensures outcome in {Done, NonFiniteGeometry, OutOfMemory}
      ensures outcome == NonFiniteGeometry <==> TooFar(metric, old(nodes), pairs, faults)
      ensures View() == if outcome == Done then ConnectBatch(metric, old(View()), pairs) else old(View())
      ensures outcome == Done ==> bufferShapeDirty == (old(bufferShapeDirty) || pairs != [])
      ensures outcome == Done ==> validationRequired == (old(validationRequired) || pairs != [])
      ensures unchanged(`pool, `buffers)
      ensures outcome != Done ==> unchanged(this)
    {
      hide Inv, BatchAdmissible, FiniteGeometry, Unrecorded, PendingFor, PublishedMesh, ConnectAll, ConnectBatch,
        Faultless, Coherent, NoObjection, AllInRange, TooFar;
      ghost var m := View();
      InvHolds();
      Admitted(m, pairs);
      if FiniteGeometry(metric, m.nodes, pairs) {
        MayBecome(ConnectBatch(metric, m, pairs), true, true);
      }
      outcome := ConnectPairsUnlocked(pairs, faults);
      if pairs == [] {
        NothingConnected(m);
      }
    }

    lemma {:induction false} NothingConnected(m: Mesh)
      requires |m.incarnations| == |m.nodes|
      ensures ConnectBatch(metric, m, []) == m
    {
    }

    /** Connects the two nodes exactly when that is admissible and nothing faults; the bridge is
        looked for at the first node only. */
    method ConnectNodes(a: int, b: int, faults: Faults) returns (outcome: Outcome)
      requires Valid()
      modifies this
      ensures Valid()
      ensures outcome == Done <==> Admissible(metric, old(View()), a, b) && Faultless(faults, 1)
      ensures outcome == Refused(OutOfRange) <==> !InRange(old(View()), a, b)
      ensures outcome == Refused(SelfConnection) <==> InRange(old(View()), a, b) && a == b
      ensures outcome == Refused(AlreadyConnected)
         <==> InRange(old(View()), a, b) && a != b && HasBridge(old(nodes), a, b)
      ensures outcome != RelationshipExists
      ensures outcome in {Done, NonFiniteGeometry, OutOfMemory} || outcome.Refused?
      ensures outcome == NonFiniteGeometry <==>
        && InRange(old(View()), a, b) && a != b && !HasBridge(old(nodes), a, b)
        && !metric.finite(old(nodes)[a].position, old(nodes)[b].position)
      ensures View() == if outcome == Done then Connect(metric, old(View()), a, b) else old(View())
      ensures outcome == Done ==> bufferShapeDirty && validationRequired
      ensures unchanged(`pool, `buffers)
      ensures outcome != Done ==> unchanged(this)
    {
      hide Inv, HasBridge, BatchAdmissible, ConnectPair, ConnectAll, Faultless, Coherent, NoObjection;
      if !(0 <= a < |nodes|) || !(0 <= b < |nodes|) {
        return Refused(OutOfRange);
      }
      if a == b {
        return Refused(SelfConnection);
      }
      if HasBridge(nodes, a, b) {
        return Refused(AlreadyConnected);
      }
      InvHolds();
      SingleBatch(metric, View(), a, b);
      SingleObjection(View(), a, b);
      SingleFar(metric, nodes, a, b, faults);
      outcome := ConnectChecked([(a, b)], faults);
      if outcome == Done {
        bufferShapeDirty := true;
        validationRequired := true;
      }
    }

    /** Connects the whole batch exactly when it is admissible and nothing faults; refuses it for
        the first objection. */
    method ConnectNodePairs(connections: seq<Pair>, faults: Faults) returns (outcome: Outcome)
      requires Valid()
      modifies this
      ensures Valid()
      ensures outcome == Done <==> BatchAdmissible(metric, old(View()), connections) && Faultless(faults, |connections|)
      ensures outcome.Refused? ==> RefusedFor(old(View()), connections, outcome.reason)
      ensures outcome.Refused? <==> !NoObjection(old(View()), connections, |connections|)
      ensures outcome in {Done, NonFiniteGeometry, OutOfMemory} || outcome.Refused?
      ensures !outcome.Refused? ==>
        (outcome == NonFiniteGeometry <==> TooFar(metric, old(nodes), connections, faults))
      ensures outcome != RelationshipExists
      ensures View() == if outcome == Done then ConnectBatch(metric, old(View()), connections) else old(View())
      ensures outcome == Done ==> bufferShapeDirty == (old(bufferShapeDirty) || connections != [])
      ensures outcome == Done ==> validationRequired == (old(validationRequired) || connections != [])
      ensures unchanged(`pool, `buffers)
      ensures outcome != Done ==> unchanged(this)
    {
      var refusal := CheckBatch(View(), connections);
      BatchIffNoObjection(metric, View(), connections);
      if refusal != None {
        assert RefusedFor(View(), connections, refusal.value);
        RefusedNotAdmissible(View(), connections, refusal.value);
        return Refused(refusal.value);
      }
      hide Inv, HasBridge, BatchAdmissible, Faultless, Coherent, NoObjection, AllInRange, ConnectBatch, RefusedFor,
        TooFar;
      outcome := ConnectChecked(connections, faults);
    }

    /** Connects every pair within the radius that is not connected yet. */
    method AutoConnectNearbyNodes(radius: real, faults: Faults) returns (outcome: Outcome)
      requires Valid()
      modifies this
      ensures Valid()
      ensures outcome == NegativeArgument <==> radius < 0.0
      ensures outcome == Done <==>
        && radius >= 0.0 && AllFinite(metric, old(nodes))
        && Faultless(faults, |Nearby(metric, old(nodes), radius, 0)|)
      ensures View() == if outcome == Done then AutoConnect(metric, old(View()), radius) else old(View())
      ensures outcome != RelationshipExists
      ensures outcome in {Done, NegativeArgument, NonFiniteGeometry, OutOfMemory}
      ensures outcome == NonFiniteGeometry <==> radius >= 0.0 && !AllFinite(metric, old(nodes))
      ensures outcome == Done ==> validationRequired
      ensures outcome == Done ==>
         bufferShapeDirty == (old(bufferShapeDirty) || Nearby(metric, old(nodes), radius, 0) != [])
      ensures unchanged(`pool, `buffers)
      ensures outcome != Done ==> unchanged(this)
    {
      hide Inv, AllFinite, Nearby, BatchAdmissible, ConnectAll, Faultless, Coherent, NoObjection, AllInRange,
        StableAlpha, FiniteGeometry, TooFar;
      ghost var m := View();
      if radius < 0.0 {
        return NegativeArgument;
      }
      var finite, connections := CollectNearby(metric, nodes, radius);
      if !finite {
        return NonFiniteGeometry;
      }
      InvHolds();
      NearbyIsBatch(metric, m, radius);
      BatchIffNoObjection(metric, m, connections);
      FarOrNear(metric, nodes, connections, faults);
      outcome := ConnectChecked(connections, faults);
      if outcome == Done {
        InvHolds();
        MayBecome(View(), bufferShapeDirty, true);
        AlphaIsStable(View());
        EnforceStabilityUnlocked();
        validationRequired := true;
      }
    }

    // ---------------------------------------------------------------- pruning

    /** Drops the records whose bridge is gone. */
    method DiscardAbsentRelationshipsUnlocked()
      modifies `relationships
      ensures relationships == PresentOnly(old(relationships), nodes)
    {
      var keys := relationships.Keys;
      while keys != {}
        invariant keys <= old(relationships).Keys
        invariant relationships.Keys <= old(relationships).Keys
        invariant forall e :: e in old(relationships) && e in keys ==> e in relationships
        invariant forall e :: e in old(relationships) && e !in keys ==>
          (e in relationships <==> HasBridge(nodes, e.0, e.1))
        invariant forall e :: e in relationships ==> relationships[e] == old(relationships)[e]
        decreases |keys|
      {
        hide HasBridge;
        var e :| e in keys;
        keys := keys - {e};
        if !HasBridge(nodes, e.0, e.1) {
          relationships := relationships - {e};
        }
      }
    }

    /** Erases every pair with an unhealthy direction; the buffers are flagged only if some bridge
        went. */
    method PruneIsolatedBridges(minCapacityThreshold: real) returns (outcome: Outcome)
      requires Valid()
      modifies this
      ensures Valid()
      ensures outcome == if minCapacityThreshold < 0.0 then NegativeArgument else Done
      ensures View() == Prune(old(View()), minCapacityThreshold)
      ensures outcome == Done ==>
         validationRequired && bufferShapeDirty == (old(bufferShapeDirty) || nodes != old(nodes))
      ensures unchanged(`pool, `buffers)
      ensures outcome != Done ==> unchanged(this)
    {
      hide Inv, Coherent, PrunedNodes, StableAlpha, PresentOnly, SameCounts;
      SameCountsAlways(nodes);
      if minCapacityThreshold < 0.0 {
        return NegativeArgument;
      }
      InvHolds();
      PruneInv(View(), minCapacityThreshold);
      var next, shapeChanged := PruneNodes(nodes, minCapacityThreshold);
      MayBecome(Prune(View(), minCapacityThreshold), bufferShapeDirty || shapeChanged, true);
      nodes := next;
      EnforceStabilityUnlocked();
      if shapeChanged {
        DiscardAbsentRelationshipsUnlocked();
        bufferShapeDirty := true;
      }
      validationRequired := true;
      assert View() == Prune(old(View()), minCapacityThreshold);
      return Done;
    }

    // ---------------------------------------------------------------- shocks

    method InjectExternalShock(targetNodeId: int, magnitude: real) returns (outcome: Outcome)
      requires Valid()
      modifies this`nodes
      ensures Valid()
      ensures outcome == if 0 <= targetNodeId < |old(nodes)| then Done else Refused(OutOfRange)
      ensures View() == Shock(old(View()), targetNodeId, magnitude)
    {
      hide Inv, Coherent, ReflexFilter, Health;
      if !(0 <= targetNodeId < |nodes|) {
        return Refused(OutOfRange);
      }
      InvHolds();
      ShockInv(View(), targetNodeId, magnitude);
      CalibratedAt(View(), targetNodeId);
      MayBecome(Shock(View(), targetNodeId, magnitude), bufferShapeDirty, validationRequired);
      var node := nodes[targetNodeId];
      var filtered := ReflexFilter(node.state, node.state + magnitude);
      nodes := nodes[targetNodeId := node.(state := filtered, health := Health(filtered, node.omega))];
      assert View() == Shock(old(View()), targetNodeId, magnitude);
      return Done;
    }

    lemma {:induction false} CalibratedAt(m: Mesh, i: int)
      requires Inv(m) && 0 <= i < |m.nodes|
      ensures m.nodes[i].omega.maxEpsilon > 0.0
    {
    }

    // ---------------------------------------------------------------- simulation

    /** Validates only if something has changed since it last did; it never rejects. */
    method ValidateTopologyUnlocked()
      requires Valid()
      modifies `validationRequired
      ensures Valid() && !validationRequired
    {
      hide Inv, Coherent, WellFormed;
      InvHolds();
      if validationRequired {
        var accepted := ValidateTopology(nodes);
        if !accepted {
          InvWellFormed(View());
          assert false;
        }
        MayStopAsking();
        validationRequired := false;
      }
    }

    lemma {:induction false} MayStopAsking()
      requires Valid()
      ensures Coherent(metric, View(), buffers, bufferShapeDirty, false, pool)
    {
      InvWellFormed(View());
      hide Inv, WellFormed, BuffersFit, P.PoolInv;
    }

    function ResolveWorkerCountUnlocked(): (count: nat)
      reads this
      ensures count <= |nodes| && (count == 0 <==> nodes == [])
      ensures workerLimit > 0 ==> count <= workerLimit
      ensures count < |nodes| ==>
        count == if workerLimit > 0 then workerLimit else if hardwareThreads > 0 then hardwareThreads else 1
      ensures workerLimit == 0 ==> count <= hardwareThreads || count <= 1
    {
      var hardware := Max(1, hardwareThreads);
      var requested := if workerLimit == 0 then hardware else workerLimit;
      if requested < |nodes| then requested else |nodes|
    }

    /** The pool only grows, one slot and its worker at a time; a thread that cannot be started
        leaves those before it. */
    method EnsureWorkerPoolUnlocked(faults: Faults) returns (outcome: Outcome)
      requires P.PoolInv(pool) && !pool.waiting
      modifies `pool
      ensures P.PoolInv(pool) && !pool.waiting
      ensures |old(pool).slots| <= |pool.slots| <= Max(|old(pool).slots|, ResolveWorkerCountUnlocked())
      ensures outcome in {Done, NoThread}
      ensures outcome == Done ==> |pool.slots| == Max(|old(pool).slots|, ResolveWorkerCountUnlocked())
      ensures outcome == NoThread ==> |pool.slots| < ResolveWorkerCountUnlocked() && faults(AtWorker(|pool.slots|))
      ensures outcome == NoThread <==> NoWorker(faults, |old(pool).slots|, ResolveWorkerCountUnlocked())
    {
      var required := ResolveWorkerCountUnlocked();
      var workerId := |pool.slots|;
      while workerId < required
        invariant P.PoolInv(pool) && !pool.waiting
        invariant workerId == |pool.slots|
        invariant |old(pool).slots| <= workerId <= Max(|old(pool).slots|, required)
        invariant forall w: nat :: |old(pool).slots| <= w < workerId ==> !faults(AtWorker(w))
      {
        if faults(AtWorker(workerId)) {
          return NoThread;
        }
        P.GrowInv(pool, workerId + 1);
        hide P.PoolInv;
        pool := P.Next(pool, P.Grow(workerId + 1));
        workerId := workerId + 1;
      }
      return Done;
    }

    /** Resizes the buffers if their shape is flagged; what fits keeps its stale contents. */
    method PrepareBuffers(faults: Faults) returns (outcome: Outcome)
      requires !bufferShapeDirty ==> BuffersFit(buffers, nodes)
      modifies `buffers, `bufferShapeDirty
      ensures outcome in {Done, OutOfMemory}
      ensures outcome == Done ==> !bufferShapeDirty && BuffersFit(buffers, nodes)
      ensures outcome == OutOfMemory ==> bufferShapeDirty && !StepFaultless(faults)
      ensures outcome == OutOfMemory <==> NoBuffer(faults, old(bufferShapeDirty), |nodes|)
    {
      if bufferShapeDirty {
        if faults(AtBuffers) {
          return OutOfMemory;
        }
        buffers := ResizedTo(buffers, |nodes|, EmptyBuffer());
        for i := 0 to |nodes|
          invariant bufferShapeDirty && |buffers| == |nodes|
          invariant forall r :: 0 <= r < i ==> FitsNode(buffers[r], nodes[r])
          invariant forall r: nat :: r < i ==> !faults(AtBuffer(r))
        {
          if faults(AtBuffer(i)) {
            return OutOfMemory;
          }
          buffers := buffers[i := Resized(buffers[i], |nodes[i].bridges|)];
        }
        bufferShapeDirty := false;
      }
      return Done;
    }

    /** One node's loop over its bridges. */
    method RunNode(i: nat, throws: Throws, stale: NodeBuffer) returns (buffer: NodeBuffer, threw: bool)
      requires Runnable(nodes) && i < |nodes| && FitsNode(stale, nodes[i])
      ensures (buffer, threw) == Compute(nodes, alpha, throws, i, stale)
    {
      buffer := stale;
      var node := nodes[i];
      var sum := 0.0;
      var k := 0;
      while k < |node.bridges|
        invariant k <= |node.bridges| && FitsNode(buffer, node)
        invariant ComputeFrom(nodes, alpha, throws, i, k, sum, buffer) ==
           ComputeFrom(nodes, alpha, throws, i, 0, 0.0, stale)
      {
        hide NextBridge, Contribution;
        if throws(i, k) {
          return buffer, true;
        }
        var bridge := node.bridges[k];
        var next := NextBridge(nodes, i, k);
        var bridgeChanged := bridge.capacity != next.capacity || bridge.status != next.status;
        ghost var before := buffer;
        buffer := buffer.(changed := buffer.changed[k := bridgeChanged]);
        if bridgeChanged {
          buffer := buffer.(capacities := buffer.capacities[k := next.capacity]);
          buffer := buffer.(statuses := buffer.statuses[k := next.status]);
        }
        assert buffer == WriteBridge(nodes, i, k, before);
        sum := sum + Contribution(nodes, i, k);
        k := k + 1;
      }
      return buffer.(state := node.state + alpha * sum), false;
    }

    /** The nodes of one slice, one after the other, stopping where one throws. */
    method RunNodeRange(firstNode: nat, lastNode: nat, throws: Throws) returns (threw: bool)
      requires Runnable(nodes) && BuffersFit(buffers, nodes) && firstNode <= lastNode <= |nodes|
      modifies `buffers
      ensures BuffersFit(buffers, nodes)
      ensures (buffers, threw) == P.Sequential(JobOf(nodes, alpha, throws), old(buffers), firstNode, lastNode)
    {
      hide Compute, Runnable, FitsNode, P.Next;
      ghost var job := JobOf(nodes, alpha, throws);
      var i := firstNode;
      while i < lastNode
        invariant firstNode <= i <= lastNode && BuffersFit(buffers, nodes)
        invariant P.Sequential(job, buffers, i, lastNode) == P.Sequential(job, old(buffers), firstNode, lastNode)
      {
        var buffer, nodeThrew := RunNode(i, throws, buffers[i]);
        StaleEntriesNeverShow(nodes, alpha, throws, i, buffers[i]);
        buffers := buffers[i := buffer];
        if nodeThrew {
          return true;
        }
        i := i + 1;
      }
      return false;
    }

    /** Hands the buffers to all workers and waits for every one of them.  What they leave is what
        one pass over all nodes would have left, whatever order they worked in. */
    method DispatchAndWait(throws: Throws) returns (threw: bool)
      requires Runnable(nodes) && BuffersFit(buffers, nodes)
      requires P.PoolInv(pool) && !pool.waiting && |pool.slots| > 0
      modifies `buffers, `pool
      ensures P.PoolInv(pool) && !pool.waiting && |pool.slots| == |old(pool).slots|
      ensures BuffersFit(buffers, nodes)
      ensures var pass := P.Sequential(JobOf(nodes, alpha, throws), old(buffers), 0, |nodes|);
              threw == pass.1 && (!threw ==> buffers == pass.0)
    {
      hide P.PoolInv, P.Sequential, P.Next, JobOf, ShapeOf, BuffersFit, Runnable, P.Shaped, P.Reshapes;
      var job := JobOf(nodes, alpha, throws);
      JobKeepsShape(nodes, alpha, throws);
      FitsInNumber(buffers, nodes);
      ShapedIff(nodes, buffers);
      Dispatched(pool, job, buffers);
      pool := P.Next(pool, P.Dispatch(job, buffers));
      pool := P.Await(pool, ShapeOf(nodes));
      P.BarrierRefinesSequential(pool);
      Opened(pool);
      ShapedIff(nodes, pool.buffers);
      buffers := pool.buffers;
      threw := pool.failed;
      pool := P.Next(pool, P.Open);
    }

    /** Publishes the buffers node by node: state and health always, a bridge only if it changed. */
    method CommitResults()
      requires Runnable(nodes) && BuffersFit(buffers, nodes)
      modifies `nodes
      ensures |nodes| == |old(nodes)|
      ensures forall i :: 0 <= i < |nodes| ==> nodes[i] == CommitNode(old(nodes)[i], buffers[i])
    {
      ghost var before := nodes;
      for i := 0 to |nodes|
        invariant |nodes| == |before|
        invariant forall r :: 0 <= r < i ==> nodes[r] == CommitNode(before[r], buffers[r])
        invariant forall r :: i <= r < |nodes| ==> nodes[r] == before[r]
      {
        assert FitsNode(buffers[i], before[i]) && before[i].omega.maxEpsilon > 0.0;
        var bridges := PublishBridges(nodes[i].bridges, buffers[i]);
        hide Health, Published;
        nodes := nodes[i := nodes[i].(state := buffers[i].state, health := Health(buffers[i].state, nodes[i].omega))];
        nodes := nodes[i := nodes[i].(bridges := bridges)];
      }
    }

    /** Computes all nodes into the buffers, directly or on the workers. */
    method ComputeAll(throws: Throws) returns (threw: bool)
      requires Runnable(nodes) && BuffersFit(buffers, nodes)
      requires P.PoolInv(pool) && !pool.waiting && |pool.slots| > 0
      modifies `buffers, `pool
      ensures P.PoolInv(pool) && !pool.waiting && BuffersFit(buffers, nodes)
      ensures threw <==> Interrupted(nodes, throws)
      ensures !threw ==> forall i :: 0 <= i < |nodes| ==> CommitNode(nodes[i], buffers[i]) == StepNodes(nodes, alpha)[i]
    {
      hide P.PoolInv, P.Sequential, Runnable, StepNodes, CommitNode, BuffersFit, Interrupted, JobOf;
      PassIsStep(nodes, alpha, throws, buffers);
      if |pool.slots| == 1 {
        threw := RunNodeRange(0, |nodes|, throws);
      } else {
        threw := DispatchAndWait(throws);
      }
    }

    /** Gets workers and buffers ready; nothing of the mesh changes. */
    method PrepareStep(faults: Faults) returns (outcome: Outcome)
      requires Valid()
      modifies `validationRequired, `pool, `buffers, `bufferShapeDirty
      ensures Valid() && !validationRequired
      ensures outcome in {Done, NoThread, OutOfMemory}
      ensures outcome == Done ==> !bufferShapeDirty && |pool.slots| >= ResolveWorkerCountUnlocked()
      ensures outcome != Done ==> !StepFaultless(faults)
      ensures outcome == NoThread <==> NoWorker(faults, |old(pool).slots|, ResolveWorkerCountUnlocked())
      ensures outcome == OutOfMemory <==>
        && !NoWorker(faults, |old(pool).slots|, ResolveWorkerCountUnlocked())
        && NoBuffer(faults, old(bufferShapeDirty), |nodes|)
    {
      hide Inv, Coherent, WellFormed, P.PoolInv, Runnable, BuffersFit, StepFaultless, NoWorker, NoBuffer;
      ValidateTopologyUnlocked();
      InvHolds();
      Parts();
      outcome := EnsureWorkerPoolUnlocked(faults);
      if outcome == Done {
        outcome := PrepareBuffers(faults);
      } else {
        ThreadRefused(faults, |pool.slots|);
      }
      Assembled(metric, View(), buffers, bufferShapeDirty, false, pool);
    }

    /** One step.  It publishes the synchronous step of every node, or, whatever fails on the way,
        nothing at all. */
    method SimulationStep(faults: Faults, throws: Throws, nonFinite: nat -> bool) returns (outcome: Outcome)
      requires Valid()
      modifies this
      ensures Valid() && Runnable(old(nodes))
      ensures View() == if outcome == Done then old(View()).(nodes := StepNodes(old(nodes), old(alpha)))
                        else old(View())
      ensures outcome in {Done, NoThread, OutOfMemory, ComputationThrew, NonFiniteState}
      ensures outcome in {NoThread, OutOfMemory} ==> !StepFaultless(faults)
      ensures outcome == NoThread <==> NoWorker(faults, |old(pool).slots|, old(ResolveWorkerCountUnlocked()))
      ensures outcome == OutOfMemory <==>
        && !NoWorker(faults, |old(pool).slots|, old(ResolveWorkerCountUnlocked()))
        && NoBuffer(faults, old(bufferShapeDirty), |old(nodes)|)
      ensures outcome == ComputationThrew ==> Interrupted(old(nodes), throws)
      ensures outcome == NonFiniteState ==>
         !Interrupted(old(nodes), throws) && !AllFiniteStates(nonFinite, |old(nodes)|)
      ensures outcome == Done ==> !Interrupted(old(nodes), throws) && AllFiniteStates(nonFinite, |old(nodes)|)
      ensures outcome !in {NoThread, OutOfMemory} ==> !bufferShapeDirty
      ensures !validationRequired
    {
      hide Inv, Coherent, WellFormed, P.PoolInv, Runnable, StepNodes, CommitNode, BuffersFit, StepFaultless,
        Interrupted, NoWorker, NoBuffer;
      ghost var m := View();
      outcome := PrepareStep(faults);
      InvHolds();
      Parts();
      if outcome != Done {
        return;
      }
      EmptyStep(nodes, alpha, throws, buffers);
      if buffers == [] {
        return Done;
      }
      var threw := ComputeAll(throws);
      Assembled(metric, m, buffers, false, false, pool);
      if threw {
        return ComputationThrew;
      }
      for i := 0 to |nodes|
        invariant AllFiniteStates(nonFinite, i)
      {
        if nonFinite(i) {
          return NonFiniteState;
        }
      }
      CommitResults();
      CommittedIsStep(m, buffers, nodes);
      Assembled(metric, View(), buffers, false, false, pool);
      return Done;
    }

    lemma {:induction false} Parts()
      requires Valid()
      ensures Runnable(nodes) && (!bufferShapeDirty ==> BuffersFit(buffers, nodes))
      ensures P.PoolInv(pool) && !pool.waiting
    {
      InvRunnable(View());
    }

    lemma {:induction false} ThreadRefused(faults: Faults, w: nat)
      requires faults(AtWorker(w))
      ensures !StepFaultless(faults)
    {
    }

    // ---------------------------------------------------------------- commit

    lemma {:induction false} CommitIsSafe(e: Edge, direction: TransitionDirection)
      requires Valid() && e in relationships
      ensures e.0 < |nodes| && e.1 < |nodes| && HasBridge(nodes, e.0, e.1) && nextLineage > 0
      ensures Find(nodes[e.0].bridges, e.1) < |nodes[e.0].bridges|
      ensures SoundBridge(nodes[e.0].bridges[Find(nodes[e.0].bridges, e.1)])
      ensures var bridge := nodes[e.0].bridges[Find(nodes[e.0].bridges, e.1)];
              0.0 <= Transitioned(bridge, direction).capacity <= 1.0
      ensures Coherent(metric, Commit(View(), e, direction), buffers, bufferShapeDirty, validationRequired, pool)
    {
      hide Inv, Coherent, HasBridge, SameCounts, Commit, SoundBridge, Transitioned;
      InvHolds();
      RecordedIsThere(View(), e);
      TransitionedCapacity(nodes[e.0].bridges[Find(nodes[e.0].bridges, e.1)], direction);
      CommitInv(View(), e, direction);
      CommitCounts(View(), e, direction);
      MayBecome(Commit(View(), e, direction), bufferShapeDirty, validationRequired);
    }

    /** Commits a capability, or refuses it and spends it.  The checks for missing nodes, a missing
        bridge and a capacity out of range are there, and never fire. */
    method CommitProductionTransition(c: Capability) returns (result: CommitResult)
      requires Valid()
      modifies this, ledger
      ensures Valid()
      ensures result == Verdict(ledger.domain, old(View()), old(ledger.records), c)
      ensures View() == MeshAfter(ledger.domain, old(View()), old(ledger.records), c)
      ensures ledger.records == RecordsAfter(ledger.domain, old(View()), old(ledger.records), c)
      ensures unchanged(`pool, `buffers, `bufferShapeDirty, `validationRequired)
    {
      hide Inv, Coherent, HasBridge, UpdateBridge, Transitioned, SoundBridge, SameCounts, Find, Commit, MeshAfter;
      CommittedMesh(ledger.domain, View(), ledger.records, c);
      if c.domain != ledger.domain {
        return TargetMismatch;
      }
      if c.id !in ledger.records {
        return CapabilityInvalid;
      }
      var record := ledger.records[c.id];
      if record.state == Consumed {
        return CapabilityConsumed;
      }
      if record.state == Expired || record.state == Invalidated {
        return CapabilityInvalid;
      }
      if record.binding != c.binding || record.issuanceEpoch != c.issuanceEpoch {
        ledger.SetState(c.id, Invalidated);
        return CapabilityInvalid;
      }
      var e: Edge := (c.binding.relationship.source, c.binding.relationship.target);
      if e !in relationships || relationships[e].generation != c.binding.relationship.generation {
        ledger.SetState(c.id, Invalidated);
        return StaleState;
      }
      var current := relationships[e];
      if current.lineage != c.binding.stateVersion || current.lineage != record.issuanceEpoch {
        ledger.SetState(c.id, Invalidated);
        return StaleState;
      }
      if c.binding.transitionClass != TRANSITION_CONTRACT {
        ledger.SetState(c.id, Invalidated);
        return TransitionRejected;
      }
      CommitIsSafe(e, c.binding.direction);
      if e.0 >= |nodes| || e.1 >= |nodes| {
        assert false;
      }
      var bridges := nodes[e.0].bridges;
      var k := Find(bridges, e.1);
      if k == |bridges| {
        assert false;
      }
      if c.binding.direction.Unrecognised? {
        ledger.SetState(c.id, Invalidated);
        return TransitionRejected;
      }
      var prepared := Transitioned(bridges[k], c.binding.direction);
      if prepared.capacity < 0.0 || prepared.capacity > 1.0 {
        assert false;
      }
      CommitIs(View(), e, c.binding.direction, prepared);
      var nextVersion := nextLineage;
      if nextVersion == 0 || nextVersion == Tokens.MAX_U64 {
        ledger.SetState(c.id, Invalidated);
        return CapabilityInvalid;
      }
      nodes := nodes[e.0 := nodes[e.0].(bridges := bridges[k := prepared])];
      ledger.SetState(c.id, Consumed);
      relationships := relationships[e := current.(lineage := nextVersion)];
      nextLineage := nextVersion + 1;
      assert View() == Commit(old(View()), e, c.binding.direction);
      return Committed;
    }
  }
}
