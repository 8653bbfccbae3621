/**
 Whole runs of the mesh and its authority layer: any sequence of exclusive operations, in any
 order, some of which may fault.  What holds after every run, which snapshots a run leaves valid,
 and what becomes of capabilities.
 */
module Runs {
  import opened Dynamics
  import opened MeshState
  import opened Topology
  import opened Connecting
  import opened Pruning
  import opened Diffusion
  import opened Authority
  import Persistence
  import Tokens

  datatype Event =
    | AddedNode(id: nat, position: Vector3D, baseline: real)
    | Connected(a: int, b: int)
    | ConnectedBatch(pairs: seq<Pair>)
    | AutoConnected(radius: real)
    | Pruned(threshold: real)
    | Shocked(target: int, magnitude: real)
    | Stepped
    | Observed(edge: Edge, evidence: real, renewed: bool)
    | GateReset(edge: Edge, renewed: bool)
    | CommitAttempted(capability: Capability)
    | Allocated(action: Tokens.Action)
    | DerivedAuthority(derivation: DerivationRun)
    | RetiredCapability(id: nat, terminal: CapabilityState)
    | Faulted

  /** One live derivation: its request, and after how many operations each reading was made. */
  datatype DerivationRun = DerivationRun(
    token: nat,
    eligible: bool,
    request: Binding,
    allowed: bool,
    answers: Answers,
    resolvedAt: nat,
    capturedAt: nat,
    revalidatedAt: nat)

  ghost predicate Fits(m: Mesh) {
    Inv(m) && Runnable(m.nodes)
  }

  /** What an event makes of the mesh; commits are treated with the ledger below. */
  ghost function Operate(metric: Metric, m: Mesh, ev: Event): Mesh
    requires Fits(m)
  {
    match ev
    case AddedNode(id, position, baseline) => AddNode(m, id, position, baseline)
    case Connected(a, b) => Connect(metric, m, a, b)
    case ConnectedBatch(pairs) => ConnectBatch(metric, m, pairs)
    case AutoConnected(radius) => AutoConnect(metric, m, radius)
    case Pruned(threshold) => Prune(m, threshold)
    case Shocked(target, magnitude) => Shock(m, target, magnitude)
    case Stepped => m.(nodes := StepNodes(m.nodes, m.alpha))
    case Observed(edge, evidence, renewed) => Evolve(m, edge, evidence, renewed)
    case GateReset(edge, renewed) => ResetGate(m, edge, renewed)
    case _ => m
  }

  lemma {:induction false} OperateInv(metric: Metric, m: Mesh, ev: Event)
    requires metric.Valid() && Fits(m)
    ensures Inv(Operate(metric, m, ev))
  {
    hide Inv, Runnable, AddNode, Connect, ConnectBatch, AutoConnect, Prune, Shock, StepNodes, Evolve, ResetGate;
    match ev {
      case AddedNode(id, position, baseline) => AddNodeInv(m, id, position, baseline);
      case Connected(a, b) => ConnectInv(metric, m, a, b);
      case ConnectedBatch(pairs) => BatchRefinesSequence(metric, m, pairs);
      case AutoConnected(radius) => AutoConnectInv(metric, m, radius);
      case Pruned(threshold) => PruneInv(m, threshold);
      case Shocked(target, magnitude) => ShockInv(m, target, magnitude);
      case Stepped => StepInv(m);
      case Observed(edge, evidence, renewed) => EvolveInv(m, edge, evidence, renewed);
      case GateReset(edge, renewed) => EvolveInv(m, edge, 0.0, renewed);
      case _ =>
    }
  }

  lemma {:induction false} InvFits(m: Mesh)
    requires Inv(m)
    ensures Fits(m)
  {
    InvRunnable(m);
  }

  // ---------------------------------------------------------------- descent of records

  /** How the record of an edge may change from one mesh to a later one: kept, renewed under a
      new generation, or moved on to a later lineage or to a later identity of its gate.  The gate's
      state alone may change under one identity. */
  ghost predicate Descends(m: Mesh, next: Mesh, e: Edge) {
    e in next.relationships ==>
      var after := next.relationships[e];
      || (after.generation >= m.nextGeneration && after.lineage >= m.nextLineage
          && after.persistence.identity >= m.nextIdentity)
      || (&& e in m.relationships
          && var before := m.relationships[e];
             && after.generation == before.generation
             && after.sourceIncarnation == before.sourceIncarnation
             && after.targetIncarnation == before.targetIncarnation
             && (after.lineage == before.lineage || after.lineage >= m.nextLineage)
             && (after.persistence.identity == before.persistence.identity
                 || after.persistence.identity >= m.nextIdentity))
  }

  ghost predicate Evolves(m: Mesh, next: Mesh) {
    && next.nextGeneration >= m.nextGeneration
    && next.nextLineage >= m.nextLineage
    && next.nextIdentity >= m.nextIdentity
    && forall e: Edge :: Descends(m, next, e)
  }

  lemma {:induction false} EvolvesTransitive(m: Mesh, n: Mesh, p: Mesh)
    requires Bounded(m) && Evolves(m, n) && Evolves(n, p)
    ensures Evolves(m, p)
  {
    forall e: Edge ensures Descends(m, p, e) {
      assert Descends(m, n, e) && Descends(n, p, e);
    }
  }

  lemma {:induction false} ConnectPairEvolves(metric: Metric, m: Mesh, a: nat, b: nat)
    requires |m.incarnations| == |m.nodes| && a < |m.nodes| && b < |m.nodes|
    ensures Evolves(m, ConnectPair(metric, m, a, b))
  {
  }

  lemma {:induction false} ConnectAllEvolves(metric: Metric, m: Mesh, pairs: seq<Pair>)
    requires |m.incarnations| == |m.nodes| && AllInRange(m, pairs) && Bounded(m)
    ensures Evolves(m, ConnectAll(metric, m, pairs))
    decreases |pairs|
  {
    if pairs != [] {
      var n := |pairs| - 1;
      var front := ConnectAll(metric, m, pairs[..n]);
      ConnectAllEvolves(metric, m, pairs[..n]);
      ConnectPairEvolves(metric, front, pairs[n].0, pairs[n].1);
      EvolvesTransitive(m, front, ConnectPair(metric, front, pairs[n].0, pairs[n].1));
    }
  }

  lemma {:induction false} FitsParts(m: Mesh)
    requires Fits(m)
    ensures Inv(m) && |m.incarnations| == |m.nodes| && Bounded(m)
  {
  }

  lemma {:induction false} BatchEvolves(metric: Metric, m: Mesh, ev: Event)
    requires Fits(m)
    requires ev.Connected? || ev.ConnectedBatch? || ev.AutoConnected?
    ensures Evolves(m, Operate(metric, m, ev))
  {
    hide Fits, Inv, Bounded, Evolves, ConnectPair, ConnectAll, HasBridge, BatchAdmissible, AllInRange, AllFinite,
      Nearby, StableAlpha;
    FitsParts(m);
    KeptEvolves(m, m);
    match ev {
      case Connected(a, b) =>
        if Admissible(metric, m, a, b) {
          ConnectPairEvolves(metric, m, a, b);
        }
      case ConnectedBatch(pairs) =>
        if BatchAdmissible(metric, m, pairs) {
          BatchInRange(metric, m, pairs);
          ConnectAllEvolves(metric, m, pairs);
        }
      case AutoConnected(radius) => AutoEvolves(metric, m, radius);
    }
  }

  lemma {:induction false} BatchInRange(metric: Metric, m: Mesh, pairs: seq<Pair>)
    requires BatchAdmissible(metric, m, pairs)
    ensures AllInRange(m, pairs)
  {
  }

  lemma {:induction false} AutoEvolves(metric: Metric, m: Mesh, radius: real)
    requires |m.incarnations| == |m.nodes| && Bounded(m)
    ensures Evolves(m, AutoConnect(metric, m, radius))
  {
    hide Bounded, Descends, ConnectAll, AllInRange, AllFinite, Nearby, StableAlpha;
    KeptEvolves(m, m);
    var pairs := Nearby(metric, m.nodes, radius, 0);
    if AllInRange(m, pairs) {
      ConnectAllEvolves(metric, m, pairs);
      EvolvesByRecords(m, ConnectAll(metric, m, pairs), AutoConnect(metric, m, radius));
    }
  }

  lemma {:induction false} EvolvesByRecords(m: Mesh, next: Mesh, other: Mesh)
    requires Evolves(m, next)
    requires other == next.(alpha := other.alpha) || other == m
    ensures Evolves(m, other)
  {
    KeptEvolves(m, m);
    if other != m {
      forall e: Edge ensures Descends(m, other, e) {
        assert Descends(m, next, e);
      }
    }
  }

  lemma {:induction false} GateEvolves(m: Mesh, e: Edge, gate: Persistence.Gate, renewed: bool)
    requires e in m.relationships
    ensures Evolves(m, SetGate(m, e, gate, renewed))
  {
  }

  /** Keeping some of the records as they are is one way for a mesh to evolve. */
  lemma {:induction false} KeptEvolves(m: Mesh, next: Mesh)
    requires next.nextGeneration == m.nextGeneration && next.nextLineage == m.nextLineage
    requires next.nextIdentity == m.nextIdentity
    requires forall e: Edge :: e in next.relationships ==>
       e in m.relationships && next.relationships[e] == m.relationships[e]
    ensures Evolves(m, next)
  {
  }

  lemma {:induction false} OperateEvolves(metric: Metric, m: Mesh, ev: Event)
    requires Fits(m)
    ensures Evolves(m, Operate(metric, m, ev))
  {
    hide Evolves, Fits, Inv, SetGate, StepNodes, PrunedNodes;
    match ev {
      case Connected(a, b) => BatchEvolves(metric, m, ev);
      case ConnectedBatch(pairs) => BatchEvolves(metric, m, ev);
      case AutoConnected(radius) => BatchEvolves(metric, m, ev);
      case Observed(edge, evidence, renewed) =>
        KeptEvolves(m, m);
        if edge in m.relationships {
          GateEvolves(m, edge, Persistence.Step(GATE_CONFIG, m.relationships[edge].persistence.gate, evidence),
              renewed);
        }
      case GateReset(edge, renewed) =>
        KeptEvolves(m, m);
        if edge in m.relationships {
          GateEvolves(m, edge, Persistence.Fresh(Persistence.Preserve), renewed);
        }
      case _ => KeptEvolves(m, Operate(metric, m, ev));
    }
  }

  lemma {:induction false} CommitEvolves(m: Mesh, e: Edge, direction: TransitionDirection)
    requires e in m.relationships && HasBridge(m.nodes, e.0, e.1)
    ensures Evolves(m, Commit(m, e, direction))
  {
  }

  // ---------------------------------------------------------------- systems

  /** A successful commit: who, where, and from which version to which. */
  datatype Entry = Entry(id: nat, edge: Edge, generation: nat, version: nat, newVersion: nat)

  /** The mesh and the ledger; as history the commits made, every earlier mesh, and what any thread
      of any mesh has done to the shared token allocator; and the tokens it has returned to calls
      that have not used them yet. */
  datatype System = System(
    mesh: Mesh,
    records: map<nat, LedgerRecord>,
    log: seq<Entry>,
    past: seq<Mesh>,
    tokens: seq<Tokens.Action>,
    claims: set<nat>)

  datatype World = World(metric: Metric, domain: nat)

  function Start(): System {
    System(EmptyMesh(), map[], [], [], [], {})
  }

  /** The mesh after n operations. */
  function MeshAt(s: System, n: nat): Mesh
    requires n <= |s.past|
  {
    if n == |s.past| then s.mesh else s.past[n]
  }

  function EdgeOf(b: Binding): Edge {
    (b.relationship.source, b.relationship.target)
  }

  /** A derivation reads the mesh three times, in order, and its call of the allocator has returned
      a token to it. */
  predicate CanDerive(s: System, d: DerivationRun) {
    && d.resolvedAt <= d.capturedAt <= d.revalidatedAt <= |s.past|
    && d.token in s.claims
  }

  predicate Grants(s: System, d: DerivationRun) {
    CanDerive(s, d) && Policy(d.eligible, FindingsOf(s, d), d.allowed).None?
  }

  function TokensReturned(actions: seq<Tokens.Action>): seq<nat> {
    Tokens.RunAll(Tokens.Start(), actions).returned
  }

  /** An action on the allocator that returns a token gives it to its caller; a derivation that
      issues uses up its own. */
  function ClaimsOf(s: System, ev: Event): set<nat> {
    match ev
    case Allocated(action) =>
      var before, after := TokensReturned(s.tokens), TokensReturned(s.tokens + [action]);
      if |after| > |before| then s.claims + {after[|after| - 1]} else s.claims
    case DerivedAuthority(d) => if Grants(s, d) then s.claims - {d.token} else s.claims
    case _ => s.claims
  }

  function FindingsOf(s: System, d: DerivationRun): Findings
    requires CanDerive(s, d)
  {
    Establish(d.eligible, d.request, MeshAt(s, d.resolvedAt), MeshAt(s, d.capturedAt), MeshAt(s, d.revalidatedAt),
        d.answers)
  }

  function RecordsOf(w: World, s: System, ev: Event): map<nat, LedgerRecord> {
    match ev
    case CommitAttempted(c) => RecordsAfter(w.domain, s.mesh, s.records, c)
    case DerivedAuthority(d) =>
      if Grants(s, d) && d.token !in s.records
      then s.records[d.token := LedgerRecord(d.request, FindingsOf(s, d).epoch, Issued)]
      else s.records
    case RetiredCapability(id, terminal) => if terminal == Issued then s.records else Retire(s.records, id, terminal)
    case _ => s.records
  }

  predicate Commits(w: World, s: System, ev: Event) {
    ev.CommitAttempted? && Verdict(w.domain, s.mesh, s.records, ev.capability) == Committed
  }

  function EntryOf(s: System, c: Capability): Entry {
    Entry(c.id, EdgeOf(c.binding), c.binding.relationship.generation, c.binding.stateVersion, s.mesh.nextLineage)
  }

  ghost function Next(w: World, s: System, ev: Event): System
    requires Fits(s.mesh)
  {
    System(
      if ev.CommitAttempted? then MeshAfter(w.domain, s.mesh, s.records, ev.capability)
      else Operate(w.metric, s.mesh, ev),
      RecordsOf(w, s, ev),
      if Commits(w, s, ev) then s.log + [EntryOf(s, ev.capability)] else s.log,
      s.past + [s.mesh],
      if ev.Allocated? then s.tokens + [ev.action] else s.tokens,
      ClaimsOf(s, ev))
  }

  /** Every capability of the ledger is bound to a version that existed when it was issued. */
  ghost predicate Bound(s: System) {
    forall id <- s.records ::
      && s.records[id].binding.relationship.generation < s.mesh.nextGeneration
      && s.records[id].issuanceEpoch == s.records[id].binding.stateVersion < s.mesh.nextLineage
  }

  /** Logged commits consumed their capabilities and their versions, for good. */
  ghost predicate Logged(log: seq<Entry>, records: map<nat, LedgerRecord>, nextLineage: nat) {
    && (forall k :: 0 <= k < |log| ==>
          && log[k].id in records && records[log[k].id].state == Consumed
          && log[k].version < log[k].newVersion < nextLineage)
    && (forall k, l :: 0 <= k < l < |log| ==>
          && log[k].id != log[l].id
          && log[k].version != log[l].version
          && log[k].newVersion < log[l].newVersion)
  }

  /** No live relationship stands at a version that a commit has consumed. */
  ghost predicate Spent(log: seq<Entry>, relationships: map<Edge, Lifecycle>) {
    forall k, e :: 0 <= k < |log| && e in relationships ==> relationships[e].lineage != log[k].version
  }

  ghost predicate Historic(s: System) {
    forall k :: 0 <= k < |s.past| ==> Fits(s.past[k]) && Evolves(s.past[k], s.mesh)
  }

  /** The ledger holds only identities that the allocator has returned, and so are the unused
      tokens, none of which is in the ledger. */
  ghost predicate Supplied(s: System) {
    && FromAllocator(s.records, s.tokens)
    && (forall token <- s.claims :: token in TokensReturned(s.tokens) && token !in s.records)
  }

  ghost predicate SystemInv(s: System) {
    && Fits(s.mesh)
    && Supplied(s)
    && Bound(s)
    && Logged(s.log, s.records, s.mesh.nextLineage)
    && Spent(s.log, s.mesh.relationships)
    && Historic(s)
  }

  lemma {:induction false} StartInv()
    ensures SystemInv(Start())
  {
    EmptyInv();
    InvFits(EmptyMesh());
  }

  /** The commit's search for its bridge always succeeds, so a commit does what it says. */
  lemma {:induction false} CommitFindsBridge(w: World, s: System, c: Capability)
    requires Fits(s.mesh) && Verdict(w.domain, s.mesh, s.records, c) == Committed
    ensures var e := EdgeOf(c.binding);
            && e in s.mesh.relationships && HasBridge(s.mesh.nodes, e.0, e.1)
            && MeshAfter(w.domain, s.mesh, s.records, c) == Commit(s.mesh, e, c.binding.direction)
  {
    var e := EdgeOf(c.binding);
    assert (e.0, e.1) in s.mesh.relationships;
  }

  lemma {:induction false} NextMesh(w: World, s: System, ev: Event)
    requires w.metric.Valid() && Fits(s.mesh)
    ensures Fits(Next(w, s, ev).mesh) && Evolves(s.mesh, Next(w, s, ev).mesh)
  {
    hide Inv, Runnable, Evolves, Operate, Commit;
    if ev.CommitAttempted? {
      var c := ev.capability;
      if Verdict(w.domain, s.mesh, s.records, c) == Committed {
        CommitFindsBridge(w, s, c);
        CommitInv(s.mesh, EdgeOf(c.binding), c.binding.direction);
        CommitEvolves(s.mesh, EdgeOf(c.binding), c.binding.direction);
      } else {
        KeptEvolves(s.mesh, s.mesh);
      }
    } else {
      OperateInv(w.metric, s.mesh, ev);
      OperateEvolves(w.metric, s.mesh, ev);
    }
    InvFits(Next(w, s, ev).mesh);
  }

  lemma {:induction false} NextHistoric(w: World, s: System, ev: Event)
    requires w.metric.Valid() && Fits(s.mesh) && Historic(s)
    ensures Historic(Next(w, s, ev))
  {
    NextMesh(w, s, ev);
    hide Operate, Evolves, Runnable, RecordsOf, MeshAfter;
    var next := Next(w, s, ev);
    forall k | 0 <= k < |next.past| ensures Fits(next.past[k]) && Evolves(next.past[k], next.mesh) {
      if k < |s.past| {
        assert next.past[k] == s.past[k];
        EvolvesTransitive(s.past[k], s.mesh, next.mesh);
      }
    }
  }

  lemma {:induction false} MeshAtFits(s: System, n: nat)
    requires Fits(s.mesh) && Historic(s) && n <= |s.past|
    ensures Fits(MeshAt(s, n)) && Evolves(MeshAt(s, n), s.mesh)
  {
    KeptEvolves(s.mesh, s.mesh);
    if n < |s.past| {
      assert Fits(s.past[n]);
    }
  }

  /** What a derivation issues is bound to versions that have existed. */
  lemma {:induction false} IssuedIsBound(s: System, d: DerivationRun)
    requires Fits(s.mesh) && Historic(s) && CanDerive(s, d)
    requires Policy(d.eligible, FindingsOf(s, d), d.allowed).None?
    ensures d.request.relationship.generation < s.mesh.nextGeneration
    ensures FindingsOf(s, d).epoch == d.request.stateVersion < s.mesh.nextLineage
  {
    var e := EdgeOf(d.request);
    MeshAtFits(s, d.resolvedAt);
    MeshAtFits(s, d.capturedAt);
    IssuanceMeans(d.eligible, d.request, MeshAt(s, d.resolvedAt), MeshAt(s, d.capturedAt), MeshAt(s, d.revalidatedAt),
                  d.answers, d.allowed);
    hide Establish, Policy, Linked, Symmetric, Calibrated, Indexed, Incarnated, Embodied, Distinct, StableAlpha;
    assert e in MeshAt(s, d.resolvedAt).relationships && e in MeshAt(s, d.capturedAt).relationships;
  }

  /** The ledger's records are never rebound: an event only moves their states or adds one. */
  lemma {:induction false} RecordsKeepBindings(w: World, s: System, ev: Event, id: nat)
    requires id in RecordsOf(w, s, ev)
    ensures var after := RecordsOf(w, s, ev)[id];
            || (id in s.records && after.binding == s.records[id].binding
                && after.issuanceEpoch == s.records[id].issuanceEpoch)
            || (ev.DerivedAuthority? && id == ev.derivation.token && CanDerive(s, ev.derivation)
                && Policy(ev.derivation.eligible, FindingsOf(s, ev.derivation), ev.derivation.allowed).None?
                && after.binding == ev.derivation.request && after.issuanceEpoch == FindingsOf(s, ev.derivation).epoch)
  {
    hide Establish, Policy, LiveVerdict;
  }

  lemma {:induction false} NextBound(w: World, s: System, ev: Event)
    requires w.metric.Valid() && Fits(s.mesh) && Historic(s) && Bound(s)
    ensures Bound(Next(w, s, ev))
  {
    NextMesh(w, s, ev);
    hide Operate, MeshAfter, Inv, Runnable, Establish, Policy, LiveVerdict, Descends, RecordsOf, FindingsOf, CanDerive;
    var next := Next(w, s, ev);
    forall id | id in next.records
      ensures next.records[id].binding.relationship.generation < next.mesh.nextGeneration
      ensures next.records[id].issuanceEpoch == next.records[id].binding.stateVersion < next.mesh.nextLineage
    {
      RecordsKeepBindings(w, s, ev, id);
      if !(id in s.records && next.records[id].binding == s.records[id].binding
           && next.records[id].issuanceEpoch == s.records[id].issuanceEpoch) {
        IssuedIsBound(s, ev.derivation);
      }
    }
  }

  /** What a commit needs and what it moves. */
  lemma {:induction false} CommitMoves(w: World, s: System, c: Capability)
    requires Fits(s.mesh) && Verdict(w.domain, s.mesh, s.records, c) == Committed
    ensures var e := EdgeOf(c.binding);
            && Known(w.domain, s.records, c)
            && RecordsAfter(w.domain, s.mesh, s.records, c) == s.records[c.id := s.records[c.id].(state := Consumed)]
            && e in s.mesh.relationships
            && s.mesh.relationships[e].lineage == c.binding.stateVersion < s.mesh.nextLineage
            && var next := MeshAfter(w.domain, s.mesh, s.records, c);
               && next.relationships ==
                   s.mesh.relationships[e := s.mesh.relationships[e].(lineage := s.mesh.nextLineage)]
               && next.nextLineage == s.mesh.nextLineage + 1
  {
    CommitFindsBridge(w, s, c);
  }

  lemma {:induction false} PushLogged(log: seq<Entry>, records: map<nat, LedgerRecord>, nextLineage: nat, entry: Entry)
    requires Logged(log, records, nextLineage)
    requires entry.id in records && records[entry.id].state != Consumed
    requires entry.version < nextLineage == entry.newVersion
    requires forall k :: 0 <= k < |log| ==> log[k].version != entry.version
    ensures Logged(log + [entry], records[entry.id := records[entry.id].(state := Consumed)], nextLineage + 1)
  {
  }

  lemma {:induction false} PushSpent(log: seq<Entry>, relationships: map<Edge, Lifecycle>, e: Edge, record: Lifecycle,
                                     entry: Entry)
    requires Spent(log, relationships) && Distinct(relationships)
    requires e in relationships && relationships[e].lineage == entry.version != record.lineage
    requires forall k :: 0 <= k < |log| ==> log[k].version != record.lineage
    ensures Spent(log + [entry], relationships[e := record])
  {
    var longer, after := log + [entry], relationships[e := record];
    forall k, f | 0 <= k < |longer| && f in after ensures after[f].lineage != longer[k].version {
      assert f != e ==> Apart(relationships[e], relationships[f]);
    }
  }

  lemma {:induction false} ConsumedStays(w: World, s: System, ev: Event)
    requires !Commits(w, s, ev)
    ensures forall id :: id in s.records && s.records[id].state == Consumed ==>
      id in RecordsOf(w, s, ev) && RecordsOf(w, s, ev)[id].state == Consumed
  {
    hide Establish, Policy, LiveVerdict;
  }

  lemma {:induction false} StaysLogged(log: seq<Entry>, records: map<nat, LedgerRecord>,
                                       after: map<nat, LedgerRecord>, n: nat, p: nat)
    requires Logged(log, records, n) && n <= p
    requires forall id :: id in records && records[id].state == Consumed ==> id in after && after[id].state == Consumed
    ensures Logged(log, after, p)
  {
  }

  lemma {:induction false} StaysSpent(m: Mesh, next: Mesh, log: seq<Entry>, records: map<nat, LedgerRecord>)
    requires Logged(log, records, m.nextLineage) && Spent(log, m.relationships) && Evolves(m, next)
    ensures Spent(log, next.relationships)
  {
    forall k, e | 0 <= k < |log| && e in next.relationships ensures next.relationships[e].lineage != log[k].version {
      assert Descends(m, next, e);
    }
  }

  lemma {:induction false} CommitLogged(w: World, s: System, c: Capability)
    requires Fits(s.mesh) && Verdict(w.domain, s.mesh, s.records, c) == Committed
    requires Logged(s.log, s.records, s.mesh.nextLineage) && Spent(s.log, s.mesh.relationships)
    ensures var after := MeshAfter(w.domain, s.mesh, s.records, c);
            && Logged(s.log + [EntryOf(s, c)], RecordsAfter(w.domain, s.mesh, s.records, c), after.nextLineage)
            && Spent(s.log + [EntryOf(s, c)], after.relationships)
  {
    var e := EdgeOf(c.binding);
    CommitMoves(w, s, c);
    assert Distinct(s.mesh.relationships);
    hide Fits, MeshAfter, RecordsAfter, Verdict, LiveVerdict;
    PushLogged(s.log, s.records, s.mesh.nextLineage, EntryOf(s, c));
    PushSpent(s.log, s.mesh.relationships, e, s.mesh.relationships[e].(lineage := s.mesh.nextLineage), EntryOf(s, c));
  }

  lemma {:induction false} NextLogged(w: World, s: System, ev: Event)
    requires w.metric.Valid() && SystemInv(s)
    ensures var next := Next(w, s, ev);
            Logged(next.log, next.records, next.mesh.nextLineage) && Spent(next.log, next.mesh.relationships)
  {
    NextMesh(w, s, ev);
    hide Operate, Historic, Bound, Inv, Runnable, Descends, Logged, Spent, MeshAfter, RecordsAfter, Verdict, Retire,
      Establish, Policy, CanDerive, FindingsOf;
    if Commits(w, s, ev) {
      CommitLogged(w, s, ev.capability);
    } else {
      var next := Next(w, s, ev);
      ConsumedStays(w, s, ev);
      StaysSpent(s.mesh, next.mesh, s.log, s.records);
      StaysLogged(s.log, s.records, next.records, s.mesh.nextLineage, next.mesh.nextLineage);
    }
  }

  /** What becomes of the ledger's identities: an event adds at most the token of a derivation. */
  lemma {:induction false} RecordsAdd(w: World, s: System, ev: Event)
    ensures RecordsOf(w, s, ev).Keys ==
       s.records.Keys + (if ev.DerivedAuthority? && Grants(s, ev.derivation) then {ev.derivation.token} else {})
  {
    hide Grants, FindingsOf, LiveVerdict, Policy;
  }

  lemma {:induction false} NextSupplied(w: World, s: System, ev: Event)
    requires Fits(s.mesh) && Supplied(s)
    ensures Supplied(Next(w, s, ev))
  {
    hide Fits, Operate, MeshAfter, Grants, RecordsOf, Verdict, Tokens.RunAll;
    RecordsAdd(w, s, ev);
    var next := Next(w, s, ev);
    if ev.Allocated? {
      ReturnedStays(s.tokens, [ev.action]);
      var before, after := TokensReturned(s.tokens), TokensReturned(next.tokens);
      if |after| > |before| {
        DerivationNeverCollides(s.records, s.tokens, [ev.action], |after| - 1);
      }
    }
    forall id | id in next.records ensures id in TokensReturned(next.tokens) {
      if id in s.records {
        assert id in TokensReturned(s.tokens);
      } else {
        GrantedIsClaimed(s, ev.derivation);
      }
    }
  }

  lemma {:induction false} GrantedIsClaimed(s: System, d: DerivationRun)
    requires Grants(s, d)
    ensures d.token in s.claims
  {
  }

  lemma {:induction false} NextInv(w: World, s: System, ev: Event)
    requires w.metric.Valid() && SystemInv(s)
    ensures SystemInv(Next(w, s, ev))
  {
    hide Next, Fits, Bound, Logged, Spent, Historic, Supplied;
    NextSupplied(w, s, ev);
    NextMesh(w, s, ev);
    NextBound(w, s, ev);
    NextLogged(w, s, ev);
    NextHistoric(w, s, ev);
  }

  /** The system after a run; the invariant holds after every run. */
  ghost function RunAll(w: World, s: System, events: seq<Event>): (r: System)
    requires w.metric.Valid() && SystemInv(s)
    ensures SystemInv(r)
    decreases |events|
  {
    if events == [] then s
    else
      NextInv(w, s, events[0]);
      RunAll(w, Next(w, s, events[0]), events[1..])
  }

  /** The system that a run reaches from an empty mesh and an empty ledger. */
  ghost function Reached(w: World, events: seq<Event>): System
    requires w.metric.Valid()
  {
    StartInv();
    RunAll(w, Start(), events)
  }

  lemma {:induction false} FitsOf(s: System)
    requires SystemInv(s)
    ensures Fits(s.mesh)
  {
  }

  lemma {:induction false} RunFirst(w: World, s: System, events: seq<Event>)
    requires w.metric.Valid() && SystemInv(s) && events != []
    ensures Fits(s.mesh) && SystemInv(Next(w, s, events[0]))
    ensures RunAll(w, s, events) == RunAll(w, Next(w, s, events[0]), events[1..])
  {
    hide SystemInv, Next, Fits;
    FitsOf(s);
    NextInv(w, s, events[0]);
  }

  lemma {:induction false} RunNone(w: World, s: System)
    requires w.metric.Valid() && SystemInv(s)
    ensures RunAll(w, s, []) == s
  {
    hide SystemInv, Next, Fits;
  }

  lemma {:induction false} RunSplits(w: World, s: System, first: seq<Event>, second: seq<Event>)
    requires w.metric.Valid() && SystemInv(s)
    ensures RunAll(w, s, first + second) == RunAll(w, RunAll(w, s, first), second)
    decreases |first|
  {
    hide SystemInv, Next, Fits, RunAll;
    if first == [] {
      assert first + second == second;
      RunNone(w, s);
    } else {
      assert (first + second)[1..] == first[1..] + second && (first + second)[0] == first[0];
      RunFirst(w, s, first);
      RunFirst(w, s, first + second);
      RunSplits(w, Next(w, s, first[0]), first[1..], second);
    }
  }

  // ---------------------------------------------------------------- reachable meshes

  /** Both indexes agree and all numbers are unique in every reachable mesh. */
  lemma {:induction false} ReachableInv(w: World, events: seq<Event>)
    requires w.metric.Valid()
    ensures Inv(Reached(w, events).mesh)
  {
    StartInv();
  }

  /** A duplicate need only be looked for in one direction, and no record is ever in the way of
      a connection that the bridges allow. */
  lemma {:induction false} OneDirectionSuffices(m: Mesh, a: nat, b: nat)
    requires Inv(m)
    ensures HasBridge(m.nodes, a, b) == HasBridge(m.nodes, b, a)
         == ((a, b) in m.relationships) == ((b, a) in m.relationships)
  {
    assert HasBridge(m.nodes, a, b) ==> HasBridge(m.nodes, b, a);
    assert HasBridge(m.nodes, b, a) ==> HasBridge(m.nodes, a, b);
  }

  // ---------------------------------------------------------------- maximum principle

  function Shocks(events: seq<Event>): nat {
    if events == [] then 0 else (if events[0].Shocked? then 1 else 0) + Shocks(events[1..])
  }

  ghost predicate BaselinesIn(events: seq<Event>, lo: real, hi: real) {
    forall k :: 0 <= k < |events| && events[k].AddedNode? ==> lo <= events[k].baseline <= hi
  }

  ghost predicate InWidenedBand(m: Mesh, lo: real, hi: real, k: nat) {
    InBand(m.nodes, lo - REFLEX_STEP * (k as real), hi + REFLEX_STEP * (k as real))
  }

  lemma {:induction false} SameStatesAfterConnect(metric: Metric, m: Mesh, pairs: seq<Pair>)
    requires |m.incarnations| == |m.nodes| && AllInRange(m, pairs)
    ensures forall i :: 0 <= i < |m.nodes| ==> ConnectAll(metric, m, pairs).nodes[i].state == m.nodes[i].state
  {
    var next := ConnectAll(metric, m, pairs);
    forall i | 0 <= i < |m.nodes| ensures next.nodes[i].state == m.nodes[i].state {
      assert next.nodes[i].(bridges := []).state == m.nodes[i].(bridges := []).state;
    }
  }

  lemma {:induction false} SingleInBand(metric: Metric, m: Mesh, a: int, b: int, lo: real, hi: real)
    requires |m.incarnations| == |m.nodes| && InBand(m.nodes, lo, hi)
    ensures InBand(Connect(metric, m, a, b).nodes, lo, hi)
  {
    hide StableAlpha, OrientationFactor, HasBridge;
  }

  lemma {:induction false} ConnectInBand(metric: Metric, m: Mesh, ev: Event, lo: real, hi: real)
    requires Fits(m) && InBand(m.nodes, lo, hi)
    requires ev.Connected? || ev.ConnectedBatch? || ev.AutoConnected?
    ensures InBand(Operate(metric, m, ev).nodes, lo, hi)
  {
    hide Runnable, Linked, Symmetric, Calibrated, Indexed, Incarnated, Bounded, Distinct, Connect, StableAlpha;
    match ev {
      case Connected(a, b) => SingleInBand(metric, m, a, b, lo, hi);
      case ConnectedBatch(pairs) =>
        if BatchAdmissible(metric, m, pairs) {
          SameStatesAfterConnect(metric, m, pairs);
        }
      case AutoConnected(radius) =>
        hide AllFinite, Nearby, StableAlpha;
        if AllInRange(m, Nearby(metric, m.nodes, radius, 0)) {
          SameStatesAfterConnect(metric, m, Nearby(metric, m.nodes, radius, 0));
        }
    }
  }

  lemma {:induction false} ShockInBand(m: Mesh, target: int, magnitude: real, lo: real, hi: real)
    requires InBand(m.nodes, lo, hi)
    ensures InBand(Shock(m, target, magnitude).nodes, lo - REFLEX_STEP, hi + REFLEX_STEP)
  {
    if 0 <= target < |m.nodes| {
      ReflexBounded(m.nodes[target].state, m.nodes[target].state + magnitude);
    }
  }

  lemma {:induction false} GateInBand(m: Mesh, e: Edge, evidence: real, renewed: bool)
    ensures Evolve(m, e, evidence, renewed).nodes == m.nodes && ResetGate(m, e, renewed).nodes == m.nodes
  {
  }

  lemma {:induction false} PruneInBand(m: Mesh, threshold: real, lo: real, hi: real)
    requires InBand(m.nodes, lo, hi)
    ensures InBand(Prune(m, threshold).nodes, lo, hi)
  {
  }

  lemma {:induction false} CommitInBand(m: Mesh, e: Edge, direction: TransitionDirection, lo: real, hi: real)
    requires InBand(m.nodes, lo, hi) && e in m.relationships && HasBridge(m.nodes, e.0, e.1)
    ensures InBand(Commit(m, e, direction).nodes, lo, hi)
  {
  }

  lemma {:induction false} NextInBand(w: World, s: System, ev: Event, lo: real, hi: real)
    requires w.metric.Valid() && Fits(s.mesh) && InBand(s.mesh.nodes, lo, hi)
    requires ev.AddedNode? ==> lo <= ev.baseline <= hi
    ensures var width := if ev.Shocked? then REFLEX_STEP else 0.0;
            InBand(Next(w, s, ev).mesh.nodes, lo - width, hi + width)
  {
    hide Fits, Inv, Runnable, Commit, StepNodes, Prune, Shock, Evolve, ResetGate, Verdict, RecordsOf;
    match ev {
      case Connected(a, b) => ConnectInBand(w.metric, s.mesh, ev, lo, hi);
      case ConnectedBatch(pairs) => ConnectInBand(w.metric, s.mesh, ev, lo, hi);
      case AutoConnected(radius) => ConnectInBand(w.metric, s.mesh, ev, lo, hi);
      case Pruned(threshold) => PruneInBand(s.mesh, threshold, lo, hi);
      case Shocked(target, magnitude) => ShockInBand(s.mesh, target, magnitude, lo, hi);
      case Stepped => FitsStepInBand(s.mesh, lo, hi);
      case Observed(edge, evidence, renewed) => GateInBand(s.mesh, edge, evidence, renewed);
      case GateReset(edge, renewed) => GateInBand(s.mesh, edge, 0.0, renewed);
      case CommitAttempted(c) =>
        var e := EdgeOf(c.binding);
        if e in s.mesh.relationships && HasBridge(s.mesh.nodes, e.0, e.1) {
          CommitInBand(s.mesh, e, c.binding.direction, lo, hi);
        }
      case _ =>
    }
  }

  lemma {:induction false} FitsStepInBand(m: Mesh, lo: real, hi: real)
    requires Fits(m) && InBand(m.nodes, lo, hi)
    ensures InBand(StepNodes(m.nodes, m.alpha), lo, hi)
  {
    StepInBand(m, lo, hi);
  }

  lemma {:induction false} Widen(k: nat)
    ensures REFLEX_STEP * ((k + 1) as real) == REFLEX_STEP * (k as real) + REFLEX_STEP
    ensures REFLEX_STEP * (k as real) >= 0.0
  {
  }

  /** From states and baselines in a band, any run with k shocks keeps every state within the band
      widened by 3.5 per shock; with no shock, within the band itself. */
  lemma {:induction false} MaximumPrinciple(w: World, s: System, events: seq<Event>, lo: real, hi: real, k: nat)
    requires w.metric.Valid() && SystemInv(s) && BaselinesIn(events, lo, hi)
    requires InWidenedBand(s.mesh, lo, hi, k)
    ensures InWidenedBand(RunAll(w, s, events).mesh, lo, hi, k + Shocks(events))
    decreases |events|
  {
    hide SystemInv, Next, Fits;
    if events != [] {
      var ev := events[0];
      FitsOf(s);
      Widen(k);
      StepOfBand(w, s, ev, lo, hi, k);
      NextInv(w, s, ev);
      assert BaselinesIn(events[1..], lo, hi) by {
        assert forall i :: 0 <= i < |events[1..]| ==> events[1..][i] == events[i + 1];
      }
      MaximumPrinciple(w, Next(w, s, ev), events[1..], lo, hi, k + if ev.Shocked? then 1 else 0);
    }
  }

  /** In particular, after any run from an empty mesh, states have left the band of the baselines by
      at most 3.5 per shock. */
  lemma {:induction false} StatesStayInBand(w: World, events: seq<Event>, lo: real, hi: real)
    requires w.metric.Valid() && BaselinesIn(events, lo, hi)
    ensures InBand(Reached(w, events).mesh.nodes, lo - REFLEX_STEP * (Shocks(events) as real),
                   hi + REFLEX_STEP * (Shocks(events) as real))
  {
    hide SystemInv, Next, Fits;
    StartInv();
    MaximumPrinciple(w, Start(), events, lo, hi, 0);
  }

  lemma {:induction false} StepOfBand(w: World, s: System, ev: Event, lo: real, hi: real, k: nat)
    requires w.metric.Valid() && SystemInv(s) && (ev.AddedNode? ==> lo <= ev.baseline <= hi)
    requires InWidenedBand(s.mesh, lo, hi, k)
    ensures InWidenedBand(Next(w, s, ev).mesh, lo, hi, k + if ev.Shocked? then 1 else 0)
  {
    hide Next;
    Widen(k);
    NextInBand(w, s, ev, lo - REFLEX_STEP * (k as real), hi + REFLEX_STEP * (k as real));
  }

  // ---------------------------------------------------------------- capabilities

  /** Over any run: no capability commits twice, no version is committed from twice, and every
      commit moves its edge to a version later than any before. */
  lemma {:induction false} CommitsAreLinear(w: World, events: seq<Event>, k: nat, l: nat)
    requires w.metric.Valid() && k < l < |Reached(w, events).log|
    ensures var log := Reached(w, events).log;
            && log[k].id != log[l].id
            && (log[k].generation, log[k].version) != (log[l].generation, log[l].version)
            && log[k].newVersion < log[l].newVersion
            && log[k].version < log[k].newVersion
  {
    StartInv();
  }

  /** Two capabilities for one version of one relationship: once one has committed, the other
      never does. */
  lemma {:induction false} SecondNeverCommits(w: World, s: System, events: seq<Event>, k: nat, c: Capability)
    requires w.metric.Valid() && SystemInv(s) && k < |s.log| && c.binding.stateVersion == s.log[k].version
    ensures !Commits(w, RunAll(w, s, events), CommitAttempted(c))
    decreases |events|
  {
    hide SystemInv, Next, Commits, Fits;
    FitsOf(s);
    if events == [] {
      VersionIsSpent(w, s, k, c);
    } else {
      NextInv(w, s, events[0]);
      LogGrows(w, s, events[0]);
      SecondNeverCommits(w, Next(w, s, events[0]), events[1..], k, c);
    }
  }

  lemma {:induction false} VersionIsSpent(w: World, s: System, k: nat, c: Capability)
    requires SystemInv(s) && k < |s.log| && c.binding.stateVersion == s.log[k].version
    ensures !Commits(w, s, CommitAttempted(c))
  {
    if Commits(w, s, CommitAttempted(c)) {
      CommitMoves(w, s, c);
    }
  }

  lemma {:induction false} LogGrows(w: World, s: System, ev: Event)
    requires Fits(s.mesh)
    ensures s.log <= Next(w, s, ev).log
  {
  }

  /** A refused commit leaves the mesh as it was, and in the ledger at most spends the one
      capability that was tried. */
  lemma {:induction false} RefusalChangesNothing(w: World, s: System, c: Capability)
    requires Fits(s.mesh) && !Commits(w, s, CommitAttempted(c))
    ensures var next := Next(w, s, CommitAttempted(c));
            && next.mesh == s.mesh
            && next.log == s.log
            && next.records.Keys == s.records.Keys
            && forall id :: id in s.records && (id != c.id || s.records[id].state != Issued) ==>
                next.records[id] == s.records[id]
  {
  }

  /** In every reachable system a derivation that issues also registers: its token is new to the
      ledger, so the refusal of a known identity never happens. */
  lemma {:induction false} IssuingRegisters(w: World, events: seq<Event>, d: DerivationRun)
    requires w.metric.Valid() && Grants(Reached(w, events), d)
    ensures var s := Reached(w, events);
            && d.token !in s.records
            && Next(w, s, DerivedAuthority(d)).records
               == s.records[d.token := LedgerRecord(d.request, FindingsOf(s, d).epoch, Issued)]
            && d.token !in Next(w, s, DerivedAuthority(d)).claims
  {
    hide Reached, SystemInv, Fits, Next, Grants;
    ReachedInv(w, events);
    FitsOf(Reached(w, events));
    GrantRegisters(w, Reached(w, events), d);
  }

  lemma {:induction false} GrantRegisters(w: World, s: System, d: DerivationRun)
    requires SystemInv(s) && Fits(s.mesh) && Grants(s, d)
    ensures d.token !in s.records && CanDerive(s, d)
    ensures Next(w, s, DerivedAuthority(d)).records
         == s.records[d.token := LedgerRecord(d.request, FindingsOf(s, d).epoch, Issued)]
    ensures d.token !in Next(w, s, DerivedAuthority(d)).claims
  {
    hide Fits, FindingsOf, Policy, Bound, Logged, Spent, Historic, Operate, Verdict, FromAllocator, TokensReturned;
  }

  lemma {:induction false} ReachedInv(w: World, events: seq<Event>)
    requires w.metric.Valid()
    ensures SystemInv(Reached(w, events))
  {
    StartInv();
  }

  /** Any attempt spends an issued capability: it will never commit afterwards. */
  lemma {:induction false} AttemptSpends(w: World, s: System, c: Capability)
    requires w.metric.Valid() && SystemInv(s) && Known(w.domain, s.records, c)
    ensures Next(w, s, CommitAttempted(c)).records[c.id].state
         == if Commits(w, s, CommitAttempted(c)) then Consumed else Invalidated
  {
  }

  /** Whether the ledger's record of a capability names the generation its edge has now. */
  ghost predicate GenerationLive(s: System, id: nat)
    requires id in s.records
  {
    var b := s.records[id].binding;
    EdgeOf(b) in s.mesh.relationships && s.mesh.relationships[EdgeOf(b)].generation == b.relationship.generation
  }

  lemma {:induction false} GenerationStaysDead(w: World, s: System, ev: Event, id: nat)
    requires w.metric.Valid() && SystemInv(s) && id in s.records && !GenerationLive(s, id)
    ensures id in Next(w, s, ev).records && !GenerationLive(Next(w, s, ev), id)
  {
    NextMesh(w, s, ev);
    hide Operate, MeshAfter, Inv, Runnable, Establish, Policy, LiveVerdict, FindingsOf, Logged, Spent, Historic;
    var next := Next(w, s, ev);
    assert id in next.records && next.records[id].binding == s.records[id].binding;
    assert Descends(s.mesh, next.mesh, EdgeOf(s.records[id].binding));
  }

  /** A capability whose relationship has been pruned never commits, even if its nodes are
      connected again. */
  lemma {:induction false} PrunedNeverCommits(w: World, s: System, events: seq<Event>, id: nat, c: Capability)
    requires w.metric.Valid() && SystemInv(s) && id in s.records && !GenerationLive(s, id) && c.id == id
    ensures !Commits(w, RunAll(w, s, events), CommitAttempted(c))
    decreases |events|
  {
    hide SystemInv, Next, GenerationLive, Commits, Fits;
    FitsOf(s);
    if events == [] {
      DeadCannotCommit(w, s, c);
    } else {
      NextInv(w, s, events[0]);
      GenerationStaysDead(w, s, events[0], id);
      PrunedNeverCommits(w, Next(w, s, events[0]), events[1..], id, c);
    }
  }

  lemma {:induction false} DeadCannotCommit(w: World, s: System, c: Capability)
    requires SystemInv(s) && c.id in s.records && !GenerationLive(s, c.id)
    ensures !Commits(w, s, CommitAttempted(c))
  {
  }

  /** Exactly when a known capability commits. */
  lemma {:induction false} CommitsIff(w: World, s: System, c: Capability)
    requires SystemInv(s) && Known(w.domain, s.records, c)
    ensures Commits(w, s, CommitAttempted(c)) <==>
      && c.binding == s.records[c.id].binding && c.issuanceEpoch == s.records[c.id].issuanceEpoch
      && GenerationLive(s, c.id)
      && s.mesh.relationships[EdgeOf(c.binding)].lineage == c.binding.stateVersion
      && c.binding.transitionClass == TRANSITION_CONTRACT
      && !c.binding.direction.Unrecognised?
      && s.mesh.nextLineage != Tokens.MAX_U64
  {
  }
}
