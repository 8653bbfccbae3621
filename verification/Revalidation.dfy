/**
 Snapshots of a relationship against whatever the mesh does between capture and revalidation,
 and the evaluation that relies on them.
 */
module Revalidation {
  import opened Dynamics
  import opened MeshState
  import opened Connecting
  import opened Diffusion
  import opened Authority
  import opened Runs
  import Persistence

  /** What moves an edge out of reach of a snapshot for good: a pruning that drops it, a commit on
      it, or an observation or reset that changes its gate under a new identity. */
  ghost predicate Moves(w: World, s: System, ev: Event, e: Edge)
    requires Fits(s.mesh)
  {
    e in s.mesh.relationships &&
    match ev
    case Pruned(threshold) => e !in Prune(s.mesh, threshold).relationships
    case CommitAttempted(c) => Commits(w, s, ev) && EdgeOf(c.binding) == e
    case Observed(edge, evidence, renewed) =>
      edge == e && renewed && GateNext(s.mesh.relationships[e].persistence.gate, ev, e)
                              != s.mesh.relationships[e].persistence.gate
    case GateReset(edge, renewed) =>
      edge == e && renewed && GateNext(s.mesh.relationships[e].persistence.gate, ev, e)
                              != s.mesh.relationships[e].persistence.gate
    case _ => false
  }

  ghost predicate Unmoved(w: World, s: System, events: seq<Event>, e: Edge)
    requires w.metric.Valid() && SystemInv(s)
    decreases |events|
  {
    events == [] ||
    (&& !Moves(w, s, events[0], e)
     && (NextInv(w, s, events[0]);
         Unmoved(w, Next(w, s, events[0]), events[1..], e)))
  }

  /** What an event makes of the gate of an edge that stays. */
  function GateNext(gate: Persistence.Gate, ev: Event, e: Edge): Persistence.Gate {
    match ev
    case Observed(edge, evidence, _) => if edge == e then Persistence.Step(GATE_CONFIG, gate, evidence) else gate
    case GateReset(edge, _) => if edge == e then Persistence.Fresh(Persistence.Preserve) else gate
    case _ => gate
  }

  function GateAfter(gate: Persistence.Gate, events: seq<Event>, e: Edge): Persistence.Gate
    decreases |events|
  {
    if events == [] then gate else GateAfter(GateNext(gate, events[0], e), events[1..], e)
  }

  // ---------------------------------------------------------------- what keeps a record

  lemma {:induction false} ConnectAllKeeps(metric: Metric, m: Mesh, pairs: seq<Pair>, e: Edge)
    requires |m.incarnations| == |m.nodes| && AllInRange(m, pairs) && e in m.relationships
    requires !Listed(pairs, e.0, e.1)
    ensures e in ConnectAll(metric, m, pairs).relationships
    ensures ConnectAll(metric, m, pairs).relationships[e] == m.relationships[e]
    decreases |pairs|
  {
    if pairs != [] {
      var n := |pairs| - 1;
      ConnectAllKeeps(metric, m, pairs[..n], e);
      assert !SamePair(pairs[n], (e.0, e.1));
    }
  }

  lemma {:induction false} BatchSparesEdges(metric: Metric, m: Mesh, pairs: seq<Pair>, e: Edge)
    requires Inv(m) && BatchAdmissible(metric, m, pairs) && e in m.relationships
    ensures !Listed(pairs, e.0, e.1)
  {
    assert (e.0, e.1) in m.relationships;
    assert HasBridge(m.nodes, e.0, e.1) && HasBridge(m.nodes, e.1, e.0);
    ListedIff(pairs, e.0, e.1);
    hide HasBridge;
  }

  lemma {:induction false} PairsKeep(metric: Metric, m: Mesh, pairs: seq<Pair>, e: Edge)
    requires Inv(m) && AllInRange(m, pairs) && BatchAdmissible(metric, m, pairs) && e in m.relationships
    ensures e in ConnectAll(metric, m, pairs).relationships
    ensures ConnectAll(metric, m, pairs).relationships[e] == m.relationships[e]
  {
    BatchSparesEdges(metric, m, pairs, e);
    hide Inv, BatchAdmissible;
    ConnectAllKeeps(metric, m, pairs, e);
  }

  lemma {:induction false} BatchKeeps(metric: Metric, m: Mesh, pairs: seq<Pair>, e: Edge)
    requires Inv(m) && e in m.relationships
    ensures e in ConnectBatch(metric, m, pairs).relationships
    ensures ConnectBatch(metric, m, pairs).relationships[e] == m.relationships[e]
  {
    hide Inv, HasBridge;
    if BatchAdmissible(metric, m, pairs) {
      PairsKeep(metric, m, pairs, e);
    }
  }

  lemma {:induction false} AutoRecords(metric: Metric, m: Mesh, radius: real)
    requires |m.incarnations| == |m.nodes|
    ensures var pairs := Nearby(metric, m.nodes, radius, 0);
            || AutoConnect(metric, m, radius).relationships == m.relationships
            || (AllFinite(metric, m.nodes) && AllInRange(m, pairs)
                && AutoConnect(metric, m, radius).relationships == ConnectAll(metric, m, pairs).relationships)
  {
    hide ConnectAll, Nearby, AllFinite, AllInRange, StableAlpha;
  }

  lemma {:induction false} AutoKeeps(metric: Metric, m: Mesh, radius: real, e: Edge)
    requires Inv(m) && e in m.relationships
    ensures e in AutoConnect(metric, m, radius).relationships
    ensures AutoConnect(metric, m, radius).relationships[e] == m.relationships[e]
  {
    AutoRecords(metric, m, radius);
    hide Inv, BatchAdmissible, Nearby, AllInRange, AllFinite, ConnectAll, AutoConnect;
    if AllFinite(metric, m.nodes) {
      NearbyIsBatch(metric, m, radius);
      PairsKeep(metric, m, Nearby(metric, m.nodes, radius, 0), e);
    }
  }

  lemma {:induction false} ConnectionKeeps(metric: Metric, m: Mesh, ev: Event, e: Edge)
    requires Fits(m) && e in m.relationships
    requires ev.Connected? || ev.ConnectedBatch? || ev.AutoConnected?
    ensures e in Operate(metric, m, ev).relationships
    ensures Operate(metric, m, ev).relationships[e] == m.relationships[e]
  {
    FitsIsInv(m);
    hide Fits, Inv, Connect, ConnectBatch, AutoConnect;
    match ev {
      case Connected(a, b) => SingleKeeps(metric, m, a, b, e);
      case ConnectedBatch(pairs) => BatchKeeps(metric, m, pairs, e);
      case AutoConnected(radius) => AutoKeeps(metric, m, radius, e);
    }
  }

  lemma {:induction false} FitsIsInv(m: Mesh)
    requires Fits(m)
    ensures Inv(m)
  {
  }

  lemma {:induction false} SingleKeeps(metric: Metric, m: Mesh, a: int, b: int, e: Edge)
    requires Inv(m) && e in m.relationships
    ensures e in Connect(metric, m, a, b).relationships
    ensures Connect(metric, m, a, b).relationships[e] == m.relationships[e]
  {
    assert (e.0, e.1) in m.relationships;
    assert HasBridge(m.nodes, e.0, e.1) && HasBridge(m.nodes, e.1, e.0);
    hide HasBridge, StableAlpha, OrientationFactor;
  }

  function WithGate(record: Lifecycle, gate: Persistence.Gate): Lifecycle {
    record.(persistence := record.persistence.(gate := gate))
  }

  /** Whatever does not move an edge leaves its record alone, but for the state of its gate. */
  lemma {:induction false} QuietKeeps(w: World, s: System, ev: Event, e: Edge)
    requires Fits(s.mesh) && e in s.mesh.relationships && !Moves(w, s, ev, e)
    ensures e in Next(w, s, ev).mesh.relationships
    ensures var record := s.mesh.relationships[e];
            Next(w, s, ev).mesh.relationships[e] == WithGate(record, GateNext(record.persistence.gate, ev, e))
  {
    hide Fits, Next, Moves, Operate, MeshAfter, Persistence.Step;
    NextMeshIs(w, s, ev);
    if ev.Connected? || ev.ConnectedBatch? || ev.AutoConnected? {
      ConnectionKeeps(w.metric, s.mesh, ev, e);
    } else if ev.CommitAttempted? {
      QuietCommitKeeps(w, s, ev.capability, e);
    } else {
      OthersKeep(w, s, ev, e);
    }
  }

  lemma {:induction false} NextMeshIs(w: World, s: System, ev: Event)
    requires Fits(s.mesh)
    ensures Next(w, s, ev).mesh ==
      if ev.CommitAttempted? then MeshAfter(w.domain, s.mesh, s.records, ev.capability)
      else Operate(w.metric, s.mesh, ev)
  {
    hide Fits, Operate, MeshAfter, RecordsOf, Verdict, ClaimsOf;
  }

  lemma {:induction false} QuietCommitKeeps(w: World, s: System, c: Capability, e: Edge)
    requires Fits(s.mesh) && e in s.mesh.relationships && !Moves(w, s, CommitAttempted(c), e)
    ensures e in MeshAfter(w.domain, s.mesh, s.records, c).relationships
    ensures MeshAfter(w.domain, s.mesh, s.records, c).relationships[e] == s.mesh.relationships[e]
  {
    hide Fits, RecordsAfter, LiveVerdict, Commit;
    if Commits(w, s, CommitAttempted(c)) {
      CommitMoves(w, s, c);
    }
  }

  lemma {:induction false} OthersKeep(w: World, s: System, ev: Event, e: Edge)
    requires Fits(s.mesh) && e in s.mesh.relationships && !Moves(w, s, ev, e)
    requires !ev.Connected? && !ev.ConnectedBatch? && !ev.AutoConnected? && !ev.CommitAttempted?
    ensures e in Operate(w.metric, s.mesh, ev).relationships
    ensures var record := s.mesh.relationships[e];
            Operate(w.metric, s.mesh, ev).relationships[e] == WithGate(record, GateNext(record.persistence.gate, ev, e))
  {
    hide StepNodes, Inv, PrunedNodes, StableAlpha, Persistence.Step;
  }

  // ---------------------------------------------------------------- what a move does

  /** The snapshot's numbers are past: its edge has no record, or one that has moved on. */
  ghost predicate Gone(m: Mesh, s: Snapshot) {
    var e := (s.relationship.source, s.relationship.target);
    && s.relationship.generation < m.nextGeneration
    && s.lineage < m.nextLineage
    && s.persistence.identity < m.nextIdentity
    && (e in m.relationships ==>
          || m.relationships[e].generation != s.relationship.generation
          || m.relationships[e].lineage > s.lineage
          || m.relationships[e].persistence.identity > s.persistence.identity)
  }

  lemma {:induction false} GoneStays(m: Mesh, next: Mesh, s: Snapshot)
    requires Gone(m, s) && Evolves(m, next)
    ensures Gone(next, s)
  {
    assert Descends(m, next, (s.relationship.source, s.relationship.target));
  }

  lemma {:induction false} GoneIsStale(m: Mesh, s: Snapshot)
    requires Gone(m, s)
    ensures !Revalidates(m, s)
  {
  }

  ghost function SnapshotOf(m: Mesh, e: Edge): Snapshot
    requires e in m.relationships
  {
    Capture(m, IdentityOf(e, m.relationships[e])).value
  }

  lemma {:induction false} MovedIsGone(w: World, s: System, ev: Event, e: Edge)
    requires Fits(s.mesh) && e in s.mesh.relationships && Moves(w, s, ev, e)
    ensures Gone(Next(w, s, ev).mesh, SnapshotOf(s.mesh, e))
  {
    hide Fits, Next, Moves, Operate, MeshAfter, Gone;
    NextMeshIs(w, s, ev);
    if ev.CommitAttempted? {
      CommitMovesOn(w, s, ev.capability, e);
    } else {
      OperationMovesOn(w, s, ev, e);
    }
  }

  lemma {:induction false} OperationMovesOn(w: World, s: System, ev: Event, e: Edge)
    requires Fits(s.mesh) && e in s.mesh.relationships && Moves(w, s, ev, e) && !ev.CommitAttempted?
    ensures Gone(Operate(w.metric, s.mesh, ev), SnapshotOf(s.mesh, e))
  {
    hide Fits, Verdict, ConnectBatch, AutoConnect, Connect, AddNode, Shock, StepNodes, Prune, Evolve, ResetGate,
      GateNext;
    FitsBounded(s.mesh);
    match ev {
      case Pruned(threshold) => PruneKeepsCounters(s.mesh, threshold);
      case Observed(edge, evidence, renewed) => ObservedMovesOn(s.mesh, ev, e);
      case GateReset(edge, renewed) => ObservedMovesOn(s.mesh, ev, e);
      case _ =>
    }
  }

  lemma {:induction false} FitsBounded(m: Mesh)
    requires Fits(m)
    ensures Bounded(m)
  {
  }

  lemma {:induction false} PruneKeepsCounters(m: Mesh, threshold: real)
    ensures var next := Prune(m, threshold);
            && next.nextGeneration == m.nextGeneration
            && next.nextLineage == m.nextLineage
            && next.nextIdentity == m.nextIdentity
  {
    hide PrunedNodes, StableAlpha, PresentOnly;
  }

  lemma {:induction false} ObservedMovesOn(m: Mesh, ev: Event, e: Edge)
    requires e in m.relationships && (ev.Observed? || ev.GateReset?) && ev.edge == e && ev.renewed
    requires GateNext(m.relationships[e].persistence.gate, ev, e) != m.relationships[e].persistence.gate
    ensures var next := if ev.Observed? then Evolve(m, e, ev.evidence, true) else ResetGate(m, e, true);
            && next.nextGeneration == m.nextGeneration
            && next.nextLineage == m.nextLineage
            && next.nextIdentity == m.nextIdentity + 1
            && e in next.relationships
            && next.relationships[e].persistence.identity == m.nextIdentity
  {
    hide Persistence.Step;
  }

  lemma {:induction false} CommitMovesOn(w: World, s: System, c: Capability, e: Edge)
    requires Fits(s.mesh) && e in s.mesh.relationships && Moves(w, s, CommitAttempted(c), e)
    ensures Gone(MeshAfter(w.domain, s.mesh, s.records, c), SnapshotOf(s.mesh, e))
  {
    hide Fits, Verdict, RecordsAfter, MeshAfter, Known, GateNext, Prune;
    FitsBounded(s.mesh);
    CommitMoves(w, s, c);
    CommitKeepsCounters(w, s, c);
  }

  lemma {:induction false} CommitKeepsCounters(w: World, s: System, c: Capability)
    ensures MeshAfter(w.domain, s.mesh, s.records, c).nextGeneration == s.mesh.nextGeneration
    ensures MeshAfter(w.domain, s.mesh, s.records, c).nextIdentity == s.mesh.nextIdentity
  {
  }

  lemma {:induction false} GoneForever(w: World, s: System, events: seq<Event>, snapshot: Snapshot)
    requires w.metric.Valid() && SystemInv(s) && Gone(s.mesh, snapshot)
    ensures !Revalidates(RunAll(w, s, events).mesh, snapshot)
    decreases |events|
  {
    hide SystemInv, Next, Fits, Gone, Evolves;
    FitsOf(s);
    if events == [] {
      GoneIsStale(s.mesh, snapshot);
    } else {
      NextInv(w, s, events[0]);
      NextMesh(w, s, events[0]);
      GoneStays(s.mesh, Next(w, s, events[0]).mesh, snapshot);
      GoneForever(w, Next(w, s, events[0]), events[1..], snapshot);
    }
  }

  /** The edge still has the generation, lineage and identity of the snapshot; its gate may differ. */
  ghost predicate Stands(m: Mesh, e: Edge, s: Snapshot) {
    && e in m.relationships
    && s.relationship == IdentityOf(e, m.relationships[e])
    && s.lineage == m.relationships[e].lineage
    && s.persistence.identity == m.relationships[e].persistence.identity
  }

  lemma {:induction false} StandingRevalidates(m: Mesh, e: Edge, s: Snapshot)
    requires Stands(m, e, s)
    ensures Revalidates(m, s) <==> m.relationships[e].persistence.gate == s.persistence.gate
  {
  }

  lemma {:induction false} StandingIsGone(m: Mesh, next: Mesh, e: Edge, s: Snapshot)
    requires Stands(m, e, s) && Gone(next, SnapshotOf(m, e))
    ensures Gone(next, s)
  {
  }

  lemma {:induction false} StandsAfter(w: World, s: System, events: seq<Event>, e: Edge, snapshot: Snapshot)
    requires w.metric.Valid() && SystemInv(s) && Stands(s.mesh, e, snapshot)
    ensures Revalidates(RunAll(w, s, events).mesh, snapshot) <==>
      Unmoved(w, s, events, e)
          && GateAfter(s.mesh.relationships[e].persistence.gate, events, e) == snapshot.persistence.gate
    decreases |events|
  {
    hide SystemInv, Next, Fits, Moves, Gone, GateNext, Revalidates;
    FitsOf(s);
    if events == [] {
      StandingRevalidates(s.mesh, e, snapshot);
    } else {
      var ev := events[0];
      NextInv(w, s, ev);
      if Moves(w, s, ev, e) {
        MovedIsGone(w, s, ev, e);
        StandingIsGone(s.mesh, Next(w, s, ev).mesh, e, snapshot);
        GoneForever(w, Next(w, s, ev), events[1..], snapshot);
      } else {
        QuietKeeps(w, s, ev, e);
        StandsAfter(w, Next(w, s, ev), events[1..], e, snapshot);
      }
    }
  }

  /** A snapshot revalidates exactly when nothing moved its edge in between and the gate is back in
      the state it was captured in: even if the edge was reconnected, or its gate changed and
      changed back under new identities, the answer is stale. */
  lemma {:induction false} NoAba(w: World, s: System, events: seq<Event>, e: Edge)
    requires w.metric.Valid() && SystemInv(s) && e in s.mesh.relationships
    ensures var gate := s.mesh.relationships[e].persistence.gate;
            Revalidates(RunAll(w, s, events).mesh, SnapshotOf(s.mesh, e)) <==>
              Unmoved(w, s, events, e) && GateAfter(gate, events, e) == gate
  {
    hide SystemInv, Fits, Moves, GateNext, Revalidates, RunAll, Unmoved, GateAfter;
    StandsAfter(w, s, events, e, SnapshotOf(s.mesh, e));
  }

  /** Every change of a gate got its new identity. */
  ghost predicate AllRenewed(events: seq<Event>) {
    forall k :: 0 <= k < |events| ==>
      (events[k].Observed? ==> events[k].renewed) && (events[k].GateReset? ==> events[k].renewed)
  }

  lemma {:induction false} UnmovedKeepsGate(w: World, s: System, events: seq<Event>, e: Edge)
    requires w.metric.Valid() && SystemInv(s) && e in s.mesh.relationships
    requires AllRenewed(events) && Unmoved(w, s, events, e)
    ensures var gate := s.mesh.relationships[e].persistence.gate; GateAfter(gate, events, e) == gate
    decreases |events|
  {
    hide SystemInv, Next, Fits, Moves, GateNext;
    FitsOf(s);
    if events != [] {
      var ev := events[0];
      NextInv(w, s, ev);
      QuietKeeps(w, s, ev, e);
      RenewedGateStays(w, s, ev, e);
      assert AllRenewed(events[1..]) by {
        assert forall k :: 0 <= k < |events[1..]| ==> events[1..][k] == events[k + 1];
      }
      UnmovedKeepsGate(w, Next(w, s, ev), events[1..], e);
    }
  }

  lemma {:induction false} RenewedGateStays(w: World, s: System, ev: Event, e: Edge)
    requires Fits(s.mesh) && e in s.mesh.relationships && !Moves(w, s, ev, e)
    requires (ev.Observed? ==> ev.renewed) && (ev.GateReset? ==> ev.renewed)
    ensures var gate := s.mesh.relationships[e].persistence.gate; GateNext(gate, ev, e) == gate
  {
    hide Fits, Persistence.Step, Prune;
  }

  /** As long as no identity fails to be allocated, a snapshot revalidates exactly when no pruning,
      commit or change of the gate hit its edge: values that come back do not hide that they left. */
  lemma {:induction false} NoAbaWithoutFaults(w: World, s: System, events: seq<Event>, e: Edge)
    requires w.metric.Valid() && SystemInv(s) && e in s.mesh.relationships && AllRenewed(events)
    ensures Revalidates(RunAll(w, s, events).mesh, SnapshotOf(s.mesh, e)) <==> Unmoved(w, s, events, e)
  {
    hide SystemInv, Fits, Moves, GateNext, Revalidates, RunAll, Unmoved, GateAfter, AllRenewed;
    NoAba(w, s, events, e);
    if Unmoved(w, s, events, e) {
      UnmovedKeepsGate(w, s, events, e);
    }
  }

  ghost predicate NoneRenewed(events: seq<Event>) {
    forall k :: 0 <= k < |events| ==> events[k].Observed? && !events[k].renewed
  }

  lemma {:induction false} UnrenewedNeverMoves(w: World, s: System, events: seq<Event>, e: Edge)
    requires w.metric.Valid() && SystemInv(s) && NoneRenewed(events)
    ensures Unmoved(w, s, events, e)
    decreases |events|
  {
    hide SystemInv, Next, Fits, GateNext;
    FitsOf(s);
    if events != [] {
      NextInv(w, s, events[0]);
      assert NoneRenewed(events[1..]) by {
        assert forall k :: 0 <= k < |events[1..]| ==> events[1..][k] == events[k + 1];
      }
      UnrenewedNeverMoves(w, Next(w, s, events[0]), events[1..], e);
    }
  }

  /** With failing allocations they can: on a fresh gate two observations, each of which changes
      the gate without renewing its identity, make the snapshot stale and then valid again. */
  lemma {:induction false} FailedRenewalsHideChanges(w: World, s: System, e: Edge)
    requires w.metric.Valid() && SystemInv(s) && e in s.mesh.relationships
    requires s.mesh.relationships[e].persistence.gate == Persistence.Fresh(Persistence.Preserve)
    ensures var raised, lowered := Observed(e, 0.6, false), Observed(e, 0.0, false);
            && GateNext(Persistence.Fresh(Persistence.Preserve), raised, e) != Persistence.Fresh(Persistence.Preserve)
            && !Revalidates(RunAll(w, s, [raised]).mesh, SnapshotOf(s.mesh, e))
            && Revalidates(RunAll(w, s, [raised, lowered]).mesh, SnapshotOf(s.mesh, e))
  {
    var raised, lowered := Observed(e, 0.6, false), Observed(e, 0.0, false);
    RaisedAndLowered(e);
    hide SystemInv, Fits, Revalidates, Next, RunAll, SnapshotOf, GateNext, GateAfter, Unmoved, Moves;
    NoAba(w, s, [raised], e);
    NoAba(w, s, [raised, lowered], e);
    UnrenewedNeverMoves(w, s, [raised, lowered], e);
  }

  lemma {:induction false} RaisedAndLowered(e: Edge)
    ensures var start := Persistence.Fresh(Persistence.Preserve);
            && GateAfter(start, [Observed(e, 0.6, false)], e) == GateNext(start, Observed(e, 0.6, false), e) != start
            && GateAfter(start, [Observed(e, 0.6, false), Observed(e, 0.0, false)], e) == start
  {
    var raised, lowered := Observed(e, 0.6, false), Observed(e, 0.0, false);
    var gate := GateNext(Persistence.Fresh(Persistence.Preserve), raised, e);
    assert [raised, lowered][1..] == [lowered] && [lowered][1..] == [] && [raised][1..] == [];
    assert GateAfter(gate, [lowered], e) == GateAfter(GateNext(gate, lowered, e), [], e);
    assert gate == Persistence.Gate(Persistence.Preserve, Persistence.ToSupport, 1);
  }

  // ---------------------------------------------------------------- evaluation

  datatype DomainOutcome = Satisfied | NotSatisfied | Unavailable

  datatype DirectionOutcome =
    | NoRequest
    | DerivedDirection(direction: TransitionDirection, lineage: nat)
    | DerivationFailed

  datatype Evaluation = NothingRequested | NotEligible | Eligible

  /** Arbitrary answers of the backend's direction and domain validators. */
  datatype Validators = Validators(
    direction: DirectionOutcome,
    permission: DomainOutcome,
    invariance: DomainOutcome,
    resilience: DomainOutcome,
    freshness: DomainOutcome)

  /** The evaluation of a locator, given the meshes its three readings of the mesh saw. */
  function EvaluateLocator(source: nat, target: nat, atResolve: Mesh, atCapture: Mesh, atRevalidate: Mesh,
                           v: Validators): Evaluation {
    if source == target then NotEligible
    else match Resolve(atResolve, source, target)
      case None => NothingRequested
      case Some(identity) =>
        match Capture(atCapture, identity)
        case None => NotEligible
        case Some(snapshot) =>
          match v.direction
          case NoRequest => NothingRequested
          case DerivationFailed => NotEligible
          case DerivedDirection(_, lineage) =>
            if lineage != snapshot.lineage then NotEligible
            else if v.permission.Unavailable? || v.invariance.Unavailable?
                    || v.resilience.Unavailable? || v.freshness.Unavailable? then NotEligible
            else if !Revalidates(atRevalidate, snapshot) then NotEligible
            else if v.permission.Satisfied? && v.invariance.Satisfied? && v.resilience.Satisfied?
                && v.freshness.Satisfied?
            then Eligible
            else NotEligible
  }

  lemma {:induction false} EligibleMeans(source: nat, target: nat, atResolve: Mesh, atCapture: Mesh,
                                         atRevalidate: Mesh, v: Validators)
    ensures var e := (source, target);
            EvaluateLocator(source, target, atResolve, atCapture, atRevalidate, v) == Eligible <==>
              && source != target
              && e in atResolve.relationships && e in atCapture.relationships
              && IdentityOf(e, atCapture.relationships[e]) == IdentityOf(e, atResolve.relationships[e])
              && v.direction.DerivedDirection? && v.direction.lineage == atCapture.relationships[e].lineage
              && v.permission.Satisfied? && v.invariance.Satisfied? && v.resilience.Satisfied? && v.freshness.Satisfied?
              && Revalidates(atRevalidate, SnapshotOf(atCapture, e))
  {
    hide Revalidates;
  }

  /** An evaluation finds nothing requested exactly when the relationship is absent, or when it was
      captured as resolved and asks for nothing; two equal ends are never evaluated. */
  lemma {:induction false} NothingRequestedMeans(source: nat, target: nat, atResolve: Mesh, atCapture: Mesh,
                                                 atRevalidate: Mesh, v: Validators)
    ensures var e := (source, target);
            EvaluateLocator(source, target, atResolve, atCapture, atRevalidate, v) == NothingRequested <==>
              && source != target
              && (e in atResolve.relationships ==>
                    && e in atCapture.relationships
                    && IdentityOf(e, atCapture.relationships[e]) == IdentityOf(e, atResolve.relationships[e])
                    && v.direction == NoRequest)
  {
    hide Revalidates;
  }

  /** An evaluation that runs while the mesh does ends eligible exactly when the relationship it
      resolved was still the one it captured, every validator was satisfied, nothing moved the
      relationship from capture to revalidation, and its gate was back as captured. */
  lemma {:induction false} EligibleSawOneLifecycle(w: World, s: System, first: seq<Event>, second: seq<Event>,
                                source: nat, target: nat, v: Validators)
    requires w.metric.Valid() && SystemInv(s)
    ensures var captured := RunAll(w, s, first);
            var e := (source, target);
            EvaluateLocator(source, target, s.mesh, captured.mesh, RunAll(w, captured, second).mesh, v) == Eligible <==>
              && source != target
              && e in s.mesh.relationships && e in captured.mesh.relationships
              && IdentityOf(e, captured.mesh.relationships[e]) == IdentityOf(e, s.mesh.relationships[e])
              && v.direction.DerivedDirection? && v.direction.lineage == captured.mesh.relationships[e].lineage
              && v.permission.Satisfied? && v.invariance.Satisfied? && v.resilience.Satisfied? && v.freshness.Satisfied?
              && Unmoved(w, captured, second, e)
              && var gate := captured.mesh.relationships[e].persistence.gate; GateAfter(gate, second, e) == gate
  {
    var captured := RunAll(w, s, first);
    var e := (source, target);
    hide SystemInv, Fits, EvaluateLocator, Revalidates, SnapshotOf, IdentityOf, RunAll, Unmoved, GateAfter;
    EligibleMeans(source, target, s.mesh, captured.mesh, RunAll(w, captured, second).mesh, v);
    if e in captured.mesh.relationships {
      NoAba(w, captured, second, e);
    }
  }
}
