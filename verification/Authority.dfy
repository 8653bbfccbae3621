/**
 Capabilities: what the live backend reads of a relationship, how a capability is derived from
 those readings, the ledger of issued capabilities, and what a commit decides and does.
 */
module Authority {
  import opened Common
  import opened MeshState
  import Tokens

  datatype RelationshipIdentity = RelationshipIdentity(source: nat, target: nat, generation: nat)

  datatype Binding = Binding(
    relationship: RelationshipIdentity,
    direction: TransitionDirection,
    transitionClass: nat,
    stateVersion: nat)

  datatype Capability = Capability(id: nat, domain: nat, binding: Binding, issuanceEpoch: nat)

  datatype CapabilityState = Issued | Consumed | Expired | Invalidated

  datatype LedgerRecord = LedgerRecord(binding: Binding, issuanceEpoch: nat, state: CapabilityState)

  datatype CommitResult =
    | Committed
    | StaleState
    | TargetMismatch
    | CapabilityConsumed
    | CapabilityInvalid
    | TransitionRejected

  const TRANSITION_CONTRACT: nat := 1

  // ---------------------------------------------------------------- backend readings

  datatype CapturedIdentity = CapturedIdentity(
    source: nat,
    target: nat,
    generation: nat,
    sourceIncarnation: nat,
    targetIncarnation: nat)

  datatype Snapshot = Snapshot(
    relationship: CapturedIdentity,
    stateVersion: nat,
    transitionClass: nat,
    lineage: nat,
    persistence: PersistenceRecord)

  function IdentityOf(e: Edge, record: Lifecycle): CapturedIdentity {
    CapturedIdentity(e.0, e.1, record.generation, record.sourceIncarnation, record.targetIncarnation)
  }

  function Resolve(m: Mesh, source: nat, target: nat): Option<CapturedIdentity> {
    if (source, target) in m.relationships
    then Some(IdentityOf((source, target), m.relationships[(source, target)]))
    else None
  }

  /** The record a captured identity still names, if any. */
  function FindLifecycle(m: Mesh, r: CapturedIdentity): Option<Lifecycle> {
    if (r.source, r.target) in m.relationships
        && IdentityOf((r.source, r.target), m.relationships[(r.source, r.target)]) == r
    then Some(m.relationships[(r.source, r.target)])
    else None
  }

  function Capture(m: Mesh, r: CapturedIdentity): Option<Snapshot> {
    match FindLifecycle(m, r)
    case None => None
    case Some(current) => Some(Snapshot(r, current.lineage, TRANSITION_CONTRACT, current.lineage, current.persistence))
  }

  predicate Revalidates(m: Mesh, s: Snapshot) {
    match FindLifecycle(m, s.relationship)
    case None => false
    case Some(current) => current.lineage == s.lineage && current.persistence == s.persistence
  }

  // ---------------------------------------------------------------- derivation

  datatype Rejection =
    | EligibilityNotSatisfied
    | BindingMismatch
    | StateStale
    | ClassMismatch
    | FreshnessInvalid
    | RevalidationFailed
    | PolicyDenied

  datatype Derivation = Denied(reason: Rejection) | Granted(capability: Capability)

  /** What the backend's validators, which are stubs in the program, would answer. */
  datatype Answers = Answers(direction: Option<(TransitionDirection, nat)>, recent: bool)

  /** What live derivation establishes before it asks the policy. */
  datatype Findings = Findings(
    epoch: nat,
    live: bool,
    stateCurrent: bool,
    classCurrent: bool,
    recent: bool,
    revalidated: bool)

  /** The findings for a request, given the meshes that the three readings saw. */
  function Establish(eligible: bool, request: Binding, atResolve: Mesh, atCapture: Mesh, atRevalidate: Mesh,
                     answers: Answers): Findings
  {
    var nothing := Findings(0, false, false, false, false, false);
    var wanted := request.relationship;
    if !eligible then nothing
    else match Resolve(atResolve, wanted.source, wanted.target)
      case None => nothing
      case Some(live) =>
        if live.generation != wanted.generation then nothing
        else match Capture(atCapture, live)
          case None => nothing.(live := true)
          case Some(s) =>
            var stateCurrent := s.stateVersion == request.stateVersion;
            var classCurrent := s.transitionClass == request.transitionClass;
            var seen := Findings(s.lineage, true, stateCurrent, classCurrent, false, false);
            if !stateCurrent || !classCurrent then seen
            else if answers.direction != Some((request.direction, s.lineage)) then seen.(live := false)
            else seen.(recent := answers.recent, revalidated := answers.recent && Revalidates(atRevalidate, s))
  }

  /** The policy, in its fixed order; None means that a capability may be issued. */
  function Policy(eligible: bool, f: Findings, allowed: bool): Option<Rejection> {
    if !eligible then Some(EligibilityNotSatisfied)
    else if !f.live then Some(BindingMismatch)
    else if !f.stateCurrent then Some(StateStale)
    else if !f.classCurrent then Some(ClassMismatch)
    else if !f.recent then Some(FreshnessInvalid)
    else if !f.revalidated then Some(RevalidationFailed)
    else if !allowed then Some(PolicyDenied)
    else None
  }

  /** A capability is issued only for a relationship that was live with the requested generation
      and version when captured, and had not moved when revalidated. */
  lemma {:induction false} IssuanceMeans(eligible: bool, request: Binding, atResolve: Mesh, atCapture: Mesh,
                                         atRevalidate: Mesh, answers: Answers, allowed: bool)
    ensures var f := Establish(eligible, request, atResolve, atCapture, atRevalidate, answers);
            var e := (request.relationship.source, request.relationship.target);
            Policy(eligible, f, allowed).None? <==>
              && eligible && allowed && answers.recent
              && e in atResolve.relationships && e in atCapture.relationships && e in atRevalidate.relationships
              && atResolve.relationships[e].generation == request.relationship.generation
              && IdentityOf(e, atCapture.relationships[e]) == IdentityOf(e, atResolve.relationships[e])
              && IdentityOf(e, atRevalidate.relationships[e]) == IdentityOf(e, atCapture.relationships[e])
              && atCapture.relationships[e].lineage == request.stateVersion
              && atRevalidate.relationships[e].lineage == request.stateVersion
              && atRevalidate.relationships[e].persistence == atCapture.relationships[e].persistence
              && request.transitionClass == TRANSITION_CONTRACT
              && answers.direction == Some((request.direction, request.stateVersion))
    ensures var f := Establish(eligible, request, atResolve, atCapture, atRevalidate, answers);
            Policy(eligible, f, allowed).None? ==> f.epoch == request.stateVersion
  {
  }

  // ---------------------------------------------------------------- ledger

  datatype RegisterOutcome = Registered | DomainMismatch | AlreadyRegistered

  class AuthorityLedger {
    const domain: nat
    var records: map<nat, LedgerRecord>

    constructor (domain: nat)
      ensures this.domain == domain && records == map[]
    {
      this.domain := domain;
      records := map[];
    }

    method RegisterIssued(capability: Capability) returns (outcome: RegisterOutcome)
      modifies this
      ensures outcome == (if capability.domain != domain then DomainMismatch
                          else if capability.id in old(records) then AlreadyRegistered
                          else Registered)
      ensures records == if outcome == Registered
        then old(records)[capability.id := LedgerRecord(capability.binding, capability.issuanceEpoch, Issued)]
        else old(records)
    {
      if capability.domain != domain {
        return DomainMismatch;
      }
      if capability.id in records {
        return AlreadyRegistered;
      }
      records := records[capability.id := LedgerRecord(capability.binding, capability.issuanceEpoch, Issued)];
      return Registered;
    }

    method SetState(id: nat, state: CapabilityState)
      requires id in records
      modifies this
      ensures records == old(records)[id := old(records)[id].(state := state)]
    {
      records := records[id := records[id].(state := state)];
    }

    /** Consuming, expiring and invalidating all leave the issued state, once and for good. */
    method TransitionFromIssued(id: nat, terminal: CapabilityState) returns (done: bool)
      requires terminal != Issued
      modifies this
      ensures records == Retire(old(records), id, terminal)
      ensures done <==> id in old(records) && old(records)[id].state == Issued
      ensures done ==> records == old(records)[id := old(records)[id].(state := terminal)]
      ensures !done ==> records == old(records)
    {
      if id !in records || records[id].state != Issued {
        return false;
      }
      records := records[id := records[id].(state := terminal)];
      return true;
    }

    /** Derives and registers.  The token is what the allocator shared by all meshes returned to
        this derivation, if it gets that far. */
    method Derive(token: nat, eligible: bool, request: Binding, allowed: bool,
                  atResolve: Mesh, atCapture: Mesh, atRevalidate: Mesh, answers: Answers)
      returns (result: Derivation, outcome: Option<RegisterOutcome>)
      modifies this
      ensures var f := Establish(eligible, request, atResolve, atCapture, atRevalidate, answers);
              result == match Policy(eligible, f, allowed)
                case Some(reason) => Denied(reason)
                case None => Granted(Capability(token, domain, request, f.epoch))
      ensures outcome == if result.Denied? then None
                         else if token in old(records) then Some(AlreadyRegistered)
                         else Some(Registered)
      ensures records == if outcome == Some(Registered)
        then old(records)[token := LedgerRecord(request, result.capability.issuanceEpoch, Issued)]
        else old(records)
    {
      var live, stateCurrent, classCurrent, recent, revalidated := false, false, false, false, false;
      var epoch: nat := 0;
      if eligible {
        var wanted := request.relationship;
        var resolution := Resolve(atResolve, wanted.source, wanted.target);
        if resolution.Some? {
          live := resolution.value.generation == wanted.generation;
          if live {
            var capture := Capture(atCapture, resolution.value);
            if capture.Some? {
              var snapshot := capture.value;
              epoch := snapshot.lineage;
              stateCurrent := snapshot.stateVersion == request.stateVersion;
              classCurrent := snapshot.transitionClass == request.transitionClass;
              if stateCurrent && classCurrent {
                if answers.direction != Some((request.direction, snapshot.lineage)) {
                  live := false;
                } else {
                  recent := answers.recent;
                  if recent {
                    revalidated := Revalidates(atRevalidate, snapshot);
                  }
                }
              }
            }
          }
        }
      }
      match Policy(eligible, Findings(epoch, live, stateCurrent, classCurrent, recent, revalidated), allowed) {
        case Some(reason) =>
          result, outcome := Denied(reason), None;
        case None =>
          result := Granted(Capability(token, domain, request, epoch));
          var registered := RegisterIssued(result.capability);
          outcome := Some(registered);
      }
    }
  }

  /** A ledger all of whose identities came from the allocator, after some run of it. */
  ghost predicate FromAllocator(records: map<nat, LedgerRecord>, actions: seq<Tokens.Action>) {
    forall id <- records :: id in Tokens.RunAll(Tokens.Start(), actions).returned
  }

  /** A token returned later is never one that the ledger holds, so registering it cannot be
      refused, and the ledger still holds only allocated identities. */
  lemma {:induction false} DerivationNeverCollides(records: map<nat, LedgerRecord>, actions: seq<Tokens.Action>,
                                                   more: seq<Tokens.Action>, i: nat)
    requires FromAllocator(records, actions)
    requires |Tokens.RunAll(Tokens.Start(), actions).returned| <= i
             < |Tokens.RunAll(Tokens.Start(), actions + more).returned|
    ensures Tokens.RunAll(Tokens.Start(), actions + more).returned[i] !in records
  {
    Tokens.RunSplits(Tokens.Start(), actions, more);
    Tokens.LaterTokensAreNew(actions, more, i);
  }

  lemma {:induction false} ReturnedStays(actions: seq<Tokens.Action>, more: seq<Tokens.Action>)
    ensures Tokens.RunAll(Tokens.Start(), actions).returned <= Tokens.RunAll(Tokens.Start(), actions + more).returned
  {
    Tokens.RunSplits(Tokens.Start(), actions, more);
    Tokens.RunConsecutive(Tokens.Start(), actions);
    Tokens.RunConsecutive(Tokens.RunAll(Tokens.Start(), actions), more);
  }

  function Retire(records: map<nat, LedgerRecord>, id: nat, terminal: CapabilityState): map<nat, LedgerRecord> {
    if id in records && records[id].state == Issued then records[id := records[id].(state := terminal)] else records
  }

  // ---------------------------------------------------------------- commit

  predicate Known(domain: nat, records: map<nat, LedgerRecord>, c: Capability) {
    && c.domain == domain
    && c.id in records
    && records[c.id].state == Issued
  }

  /** The verdict on a capability that the ledger holds as issued. */
  function LiveVerdict(m: Mesh, record: LedgerRecord, c: Capability): CommitResult {
    var e := (c.binding.relationship.source, c.binding.relationship.target);
    if record.binding != c.binding || record.issuanceEpoch != c.issuanceEpoch then CapabilityInvalid
    else if e !in m.relationships || m.relationships[e].generation != c.binding.relationship.generation then StaleState
    else if m.relationships[e].lineage != c.binding.stateVersion then StaleState
    else if m.relationships[e].lineage != record.issuanceEpoch then StaleState
    else if c.binding.transitionClass != TRANSITION_CONTRACT then TransitionRejected
    else if c.binding.direction.Unrecognised? then TransitionRejected
    else if m.nextLineage == Tokens.MAX_U64 then CapabilityInvalid
    else Committed
  }

  function Verdict(domain: nat, m: Mesh, records: map<nat, LedgerRecord>, c: Capability): CommitResult {
    if c.domain != domain then TargetMismatch
    else if c.id !in records then CapabilityInvalid
    else match records[c.id].state
      case Consumed => CapabilityConsumed
      case Expired => CapabilityInvalid
      case Invalidated => CapabilityInvalid
      case Issued => LiveVerdict(m, records[c.id], c)
  }

  /** An issued capability is spent by any attempt: consumed by success, invalidated otherwise. */
  function RecordsAfter(domain: nat, m: Mesh, records: map<nat, LedgerRecord>, c: Capability): map<nat, LedgerRecord> {
    if !Known(domain, records, c) then records
    else
      var state := if LiveVerdict(m, records[c.id], c) == Committed then Consumed else Invalidated;
      records[c.id := records[c.id].(state := state)]
  }

  function MeshAfter(domain: nat, m: Mesh, records: map<nat, LedgerRecord>, c: Capability): Mesh {
    var e := (c.binding.relationship.source, c.binding.relationship.target);
    if Verdict(domain, m, records, c) == Committed && e in m.relationships && HasBridge(m.nodes, e.0, e.1)
    then Commit(m, e, c.binding.direction)
    else m
  }
}
