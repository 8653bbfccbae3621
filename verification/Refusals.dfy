/**
 Which answer a commit or a derivation gets, from the mesh, the ledger and the three readings as
 they were before it; and that a spent capability is answered the same way for good.
 */
module Refusals {
  import opened Common
  import opened MeshState
  import opened Authority
  import opened Runs

  // ---------------------------------------------------------------- commits

  /** The ledger holds this very capability as issued. */
  predicate Matching(domain: nat, records: map<nat, LedgerRecord>, c: Capability) {
    && c.domain == domain && c.id in records
    && records[c.id] == LedgerRecord(c.binding, c.issuanceEpoch, Issued)
  }

  /** Its relationship has the generation and the version that the capability names. */
  predicate Current(m: Mesh, c: Capability) {
    var e := (c.binding.relationship.source, c.binding.relationship.target);
    && e in m.relationships
    && m.relationships[e].generation == c.binding.relationship.generation
    && m.relationships[e].lineage == c.binding.stateVersion == c.issuanceEpoch
  }

  predicate Acceptable(c: Capability) {
    c.binding.transitionClass == 1 && !c.binding.direction.Unrecognised?
  }

  /** Each of the six answers, exactly when it is given.  A foreign domain is told first, then what
      the ledger says of the identity, then whether the relationship moved, then the transition. */
  lemma {:induction false} AnswerIs(domain: nat, m: Mesh, records: map<nat, LedgerRecord>, c: Capability)
    ensures var answer := Verdict(domain, m, records, c);
            && (answer == TargetMismatch <==> c.domain != domain)
            && (answer == CapabilityConsumed <==>
                  c.domain == domain && c.id in records && records[c.id].state == Consumed)
            && (answer == StaleState <==> Matching(domain, records, c) && !Current(m, c))
            && (answer == TransitionRejected <==>
                  Matching(domain, records, c) && Current(m, c) && !Acceptable(c))
            && (answer == CapabilityInvalid <==>
                  && c.domain == domain
                  && (c.id in records ==> records[c.id].state != Consumed)
                  && (Matching(domain, records, c) ==>
                        Current(m, c) && Acceptable(c) && m.nextLineage == 0xFFFF_FFFF_FFFF_FFFF))
            && (answer == Committed <==>
                  && Matching(domain, records, c) && Current(m, c) && Acceptable(c)
                  && m.nextLineage != 0xFFFF_FFFF_FFFF_FFFF)
  {
  }

  /** A record that is no longer issued is never written again. */
  lemma {:induction false} TerminalStays(w: World, s: System, events: seq<Event>, id: nat)
    requires w.metric.Valid() && SystemInv(s) && id in s.records && s.records[id].state != Issued
    ensures var after := RunAll(w, s, events); id in after.records && after.records[id] == s.records[id]
    decreases |events|
  {
    hide SystemInv, Next, Fits;
    FitsOf(s);
    if events != [] {
      TerminalStaysOnce(w, s, events[0], id);
      NextInv(w, s, events[0]);
      TerminalStays(w, Next(w, s, events[0]), events[1..], id);
    }
  }

  lemma {:induction false} TerminalStaysOnce(w: World, s: System, ev: Event, id: nat)
    requires Fits(s.mesh) && id in s.records && s.records[id].state != Issued
    ensures id in Next(w, s, ev).records && Next(w, s, ev).records[id] == s.records[id]
  {
    hide Fits, Operate, MeshAfter, LiveVerdict, FindingsOf, Policy, ClaimsOf, Verdict;
  }

  /** Once a capability has committed, every later attempt with its identity, whatever else it says
      and whatever has happened since, is told that it is consumed. */
  lemma {:induction false} CommittedIsConsumed(w: World, s: System, events: seq<Event>, k: nat, c: Capability)
    requires w.metric.Valid() && SystemInv(s) && k < |s.log|
    requires c.domain == w.domain && c.id == s.log[k].id
    ensures var after := RunAll(w, s, events);
            Verdict(w.domain, after.mesh, after.records, c) == CapabilityConsumed
  {
    LoggedIsConsumed(s, k);
    hide SystemInv, Verdict, RunAll;
    TerminalStays(w, s, events, c.id);
    var after := RunAll(w, s, events);
    AnswerIs(w.domain, after.mesh, after.records, c);
  }

  lemma {:induction false} LoggedIsConsumed(s: System, k: nat)
    requires SystemInv(s) && k < |s.log|
    ensures s.log[k].id in s.records && s.records[s.log[k].id].state == Consumed
  {
  }

  /** An attempt with an issued capability settles every later answer: consumed if it committed,
      invalid if it did not. */
  lemma {:induction false} AttemptSettles(w: World, s: System, c: Capability, events: seq<Event>)
    requires w.metric.Valid() && SystemInv(s) && Known(w.domain, s.records, c)
    ensures Fits(s.mesh) && SystemInv(Next(w, s, CommitAttempted(c)))
    ensures var after := RunAll(w, Next(w, s, CommitAttempted(c)), events);
            Verdict(w.domain, after.mesh, after.records, c)
            == if Commits(w, s, CommitAttempted(c)) then CapabilityConsumed else CapabilityInvalid
  {
    hide SystemInv, Fits, Next, Verdict, RunAll, Commits;
    FitsOf(s);
    NextInv(w, s, CommitAttempted(c));
    AttemptSpends(w, s, c);
    StillRecorded(w, s, c);
    var once := Next(w, s, CommitAttempted(c));
    TerminalStays(w, once, events, c.id);
    var after := RunAll(w, once, events);
    AnswerIs(w.domain, after.mesh, after.records, c);
  }

  lemma {:induction false} StillRecorded(w: World, s: System, c: Capability)
    requires Fits(s.mesh) && Known(w.domain, s.records, c)
    ensures c.id in Next(w, s, CommitAttempted(c)).records
  {
    hide Fits, LiveVerdict, MeshAfter;
  }

  /** A capability whose relationship was pruned is told, as long as it is issued, that its state is
      stale: after any further events, reconnection included. */
  lemma {:induction false} PrunedIsStale(w: World, s: System, events: seq<Event>, c: Capability)
    requires w.metric.Valid() && SystemInv(s) && c.id in s.records && !GenerationLive(s, c.id)
    ensures var after := RunAll(w, s, events);
            Matching(w.domain, after.records, c) ==>
              Verdict(w.domain, after.mesh, after.records, c) == StaleState
    decreases |events|
  {
    hide SystemInv, Next, Fits, Verdict;
    FitsOf(s);
    if events == [] {
      AnswerIs(w.domain, s.mesh, s.records, c);
    } else {
      GenerationStaysDead(w, s, events[0], c.id);
      NextInv(w, s, events[0]);
      PrunedIsStale(w, Next(w, s, events[0]), events[1..], c);
    }
  }

  // ---------------------------------------------------------------- derivations

  /** The relationship resolved has the generation asked for. */
  predicate Found(request: Binding, atResolve: Mesh) {
    var e := EdgeOf(request);
    e in atResolve.relationships && atResolve.relationships[e].generation == request.relationship.generation
  }

  /** It is still the same relationship at the second reading, at the version asked for. */
  predicate AtVersion(request: Binding, atResolve: Mesh, atCapture: Mesh)
    requires Found(request, atResolve)
  {
    var e := EdgeOf(request);
    && e in atCapture.relationships
    && SameRelationship(atCapture.relationships[e], atResolve.relationships[e])
    && atCapture.relationships[e].lineage == request.stateVersion
  }

  predicate SameRelationship(one: Lifecycle, other: Lifecycle) {
    && one.generation == other.generation
    && one.sourceIncarnation == other.sourceIncarnation
    && one.targetIncarnation == other.targetIncarnation
  }

  /** Nor has it moved, in lineage or gate, at the third. */
  predicate Unmoved(request: Binding, atCapture: Mesh, atRevalidate: Mesh)
    requires EdgeOf(request) in atCapture.relationships
  {
    var e := EdgeOf(request);
    && e in atRevalidate.relationships
    && SameRelationship(atRevalidate.relationships[e], atCapture.relationships[e])
    && atRevalidate.relationships[e].lineage == atCapture.relationships[e].lineage
    && atRevalidate.relationships[e].persistence == atCapture.relationships[e].persistence
  }

  predicate Directed(request: Binding, answers: Answers) {
    answers.direction.Some? && answers.direction.value == (request.direction, request.stateVersion)
  }

  /** Each reason for which a derivation is denied, exactly when it is given, in terms of what the
      three readings saw. */
  lemma {:induction false} DenialIs(eligible: bool, request: Binding, atResolve: Mesh, atCapture: Mesh,
                                    atRevalidate: Mesh, answers: Answers, allowed: bool)
    ensures var denial := Policy(eligible, Establish(eligible, request, atResolve, atCapture, atRevalidate, answers),
                                 allowed);
            var found := eligible && Found(request, atResolve);
            var versioned := found && AtVersion(request, atResolve, atCapture);
            var classed := versioned && request.transitionClass == 1;
            var directed := classed && Directed(request, answers);
            var unmoved := directed && answers.recent && Unmoved(request, atCapture, atRevalidate);
            && (denial == Some(EligibilityNotSatisfied) <==> !eligible)
            && (denial == Some(BindingMismatch) <==> eligible && (!found || (classed && !directed)))
            && (denial == Some(StateStale) <==> found && !versioned)
            && (denial == Some(ClassMismatch) <==> versioned && !classed)
            && (denial == Some(FreshnessInvalid) <==> directed && !answers.recent)
            && (denial == Some(RevalidationFailed) <==> directed && answers.recent && !unmoved)
            && (denial == Some(PolicyDenied) <==> unmoved && !allowed)
            && (denial == None <==> unmoved && allowed)
  {
  }
}
