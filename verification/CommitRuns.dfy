/**
 That a commit can be had: from any system a run of four events issues a capability for a live
 relationship and commits it.
 */
module CommitRuns {
  import opened Common
  import opened MeshState
  import opened Authority
  import opened Runs
  import Tokens

  function AllocatorOf(s: System): Tokens.Allocator {
    Tokens.RunAll(Tokens.Start(), s.tokens)
  }

  function Request(s: System, e: Edge, direction: TransitionDirection): Binding
    requires e in s.mesh.relationships
  {
    var record := s.mesh.relationships[e];
    Binding(RelationshipIdentity(e.0, e.1, record.generation), direction, TRANSITION_CONTRACT, record.lineage)
  }

  /** A derivation by a thread that gets the given token, on the mesh as it is. */
  function DerivationOf(s: System, e: Edge, direction: TransitionDirection, token: nat): DerivationRun
    requires e in s.mesh.relationships
  {
    var now, lineage := |s.past|, s.mesh.relationships[e].lineage;
    DerivationRun(token, true, Request(s, e, direction), true, Answers(Some((direction, lineage)), true), now, now, now)
  }

  lemma {:induction false} ActionExtends(tokens: seq<Tokens.Action>, a: Tokens.Action)
    ensures Tokens.RunAll(Tokens.Start(), tokens + [a]) == Tokens.Next(Tokens.RunAll(Tokens.Start(), tokens), a)
  {
    Tokens.RunSplits(Tokens.Start(), tokens, [a]);
    var s := Tokens.RunAll(Tokens.Start(), tokens);
    assert Tokens.RunAll(s, [a]) == Tokens.RunAll(Tokens.Next(s, a), []);
  }

  /** Loading the counter and swapping it returns its value to the thread as a new claim. */
  lemma {:induction false} Claimed(w: World, s: System, t: nat)
    requires Fits(s.mesh)
    requires t !in AllocatorOf(s).locals && 1 <= AllocatorOf(s).counter != Tokens.MAX_U64
    ensures var loaded := Next(w, s, Allocated(Tokens.Load(t, AllocatorOf(s).counter)));
            && Fits(loaded.mesh)
            && var claimed := Next(w, loaded, Allocated(Tokens.Swap(t)));
               && claimed.mesh == s.mesh && claimed.records == s.records
               && AllocatorOf(s).counter in claimed.claims
  {
    var counter := AllocatorOf(s).counter;
    var load, swap := Tokens.Load(t, counter), Tokens.Swap(t);
    ActionExtends(s.tokens, load);
    ActionExtends(s.tokens + [load], swap);
    hide Fits, Tokens.RunAll;
    var loaded := Next(w, s, Allocated(load));
    assert loaded.mesh == s.mesh && loaded.tokens == s.tokens + [load] && loaded.records == s.records;
  }

  /** The derivation issues: the ledger holds its capability. */
  lemma {:induction false} DerivationIssues(w: World, s: System, e: Edge, direction: TransitionDirection, token: nat)
    requires Fits(s.mesh) && e in s.mesh.relationships && token in s.claims && token !in s.records
    ensures var d := DerivationOf(s, e, direction, token);
            var next := Next(w, s, DerivedAuthority(d));
            && next.mesh == s.mesh
            && next.records == s.records[token := LedgerRecord(d.request, s.mesh.relationships[e].lineage, Issued)]
  {
    hide Fits;
  }

  lemma {:induction false} CommittedOn(w: World, s: System, e: Edge, direction: TransitionDirection, token: nat)
    requires Fits(s.mesh) && e in s.mesh.relationships && !direction.Unrecognised?
    requires s.mesh.nextLineage != Tokens.MAX_U64 && token in s.records
    requires var lineage := s.mesh.relationships[e].lineage;
             s.records[token] == LedgerRecord(Request(s, e, direction), lineage, Issued)
    ensures var c := Capability(token, w.domain, Request(s, e, direction), s.mesh.relationships[e].lineage);
            && Commits(w, s, CommitAttempted(c))
            && HasBridge(s.mesh.nodes, e.0, e.1)
            && Next(w, s, CommitAttempted(c)).mesh == Commit(s.mesh, e, direction)
  {
    var c := Capability(token, w.domain, Request(s, e, direction), s.mesh.relationships[e].lineage);
    CommitFindsBridge(w, s, c);
    hide Fits, Commit;
  }

  /** The four events: load, swap, derive and commit. */
  function CommitRun(w: World, s: System, e: Edge, direction: TransitionDirection, t: nat): seq<Event>
    requires e in s.mesh.relationships
  {
    var token, lineage := AllocatorOf(s).counter, s.mesh.relationships[e].lineage;
    var later := s.(past := s.past + [s.mesh] + [s.mesh]);
    [Allocated(Tokens.Load(t, token)),
     Allocated(Tokens.Swap(t)),
     DerivedAuthority(DerivationOf(later, e, direction, token)),
     CommitAttempted(Capability(token, w.domain, Request(s, e, direction), lineage))]
  }

  lemma {:induction false} AfterThat(w: World, s: System, ev: Event, rest: seq<Event>)
    requires w.metric.Valid() && SystemInv(s)
    ensures Fits(s.mesh) && SystemInv(Next(w, s, ev))
    ensures RunAll(w, s, [ev] + rest) == RunAll(w, Next(w, s, ev), rest)
  {
    hide SystemInv, Next, Fits;
    assert ([ev] + rest)[1..] == rest;
    RunFirst(w, s, [ev] + rest);
  }

  lemma {:induction false} TokenIsNew(w: World, s: System, token: nat)
    requires SystemInv(s) && token in s.claims
    ensures token !in s.records
  {
  }

  /** As long as neither counter is exhausted, every live relationship of every system can be
      committed on: by a thread that is not allocating, in four events. */
  lemma {:induction false} CommitReachable(w: World, s: System, e: Edge, direction: TransitionDirection, t: nat)
    requires w.metric.Valid() && SystemInv(s) && e in s.mesh.relationships && !direction.Unrecognised?
    requires t !in AllocatorOf(s).locals && AllocatorOf(s).counter != Tokens.MAX_U64
    requires s.mesh.nextLineage != Tokens.MAX_U64
    ensures HasBridge(s.mesh.nodes, e.0, e.1)
    ensures RunAll(w, s, CommitRun(w, s, e, direction, t)).mesh == Commit(s.mesh, e, direction)
  {
    hide SystemInv, Next, Fits, RunAll, AllocatorOf, Commit, DerivationOf, Request;
    var events := CommitRun(w, s, e, direction, t);
    var token := AllocatorOf(s).counter;
    FitsOf(s);
    CounterStarts(s);
    assert events == [events[0]] + ([events[1]] + ([events[2]] + ([events[3]] + [])));
    AfterThat(w, s, events[0], [events[1]] + ([events[2]] + ([events[3]] + [])));
    var s1 := Next(w, s, events[0]);
    AfterThat(w, s1, events[1], [events[2]] + ([events[3]] + []));
    var s2 := Next(w, s1, events[1]);
    Claimed(w, s, t);
    PastGrows(w, s, events[0]);
    PastGrows(w, s1, events[1]);
    AfterThat(w, s2, events[2], [events[3]] + []);
    SameDerivation(s, s2, e, direction, token);
    TokenIsNew(w, s2, token);
    DerivationIssues(w, s2, e, direction, token);
    var s3 := Next(w, s2, events[2]);
    AfterThat(w, s3, events[3], []);
    SameRequest(s, s3, e, direction);
    CommittedOn(w, s3, e, direction, token);
    RunNone(w, Next(w, s3, events[3]));
  }

  lemma {:induction false} CounterStarts(s: System)
    ensures AllocatorOf(s).counter >= 1
  {
    Tokens.RunConsecutive(Tokens.Start(), s.tokens);
  }

  lemma {:induction false} PastGrows(w: World, s: System, ev: Event)
    requires Fits(s.mesh)
    ensures |Next(w, s, ev).past| == |s.past| + 1
  {
    hide Fits;
  }

  lemma {:induction false} SameRequest(s: System, later: System, e: Edge, direction: TransitionDirection)
    requires later.mesh == s.mesh && e in s.mesh.relationships
    ensures Request(later, e, direction) == Request(s, e, direction)
  {
  }

  lemma {:induction false} SameDerivation(s: System, later: System, e: Edge, direction: TransitionDirection, token: nat)
    requires later.mesh == s.mesh && e in s.mesh.relationships && |later.past| == |s.past| + 2
    ensures var expected := s.(past := s.past + [s.mesh] + [s.mesh]);
            DerivationOf(later, e, direction, token) == DerivationOf(expected, e, direction, token)
    ensures DerivationOf(later, e, direction, token).request == Request(s, e, direction)
  {
  }
}
