/**
 What repeated commits make of one bridge.
 */
module Transitions {
  import opened Dynamics
  import opened MeshState
  import opened Topology
  import opened Symmetry

  /** The mesh after k commits of one direction on one relationship. */
  ghost function Committed(m: Mesh, e: Edge, direction: TransitionDirection, k: nat): (r: Mesh)
    requires Inv(m) && e in m.relationships
    ensures Inv(r) && e in r.relationships
  {
    if k == 0 then m
    else
      var before := Committed(m, e, direction, k - 1);
      Recorded(before, e);
      CommitInv(before, e, direction);
      Commit(before, e, direction)
  }

  lemma {:induction false} Recorded(m: Mesh, e: Edge)
    requires Inv(m) && e in m.relationships
    ensures HasBridge(m.nodes, e.0, e.1)
  {
    assert (e.0, e.1) in m.relationships;
  }

  /** A commit moves the bridge of its relationship. */
  lemma {:induction false} CommitBridgeTo(m: Mesh, e: Edge, direction: TransitionDirection)
    requires e in m.relationships && HasBridge(m.nodes, e.0, e.1)
    ensures var next := Commit(m, e, direction).nodes;
            && HasBridge(next, e.0, e.1)
            && BridgeTo(next, e.0, e.1) == Transitioned(BridgeTo(m.nodes, e.0, e.1), direction)
  {
    var next := Commit(m, e, direction).nodes;
    CommitSameShape(m, e, direction);
    SameShapeHasBridge(m.nodes, next);
    assert SameEnds(m.nodes[e.0].bridges, next[e.0].bridges);
    FindSame(m.nodes[e.0].bridges, next[e.0].bridges, e.1);
  }

  lemma {:induction false} CommitsRepeat(m: Mesh, e: Edge, direction: TransitionDirection, signal: SignalCategory,
                                         k: nat)
    requires Inv(m) && e in m.relationships
    requires (direction, signal) == (Constraining, Noise) || (direction, signal) == (Supporting, CreativeSignal)
    ensures HasBridge(m.nodes, e.0, e.1) && HasBridge(Committed(m, e, direction, k).nodes, e.0, e.1)
    ensures BridgeTo(Committed(m, e, direction, k).nodes, e.0, e.1) == Repeated(BridgeTo(m.nodes, e.0, e.1), signal, k)
  {
    hide Inv, HasBridge, BridgeTo, Commit, UpdateBridge;
    Recorded(m, e);
    if k > 0 {
      var before := Committed(m, e, direction, k - 1);
      CommitsRepeat(m, e, direction, signal, k - 1);
      CommitBridgeTo(before, e, direction);
    }
  }

  /** Supporting commits rebuild a bridge by 0.15 each; one without any capacity is normal again
      exactly from the sixth on. */
  lemma {:induction false} SupportRestores(m: Mesh, e: Edge, k: nat)
    requires Inv(m) && e in m.relationships && k > 0
    ensures HasBridge(m.nodes, e.0, e.1) && HasBridge(Committed(m, e, Supporting, k).nodes, e.0, e.1)
    ensures BridgeTo(m.nodes, e.0, e.1).capacity == 0.0 ==>
      (BridgeTo(Committed(m, e, Supporting, k).nodes, e.0, e.1).status == Normal <==> k >= 6)
  {
    LinkedOf(m);
    hide Inv, HasBridge, BridgeTo, Repeated, Committed, Linked;
    CommitsRepeat(m, e, Supporting, CreativeSignal, k);
    SoundTo(m.nodes, e.0, e.1);
    RepeatedCreative(BridgeTo(m.nodes, e.0, e.1), k);
  }

  /** Constraining commits damp a bridge geometrically and never isolate it. */
  lemma {:induction false} ConstrainNeverIsolates(m: Mesh, e: Edge, k: nat)
    requires Inv(m) && e in m.relationships && k > 0
    ensures HasBridge(m.nodes, e.0, e.1) && HasBridge(Committed(m, e, Constraining, k).nodes, e.0, e.1)
    ensures var b, c := BridgeTo(m.nodes, e.0, e.1), BridgeTo(Committed(m, e, Constraining, k).nodes, e.0, e.1);
            c.status == Damping && c.capacity >= 0.01 && c.capacity >= Decayed(b.capacity, k)
  {
    hide Inv, HasBridge, BridgeTo, Repeated, Committed, Decayed;
    CommitsRepeat(m, e, Constraining, Noise, k);
    RepeatedNoise(BridgeTo(m.nodes, e.0, e.1), k);
  }
}
