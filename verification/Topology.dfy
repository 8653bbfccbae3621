/**
 What every operation keeps.  Adjacency lists and recorded relationships are two indexes of the
 same graph that the operations update separately; here they are shown to agree, with every
 number they carry unique, whatever operation comes next.
 */
module Topology {
  import opened Dynamics
  import opened MeshState
  import Persistence

  // ---------------------------------------------------------------- same shape

  /** The nodes differ at most in states, healths, capacities and statuses. */
  ghost predicate SameShape(nodes: seq<Node>, next: seq<Node>) {
    && |next| == |nodes|
    && forall i :: 0 <= i < |nodes| ==>
         && next[i].position == nodes[i].position
         && next[i].omega == nodes[i].omega
         && SameEnds(nodes[i].bridges, next[i].bridges)
  }

  ghost predicate SameEnds(bridges: seq<Bridge>, next: seq<Bridge>) {
    && |next| == |bridges|
    && forall k :: 0 <= k < |bridges| ==>
         && next[k].target == bridges[k].target
         && (SoundBridge(bridges[k]) ==> SoundBridge(next[k]))
  }

  lemma {:induction false} SameShapeHasBridge(nodes: seq<Node>, next: seq<Node>)
    requires SameShape(nodes, next)
    ensures forall i, j :: HasBridge(next, i, j) <==> HasBridge(nodes, i, j)
  {
    forall i, j ensures HasBridge(next, i, j) <==> HasBridge(nodes, i, j) {
      if 0 <= i < |nodes| {
        assert SameEnds(nodes[i].bridges, next[i].bridges);
        SameEndsTargets(nodes[i].bridges, next[i].bridges, j);
      }
    }
  }

  lemma {:induction false} SameEndsTargets(bridges: seq<Bridge>, next: seq<Bridge>, j: int)
    requires SameEnds(bridges, next)
    ensures Targets(next, j) <==> Targets(bridges, j)
    decreases |bridges|
  {
    if |bridges| > 0 {
      var n := |bridges| - 1;
      SameEndsTargets(bridges[..n], next[..n], j);
    }
  }

  lemma {:induction false} SameDegree(nodes: seq<Node>, next: seq<Node>)
    requires |next| == |nodes|
    requires forall i :: 0 <= i < |nodes| ==> |next[i].bridges| == |nodes[i].bridges|
    ensures MaxDegree(next) == MaxDegree(nodes)
    decreases |nodes|
  {
    if |nodes| > 0 {
      var n := |nodes| - 1;
      SameDegree(nodes[..n], next[..n]);
    }
  }

  /** An operation that keeps the shape and the records keeps the invariant. */
  lemma {:induction false} SameShapeInv(m: Mesh, next: Mesh)
    requires Inv(m)
    requires SameShape(m.nodes, next.nodes) && next == m.(nodes := next.nodes)
    ensures Inv(next)
  {
    SameShapeLinked(m.nodes, next.nodes);
    SameShapeHasBridge(m.nodes, next.nodes);
    SameShapeAlpha(m.nodes, next.nodes);
    assert Symmetric(next.nodes);
    assert Indexed(next);
    assert Incarnated(next);
    assert Bounded(next);
    assert Distinct(next.relationships);
  }

  lemma {:induction false} SameShapeAlpha(nodes: seq<Node>, next: seq<Node>)
    requires SameShape(nodes, next)
    ensures StableAlpha(next) == StableAlpha(nodes)
  {
    forall i | 0 <= i < |nodes| ensures |next[i].bridges| == |nodes[i].bridges| {
      assert SameEnds(nodes[i].bridges, next[i].bridges);
    }
    SameDegree(nodes, next);
  }

  lemma {:induction false} SameShapeLinked(nodes: seq<Node>, next: seq<Node>)
    requires Linked(nodes) && SameShape(nodes, next)
    ensures Linked(next)
  {
    forall i, k | 0 <= i < |next| && 0 <= k < |next[i].bridges|
      ensures 0 <= next[i].bridges[k].target < |next| && next[i].bridges[k].target != i
         && SoundBridge(next[i].bridges[k])
    {
      assert SameEnds(nodes[i].bridges, next[i].bridges);
      assert SoundBridge(nodes[i].bridges[k]);
    }
    forall i, k, l | 0 <= i < |next| && 0 <= k < l < |next[i].bridges|
      ensures next[i].bridges[k].target != next[i].bridges[l].target
    {
      assert SameEnds(nodes[i].bridges, next[i].bridges);
    }
  }

  // ---------------------------------------------------------------- nodes

  lemma {:induction false} LinkedOf(m: Mesh)
    requires Inv(m)
    ensures Linked(m.nodes) && Symmetric(m.nodes) && Calibrated(m.nodes)
  {
  }

  lemma {:induction false} EmptyInv()
    ensures Inv(EmptyMesh())
  {
  }

  lemma {:induction false} AddNodeKeepsBridges(nodes: seq<Node>, node: Node)
    requires node.bridges == []
    ensures forall i, j :: HasBridge(nodes + [node], i, j) <==> HasBridge(nodes, i, j)
    ensures Linked(nodes) ==> Linked(nodes + [node])
    ensures StableAlpha(nodes + [node]) == StableAlpha(nodes)
  {
    assert (nodes + [node])[..|nodes|] == nodes;
  }

  lemma {:induction false} AddNodeIndexes(m: Mesh, node: Node)
    requires Symmetric(m.nodes) && Calibrated(m.nodes) && Indexed(m)
    requires node.bridges == [] && node.omega.maxEpsilon == MAX_EPSILON
    ensures Symmetric(m.nodes + [node]) && Calibrated(m.nodes + [node])
    ensures forall i: nat, j: nat :: (i, j) in m.relationships <==> HasBridge(m.nodes + [node], i, j)
  {
    AddNodeKeepsBridges(m.nodes, node);
  }

  lemma {:induction false} AddNodeInv(m: Mesh, id: nat, position: Vector3D, baseline: real)
    requires Inv(m)
    ensures Inv(AddNode(m, id, position, baseline))
  {
    if id == |m.nodes| {
      AddNodeKeepsBridges(m.nodes, NewNode(position, baseline));
      AddNodeRecords(m, AddNode(m, id, position, baseline));
      AddNodeIndexes(m, NewNode(position, baseline));
    }
  }

  lemma {:induction false} AddNodeRecords(m: Mesh, next: Mesh)
    requires Embodied(m) && Incarnated(m) && Bounded(m) && 0 < m.nextIncarnation
    requires |next.nodes| == |m.nodes| + 1
    requires next.incarnations == m.incarnations + [m.nextIncarnation]
    requires next.nextIncarnation == m.nextIncarnation + 1
    requires next == m.(nodes := next.nodes, incarnations := next.incarnations, nextIncarnation := next.nextIncarnation)
    ensures Embodied(next) && Incarnated(next) && Bounded(next)
  {
  }

  lemma {:induction false} ShockInv(m: Mesh, target: int, magnitude: real)
    requires Inv(m)
    ensures Inv(Shock(m, target, magnitude))
  {
    hide Inv;
    var next := Shock(m, target, magnitude);
    ShockSameShape(m, target, magnitude);
    hide SameShape, Health, ReflexFilter;
    SameShapeInv(m, next);
  }

  lemma {:induction false} ShockSameShape(m: Mesh, target: int, magnitude: real)
    ensures SameShape(m.nodes, Shock(m, target, magnitude).nodes)
  {
  }

  // ---------------------------------------------------------------- connecting

  lemma {:induction false} PushTargets(bridges: seq<Bridge>, bridge: Bridge, j: int)
    ensures Targets(bridges + [bridge], j) <==> Targets(bridges, j) || bridge.target == j
  {
    assert (bridges + [bridge])[..|bridges|] == bridges;
  }

  lemma {:induction false} PushHasBridge(nodes: seq<Node>, a: nat, bridge: Bridge)
    requires a < |nodes|
    ensures forall i, j :: HasBridge(PushBridge(nodes, a, bridge), i, j)
                      <==> HasBridge(nodes, i, j) || (i == a && j == bridge.target)
  {
    forall i, j ensures HasBridge(PushBridge(nodes, a, bridge), i, j)
                   <==> HasBridge(nodes, i, j) || (i == a && j == bridge.target) {
      PushTargets(nodes[a].bridges, bridge, j);
    }
  }

  lemma {:induction false} PushLinked(nodes: seq<Node>, a: nat, bridge: Bridge)
    requires Linked(nodes) && a < |nodes|
    requires 0 <= bridge.target < |nodes| && bridge.target != a && SoundBridge(bridge)
    requires !HasBridge(nodes, a, bridge.target)
    ensures Linked(PushBridge(nodes, a, bridge))
  {
    var next := PushBridge(nodes, a, bridge);
    TargetsIff(nodes[a].bridges, bridge.target);
    hide Targets;
    forall i, k, l | 0 <= i < |next| && 0 <= k < l < |next[i].bridges|
      ensures next[i].bridges[k].target != next[i].bridges[l].target
    {
      if i == a && l == |nodes[a].bridges| {
        assert nodes[a].bridges[k].target != bridge.target;
      }
    }
  }

  lemma {:induction false} NewBridgeSound(metric: Metric, nodes: seq<Node>, i: nat, j: nat)
    requires metric.Valid() && i < |nodes| && j < |nodes|
    ensures SoundBridge(NewBridge(metric, nodes, i, j)) && NewBridge(metric, nodes, i, j).target == j
  {
    OrientationBounded(metric, nodes[i].position, nodes[j].position);
  }

  /** One connection adds exactly the two directed bridges between its ends. */
  lemma {:induction false} ConnectPairHasBridge(metric: Metric, m: Mesh, a: nat, b: nat)
    requires |m.incarnations| == |m.nodes| && a < |m.nodes| && b < |m.nodes|
    ensures forall i, j :: HasBridge(ConnectPair(metric, m, a, b).nodes, i, j)
                      <==> HasBridge(m.nodes, i, j) || (i == a && j == b) || (i == b && j == a)
  {
    PushHasBridge(m.nodes, a, NewBridge(metric, m.nodes, a, b));
    PushHasBridge(PushBridge(m.nodes, a, NewBridge(metric, m.nodes, a, b)), b, NewBridge(metric, m.nodes, b, a));
  }

  lemma {:induction false} ConnectPairLinked(metric: Metric, m: Mesh, a: nat, b: nat)
    requires metric.Valid() && |m.incarnations| == |m.nodes|
    requires a < |m.nodes| && b < |m.nodes| && a != b
    requires Linked(m.nodes) && !HasBridge(m.nodes, a, b) && !HasBridge(m.nodes, b, a)
    ensures Linked(ConnectPair(metric, m, a, b).nodes)
  {
    var forward, reverse := NewBridge(metric, m.nodes, a, b), NewBridge(metric, m.nodes, b, a);
    NewBridgeSound(metric, m.nodes, a, b);
    NewBridgeSound(metric, m.nodes, b, a);
    PushLinked(m.nodes, a, forward);
    PushHasBridge(m.nodes, a, forward);
    PushLinked(PushBridge(m.nodes, a, forward), b, reverse);
  }

  /** A record whose numbers no other record has keeps all records apart. */
  lemma {:induction false} RecordDistinct(relationships: map<Edge, Lifecycle>, e: Edge, record: Lifecycle)
    requires Distinct(relationships)
    requires forall f <- relationships :: f != e ==> Apart(record, relationships[f])
    ensures Distinct(relationships[e := record])
  {
    var next := relationships[e := record];
    forall f <- next, g <- next | f != g ensures Apart(next[f], next[g]) {
      if f == e {
        assert Apart(record, relationships[g]);
      } else if g == e {
        assert Apart(record, relationships[f]);
      } else {
        assert Apart(relationships[f], relationships[g]);
      }
    }
  }

  lemma {:induction false} ConnectPairDistinct(metric: Metric, m: Mesh, a: nat, b: nat)
    requires |m.incarnations| == |m.nodes| && a < |m.nodes| && b < |m.nodes|
    requires Bounded(m) && Distinct(m.relationships)
    ensures Distinct(ConnectPair(metric, m, a, b).relationships)
  {
    var forward, reverse := NewLifecycle(m, a, b, 0), NewLifecycle(m, b, a, 1);
    RecordDistinct(m.relationships, (a, b), forward);
    RecordDistinct(m.relationships[(a, b) := forward], (b, a), reverse);
  }

  lemma {:induction false} ConnectPairBounded(metric: Metric, m: Mesh, a: nat, b: nat)
    requires |m.incarnations| == |m.nodes| && a < |m.nodes| && b < |m.nodes|
    requires Bounded(m) && 0 < m.nextGeneration && 0 < m.nextLineage && 0 < m.nextIdentity
    ensures Bounded(ConnectPair(metric, m, a, b))
  {
  }

  lemma {:induction false} ConnectPairIncarnated(metric: Metric, m: Mesh, a: nat, b: nat)
    requires a < |m.nodes| && b < |m.nodes|
    requires Embodied(m) && Incarnated(m)
    ensures Embodied(ConnectPair(metric, m, a, b)) && Incarnated(ConnectPair(metric, m, a, b))
  {
  }

  lemma {:induction false} ConnectPairIndexes(metric: Metric, m: Mesh, a: nat, b: nat)
    requires |m.incarnations| == |m.nodes| && a < |m.nodes| && b < |m.nodes|
    requires Indexed(m) && Symmetric(m.nodes)
    ensures Indexed(ConnectPair(metric, m, a, b)) && Symmetric(ConnectPair(metric, m, a, b).nodes)
  {
    ConnectPairHasBridge(metric, m, a, b);
  }

  lemma {:induction false} ConnectPairShape(metric: Metric, m: Mesh, a: nat, b: nat)
    requires |m.incarnations| == |m.nodes| && a < |m.nodes| && b < |m.nodes|
    requires Calibrated(m.nodes)
    ensures var next := ConnectPair(metric, m, a, b);
            && Calibrated(next.nodes)
            && next.alpha == StableAlpha(next.nodes)
            && next.nextGeneration > 0 && next.nextLineage > 0 && next.nextIdentity > 0
            && next.nextIncarnation == m.nextIncarnation
  {
  }

  lemma {:induction false} ConnectPairInv(metric: Metric, m: Mesh, a: nat, b: nat)
    requires metric.Valid() && Inv(m)
    requires a < |m.nodes| && b < |m.nodes| && a != b && !HasBridge(m.nodes, a, b)
    ensures Inv(ConnectPair(metric, m, a, b))
  {
    assert !HasBridge(m.nodes, b, a);
    ConnectPairShape(metric, m, a, b);
    ConnectPairLinked(metric, m, a, b);
    ConnectPairIndexes(metric, m, a, b);
    ConnectPairIncarnated(metric, m, a, b);
    ConnectPairBounded(metric, m, a, b);
    ConnectPairDistinct(metric, m, a, b);
  }

  // ---------------------------------------------------------------- records

  /** Moving a bridge's dynamics and giving its relationship fresh numbers keeps the invariant. */
  lemma {:induction false} UpdateRecordInv(m: Mesh, next: Mesh, e: Edge, record: Lifecycle)
    requires Inv(m) && e in m.relationships
    requires next.relationships == m.relationships[e := record]
    requires SameShape(m.nodes, next.nodes)
    requires next == m.(nodes := next.nodes, relationships := next.relationships,
                        nextLineage := next.nextLineage, nextIdentity := next.nextIdentity)
    requires next.nextLineage >= m.nextLineage && next.nextIdentity >= m.nextIdentity
    requires var before := m.relationships[e];
             && record.sourceIncarnation == before.sourceIncarnation
             && record.targetIncarnation == before.targetIncarnation
             && record.generation == before.generation
             && (record.lineage == before.lineage || m.nextLineage <= record.lineage < next.nextLineage)
             && (record.persistence.identity == before.persistence.identity
                 || m.nextIdentity <= record.persistence.identity < next.nextIdentity)
             && Persistence.Settled(GATE_CONFIG, record.persistence.gate)
    ensures Inv(next)
  {
    hide Linked, Symmetric, Calibrated, Indexed, Embodied, Incarnated, Distinct, Apart, StableAlpha, SameShape,
      Persistence.Settled;
    SameCount(m.nodes, next.nodes);
    SameShapeLinked(m.nodes, next.nodes);
    SameShapeAlpha(m.nodes, next.nodes);
    RecordApart(m, e, record);
    RecordDistinct(m.relationships, e, record);
    UpdateRecordIndexed(m, next, e);
    UpdateRecordBounded(m, next, e, record);
  }

  lemma {:induction false} SameCount(nodes: seq<Node>, next: seq<Node>)
    requires SameShape(nodes, next)
    ensures |next| == |nodes|
  {
  }

  /** A record that keeps its numbers or takes later ones stays apart from all others. */
  lemma {:induction false} RecordApart(m: Mesh, e: Edge, record: Lifecycle)
    requires Bounded(m) && Distinct(m.relationships) && e in m.relationships
    requires var before := m.relationships[e];
             && record.generation == before.generation
             && (record.lineage == before.lineage || m.nextLineage <= record.lineage)
             && (record.persistence.identity == before.persistence.identity
                 || m.nextIdentity <= record.persistence.identity)
    ensures forall f <- m.relationships :: f != e ==> Apart(record, m.relationships[f])
  {
    forall f <- m.relationships | f != e ensures Apart(record, m.relationships[f]) {
      assert Apart(m.relationships[e], m.relationships[f]);
    }
  }

  lemma {:induction false} UpdateRecordIndexed(m: Mesh, next: Mesh, e: Edge)
    requires Symmetric(m.nodes) && Indexed(m) && Calibrated(m.nodes)
    requires next.relationships.Keys == m.relationships.Keys
    requires SameShape(m.nodes, next.nodes)
    ensures Symmetric(next.nodes) && Indexed(next) && Calibrated(next.nodes)
  {
    SameShapeHasBridge(m.nodes, next.nodes);
    forall i: nat, j: nat ensures (i, j) in next.relationships <==> HasBridge(next.nodes, i, j) {
      assert (i, j) in next.relationships.Keys <==> (i, j) in m.relationships.Keys;
    }
  }

  lemma {:induction false} UpdateRecordBounded(m: Mesh, next: Mesh, e: Edge, record: Lifecycle)
    requires Embodied(m) && Incarnated(m) && Bounded(m) && e in m.relationships
    requires next.relationships == m.relationships[e := record] && |next.nodes| == |m.nodes|
    requires next == m.(nodes := next.nodes, relationships := next.relationships,
                        nextLineage := next.nextLineage, nextIdentity := next.nextIdentity)
    requires next.nextLineage >= m.nextLineage && next.nextIdentity >= m.nextIdentity
    requires record.sourceIncarnation == m.relationships[e].sourceIncarnation
    requires record.targetIncarnation == m.relationships[e].targetIncarnation
    requires 0 < record.generation < m.nextGeneration
    requires 0 < record.lineage < next.nextLineage
    requires 0 < record.persistence.identity < next.nextIdentity
    requires Persistence.Settled(GATE_CONFIG, record.persistence.gate)
    ensures Embodied(next) && Incarnated(next) && Bounded(next)
  {
    hide Persistence.Settled;
    assert next.relationships.Keys == m.relationships.Keys;
  }

  lemma {:induction false} CommitInv(m: Mesh, e: Edge, direction: TransitionDirection)
    requires Inv(m) && e in m.relationships && HasBridge(m.nodes, e.0, e.1)
    ensures Inv(Commit(m, e, direction))
  {
    CommitSameShape(m, e, direction);
    UpdateRecordInv(m, Commit(m, e, direction), e, m.relationships[e].(lineage := m.nextLineage));
  }

  lemma {:induction false} CommitSameShape(m: Mesh, e: Edge, direction: TransitionDirection)
    requires e in m.relationships && HasBridge(m.nodes, e.0, e.1)
    ensures SameShape(m.nodes, Commit(m, e, direction).nodes)
  {
    var bridges := m.nodes[e.0].bridges;
    var k := Find(bridges, e.1);
    var moved := bridges[k := Transitioned(bridges[k], direction)];
    assert SameEnds(bridges, moved);
  }

  lemma {:induction false} SetGateInv(m: Mesh, e: Edge, gate: Persistence.Gate, renewed: bool)
    requires Inv(m) && e in m.relationships && Persistence.Settled(GATE_CONFIG, gate)
    ensures Inv(SetGate(m, e, gate, renewed))
  {
    if gate != m.relationships[e].persistence.gate {
      var record := m.relationships[e];
      var identity := if renewed then m.nextIdentity else record.persistence.identity;
      UpdateRecordInv(m, SetGate(m, e, gate, renewed), e, record.(persistence := PersistenceRecord(gate, identity)));
    }
  }

  lemma {:induction false} EvolveInv(m: Mesh, e: Edge, evidence: real, renewed: bool)
    requires Inv(m)
    ensures Inv(Evolve(m, e, evidence, renewed)) && Inv(ResetGate(m, e, renewed))
  {
    if e in m.relationships {
      var gate := m.relationships[e].persistence.gate;
      Persistence.StepSettled(GATE_CONFIG, gate, evidence);
      SetGateInv(m, e, Persistence.Step(GATE_CONFIG, gate, evidence), renewed);
      SetGateInv(m, e, Persistence.Fresh(Persistence.Preserve), renewed);
    }
  }
}
