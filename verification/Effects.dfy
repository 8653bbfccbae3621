/**
 What the operations other than a step make of a mesh: every field they change, as plain numbers of
 the fields before, and that they change no other.
 */
module Effects {
  import opened Common
  import opened Dynamics
  import opened MeshState
  import opened Topology
  import opened Diffusion
  import opened Pruning
  import Persistence

  // ---------------------------------------------------------------- stability

  lemma {:induction false} NoDegree(nodes: seq<Node>)
    ensures MaxDegree(nodes) == 0 <==> forall i :: 0 <= i < |nodes| ==> nodes[i].bridges == []
  {
  }

  function Load(node: Node, a: real): real {
    a * (|node.bridges| as real)
  }

  /** At most 0.2, and at most 0.8 per bridge of every node. */
  ghost predicate Allowed(nodes: seq<Node>, a: real) {
    a <= 0.2 && forall i :: 0 <= i < |nodes| ==> Load(nodes[i], a) <= 0.8
  }

  /** In a mesh with bridges alpha is the largest number that is at most 0.2 and at most 0.8 per
      bridge of every node; without any bridge it is 0.15. */
  lemma {:induction false} AlphaIsLargest(m: Mesh, a: real)
    requires Inv(m)
    ensures (forall i :: 0 <= i < |m.nodes| ==> m.nodes[i].bridges == []) ==> m.alpha == 0.15
    ensures (exists i :: 0 <= i < |m.nodes| && m.nodes[i].bridges != []) ==>
      && Allowed(m.nodes, m.alpha)
      && (Allowed(m.nodes, a) ==> a <= m.alpha)
      && (m.alpha == 0.2 || exists i :: 0 <= i < |m.nodes| && Load(m.nodes[i], m.alpha) == 0.8)
  {
    hide Inv, AlphaFor, MaxDegree, Load;
    AlphaStands(m);
    NoDegree(m.nodes);
    AlphaValue(MaxDegree(m.nodes));
    if MaxDegree(m.nodes) > 0 {
      var i := Busiest(m.nodes);
      BusiestDecides(m.nodes[i], m.alpha, a);
    }
  }

  lemma {:induction false} BusiestDecides(node: Node, alpha: real, a: real)
    requires |node.bridges| > 0
    requires alpha == 0.2 || alpha * (|node.bridges| as real) == 0.8
    ensures alpha == 0.2 || Load(node, alpha) == 0.8
    ensures a <= 0.2 && Load(node, a) <= 0.8 ==> a <= alpha
  {
    if a <= 0.2 && Load(node, a) <= 0.8 {
      NoLarger(alpha, a, |node.bridges| as real);
    }
  }

  lemma {:induction false} Busiest(nodes: seq<Node>) returns (i: nat)
    requires MaxDegree(nodes) > 0
    ensures i < |nodes| && |nodes[i].bridges| == MaxDegree(nodes)
  {
    i :| 0 <= i < |nodes| && |nodes[i].bridges| == MaxDegree(nodes);
  }

  lemma {:induction false} NoLarger(alpha: real, a: real, d: real)
    requires d > 0.0 && a <= 0.2 && a * d <= 0.8 && (alpha == 0.2 || alpha * d == 0.8)
    ensures a <= alpha
  {
    if alpha < a {
      MulStrict(alpha, a, d);
    }
  }

  lemma {:induction false} AlphaStands(m: Mesh)
    requires Inv(m)
    ensures m.alpha == AlphaFor(MaxDegree(m.nodes)) && Allowed(m.nodes, m.alpha)
  {
    AlphaBounds(MaxDegree(m.nodes));
    hide AlphaFor, MaxDegree, Linked, Symmetric, Indexed, Embodied, Incarnated, Bounded, Distinct, Calibrated;
    forall i | 0 <= i < |m.nodes| ensures Load(m.nodes[i], m.alpha) <= 0.8 {
      StableEverywhere(m, i);
    }
  }

  lemma {:induction false} AlphaValue(degree: nat)
    ensures degree == 0 ==> AlphaFor(degree) == 0.15
    ensures degree > 0 ==>
      AlphaFor(degree) <= 0.2 && (AlphaFor(degree) == 0.2 || AlphaFor(degree) * (degree as real) == 0.8)
  {
    if degree > 0 {
      var d := degree as real;
      var inverse := 1.0 / d;
      assert inverse * d == 1.0;
      assert (inverse * 0.8) * d == 0.8 * (inverse * d);
    }
  }

  // ---------------------------------------------------------------- nodes

  /** A node taken in stands at its baseline, in full health, with a bound of 10 and no bridge. */
  lemma {:induction false} NodeAdded(m: Mesh, position: Vector3D, baseline: real)
    requires Inv(m)
    ensures var next := AddNode(m, |m.nodes|, position, baseline);
            && |next.nodes| == |m.nodes| + 1 && next.nodes[..|m.nodes|] == m.nodes
            && next.incarnations == m.incarnations + [m.nextIncarnation]
            && next == m.(nodes := next.nodes, incarnations := next.incarnations,
                          nextIncarnation := m.nextIncarnation + 1)
    ensures var node := AddNode(m, |m.nodes|, position, baseline).nodes[|m.nodes|];
            && node.position == position && node.state == baseline && node.health == 1.0
            && node.omega.baseline == baseline && node.omega.maxEpsilon == 10.0 && node.bridges == []
  {
    hide Inv;
  }

  /** A shock moves the state of its target by its magnitude, but by no more than 3.5 either way,
      and the health with it; nothing else changes. */
  lemma {:induction false} Shocked(m: Mesh, target: nat, magnitude: real)
    requires Inv(m) && target < |m.nodes|
    ensures var next := Shock(m, target, magnitude);
            && |next.nodes| == |m.nodes|
            && (forall i :: 0 <= i < |m.nodes| && i != target ==> next.nodes[i] == m.nodes[i])
            && next == m.(nodes := next.nodes)
    ensures var before, after := m.nodes[target], Shock(m, target, magnitude).nodes[target];
            && after.state == (if magnitude > 3.5 then before.state + 3.5
                               else if magnitude < -3.5 then before.state - 3.5
                               else before.state + magnitude)
            && after.health == HealthAt(after.state, before.omega.baseline, 10.0)
            && after.position == before.position && after.omega == before.omega && after.bridges == before.bridges
  {
    BoundIsTen(m, target);
    hide Inv, Health;
    var state := Shock(m, target, magnitude).nodes[target].state;
    HealthIs(state, m.nodes[target].omega);
  }

  lemma {:induction false} BoundIsTen(m: Mesh, i: nat)
    requires Inv(m) && i < |m.nodes|
    ensures m.nodes[i].omega.maxEpsilon == 10.0
  {
  }

  /** Full at the baseline, gone from the bound outwards, in proportion between. */
  function HealthAt(state: real, baseline: real, bound: real): real
    requires bound > 0.0
  {
    var drift := if state >= baseline then state - baseline else baseline - state;
    if drift >= bound then 0.0 else 1.0 - drift / bound
  }

  // ---------------------------------------------------------------- connecting

  /** The bridge from p to q as it is made: full capacity, the distance, and an orientation that
      weighs the rise over the distance. */
  ghost predicate Made(metric: Metric, p: Vector3D, q: Vector3D, target: int, b: Bridge) {
    && b.target == target && b.distance == metric.dist(p, q) && b.capacity == 1.0 && b.status == Normal
    && (b.distance < 0.000001 ==> b.orientation == 1.0)
    && (b.distance >= 0.000001 ==> 2.0 * b.orientation * b.distance == b.distance + (q.z - p.z))
  }

  /** Both nodes get a bridge at the end of their lists, and no other node changes. */
  lemma {:induction false} ConnectedNodes(metric: Metric, m: Mesh, a: nat, b: nat)
    requires metric.Valid() && Inv(m) && Admissible(metric, m, a, b)
    ensures |m.incarnations| == |m.nodes|
    ensures var next := Connect(metric, m, a, b).nodes;
            && |next| == |m.nodes|
            && |next[a].bridges| == |m.nodes[a].bridges| + 1
            && |next[b].bridges| == |m.nodes[b].bridges| + 1
            && forall i :: 0 <= i < |m.nodes| && i != a && i != b ==> next[i] == m.nodes[i]
    ensures var next := Connect(metric, m, a, b).nodes;
            var forward, backward := next[a].bridges[|m.nodes[a].bridges|], next[b].bridges[|m.nodes[b].bridges|];
            && Made(metric, m.nodes[a].position, m.nodes[b].position, b, forward)
            && Made(metric, m.nodes[b].position, m.nodes[a].position, a, backward)
            && next[a] == m.nodes[a].(bridges := m.nodes[a].bridges + [forward])
            && next[b] == m.nodes[b].(bridges := m.nodes[b].bridges + [backward])
  {
    hide Inv, HasBridge, StableAlpha, Made, NewBridge, NewLifecycle, Metric.Valid;
    EveryNodeNumbered(m);
    NewIsMade(metric, m.nodes, a, b);
    NewIsMade(metric, m.nodes, b, a);
  }

  lemma {:induction false} NewIsMade(metric: Metric, nodes: seq<Node>, i: nat, j: nat)
    requires metric.Valid() && i < |nodes| && j < |nodes|
    ensures Made(metric, nodes[i].position, nodes[j].position, j, NewBridge(metric, nodes, i, j))
  {
    hide Metric.Valid, OrientationFactor;
    OrientationMeans(metric, nodes[i].position, nodes[j].position);
  }

  /** A new record, under these numbers and with a fresh gate. */
  predicate Opened(record: Lifecycle, source: nat, target: nat, generation: nat, lineage: nat, identity: nat) {
    && record.sourceIncarnation == source && record.targetIncarnation == target
    && record.generation == generation && record.lineage == lineage && record.persistence.identity == identity
    && record.persistence.gate == Persistence.Gate(Persistence.Preserve, Persistence.Nowhere, 0)
  }

  /** Both directions get a record, the forward one under the next numbers and the backward one under
      those after; no other record changes. */
  lemma {:induction false} ConnectedRecords(metric: Metric, m: Mesh, a: nat, b: nat)
    requires metric.Valid() && Inv(m) && Admissible(metric, m, a, b)
    ensures |m.incarnations| == |m.nodes|
    ensures var next := Connect(metric, m, a, b);
            var one, other := m.incarnations[a], m.incarnations[b];
            && (a, b) in next.relationships && (b, a) in next.relationships
            && Opened(next.relationships[(a, b)], one, other, m.nextGeneration, m.nextLineage, m.nextIdentity)
            && Opened(next.relationships[(b, a)], other, one,
                      m.nextGeneration + 1, m.nextLineage + 1, m.nextIdentity + 1)
            && forall e: Edge :: e != (a, b) && e != (b, a) ==>
                 && (e in next.relationships <==> e in m.relationships)
                 && (e in m.relationships ==> next.relationships[e] == m.relationships[e])
    ensures var next := Connect(metric, m, a, b);
            && next.incarnations == m.incarnations && next.nextIncarnation == m.nextIncarnation
            && next.nextGeneration == m.nextGeneration + 2
            && next.nextLineage == m.nextLineage + 2
            && next.nextIdentity == m.nextIdentity + 2
  {
    hide Inv, HasBridge, StableAlpha, NewBridge, PushBridge, Metric.Valid;
    EveryNodeNumbered(m);
  }

  lemma {:induction false} EveryNodeNumbered(m: Mesh)
    requires Inv(m)
    ensures |m.incarnations| == |m.nodes|
  {
  }

  // ---------------------------------------------------------------- pruning

  /** Pruning touches nothing but lists of bridges, the records of bridges that went, and alpha. */
  lemma {:induction false} Pruned(m: Mesh, threshold: real)
    requires Inv(m) && threshold >= 0.0
    ensures var next := Prune(m, threshold);
            && |next.nodes| == |m.nodes|
            && (forall i :: 0 <= i < |m.nodes| ==>
                  next.nodes[i].(bridges := []) == m.nodes[i].(bridges := []))
            && (forall e: Edge :: e in next.relationships <==> HasBridge(next.nodes, e.0, e.1))
            && (forall e <- next.relationships ::
                  e in m.relationships && next.relationships[e] == m.relationships[e])
            && next == m.(nodes := next.nodes, relationships := next.relationships, alpha := next.alpha)
    ensures forall i: nat, b :: i < |m.nodes| ==>
              (b in Prune(m, threshold).nodes[i].bridges <==>
                 && b in m.nodes[i].bridges && b.capacity >= threshold && b.status != Isolated
                 && exists c :: 0 <= b.target < |m.nodes| && c in m.nodes[b.target].bridges && c.target == i
                                && c.capacity >= threshold && c.status != Isolated)
  {
    PruneInv(m, threshold);
    LinkedOf(m);
    IndexedOf(Prune(m, threshold));
    hide Inv, HasBridge, StableAlpha, Surviving, Indexed, Survives, Symmetric;
    forall i: nat, b | i < |m.nodes|
      ensures b in Prune(m, threshold).nodes[i].bridges <==> Spared(m.nodes, threshold, i, b)
    {
      SparedIff(m, threshold, i, b);
    }
    hide Linked;
  }

  ghost predicate Spared(nodes: seq<Node>, threshold: real, i: nat, b: Bridge)
    requires i < |nodes|
  {
    && b in nodes[i].bridges && b.capacity >= threshold && b.status != Isolated
    && exists c :: 0 <= b.target < |nodes| && c in nodes[b.target].bridges && c.target == i
                   && c.capacity >= threshold && c.status != Isolated
  }

  lemma {:induction false} IndexedOf(m: Mesh)
    requires Inv(m)
    ensures Indexed(m)
  {
  }

  lemma {:induction false} OneBridgeEach(nodes: seq<Node>, i: nat, b: Bridge, c: Bridge)
    requires Linked(nodes) && i < |nodes| && b in nodes[i].bridges && c in nodes[i].bridges && b.target == c.target
    ensures b == c && 0 <= b.target < |nodes| && b.target != i
  {
    var k :| 0 <= k < |nodes[i].bridges| && nodes[i].bridges[k] == b;
    var l :| 0 <= l < |nodes[i].bridges| && nodes[i].bridges[l] == c;
    assert k == l;
  }

  lemma {:induction false} SparedIff(m: Mesh, threshold: real, i: nat, b: Bridge)
    requires Inv(m) && threshold >= 0.0 && i < |m.nodes|
    ensures |Prune(m, threshold).nodes| == |m.nodes|
    ensures b in Prune(m, threshold).nodes[i].bridges <==> Spared(m.nodes, threshold, i, b)
  {
    LinkedOf(m);
    PruneSpec(m.nodes, threshold, i, b);
    hide Inv, StableAlpha, Surviving, Linked, Symmetric;
    if b in m.nodes[i].bridges {
      OneBridgeEach(m.nodes, i, b, b);
      forall c | c in m.nodes[i].bridges && c.target == b.target ensures c == b {
        OneBridgeEach(m.nodes, i, b, c);
      }
      forall c, d | c in m.nodes[b.target].bridges && c.target == i && d in m.nodes[b.target].bridges && d.target == i
        ensures c == d
      {
        OneBridgeEach(m.nodes, b.target, c, d);
      }
    }
  }

  // ---------------------------------------------------------------- commits

  /** A commit damps or strengthens one bridge and gives its record the next lineage; no other
      bridge, record or node changes. */
  lemma {:induction false} CommitEffect(m: Mesh, e: Edge, direction: TransitionDirection)
    requires Inv(m) && e in m.relationships && !direction.Unrecognised?
    ensures e.0 < |m.nodes| && HasBridge(m.nodes, e.0, e.1)
    ensures var next := Commit(m, e, direction);
            && |next.nodes| == |m.nodes|
            && |next.nodes[e.0].bridges| == |m.nodes[e.0].bridges|
            && next.nodes[e.0] == m.nodes[e.0].(bridges := next.nodes[e.0].bridges)
            && (forall i :: 0 <= i < |m.nodes| && i != e.0 ==> next.nodes[i] == m.nodes[i])
            && (forall k :: 0 <= k < |m.nodes[e.0].bridges| ==>
                  var before, after := m.nodes[e.0].bridges[k], next.nodes[e.0].bridges[k];
                  if before.target == e.1 then Transited(before, after, direction.Supporting?) else after == before)
    ensures var next := Commit(m, e, direction);
            && next.relationships == m.relationships[e := m.relationships[e].(lineage := m.nextLineage)]
            && next == m.(nodes := next.nodes, relationships := next.relationships, nextLineage := m.nextLineage + 1)
  {
    hide Inv, HasBridge, Find, Transitioned, Transited;
    CommitTarget(m, e);
    var bridges := m.nodes[e.0].bridges;
    TransitedIs(bridges[Find(bridges, e.1)], direction);
  }

  lemma {:induction false} TransitedIs(bridge: Bridge, direction: TransitionDirection)
    requires !direction.Unrecognised?
    ensures Transited(bridge, Transitioned(bridge, direction), direction.Supporting?)
  {
  }

  lemma {:induction false} CommitTarget(m: Mesh, e: Edge)
    requires Inv(m) && e in m.relationships
    ensures e.0 < |m.nodes| && HasBridge(m.nodes, e.0, e.1)
    ensures var bridges := m.nodes[e.0].bridges;
            forall k :: 0 <= k < |bridges| ==> (bridges[k].target == e.1 <==> k == Find(bridges, e.1))
  {
    assert (e.0, e.1) in m.relationships;
    var bridges := m.nodes[e.0].bridges;
    assert Find(bridges, e.1) < |bridges|;
  }

  /** Support adds 0.15, up to 1, and from 0.9 on the bridge is normal; constraint takes away 15
      percent, down to 0.01. */
  predicate Transited(before: Bridge, after: Bridge, supporting: bool) {
    var c := before.capacity;
    after == if supporting then
      before.(capacity := if c > 0.85 then 1.0 else c + 0.15, status := if c >= 0.75 then Normal else Recovery)
    else
      before.(capacity := if c * 0.85 < 0.01 then 0.01 else c * 0.85, status := Damping)
  }

  // ---------------------------------------------------------------- gates

  /** A call of the gate of one relationship, whatever state it leaves: the record takes that state,
      and a new identity exactly if the state is new and an identity can be had. */
  lemma {:induction false} GateMoved(m: Mesh, e: Edge, gate: Persistence.Gate, renewed: bool)
    requires e in m.relationships
    ensures var next := SetGate(m, e, gate, renewed);
            var before := m.relationships[e].persistence;
            && next.relationships == m.relationships[e := next.relationships[e]]
            && next.relationships[e].persistence.gate == gate
            && next.relationships[e].persistence.identity
               == (if gate != before.gate && renewed then m.nextIdentity else before.identity)
            && next.nextIdentity == (if gate != before.gate && renewed then m.nextIdentity + 1 else m.nextIdentity)
            && next.relationships[e] == m.relationships[e].(persistence := next.relationships[e].persistence)
            && next == m.(relationships := next.relationships, nextIdentity := next.nextIdentity)
  {
    assert m.relationships[e := m.relationships[e]] == m.relationships;
  }
}
