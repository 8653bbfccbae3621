/**
 The state of the mesh as a value, what each exclusive operation makes of it, and the invariant
 that every operation relies on.  An operation on nodes or bridges that runs out of memory leaves
 the state as it was, so its fault is no part of its function; the gate of a relationship is the
 exception, as it has moved before the identity of its new state is allocated.
 */
module MeshState {
  import opened Common
  import opened Dynamics
  import Persistence

  datatype Node = Node(
    position: Vector3D,
    state: real,
    health: real,
    omega: IdentityInvariant,
    bridges: seq<Bridge>)

  type Edge = (nat, nat)

  /** The hysteresis gate of a relationship, and the identity of its latest state.  Identities
      stand for the addresses of live shared objects, so a new one is never equal to one still held. */
  datatype PersistenceRecord = PersistenceRecord(gate: Persistence.Gate, identity: nat)

  datatype Lifecycle = Lifecycle(
    sourceIncarnation: nat,
    targetIncarnation: nat,
    generation: nat,
    lineage: nat,
    persistence: PersistenceRecord)

  datatype Mesh = Mesh(
    nodes: seq<Node>,
    incarnations: seq<nat>,
    relationships: map<Edge, Lifecycle>,
    nextIncarnation: nat,
    nextGeneration: nat,
    nextLineage: nat,
    nextIdentity: nat,
    alpha: real)

  const GATE_CONFIG: Persistence.Config := Persistence.Config(0.5, 0.25, 2, 2)

  function EmptyMesh(): Mesh {
    Mesh([], [], map[], 1, 1, 1, 1, 0.15)
  }

  /** Some bridge leads to j. */
  predicate Targets(bridges: seq<Bridge>, j: int) {
    |bridges| > 0 && (bridges[|bridges| - 1].target == j || Targets(bridges[..|bridges| - 1], j))
  }

  lemma {:induction false} TargetsIff(bridges: seq<Bridge>, j: int)
    ensures Targets(bridges, j) <==> exists k :: 0 <= k < |bridges| && bridges[k].target == j
    decreases |bridges|
  {
    if |bridges| > 0 {
      var n := |bridges| - 1;
      TargetsIff(bridges[..n], j);
      if k :| 0 <= k < |bridges| && bridges[k].target == j && k < n {
        assert bridges[..n][k].target == j;
      }
    }
  }

  predicate HasBridge(nodes: seq<Node>, i: int, j: int) {
    0 <= i < |nodes| && Targets(nodes[i].bridges, j)
  }

  // ---------------------------------------------------------------- stability

  function MaxDegree(nodes: seq<Node>): (degree: nat)
    ensures forall i :: 0 <= i < |nodes| ==> |nodes[i].bridges| <= degree
    ensures degree > 0 ==> exists i :: 0 <= i < |nodes| && |nodes[i].bridges| == degree
  {
    if nodes == [] then 0
    else
      var n := |nodes| - 1;
      Max(MaxDegree(nodes[..n]), |nodes[n].bridges|)
  }

  function AlphaFor(degree: nat): real {
    if degree > 0 then RealMin(0.2, 1.0 / (degree as real) * 0.8) else 0.15
  }

  function StableAlpha(nodes: seq<Node>): real {
    AlphaFor(MaxDegree(nodes))
  }

  // ---------------------------------------------------------------- invariant

  /** Every bridge leads to another node and has sound values, and no two bridges of a node lead
      to the same one. */
  ghost predicate Linked(nodes: seq<Node>) {
    && (forall i, k :: 0 <= i < |nodes| && 0 <= k < |nodes[i].bridges| ==>
          && 0 <= nodes[i].bridges[k].target < |nodes|
          && nodes[i].bridges[k].target != i
          && SoundBridge(nodes[i].bridges[k]))
    && (forall i, k, l :: 0 <= i < |nodes| && 0 <= k < l < |nodes[i].bridges| ==>
          nodes[i].bridges[k].target != nodes[i].bridges[l].target)
  }

  ghost predicate Symmetric(nodes: seq<Node>) {
    forall i, j :: HasBridge(nodes, i, j) ==> HasBridge(nodes, j, i)
  }

  ghost predicate Calibrated(nodes: seq<Node>) {
    forall i :: 0 <= i < |nodes| ==> nodes[i].omega.maxEpsilon == MAX_EPSILON
  }

  /** The recorded relationships are exactly the directed bridges. */
  ghost predicate Indexed(m: Mesh) {
    forall i: nat, j: nat :: (i, j) in m.relationships <==> HasBridge(m.nodes, i, j)
  }

  /** One incarnation number per node, never given twice. */
  ghost predicate Embodied(m: Mesh) {
    && |m.incarnations| == |m.nodes|
    && (forall i :: 0 <= i < |m.incarnations| ==> 0 < m.incarnations[i] < m.nextIncarnation)
    && (forall i, j :: 0 <= i < j < |m.incarnations| ==> m.incarnations[i] != m.incarnations[j])
  }

  /** Each record names the incarnations of the nodes it joins. */
  ghost predicate Incarnated(m: Mesh) {
    && |m.incarnations| == |m.nodes|
    && (forall e <- m.relationships :: e.0 < |m.nodes| && e.1 < |m.nodes|
          && m.relationships[e].sourceIncarnation == m.incarnations[e.0]
          && m.relationships[e].targetIncarnation == m.incarnations[e.1])
  }

  ghost predicate Bounded(m: Mesh) {
    forall e <- m.relationships ::
      && 0 < m.relationships[e].generation < m.nextGeneration
      && 0 < m.relationships[e].lineage < m.nextLineage
      && 0 < m.relationships[e].persistence.identity < m.nextIdentity
      && Persistence.Settled(GATE_CONFIG, m.relationships[e].persistence.gate)
  }

  ghost predicate Apart(one: Lifecycle, other: Lifecycle) {
    && one.generation != other.generation
    && one.lineage != other.lineage
    && one.persistence.identity != other.persistence.identity
  }

  ghost predicate Distinct(relationships: map<Edge, Lifecycle>) {
    forall e <- relationships, f <- relationships :: e != f ==> Apart(relationships[e], relationships[f])
  }

  ghost predicate Inv(m: Mesh) {
    && Linked(m.nodes)
    && Symmetric(m.nodes)
    && Calibrated(m.nodes)
    && Indexed(m)
    && Embodied(m)
    && Incarnated(m)
    && Bounded(m)
    && Distinct(m.relationships)
    && 0 < m.nextIncarnation && 0 < m.nextGeneration && 0 < m.nextLineage && 0 < m.nextIdentity
    && m.alpha == StableAlpha(m.nodes)
  }

  // ---------------------------------------------------------------- nodes

  function NewNode(position: Vector3D, baseline: real): Node {
    Node(position, baseline, 1.0, IdentityInvariant(baseline, MAX_EPSILON), [])
  }

  /** A node is accepted only under the next free index. */
  function AddNode(m: Mesh, id: nat, position: Vector3D, baseline: real): Mesh {
    if id != |m.nodes| then m
    else m.(nodes := m.nodes + [NewNode(position, baseline)],
            incarnations := m.incarnations + [m.nextIncarnation],
            nextIncarnation := m.nextIncarnation + 1)
  }

  function Shock(m: Mesh, target: int, magnitude: real): Mesh {
    if !(0 <= target < |m.nodes|) || m.nodes[target].omega.maxEpsilon <= 0.0 then m
    else
      var node := m.nodes[target];
      var state := ReflexFilter(node.state, node.state + magnitude);
      m.(nodes := m.nodes[target := node.(state := state, health := Health(state, node.omega))])
  }

  // ---------------------------------------------------------------- connecting

  function NewBridge(metric: Metric, nodes: seq<Node>, i: nat, j: nat): Bridge
    requires i < |nodes| && j < |nodes|
  {
    var p, q := nodes[i].position, nodes[j].position;
    Bridge(j, metric.dist(p, q), OrientationFactor(metric, p, q), 1.0, Normal)
  }

  function PushBridge(nodes: seq<Node>, i: nat, bridge: Bridge): seq<Node>
    requires i < |nodes|
  {
    nodes[i := nodes[i].(bridges := nodes[i].bridges + [bridge])]
  }

  /** The record of the k-th relationship made by one operation. */
  function NewLifecycle(m: Mesh, i: nat, j: nat, k: nat): Lifecycle
    requires i < |m.incarnations| && j < |m.incarnations|
  {
    Lifecycle(m.incarnations[i], m.incarnations[j], m.nextGeneration + k, m.nextLineage + k,
              PersistenceRecord(Persistence.Fresh(Persistence.Preserve), m.nextIdentity + k))
  }

  /** Both directions between a and b, recorded and published, and alpha adapted. */
  function ConnectPair(metric: Metric, m: Mesh, a: nat, b: nat): Mesh
    requires |m.incarnations| == |m.nodes|
    requires a < |m.nodes| && b < |m.nodes|
  {
    var nodes := PushBridge(PushBridge(m.nodes, a, NewBridge(metric, m.nodes, a, b)),
                            b, NewBridge(metric, m.nodes, b, a));
    m.(nodes := nodes,
       relationships := m.relationships[(a, b) := NewLifecycle(m, a, b, 0)][(b, a) := NewLifecycle(m, b, a, 1)],
       nextGeneration := m.nextGeneration + 2,
       nextLineage := m.nextLineage + 2,
       nextIdentity := m.nextIdentity + 2,
       alpha := StableAlpha(nodes))
  }

  predicate InRange(m: Mesh, a: int, b: int) {
    0 <= a < |m.nodes| && 0 <= b < |m.nodes|
  }

  /** When a single connection is accepted; duplicates are looked for in one direction only. */
  predicate Admissible(metric: Metric, m: Mesh, a: int, b: int) {
    && InRange(m, a, b)
    && a != b
    && !HasBridge(m.nodes, a, b)
    && metric.finite(m.nodes[a].position, m.nodes[b].position)
  }

  function Connect(metric: Metric, m: Mesh, a: int, b: int): Mesh
    requires |m.incarnations| == |m.nodes|
  {
    if Admissible(metric, m, a, b) then ConnectPair(metric, m, a, b) else m
  }

  type Pair = (int, int)

  ghost predicate AllInRange(m: Mesh, pairs: seq<Pair>) {
    forall k :: 0 <= k < |pairs| ==> InRange(m, pairs[k].0, pairs[k].1)
  }

  /** Connecting the pairs one after the other. */
  function ConnectAll(metric: Metric, m: Mesh, pairs: seq<Pair>): (r: Mesh)
    requires |m.incarnations| == |m.nodes| && AllInRange(m, pairs)
    ensures |r.nodes| == |m.nodes| && r.incarnations == m.incarnations
    ensures forall i :: 0 <= i < |m.nodes| ==> r.nodes[i].(bridges := []) == m.nodes[i].(bridges := [])
    ensures r.nextGeneration == m.nextGeneration + 2 * |pairs|
    ensures r.nextLineage == m.nextLineage + 2 * |pairs|
    ensures r.nextIdentity == m.nextIdentity + 2 * |pairs|
    ensures r.nextIncarnation == m.nextIncarnation
    decreases |pairs|
  {
    if pairs == [] then m
    else
      var n := |pairs| - 1;
      ConnectPair(metric, ConnectAll(metric, m, pairs[..n]), pairs[n].0, pairs[n].1)
  }

  predicate SamePair(p: Pair, q: Pair) {
    p == q || p == (q.1, q.0)
  }

  /** When a batch is accepted: every pair alone would be, looked up from its smaller end, and no
      unordered pair occurs twice. */
  ghost predicate BatchAdmissible(metric: Metric, m: Mesh, pairs: seq<Pair>) {
    && (forall k :: 0 <= k < |pairs| ==>
          && InRange(m, pairs[k].0, pairs[k].1)
          && pairs[k].0 != pairs[k].1
          && (if pairs[k].0 < pairs[k].1 then !HasBridge(m.nodes, pairs[k].0, pairs[k].1)
              else !HasBridge(m.nodes, pairs[k].1, pairs[k].0))
          && metric.finite(m.nodes[pairs[k].0].position, m.nodes[pairs[k].1].position))
    && (forall k, l :: 0 <= k < l < |pairs| ==> !SamePair(pairs[k], pairs[l]))
  }

  ghost function ConnectBatch(metric: Metric, m: Mesh, pairs: seq<Pair>): Mesh
    requires |m.incarnations| == |m.nodes|
  {
    if BatchAdmissible(metric, m, pairs) then ConnectAll(metric, m, pairs) else m
  }

  // ---------------------------------------------------------------- automatic connection

  /** The pairs (i, j) with j from the given bound up that lie within the radius and are not
      connected yet, in order. */
  function NearbyFrom(metric: Metric, nodes: seq<Node>, radius: real, i: nat, j: nat): seq<Pair>
    requires i < |nodes| && j <= |nodes|
    decreases |nodes| - j
  {
    if j == |nodes| then []
    else
      (if metric.dist(nodes[i].position, nodes[j].position) <= radius && !HasBridge(nodes, i, j) then [(i, j)] else [])
      + NearbyFrom(metric, nodes, radius, i, j + 1)
  }

  function Nearby(metric: Metric, nodes: seq<Node>, radius: real, i: nat): seq<Pair>
    requires i <= |nodes|
    decreases |nodes| - i
  {
    if i == |nodes| then []
    else NearbyFrom(metric, nodes, radius, i, i + 1) + Nearby(metric, nodes, radius, i + 1)
  }

  ghost predicate AllFinite(metric: Metric, nodes: seq<Node>) {
    forall i, j :: 0 <= i < j < |nodes| ==> metric.finite(nodes[i].position, nodes[j].position)
  }

  ghost function AutoConnect(metric: Metric, m: Mesh, radius: real): Mesh
    requires |m.incarnations| == |m.nodes|
  {
    var pairs := Nearby(metric, m.nodes, radius, 0);
    if radius < 0.0 || !AllFinite(metric, m.nodes) || !AllInRange(m, pairs) then m
    else
      var connected := ConnectAll(metric, m, pairs);
      connected.(alpha := StableAlpha(connected.nodes))
  }

  // ---------------------------------------------------------------- pruning

  predicate Unhealthy(bridge: Bridge, threshold: real) {
    bridge.capacity < threshold || bridge.status == Isolated
  }

  /** Both directions exist, and no bridge of either is unhealthy. */
  predicate Mutual(nodes: seq<Node>, threshold: real, i: int, j: int) {
    && HasBridge(nodes, i, j)
    && HasBridge(nodes, j, i)
    && (forall k :: 0 <= k < |nodes[i].bridges| && nodes[i].bridges[k].target == j ==>
          !Unhealthy(nodes[i].bridges[k], threshold))
    && (forall k :: 0 <= k < |nodes[j].bridges| && nodes[j].bridges[k].target == i ==>
          !Unhealthy(nodes[j].bridges[k], threshold))
  }

  predicate Survives(nodes: seq<Node>, threshold: real, i: int, target: int) {
    0 <= target < |nodes| && (target == i || Mutual(nodes, threshold, i, target))
  }

  function Surviving(nodes: seq<Node>, threshold: real, i: int, bridges: seq<Bridge>): seq<Bridge> {
    if bridges == [] then []
    else
      var n := |bridges| - 1;
      Surviving(nodes, threshold, i, bridges[..n])
      + (if Survives(nodes, threshold, i, bridges[n].target) then [bridges[n]] else [])
  }

  function PrunedNodes(nodes: seq<Node>, threshold: real): seq<Node> {
    seq(|nodes|, i requires 0 <= i < |nodes| =>
      nodes[i].(bridges := Surviving(nodes, threshold, i, nodes[i].bridges)))
  }

  function PresentOnly(relationships: map<Edge, Lifecycle>, nodes: seq<Node>): map<Edge, Lifecycle> {
    map e | e in relationships && HasBridge(nodes, e.0, e.1) :: relationships[e]
  }

  function Prune(m: Mesh, threshold: real): Mesh {
    if threshold < 0.0 then m
    else
      var nodes := PrunedNodes(m.nodes, threshold);
      m.(nodes := nodes,
         relationships := if nodes == m.nodes then m.relationships else PresentOnly(m.relationships, nodes),
         alpha := StableAlpha(nodes))
  }

  // ---------------------------------------------------------------- transitions

  // An enumeration whose value may lie outside its enumerators.
  datatype TransitionDirection = Constraining | Supporting | Unrecognised(code: int)

  function Find(bridges: seq<Bridge>, target: int): (k: nat)
    ensures k <= |bridges|
    ensures k < |bridges| ==> bridges[k].target == target
    ensures forall l :: 0 <= l < k ==> bridges[l].target != target
    ensures k < |bridges| <==> Targets(bridges, target)
  {
    TargetsIff(bridges, target);
    if bridges == [] then 0
    else if bridges[0].target == target then 0
    else
      var rest := Find(bridges[1..], target);
      assert forall l :: 0 < l <= rest ==> bridges[1..][l - 1] == bridges[l] || l == |bridges|;
      rest + 1
  }

  function Transitioned(bridge: Bridge, direction: TransitionDirection): Bridge {
    match direction
    case Constraining => UpdateBridge(bridge, Noise)
    case Supporting => UpdateBridge(bridge, CreativeSignal)
    case Unrecognised(_) => bridge
  }

  /** What a committed transition does to the mesh: the bridge moves and its relationship gets a
      lineage no relationship has had. */
  function Commit(m: Mesh, e: Edge, direction: TransitionDirection): Mesh
    requires e in m.relationships && HasBridge(m.nodes, e.0, e.1)
  {
    var bridges := m.nodes[e.0].bridges;
    var k := Find(bridges, e.1);
    m.(nodes := m.nodes[e.0 := m.nodes[e.0].(bridges := bridges[k := Transitioned(bridges[k], direction)])],
       relationships := m.relationships[e := m.relationships[e].(lineage := m.nextLineage)],
       nextLineage := m.nextLineage + 1)
  }

  // ---------------------------------------------------------------- persistence

  /** A change of the gate's state gets a new identity, unless that cannot be allocated: then the
      new state stands under the old identity. */
  function Regated(record: PersistenceRecord, gate: Persistence.Gate, identity: nat, renewed: bool): PersistenceRecord {
    if gate == record.gate then record else PersistenceRecord(gate, if renewed then identity else record.identity)
  }

  function SetGate(m: Mesh, e: Edge, gate: Persistence.Gate, renewed: bool): Mesh
    requires e in m.relationships
  {
    var record := m.relationships[e].persistence;
    if gate == record.gate then m
    else
      var after := Regated(record, gate, m.nextIdentity, renewed);
      m.(relationships := m.relationships[e := m.relationships[e].(persistence := after)],
         nextIdentity := if renewed then m.nextIdentity + 1 else m.nextIdentity)
  }

  /** One observation by the gate of a relationship. */
  function Evolve(m: Mesh, e: Edge, evidence: real, renewed: bool): Mesh {
    if e !in m.relationships then m
    else SetGate(m, e, Persistence.Step(GATE_CONFIG, m.relationships[e].persistence.gate, evidence), renewed)
  }

  function ResetGate(m: Mesh, e: Edge, renewed: bool): Mesh {
    if e !in m.relationships then m
    else SetGate(m, e, Persistence.Fresh(Persistence.Preserve), renewed)
  }
}
