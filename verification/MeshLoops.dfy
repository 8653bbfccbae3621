/**
 The loops by which the mesh reads its adjacency lists, each proved against what the operation
 that runs it means.  None of them assumes a well-formed adjacency.
 */
module MeshLoops {
  import opened Common
  import opened Dynamics
  import opened MeshState
  import opened Topology
  import Pruning

  /** The largest number of bridges at any node. */
  method LargestDegree(nodes: seq<Node>) returns (degree: nat)
    ensures degree == MaxDegree(nodes)
  {
    degree := 0;
    for i := 0 to |nodes|
      invariant degree == MaxDegree(nodes[..i])
    {
      assert nodes[..i + 1][..i] == nodes[..i];
      if |nodes[i].bridges| > degree {
        degree := |nodes[i].bridges|;
      }
    }
    assert nodes[..|nodes|] == nodes;
  }

  // ---------------------------------------------------------------- validation

  predicate GoodTarget(nodes: seq<Node>, i: int, bridge: Bridge) {
    0 <= bridge.target < |nodes| && bridge.target != i
  }

  /** What the full validation demands of the nodes and bridges. */
  ghost predicate WellFormed(nodes: seq<Node>) {
    && (forall i :: 0 <= i < |nodes| ==> nodes[i].omega.maxEpsilon > 0.0)
    && (forall i, k :: 0 <= i < |nodes| && 0 <= k < |nodes[i].bridges| ==>
          && GoodTarget(nodes, i, nodes[i].bridges[k])
          && HasBridge(nodes, nodes[i].bridges[k].target, i))
  }

  lemma {:induction false} TargetsPrefix(bridges: seq<Bridge>, k: nat, j: int)
    requires k < |bridges|
    ensures Targets(bridges[..k + 1], j) <==> Targets(bridges[..k], j) || bridges[k].target == j
  {
    assert bridges[..k + 1] == bridges[..k] + [bridges[k]];
    PushTargets(bridges[..k], bridges[k], j);
  }

  /** The directed edges of the nodes before i and of the first k bridges of node i. */
  ghost predicate EdgesUpTo(nodes: seq<Node>, i: nat, k: nat, edges: set<Edge>)
    requires i < |nodes| ==> k <= |nodes[i].bridges|
  {
    forall e: Edge :: e in edges <==>
      e.0 < |nodes| && e.1 < |nodes| && ((e.0 < i && Targets(nodes[e.0].bridges, e.1))
                         || (e.0 == i && Targets(nodes[i].bridges[..k], e.1)))
  }

  lemma {:induction false} EdgeAdded(nodes: seq<Node>, i: nat, k: nat, edges: set<Edge>)
    requires i < |nodes| && k < |nodes[i].bridges| && EdgesUpTo(nodes, i, k, edges)
    ensures var target := nodes[i].bridges[k].target;
            EdgesUpTo(nodes, i, k + 1, if 0 <= target < |nodes| then edges + {(i, target)} else edges)
  {
    forall j: int ensures Targets(nodes[i].bridges[..k + 1], j)
        <==> Targets(nodes[i].bridges[..k], j) || nodes[i].bridges[k].target == j {
      TargetsPrefix(nodes[i].bridges, k, j);
    }
    hide Targets;
  }

  lemma {:induction false} RowAdded(nodes: seq<Node>, i: nat, edges: set<Edge>)
    requires i < |nodes| && EdgesUpTo(nodes, i, |nodes[i].bridges|, edges)
    ensures EdgesUpTo(nodes, i + 1, 0, edges)
  {
    assert nodes[i].bridges[..|nodes[i].bridges|] == nodes[i].bridges;
  }

  /** Every node is calibrated and every bridge of it leads to another node. */
  ghost predicate NodeSound(nodes: seq<Node>, i: nat)
    requires i < |nodes|
  {
    && nodes[i].omega.maxEpsilon > 0.0
    && forall k :: 0 <= k < |nodes[i].bridges| ==> GoodTarget(nodes, i, nodes[i].bridges[k])
  }

  /** Checks every target, and notes its edge. */
  method NoteEdges(nodes: seq<Node>) returns (sound: bool, edges: set<Edge>)
    ensures sound <==> forall i: nat :: i < |nodes| ==> NodeSound(nodes, i)
    ensures sound ==> EdgesUpTo(nodes, |nodes|, 0, edges)
  {
    edges := {};
    for i := 0 to |nodes|
      invariant EdgesUpTo(nodes, i, 0, edges)
      invariant forall r: nat :: r < i ==> NodeSound(nodes, r)
    {
      if nodes[i].omega.maxEpsilon <= 0.0 {
        assert !NodeSound(nodes, i);
        return false, {};
      }
      var bridges := nodes[i].bridges;
      for k := 0 to |bridges|
        invariant EdgesUpTo(nodes, i, k, edges)
        invariant forall l :: 0 <= l < k ==> GoodTarget(nodes, i, bridges[l])
      {
        if !GoodTarget(nodes, i, bridges[k]) {
          assert !NodeSound(nodes, i);
          return false, {};
        }
        EdgeAdded(nodes, i, k, edges);
        edges := edges + {(i, bridges[k].target)};
      }
      RowAdded(nodes, i, edges);
    }
    return true, edges;
  }

  ghost predicate Answered(nodes: seq<Node>, i: nat)
    requires i < |nodes|
  {
    forall k :: 0 <= k < |nodes[i].bridges| ==> HasBridge(nodes, nodes[i].bridges[k].target, i)
  }

  lemma {:induction false} WellFormedIff(nodes: seq<Node>)
    ensures WellFormed(nodes) <==> forall i: nat :: i < |nodes| ==> NodeSound(nodes, i) && Answered(nodes, i)
  {
    hide HasBridge;
    if WellFormed(nodes) {
      forall i: nat | i < |nodes| ensures NodeSound(nodes, i) && Answered(nodes, i) {
      }
    }
    if forall i: nat :: i < |nodes| ==> NodeSound(nodes, i) && Answered(nodes, i) {
      forall i: nat, k: nat | i < |nodes| && k < |nodes[i].bridges|
        ensures GoodTarget(nodes, i, nodes[i].bridges[k]) && HasBridge(nodes, nodes[i].bridges[k].target, i)
      {
        assert NodeSound(nodes, i) && Answered(nodes, i);
      }
      forall i: nat | i < |nodes| ensures nodes[i].omega.maxEpsilon > 0.0 {
        assert NodeSound(nodes, i);
      }
    }
  }

  /** Whether the topology is well formed: first every target is checked and its edge noted, then
      every bridge is checked to have its counterpart among the noted edges. */
  method ValidateTopology(nodes: seq<Node>) returns (accepted: bool)
    ensures accepted <==> WellFormed(nodes)
  {
    var sound, edges := NoteEdges(nodes);
    WellFormedIff(nodes);
    hide WellFormed, HasBridge;
    if !sound {
      return false;
    }
    for i := 0 to |nodes|
      invariant forall r: nat :: r < i ==> Answered(nodes, r)
    {
      assert NodeSound(nodes, i);
      var bridges := nodes[i].bridges;
      for k := 0 to |bridges|
        invariant forall l :: 0 <= l < k ==> HasBridge(nodes, bridges[l].target, i)
      {
        assert GoodTarget(nodes, i, bridges[k]);
        NotedIff(nodes, edges, bridges[k].target, i);
        if (bridges[k].target, i) !in edges {
          assert !Answered(nodes, i);
          return false;
        }
      }
    }
    return true;
  }

  lemma {:induction false} NotedIff(nodes: seq<Node>, edges: set<Edge>, a: nat, b: nat)
    requires EdgesUpTo(nodes, |nodes|, 0, edges) && a < |nodes| && b < |nodes|
    ensures (a, b) in edges <==> HasBridge(nodes, a, b)
  {
  }

  /** What is accepted: positive bounds, every bridge to another existing node, and from that node
      some bridge back. */
  lemma {:induction false} AcceptedMeans(nodes: seq<Node>)
    ensures WellFormed(nodes) <==>
      && (forall i :: 0 <= i < |nodes| ==> nodes[i].omega.maxEpsilon > 0.0)
      && (forall i, b :: 0 <= i < |nodes| && b in nodes[i].bridges ==>
            && 0 <= b.target < |nodes| && b.target != i
            && exists c :: c in nodes[b.target].bridges && c.target == i)
  {
    forall i: nat, b | i < |nodes| && b in nodes[i].bridges && 0 <= b.target < |nodes|
      ensures HasBridge(nodes, b.target, i) <==> exists c :: c in nodes[b.target].bridges && c.target == i
    {
      Pruning.TargetsMember(nodes[b.target].bridges, i);
    }
    hide HasBridge;
    if WellFormed(nodes) {
      forall i: nat, b | i < |nodes| && b in nodes[i].bridges
        ensures GoodTarget(nodes, i, b) && HasBridge(nodes, b.target, i)
      {
        var k :| 0 <= k < |nodes[i].bridges| && nodes[i].bridges[k] == b;
      }
    }
  }

  /** In a mesh that keeps its invariant the validation never rejects. */
  lemma {:induction false} InvWellFormed(m: Mesh)
    requires Inv(m)
    ensures WellFormed(m.nodes)
  {
    forall i, k | 0 <= i < |m.nodes| && 0 <= k < |m.nodes[i].bridges|
      ensures HasBridge(m.nodes, m.nodes[i].bridges[k].target, i)
    {
      TargetsIff(m.nodes[i].bridges, m.nodes[i].bridges[k].target);
      assert HasBridge(m.nodes, i, m.nodes[i].bridges[k].target);
    }
  }

  // ---------------------------------------------------------------- batches

  datatype Refusal = OutOfRange | SelfConnection | DuplicateInBatch | AlreadyConnected

  function Lower(p: Pair): int {
    if p.1 < p.0 then p.1 else p.0
  }

  function Upper(p: Pair): int {
    if p.1 < p.0 then p.0 else p.1
  }

  /** What speaks against the k-th pair of a batch, the pairs before it being accepted. */
  ghost function Objection(m: Mesh, pairs: seq<Pair>, k: nat): Option<Refusal>
    requires k < |pairs|
  {
    var p := pairs[k];
    if !InRange(m, p.0, p.1) then Some(OutOfRange)
    else if p.0 == p.1 then Some(SelfConnection)
    else if exists l :: 0 <= l < k && SamePair(pairs[l], p) then Some(DuplicateInBatch)
    else if HasBridge(m.nodes, Lower(p), Upper(p)) then Some(AlreadyConnected)
    else None
  }

  /** The pairs join the same two nodes. */
  predicate Alike(p: Pair, q: Pair) {
    (p.0 == q.0 && p.1 == q.1) || (p.0 == q.1 && p.1 == q.0)
  }

  /** The reason for which a pair of a batch is refused: an end that does not exist, then equal ends,
      then an earlier pair of the batch, then a bridge that is there already. */
  lemma {:induction false} ObjectionIs(m: Mesh, pairs: seq<Pair>, k: nat)
    requires k < |pairs|
    ensures var p := pairs[k];
            var there := 0 <= p.0 < |m.nodes| && 0 <= p.1 < |m.nodes|;
            var repeated := exists l :: 0 <= l < k && Alike(pairs[l], p);
            var joined := if p.0 < p.1 then HasBridge(m.nodes, p.0, p.1) else HasBridge(m.nodes, p.1, p.0);
            && (Objection(m, pairs, k) == Some(OutOfRange) <==> !there)
            && (Objection(m, pairs, k) == Some(SelfConnection) <==> there && p.0 == p.1)
            && (Objection(m, pairs, k) == Some(DuplicateInBatch) <==> there && p.0 != p.1 && repeated)
            && (Objection(m, pairs, k) == Some(AlreadyConnected) <==> there && p.0 != p.1 && !repeated && joined)
            && (Objection(m, pairs, k) == None <==> there && p.0 != p.1 && !repeated && !joined)
  {
    hide HasBridge;
    assert forall l :: 0 <= l < k ==> (SamePair(pairs[l], pairs[k]) <==> Alike(pairs[l], pairs[k]));
  }

  ghost predicate NoObjection(m: Mesh, pairs: seq<Pair>, n: nat)
    requires n <= |pairs|
  {
    forall k :: 0 <= k < n ==> Objection(m, pairs, k) == None
  }

  ghost predicate FiniteGeometry(metric: Metric, nodes: seq<Node>, pairs: seq<Pair>) {
    forall k :: 0 <= k < |pairs| ==>
      && 0 <= pairs[k].0 < |nodes| && 0 <= pairs[k].1 < |nodes|
      && metric.finite(nodes[pairs[k].0].position, nodes[pairs[k].1].position)
  }

  lemma {:induction false} NoObjectionInRange(m: Mesh, pairs: seq<Pair>)
    requires NoObjection(m, pairs, |pairs|)
    ensures AllInRange(m, pairs)
  {
    forall k | 0 <= k < |pairs| ensures InRange(m, pairs[k].0, pairs[k].1) {
      assert Objection(m, pairs, k) == None;
    }
  }

  /** A batch is admissible exactly when nothing speaks against any pair and all distances are finite. */
  lemma {:induction false} BatchIffNoObjection(metric: Metric, m: Mesh, pairs: seq<Pair>)
    ensures BatchAdmissible(metric, m, pairs) <==>
      NoObjection(m, pairs, |pairs|) && AllInRange(m, pairs) && FiniteGeometry(metric, m.nodes, pairs)
  {
    hide HasBridge;
    if BatchAdmissible(metric, m, pairs) {
      forall k | 0 <= k < |pairs| ensures Objection(m, pairs, k) == None {
      }
    }
    if NoObjection(m, pairs, |pairs|) && AllInRange(m, pairs) && FiniteGeometry(metric, m.nodes, pairs) {
      forall k | 0 <= k < |pairs|
        ensures pairs[k].0 != pairs[k].1 && !HasBridge(m.nodes, Lower(pairs[k]), Upper(pairs[k]))
        ensures forall l :: 0 <= l < k ==> !SamePair(pairs[l], pairs[k])
      {
        assert Objection(m, pairs, k) == None;
      }
    }
  }

  /** The check of a batch before anything is touched: the first objection, if there is one.  An
      unordered pair is remembered by its smaller and larger end. */
  method CheckBatch(m: Mesh, pairs: seq<Pair>) returns (refusal: Option<Refusal>)
    ensures refusal == None ==> NoObjection(m, pairs, |pairs|)
    ensures refusal != None ==>
       exists k :: 0 <= k < |pairs| && NoObjection(m, pairs, k) && Objection(m, pairs, k) == refusal
  {
    var seen: set<Pair> := {};
    for n := 0 to |pairs|
      invariant NoObjection(m, pairs, n)
      invariant forall p: Pair :: p.0 < p.1 ==> (p in seen <==> exists l :: 0 <= l < n && SamePair(pairs[l], p))
    {
      var p := pairs[n];
      ghost var objection := Objection(m, pairs, n);
      if !InRange(m, p.0, p.1) {
        return Some(OutOfRange);
      }
      if p.0 == p.1 {
        return Some(SelfConnection);
      }
      var key := (Lower(p), Upper(p));
      assert forall l :: 0 <= l < n ==> (SamePair(pairs[l], p) <==> SamePair(pairs[l], key));
      if key in seen {
        return Some(DuplicateInBatch);
      }
      seen := seen + {key};
      if HasBridge(m.nodes, key.0, key.1) {
        return Some(AlreadyConnected);
      }
      assert SamePair(pairs[n], key);
    }
    return None;
  }

  // ---------------------------------------------------------------- automatic connection

  /** All directed edges between existing nodes. */
  method DirectedEdges(nodes: seq<Node>) returns (edges: set<Edge>)
    ensures forall e: Edge :: e in edges <==> e.1 < |nodes| && HasBridge(nodes, e.0, e.1)
  {
    edges := {};
    for i := 0 to |nodes|
      invariant EdgesUpTo(nodes, i, 0, edges)
    {
      var bridges := nodes[i].bridges;
      for k := 0 to |bridges|
        invariant EdgesUpTo(nodes, i, k, edges)
      {
        EdgeAdded(nodes, i, k, edges);
        if 0 <= bridges[k].target < |nodes| {
          edges := edges + {(i, bridges[k].target)};
        }
      }
      RowAdded(nodes, i, edges);
    }
  }

  lemma {:induction false} Append<T>(front: seq<T>, middle: seq<T>, rest: seq<T>, all: seq<T>)
    requires front + (middle + rest) == all
    ensures (front + middle) + rest == all
  {
    assert (front + middle) + rest == front + (middle + rest);
  }

  lemma {:induction false} NearbyFromUnrolls(metric: Metric, nodes: seq<Node>, radius: real, i: nat, j: nat)
    requires i < |nodes| && j < |nodes|
    ensures NearbyFrom(metric, nodes, radius, i, j) ==
      (if metric.dist(nodes[i].position, nodes[j].position) <= radius && !HasBridge(nodes, i, j) then [(i, j)] else [])
      + NearbyFrom(metric, nodes, radius, i, j + 1)
  {
  }

  lemma {:induction false} NearbyUnrolls(metric: Metric, nodes: seq<Node>, radius: real, i: nat)
    requires i < |nodes|
    ensures Nearby(metric, nodes, radius, i)
         == NearbyFrom(metric, nodes, radius, i, i + 1) + Nearby(metric, nodes, radius, i + 1)
  {
  }

  lemma {:induction false} NearbyEnds(metric: Metric, nodes: seq<Node>, radius: real, i: nat)
    ensures i < |nodes| ==> NearbyFrom(metric, nodes, radius, i, |nodes|) == []
    ensures Nearby(metric, nodes, radius, |nodes|) == []
  {
  }

  /** The edges noted agree with the bridges on all pairs from (i, j) on. */
  ghost predicate NotedAhead(nodes: seq<Node>, edges: set<Edge>, i: nat, j: nat) {
    forall a: nat, b: nat :: i <= a < b < |nodes| && (a == i ==> j <= b) ==>
        ((a, b) in edges <==> HasBridge(nodes, a, b))
  }

  /** The pairs of node i within the radius that have no bridge yet, in order. */
  method CollectNearbyOf(metric: Metric, nodes: seq<Node>, radius: real, i: nat, noted: set<Edge>)
    returns (finite: bool, pairs: seq<Pair>, edges: set<Edge>)
    requires i < |nodes| && NotedAhead(nodes, noted, i, i + 1)
    ensures finite <==> forall b :: i < b < |nodes| ==> metric.finite(nodes[i].position, nodes[b].position)
    ensures finite ==> pairs == NearbyFrom(metric, nodes, radius, i, i + 1)
    ensures NotedAhead(nodes, edges, i + 1, i + 2)
  {
    NearbyEnds(metric, nodes, radius, i);
    hide HasBridge, NearbyFrom;
    pairs, edges := [], noted;
    var j := i + 1;
    while j < |nodes|
      invariant i < j <= |nodes|
      invariant forall b :: i < b < j ==> metric.finite(nodes[i].position, nodes[b].position)
      invariant NotedAhead(nodes, edges, i, j)
      invariant pairs + NearbyFrom(metric, nodes, radius, i, j) == NearbyFrom(metric, nodes, radius, i, i + 1)
    {
      if !metric.finite(nodes[i].position, nodes[j].position) {
        return false, [], noted;
      }
      NearbyFromUnrolls(metric, nodes, radius, i, j);
      if metric.dist(nodes[i].position, nodes[j].position) <= radius && (i, j) !in edges {
        Append(pairs, [(i, j)], NearbyFrom(metric, nodes, radius, i, j + 1),
            NearbyFrom(metric, nodes, radius, i, i + 1));
        pairs := pairs + [(i, j)];
        edges := edges + {(i, j), (j, i)};
      }
      j := j + 1;
    }
    return true, pairs, edges;
  }

  /** The pairs within the radius that have no bridge yet, in order; none when some distance is
      not finite. */
  method CollectNearby(metric: Metric, nodes: seq<Node>, radius: real) returns (finite: bool, pairs: seq<Pair>)
    ensures finite <==> AllFinite(metric, nodes)
    ensures finite ==> pairs == Nearby(metric, nodes, radius, 0)
  {
    pairs := [];
    var edges := DirectedEdges(nodes);
    NearbyEnds(metric, nodes, radius, 0);
    hide HasBridge, NearbyFrom, Nearby;
    var i := 0;
    while i < |nodes|
      invariant i <= |nodes|
      invariant forall a, b :: 0 <= a < i && a < b < |nodes| ==> metric.finite(nodes[a].position, nodes[b].position)
      invariant NotedAhead(nodes, edges, i, i + 1)
      invariant pairs + Nearby(metric, nodes, radius, i) == Nearby(metric, nodes, radius, 0)
    {
      var rowFinite, row, after := CollectNearbyOf(metric, nodes, radius, i, edges);
      if !rowFinite {
        return false, [];
      }
      NearbyUnrolls(metric, nodes, radius, i);
      Append(pairs, row, Nearby(metric, nodes, radius, i + 1), Nearby(metric, nodes, radius, 0));
      pairs, edges := pairs + row, after;
      i := i + 1;
    }
    return true, pairs;
  }
}
