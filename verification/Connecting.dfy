/** Connecting a batch of pairs at once against connecting them one after the other. */
module Connecting {
  import opened Dynamics
  import opened MeshState
  import opened Topology

  /** Every connection of the sequence is accepted in the mesh the earlier ones made. */
  ghost predicate SequenceAdmissible(metric: Metric, m: Mesh, pairs: seq<Pair>)
    requires |m.incarnations| == |m.nodes|
    decreases |pairs|
  {
    |pairs| > 0 ==>
      var n := |pairs| - 1;
      && SequenceAdmissible(metric, m, pairs[..n])
      && AllInRange(m, pairs[..n])
      && Admissible(metric, ConnectAll(metric, m, pairs[..n]), pairs[n].0, pairs[n].1)
  }

  predicate Listed(pairs: seq<Pair>, i: int, j: int) {
    |pairs| > 0 && (SamePair(pairs[|pairs| - 1], (i, j)) || Listed(pairs[..|pairs| - 1], i, j))
  }

  lemma {:induction false} ListedIff(pairs: seq<Pair>, i: int, j: int)
    ensures Listed(pairs, i, j) <==> exists k :: 0 <= k < |pairs| && SamePair(pairs[k], (i, j))
    decreases |pairs|
  {
    if |pairs| > 0 {
      var n := |pairs| - 1;
      ListedIff(pairs[..n], i, j);
      if k :| 0 <= k < |pairs| && SamePair(pairs[k], (i, j)) && k < n {
        assert SamePair(pairs[..n][k], (i, j));
      }
    }
  }

  lemma {:induction false} AllButLast(metric: Metric, m: Mesh, pairs: seq<Pair>, i: int, j: int)
    requires |m.incarnations| == |m.nodes| && AllInRange(m, pairs) && pairs != []
    ensures var n := |pairs| - 1;
            && AllInRange(m, pairs[..n]) && InRange(m, pairs[n].0, pairs[n].1)
            && var before := ConnectAll(metric, m, pairs[..n]);
            ConnectAll(metric, m, pairs) == ConnectPair(metric, before, pairs[n].0, pairs[n].1)
    ensures Listed(pairs, i, j) <==> SamePair(pairs[|pairs| - 1], (i, j)) || Listed(pairs[..|pairs| - 1], i, j)
  {
    hide HasBridge, ConnectPair, SamePair;
  }

  /** The bridges afterwards are the old ones and both directions of every pair. */
  lemma {:induction false} ConnectAllHasBridge(metric: Metric, m: Mesh, pairs: seq<Pair>, i: int, j: int)
    requires |m.incarnations| == |m.nodes| && AllInRange(m, pairs)
    ensures HasBridge(ConnectAll(metric, m, pairs).nodes, i, j) <==> HasBridge(m.nodes, i, j) || Listed(pairs, i, j)
    decreases |pairs|
  {
    if pairs != [] {
      var n := |pairs| - 1;
      hide HasBridge, ConnectPair, ConnectAll, AllInRange, Listed, SamePair;
      AllButLast(metric, m, pairs, i, j);
      ConnectAllHasBridge(metric, m, pairs[..n], i, j);
      ConnectPairHasBridge(metric, ConnectAll(metric, m, pairs[..n]), pairs[n].0, pairs[n].1);
    }
  }

  lemma {:induction false} ConnectAllInv(metric: Metric, m: Mesh, pairs: seq<Pair>)
    requires metric.Valid() && Inv(m) && AllInRange(m, pairs)
    requires SequenceAdmissible(metric, m, pairs)
    ensures Inv(ConnectAll(metric, m, pairs))
    decreases |pairs|
  {
    if pairs != [] {
      var n := |pairs| - 1;
      ConnectAllInv(metric, m, pairs[..n]);
      ConnectPairInv(metric, ConnectAll(metric, m, pairs[..n]), pairs[n].0, pairs[n].1);
    }
  }

  lemma {:induction false} InRangeLast(m: Mesh, pairs: seq<Pair>)
    requires |pairs| > 0 && AllInRange(m, pairs[..|pairs| - 1])
    requires InRange(m, pairs[|pairs| - 1].0, pairs[|pairs| - 1].1)
    ensures AllInRange(m, pairs)
  {
    forall k | 0 <= k < |pairs| ensures InRange(m, pairs[k].0, pairs[k].1) {
      if k < |pairs| - 1 {
        assert pairs[k] == pairs[..|pairs| - 1][k];
      }
    }
  }

  lemma {:induction false} SequenceInRange(metric: Metric, m: Mesh, pairs: seq<Pair>)
    requires |m.incarnations| == |m.nodes| && SequenceAdmissible(metric, m, pairs)
    ensures AllInRange(m, pairs)
    decreases |pairs|
  {
    if |pairs| > 0 {
      var n := |pairs| - 1;
      SequenceInRange(metric, m, pairs[..n]);
      var before := ConnectAll(metric, m, pairs[..n]);
      assert Admissible(metric, before, pairs[n].0, pairs[n].1);
      InRangeLast(m, pairs);
    }
  }

  /** The batch check on its last pair, given that the rest passed. */
  ghost predicate LastAdmissible(metric: Metric, m: Mesh, front: seq<Pair>, last: Pair) {
    && InRange(m, last.0, last.1)
    && last.0 != last.1
    && !HasBridge(m.nodes, last.0, last.1)
    && !Listed(front, last.0, last.1)
    && metric.finite(m.nodes[last.0].position, m.nodes[last.1].position)
  }

  lemma {:induction false} BatchFront(metric: Metric, m: Mesh, pairs: seq<Pair>)
    requires Symmetric(m.nodes) && |pairs| > 0
    ensures BatchAdmissible(metric, m, pairs)
       <==> BatchAdmissible(metric, m, pairs[..|pairs| - 1])
            && LastAdmissible(metric, m, pairs[..|pairs| - 1], pairs[|pairs| - 1])
  {
    var n := |pairs| - 1;
    var front, last := pairs[..n], pairs[n];
    ListedIff(front, last.0, last.1);
    assert forall k :: 0 <= k < n ==> front[k] == pairs[k];
    if BatchAdmissible(metric, m, pairs) {
      assert forall k :: 0 <= k < n ==> !SamePair(front[k], (last.0, last.1));
    }
    if BatchAdmissible(metric, m, front) && LastAdmissible(metric, m, front, last) {
      forall k, l | 0 <= k < l < |pairs| ensures !SamePair(pairs[k], pairs[l]) {
        if l == n {
          assert !SamePair(front[k], (last.0, last.1));
        } else {
          assert !SamePair(front[k], front[l]);
        }
      }
    }
  }

  /** A batch is accepted exactly when its pairs, connected in order, would all be. */
  lemma {:induction false} BatchIffSequence(metric: Metric, m: Mesh, pairs: seq<Pair>)
    requires |m.incarnations| == |m.nodes| && Symmetric(m.nodes)
    ensures BatchAdmissible(metric, m, pairs) <==> SequenceAdmissible(metric, m, pairs)
    decreases |pairs|
  {
    if |pairs| > 0 {
      var n := |pairs| - 1;
      BatchIffSequence(metric, m, pairs[..n]);
      BatchFront(metric, m, pairs);
      if SequenceAdmissible(metric, m, pairs[..n]) {
        SequenceInRange(metric, m, pairs[..n]);
        ConnectAllHasBridge(metric, m, pairs[..n], pairs[n].0, pairs[n].1);
        SamePositions(metric, m, pairs[..n]);
      }
    }
  }

  lemma {:induction false} SamePositions(metric: Metric, m: Mesh, pairs: seq<Pair>)
    requires |m.incarnations| == |m.nodes| && AllInRange(m, pairs)
    ensures forall i :: 0 <= i < |m.nodes| ==>
      ConnectAll(metric, m, pairs).nodes[i].position == m.nodes[i].position
  {
    var next := ConnectAll(metric, m, pairs);
    forall i | 0 <= i < |m.nodes| ensures next.nodes[i].position == m.nodes[i].position {
      assert next.nodes[i].(bridges := []).position == m.nodes[i].(bridges := []).position;
    }
  }

  /** Calling the single connection once for each pair, whatever each call does. */
  function ConnectEach(metric: Metric, m: Mesh, pairs: seq<Pair>): (r: Mesh)
    requires |m.incarnations| == |m.nodes|
    ensures |r.incarnations| == |r.nodes| && |r.nodes| == |m.nodes|
    decreases |pairs|
  {
    if pairs == [] then m
    else Connect(metric, ConnectEach(metric, m, pairs[..|pairs| - 1]), pairs[|pairs| - 1].0, pairs[|pairs| - 1].1)
  }

  lemma {:induction false} AcceptedSequence(metric: Metric, m: Mesh, pairs: seq<Pair>)
    requires |m.incarnations| == |m.nodes| && SequenceAdmissible(metric, m, pairs) && AllInRange(m, pairs)
    ensures ConnectEach(metric, m, pairs) == ConnectAll(metric, m, pairs)
    decreases |pairs|
  {
    if |pairs| > 0 {
      AcceptedSequence(metric, m, pairs[..|pairs| - 1]);
    }
  }

  /** An accepted batch leaves exactly what the single calls leave: the order of bridges, the
      generations and lineages, and alpha.  A batch that is not accepted changes nothing. */
  lemma {:induction false} BatchRefinesSequence(metric: Metric, m: Mesh, pairs: seq<Pair>)
    requires metric.Valid() && Inv(m)
    ensures Inv(ConnectBatch(metric, m, pairs))
    ensures SequenceAdmissible(metric, m, pairs) ==> ConnectBatch(metric, m, pairs) == ConnectEach(metric, m, pairs)
    ensures !SequenceAdmissible(metric, m, pairs) ==> ConnectBatch(metric, m, pairs) == m
  {
    BatchIffSequence(metric, m, pairs);
    if SequenceAdmissible(metric, m, pairs) {
      SequenceInRange(metric, m, pairs);
      AcceptedSequence(metric, m, pairs);
      ConnectAllInv(metric, m, pairs);
    }
  }

  lemma {:induction false} ConnectInv(metric: Metric, m: Mesh, a: int, b: int)
    requires metric.Valid() && Inv(m)
    ensures Inv(Connect(metric, m, a, b))
  {
    if Admissible(metric, m, a, b) {
      ConnectPairInv(metric, m, a, b);
    }
  }

  // ---------------------------------------------------------------- automatic connection

  lemma {:induction false} NearbyFromPairs(metric: Metric, nodes: seq<Node>, radius: real, i: nat, j: nat)
    requires i < j <= |nodes|
    ensures forall k :: 0 <= k < |NearbyFrom(metric, nodes, radius, i, j)| ==>
      var p := NearbyFrom(metric, nodes, radius, i, j)[k];
      p.0 == i && j <= p.1 < |nodes| && !HasBridge(nodes, p.0, p.1)
        && metric.dist(nodes[i].position, nodes[p.1].position) <= radius
    ensures forall k, l :: 0 <= k < l < |NearbyFrom(metric, nodes, radius, i, j)| ==>
      NearbyFrom(metric, nodes, radius, i, j)[k].1 < NearbyFrom(metric, nodes, radius, i, j)[l].1
    decreases |nodes| - j
  {
    if j < |nodes| {
      NearbyFromPairs(metric, nodes, radius, i, j + 1);
    }
  }

  ghost predicate Before(p: Pair, q: Pair) {
    p.0 < q.0 || (p.0 == q.0 && p.1 < q.1)
  }

  /** Proximity lists unconnected pairs i < j in order, each once. */
  lemma {:induction false} NearbyPairs(metric: Metric, nodes: seq<Node>, radius: real, i: nat)
    requires i <= |nodes|
    ensures forall k :: 0 <= k < |Nearby(metric, nodes, radius, i)| ==>
      var p := Nearby(metric, nodes, radius, i)[k];
      i <= p.0 < p.1 < |nodes| && !HasBridge(nodes, p.0, p.1)
        && metric.dist(nodes[p.0].position, nodes[p.1].position) <= radius
    ensures forall k, l :: 0 <= k < l < |Nearby(metric, nodes, radius, i)| ==>
      Before(Nearby(metric, nodes, radius, i)[k], Nearby(metric, nodes, radius, i)[l])
    decreases |nodes| - i
  {
    if i < |nodes| {
      NearbyFromPairs(metric, nodes, radius, i, i + 1);
      NearbyPairs(metric, nodes, radius, i + 1);
    }
  }

  lemma {:induction false} NearbyIsBatch(metric: Metric, m: Mesh, radius: real)
    requires AllFinite(metric, m.nodes)
    ensures AllInRange(m, Nearby(metric, m.nodes, radius, 0))
    ensures BatchAdmissible(metric, m, Nearby(metric, m.nodes, radius, 0))
  {
    NearbyPairs(metric, m.nodes, radius, 0);
    var pairs := Nearby(metric, m.nodes, radius, 0);
    forall k, l | 0 <= k < l < |pairs| ensures !SamePair(pairs[k], pairs[l]) {
      assert Before(pairs[k], pairs[l]);
    }
  }

  lemma {:induction false} NearbyFromComplete(metric: Metric, nodes: seq<Node>, radius: real, i: nat, j: nat, t: nat)
    requires i < j <= t < |nodes| && !HasBridge(nodes, i, t)
    requires metric.dist(nodes[i].position, nodes[t].position) <= radius
    ensures (i, t) in NearbyFrom(metric, nodes, radius, i, j)
    decreases |nodes| - j
  {
    if j < t {
      NearbyFromComplete(metric, nodes, radius, i, j + 1, t);
    }
  }

  lemma {:induction false} NearbyComplete(metric: Metric, nodes: seq<Node>, radius: real, from: nat, i: nat, t: nat)
    requires from <= i < t < |nodes| && !HasBridge(nodes, i, t)
    requires metric.dist(nodes[i].position, nodes[t].position) <= radius
    ensures (i, t) in Nearby(metric, nodes, radius, from)
    decreases |nodes| - from
  {
    hide HasBridge, NearbyFrom;
    var front, rest := NearbyFrom(metric, nodes, radius, from, from + 1), Nearby(metric, nodes, radius, from + 1);
    assert Nearby(metric, nodes, radius, from) == front + rest;
    if from == i {
      NearbyFromComplete(metric, nodes, radius, i, i + 1, t);
    } else {
      NearbyComplete(metric, nodes, radius, from + 1, i, t);
    }
  }

  lemma {:induction false} NearbyListed(metric: Metric, nodes: seq<Node>, radius: real, i: nat, j: nat)
    requires i < j < |nodes|
    ensures Listed(Nearby(metric, nodes, radius, 0), i, j)
       <==> !HasBridge(nodes, i, j) && metric.dist(nodes[i].position, nodes[j].position) <= radius
  {
    var pairs := Nearby(metric, nodes, radius, 0);
    NearbyPairs(metric, nodes, radius, 0);
    ListedIff(pairs, i, j);
    if metric.dist(nodes[i].position, nodes[j].position) <= radius && !HasBridge(nodes, i, j) {
      NearbyComplete(metric, nodes, radius, 0, i, j);
      assert SamePair((i, j), (i, j));
    }
  }

  /** Afterwards two nodes are connected exactly when they were before or lie within the radius. */
  lemma {:induction false} AutoConnectSpec(metric: Metric, m: Mesh, radius: real, i: nat, j: nat)
    requires |m.incarnations| == |m.nodes| && AllFinite(metric, m.nodes) && radius >= 0.0
    requires i < j < |m.nodes|
    ensures HasBridge(AutoConnect(metric, m, radius).nodes, i, j)
       <==> HasBridge(m.nodes, i, j) || metric.dist(m.nodes[i].position, m.nodes[j].position) <= radius
  {
    NearbyIsBatch(metric, m, radius);
    ConnectAllHasBridge(metric, m, Nearby(metric, m.nodes, radius, 0), i, j);
    NearbyListed(metric, m.nodes, radius, i, j);
  }

  lemma {:induction false} AutoConnectInv(metric: Metric, m: Mesh, radius: real)
    requires metric.Valid() && Inv(m)
    ensures Inv(AutoConnect(metric, m, radius))
  {
    hide Inv, AllFinite, Nearby, BatchAdmissible, AllInRange, ConnectAll, StableAlpha;
    SizesAndAlpha(m);
    if AllFinite(metric, m.nodes) {
      var pairs := Nearby(metric, m.nodes, radius, 0);
      NearbyIsBatch(metric, m, radius);
      BatchRefinesSequence(metric, m, pairs);
      SizesAndAlpha(ConnectAll(metric, m, pairs));
    }
  }

  lemma {:induction false} SizesAndAlpha(m: Mesh)
    requires Inv(m)
    ensures |m.incarnations| == |m.nodes| && m.alpha == StableAlpha(m.nodes)
    ensures m.(alpha := StableAlpha(m.nodes)) == m
  {
    hide StableAlpha;
  }
}
