/**
 Connecting a list of pairs the way the mesh does it: every edge is prepared first, then all
 records are inserted, then all bridges are published.  It amounts to connecting the pairs one
 after the other.
 */
module Publication {
  import opened Dynamics
  import opened MeshState
  import opened Connecting

  datatype PendingEdge = PendingEdge(key: Edge, bridge: Bridge, lifecycle: Lifecycle)

  /** Both directions of the k-th pair, with the next two numbers of every counter. */
  function PendingPair(metric: Metric, m: Mesh, a: nat, b: nat, k: nat): seq<PendingEdge>
    requires |m.incarnations| == |m.nodes| && a < |m.nodes| && b < |m.nodes|
  {
    [PendingEdge((a, b), NewBridge(metric, m.nodes, a, b), NewLifecycle(m, a, b, 2 * k)),
     PendingEdge((b, a), NewBridge(metric, m.nodes, b, a), NewLifecycle(m, b, a, 2 * k + 1))]
  }

  function PendingFor(metric: Metric, m: Mesh, pairs: seq<Pair>): (r: seq<PendingEdge>)
    requires |m.incarnations| == |m.nodes| && AllInRange(m, pairs)
    ensures |r| == 2 * |pairs|
    ensures forall k :: 0 <= k < |r| ==> r[k].key.0 < |m.nodes|
    decreases |pairs|
  {
    if pairs == [] then []
    else
      var n := |pairs| - 1;
      PendingFor(metric, m, pairs[..n]) + PendingPair(metric, m, pairs[n].0, pairs[n].1, n)
  }

  function Recorded(relationships: map<Edge, Lifecycle>, pending: seq<PendingEdge>): map<Edge, Lifecycle> {
    if pending == [] then relationships
    else
      var n := |pending| - 1;
      Recorded(relationships, pending[..n])[pending[n].key := pending[n].lifecycle]
  }

  function Pushed(nodes: seq<Node>, pending: seq<PendingEdge>): (r: seq<Node>)
    requires forall k :: 0 <= k < |pending| ==> pending[k].key.0 < |nodes|
    ensures |r| == |nodes|
    decreases |pending|
  {
    if pending == [] then nodes
    else
      var n := |pending| - 1;
      PushBridge(Pushed(nodes, pending[..n]), pending[n].key.0, pending[n].bridge)
  }

  lemma {:induction false} RecordedTwo(relationships: map<Edge, Lifecycle>, front: seq<PendingEdge>, p: PendingEdge,
                                       q: PendingEdge)
    ensures Recorded(relationships, front + [p, q]) ==
       Recorded(relationships, front)[p.key := p.lifecycle][q.key := q.lifecycle]
  {
    var all := front + [p, q];
    assert all[..|all| - 1] == front + [p];
    assert (front + [p])[..|front|] == front;
  }

  lemma {:induction false} PushedTwo(nodes: seq<Node>, front: seq<PendingEdge>, p: PendingEdge, q: PendingEdge)
    requires forall k :: 0 <= k < |front| ==> front[k].key.0 < |nodes|
    requires p.key.0 < |nodes| && q.key.0 < |nodes|
    ensures Pushed(nodes, front + [p, q])
         == PushBridge(PushBridge(Pushed(nodes, front), p.key.0, p.bridge), q.key.0, q.bridge)
  {
    var all := front + [p, q];
    assert all[..|all| - 1] == front + [p];
    assert (front + [p])[..|front|] == front;
  }

  /** A mesh reached by connecting n pairs: new bridges look as they would from the start. */
  ghost predicate Ahead(m: Mesh, before: Mesh, n: nat) {
    && |m.incarnations| == |m.nodes| == |before.nodes| && before.incarnations == m.incarnations
    && before.nextGeneration == m.nextGeneration + 2 * n
    && before.nextLineage == m.nextLineage + 2 * n
    && before.nextIdentity == m.nextIdentity + 2 * n
    && forall i :: 0 <= i < |m.nodes| ==> before.nodes[i].position == m.nodes[i].position
  }

  lemma {:induction false} SameEdges(metric: Metric, m: Mesh, before: Mesh, a: nat, b: nat, n: nat)
    requires Ahead(m, before, n) && a < |m.nodes| && b < |m.nodes|
    ensures NewBridge(metric, before.nodes, a, b) == NewBridge(metric, m.nodes, a, b)
    ensures NewLifecycle(before, a, b, 0) == NewLifecycle(m, a, b, 2 * n)
    ensures NewLifecycle(before, a, b, 1) == NewLifecycle(m, a, b, 2 * n + 1)
  {
  }

  lemma {:induction false} PublishStep(metric: Metric, m: Mesh, before: Mesh, front: seq<PendingEdge>, a: nat, b: nat,
                                       n: nat)
    requires Ahead(m, before, n) && a < |m.nodes| && b < |m.nodes|
    requires forall k :: 0 <= k < |front| ==> front[k].key.0 < |m.nodes|
    requires before.relationships == Recorded(m.relationships, front) && before.nodes == Pushed(m.nodes, front)
    ensures var after, pending := ConnectPair(metric, before, a, b), front + PendingPair(metric, m, a, b, n);
            && after.relationships == Recorded(m.relationships, pending)
            && after.nodes == Pushed(m.nodes, pending)
            && after.alpha == StableAlpha(after.nodes)
  {
    SameEdges(metric, m, before, a, b, n);
    SameEdges(metric, m, before, b, a, n);
    var two := PendingPair(metric, m, a, b, n);
    assert front + two == front + [two[0], two[1]];
    RecordedTwo(m.relationships, front, two[0], two[1]);
    PushedTwo(m.nodes, front, two[0], two[1]);
    hide StableAlpha, OrientationFactor, Ahead, NewLifecycle, NewBridge, Recorded, Pushed;
  }

  /** Preparing, recording and publishing all pairs is connecting them in order. */
  lemma {:induction false} PublishedIsConnectAll(metric: Metric, m: Mesh, pairs: seq<Pair>)
    requires |m.incarnations| == |m.nodes| && AllInRange(m, pairs)
    ensures var pending, connected := PendingFor(metric, m, pairs), ConnectAll(metric, m, pairs);
            && Recorded(m.relationships, pending) == connected.relationships
            && Pushed(m.nodes, pending) == connected.nodes
            && connected.alpha == if pairs == [] then m.alpha else StableAlpha(connected.nodes)
    decreases |pairs|
  {
    if pairs != [] {
      var n := |pairs| - 1;
      var a, b := pairs[n].0, pairs[n].1;
      var front, before := PendingFor(metric, m, pairs[..n]), ConnectAll(metric, m, pairs[..n]);
      PublishedIsConnectAll(metric, m, pairs[..n]);
      SamePositions(metric, m, pairs[..n]);
      assert InRange(m, a, b);
      assert Ahead(m, before, n);
      hide StableAlpha, Ahead, ConnectPair, PendingPair, Recorded, Pushed;
      PublishStep(metric, m, before, front, a, b, n);
    }
  }

  /** The mesh after all pairs have been recorded and published. */
  function PublishedMesh(m: Mesh, pending: seq<PendingEdge>): Mesh
    requires forall k :: 0 <= k < |pending| ==> pending[k].key.0 < |m.nodes|
  {
    var nodes := Pushed(m.nodes, pending);
    m.(nodes := nodes,
       relationships := Recorded(m.relationships, pending),
       nextGeneration := m.nextGeneration + |pending|,
       nextLineage := m.nextLineage + |pending|,
       nextIdentity := m.nextIdentity + |pending|,
       alpha := if pending == [] then m.alpha else StableAlpha(nodes))
  }

  lemma {:induction false} PublishedMeshIs(metric: Metric, m: Mesh, pairs: seq<Pair>)
    requires |m.incarnations| == |m.nodes| && AllInRange(m, pairs)
    ensures PublishedMesh(m, PendingFor(metric, m, pairs)) == ConnectAll(metric, m, pairs)
  {
    PublishedIsConnectAll(metric, m, pairs);
    hide StableAlpha, Recorded, Pushed;
  }

  // ---------------------------------------------------------------- fresh keys

  /** No pending key has a record yet, and none is pending twice. */
  ghost predicate Unrecorded(relationships: map<Edge, Lifecycle>, pending: seq<PendingEdge>) {
    && (forall k :: 0 <= k < |pending| ==> pending[k].key !in relationships)
    && (forall k, l :: 0 <= k < l < |pending| ==> pending[k].key != pending[l].key)
  }

  lemma {:induction false} PendingKeys(metric: Metric, m: Mesh, pairs: seq<Pair>)
    requires |m.incarnations| == |m.nodes| && AllInRange(m, pairs)
    ensures forall k :: 0 <= k < |pairs| ==>
      && PendingFor(metric, m, pairs)[2 * k].key == (pairs[k].0, pairs[k].1)
      && PendingFor(metric, m, pairs)[2 * k + 1].key == (pairs[k].1, pairs[k].0)
    decreases |pairs|
  {
    if pairs != [] {
      var n := |pairs| - 1;
      PendingKeys(metric, m, pairs[..n]);
      var front, all := PendingFor(metric, m, pairs[..n]), PendingFor(metric, m, pairs);
      assert InRange(m, pairs[n].0, pairs[n].1);
      hide NewBridge, NewLifecycle;
      forall k | 0 <= k < |pairs|
        ensures all[2 * k].key == (pairs[k].0, pairs[k].1) && all[2 * k + 1].key == (pairs[k].1, pairs[k].0)
      {
        if k < n {
          assert all[2 * k] == front[2 * k] && all[2 * k + 1] == front[2 * k + 1];
        }
      }
    }
  }

  /** The pair whose edge is the k-th pending one. */
  lemma {:induction false} PendingKey(metric: Metric, m: Mesh, pairs: seq<Pair>, k: nat)
    requires |m.incarnations| == |m.nodes| && AllInRange(m, pairs) && k < 2 * |pairs|
    ensures var p, e := pairs[k / 2], PendingFor(metric, m, pairs)[k].key;
            e == if k % 2 == 0 then (p.0, p.1) else (p.1, p.0)
  {
    PendingKeys(metric, m, pairs);
    assert k == 2 * (k / 2) + k % 2;
  }

  /** An admissible batch meets no record: the refusal for an existing relationship cannot occur. */
  lemma {:induction false} AdmissibleUnrecorded(metric: Metric, m: Mesh, pairs: seq<Pair>)
    requires Inv(m) && BatchAdmissible(metric, m, pairs)
    ensures AllInRange(m, pairs) && Unrecorded(m.relationships, PendingFor(metric, m, pairs))
  {
    var pending := PendingFor(metric, m, pairs);
    assert Indexed(m) && Symmetric(m.nodes);
    hide Inv, HasBridge, PendingFor;
    forall k | 0 <= k < |pending| ensures pending[k].key !in m.relationships {
      PendingKey(metric, m, pairs, k);
      var p := pairs[k / 2];
      assert !HasBridge(m.nodes, p.0, p.1) && !HasBridge(m.nodes, p.1, p.0);
    }
    forall k, l | 0 <= k < l < |pending| ensures pending[k].key != pending[l].key {
      PendingKey(metric, m, pairs, k);
      PendingKey(metric, m, pairs, l);
      assert k / 2 < l / 2 ==> !SamePair(pairs[k / 2], pairs[l / 2]);
      assert pairs[k / 2].0 != pairs[k / 2].1;
    }
  }

  // ---------------------------------------------------------------- records and rollback

  ghost predicate KeyOf(pending: seq<PendingEdge>, n: nat, e: Edge)
    requires n <= |pending|
  {
    exists k :: 0 <= k < n && pending[k].key == e
  }

  /** The map after the first n insertions holds the old records and the inserted ones. */
  lemma {:induction false} RecordedHas(relationships: map<Edge, Lifecycle>, pending: seq<PendingEdge>, n: nat, e: Edge)
    requires n <= |pending|
    ensures e in Recorded(relationships, pending[..n]) <==> e in relationships || KeyOf(pending, n, e)
    ensures e in relationships && !KeyOf(pending, n, e) ==> Recorded(relationships, pending[..n])[e] == relationships[e]
  {
    if n > 0 {
      assert pending[..n][..n - 1] == pending[..n - 1];
      RecordedHas(relationships, pending, n - 1, e);
      assert KeyOf(pending, n, e) <==> KeyOf(pending, n - 1, e) || pending[n - 1].key == e;
    }
  }

  /** Erasing the keys inserted, from the first to the last, restores the map. */
  method RollBack(relationships: map<Edge, Lifecycle>, inserted: seq<Edge>) returns (r: map<Edge, Lifecycle>)
    ensures r == map e | e in relationships && e !in inserted :: relationships[e]
  {
    r := relationships;
    for n := 0 to |inserted|
      invariant r == map e | e in relationships && e !in inserted[..n] :: relationships[e]
    {
      assert inserted[..n + 1] == inserted[..n] + [inserted[n]];
      r := r - {inserted[n]};
    }
    assert inserted[..|inserted|] == inserted;
  }

  lemma {:induction false} RollBackRestores(relationships: map<Edge, Lifecycle>, pending: seq<PendingEdge>,
                                            inserted: seq<Edge>)
    requires |inserted| <= |pending|
    requires forall k :: 0 <= k < |inserted| ==> inserted[k] == pending[k].key && inserted[k] !in relationships
    ensures var full := Recorded(relationships, pending[..|inserted|]);
            (map e | e in full && e !in inserted :: full[e]) == relationships
  {
    var full := Recorded(relationships, pending[..|inserted|]);
    var left := map e | e in full && e !in inserted :: full[e];
    forall e: Edge
      ensures e in left <==> e in relationships
      ensures e in relationships ==> left[e] == relationships[e]
    {
      RecordedHas(relationships, pending, |inserted|, e);
      if KeyOf(pending, |inserted|, e) {
        var k :| 0 <= k < |inserted| && pending[k].key == e;
        assert inserted[k] == e;
      }
    }
  }

  lemma {:induction false} UnrecordedNext(relationships: map<Edge, Lifecycle>, pending: seq<PendingEdge>, n: nat)
    requires n < |pending| && Unrecorded(relationships, pending[..n])
    ensures Unrecorded(relationships, pending[..n + 1]) <==>
      pending[n].key !in relationships && !KeyOf(pending, n, pending[n].key)
    ensures !Unrecorded(relationships, pending[..n + 1]) ==> !Unrecorded(relationships, pending)
  {
    var next := pending[..n + 1];
    assert forall k :: 0 <= k < n ==> next[k] == pending[..n][k] == pending[k];
    assert next[n] == pending[n];
    if KeyOf(pending, n, pending[n].key) {
      var k :| 0 <= k < n && pending[k].key == pending[n].key;
      assert next[k].key == next[n].key;
    }
  }

  lemma {:induction false} UnrecordedFront(relationships: map<Edge, Lifecycle>, pending: seq<PendingEdge>, n: nat)
    requires n <= |pending| && Unrecorded(relationships, pending[..n])
    ensures forall k :: 0 <= k < n ==> pending[k].key !in relationships
  {
    assert forall k :: 0 <= k < n ==> pending[..n][k] == pending[k];
  }

  datatype InsertResult = AllInserted | Faulted | AlreadyThere

  /** Inserts all pending records, or none: a fault or an existing record undoes those inserted. */
  method InsertAll(relationships: map<Edge, Lifecycle>, pending: seq<PendingEdge>, faults: nat -> bool)
    returns (r: map<Edge, Lifecycle>, result: InsertResult)
    ensures result == AllInserted ==> r == Recorded(relationships, pending)
    ensures result != AllInserted ==> r == relationships
    ensures result == AllInserted
       <==> Unrecorded(relationships, pending) && forall k :: 0 <= k < |pending| ==> !faults(k)
    ensures result == AlreadyThere ==> !Unrecorded(relationships, pending)
  {
    r := relationships;
    var inserted: seq<Edge> := [];
    for n := 0 to |pending|
      invariant r == Recorded(relationships, pending[..n])
      invariant |inserted| == n
      invariant forall k :: 0 <= k < n ==> inserted[k] == pending[k].key
      invariant forall k :: 0 <= k < n ==> !faults(k)
      invariant Unrecorded(relationships, pending[..n])
    {
      hide Unrecorded, KeyOf;
      RecordedHas(relationships, pending, n, pending[n].key);
      UnrecordedNext(relationships, pending, n);
      if faults(n) || pending[n].key in r {
        UnrecordedFront(relationships, pending, n);
        RollBackRestores(relationships, pending, inserted);
        r := RollBack(r, inserted);
        return r, if faults(n) then Faulted else AlreadyThere;
      }
      r := r[pending[n].key := pending[n].lifecycle];
      assert pending[..n + 1][..n] == pending[..n];
      inserted := inserted + [pending[n].key];
    }
    assert pending[..|pending|] == pending;
    return r, AllInserted;
  }

  method PublishAll(nodes: seq<Node>, pending: seq<PendingEdge>) returns (r: seq<Node>)
    requires forall k :: 0 <= k < |pending| ==> pending[k].key.0 < |nodes|
    ensures r == Pushed(nodes, pending)
  {
    r := nodes;
    for n := 0 to |pending|
      invariant r == Pushed(nodes, pending[..n])
    {
      assert pending[..n + 1][..n] == pending[..n];
      var i := pending[n].key.0;
      r := r[i := r[i].(bridges := r[i].bridges + [pending[n].bridge])];
    }
    assert pending[..|pending|] == pending;
  }
}
