/** What pruning leaves of any adjacency, sound or not, and what two prunings amount to. */
module Pruning {
  import opened Common
  import opened Dynamics
  import opened MeshState
  import opened Topology

  lemma {:induction false} SurvivingTargets(nodes: seq<Node>, t: real, i: int, bridges: seq<Bridge>, j: int)
    ensures Targets(Surviving(nodes, t, i, bridges), j) <==> Targets(bridges, j) && Survives(nodes, t, i, j)
    decreases |bridges|
  {
    if bridges != [] {
      var n := |bridges| - 1;
      var front := Surviving(nodes, t, i, bridges[..n]);
      SurvivingTargets(nodes, t, i, bridges[..n], j);
      if Survives(nodes, t, i, bridges[n].target) {
        PushTargets(front, bridges[n], j);
      } else {
        assert Surviving(nodes, t, i, bridges) == front;
      }
    }
  }

  lemma {:induction false} SurvivingMembers(nodes: seq<Node>, t: real, i: int, bridges: seq<Bridge>)
    ensures forall b :: b in Surviving(nodes, t, i, bridges) <==> b in bridges && Survives(nodes, t, i, b.target)
    ensures |Surviving(nodes, t, i, bridges)| <= |bridges|
    ensures |Surviving(nodes, t, i, bridges)| == |bridges| ==> Surviving(nodes, t, i, bridges) == bridges
    decreases |bridges|
  {
    if bridges != [] {
      var n := |bridges| - 1;
      SurvivingMembers(nodes, t, i, bridges[..n]);
      assert bridges == bridges[..n] + [bridges[n]];
    }
  }

  predicate NoRepeat(bridges: seq<Bridge>) {
    forall k, l :: 0 <= k < l < |bridges| ==> bridges[k].target != bridges[l].target
  }

  lemma {:induction false} SurvivingNoRepeat(nodes: seq<Node>, t: real, i: int, bridges: seq<Bridge>)
    requires NoRepeat(bridges)
    ensures NoRepeat(Surviving(nodes, t, i, bridges))
    decreases |bridges|
  {
    if bridges != [] {
      var n := |bridges| - 1;
      var front := Surviving(nodes, t, i, bridges[..n]);
      var last := bridges[n].target;
      SurvivingNoRepeat(nodes, t, i, bridges[..n]);
      SurvivingTargets(nodes, t, i, bridges[..n], last);
      TargetsIff(bridges[..n], last);
      TargetsIff(front, last);
      assert !Targets(front, last);
    }
  }

  lemma {:induction false} PrunedHasBridge(nodes: seq<Node>, t: real)
    ensures forall i, j ::
      HasBridge(PrunedNodes(nodes, t), i, j) <==> HasBridge(nodes, i, j) && Survives(nodes, t, i, j)
  {
    forall i, j ensures HasBridge(PrunedNodes(nodes, t), i, j) <==> HasBridge(nodes, i, j) && Survives(nodes, t, i, j) {
      if 0 <= i < |nodes| {
        SurvivingTargets(nodes, t, i, nodes[i].bridges, j);
      }
    }
  }

  /** For any adjacency: a bridge that is no self-loop survives exactly when it is in range, its
      pair exists in both directions and nothing between the two nodes is weak or isolated. */
  lemma {:induction false} PruneSpec(nodes: seq<Node>, t: real, i: nat, b: Bridge)
    requires i < |nodes|
    ensures b in PrunedNodes(nodes, t)[i].bridges <==>
      && b in nodes[i].bridges
      && 0 <= b.target < |nodes|
      && (b.target != i ==>
            && (exists c :: c in nodes[b.target].bridges && c.target == i)
            && (forall c :: c in nodes[i].bridges && c.target == b.target ==> c.capacity >= t && c.status != Isolated)
            && (forall c :: c in nodes[b.target].bridges && c.target == i ==> c.capacity >= t && c.status != Isolated))
  {
    SurvivingMembers(nodes, t, i, nodes[i].bridges);
    if b in nodes[i].bridges && 0 <= b.target < |nodes| && b.target != i {
      MutualIff(nodes, t, i, b.target);
      assert exists c :: c in nodes[i].bridges && c.target == b.target;
    }
  }

  lemma {:induction false} MutualIff(nodes: seq<Node>, t: real, i: nat, j: nat)
    requires i < |nodes| && j < |nodes|
    ensures Mutual(nodes, t, i, j) <==>
      && (exists c :: c in nodes[i].bridges && c.target == j)
      && (exists c :: c in nodes[j].bridges && c.target == i)
      && (forall c :: c in nodes[i].bridges && c.target == j ==> !Unhealthy(c, t))
      && (forall c :: c in nodes[j].bridges && c.target == i ==> !Unhealthy(c, t))
  {
    TargetsMember(nodes[i].bridges, j);
    TargetsMember(nodes[j].bridges, i);
  }

  lemma {:induction false} TargetsMember(bridges: seq<Bridge>, j: int)
    ensures Targets(bridges, j) <==> exists c :: c in bridges && c.target == j
  {
    TargetsIff(bridges, j);
    if c :| c in bridges && c.target == j {
      var k :| 0 <= k < |bridges| && bridges[k] == c;
      assert bridges[k].target == j;
    }
    if k :| 0 <= k < |bridges| && bridges[k].target == j {
      assert bridges[k] in bridges;
    }
  }

  // ---------------------------------------------------------------- invariant

  lemma {:induction false} PrunedLinked(nodes: seq<Node>, t: real)
    requires Linked(nodes)
    ensures Linked(PrunedNodes(nodes, t))
  {
    var next := PrunedNodes(nodes, t);
    forall i, k | 0 <= i < |next| && 0 <= k < |next[i].bridges|
      ensures 0 <= next[i].bridges[k].target < |next| && next[i].bridges[k].target != i
         && SoundBridge(next[i].bridges[k])
    {
      SurvivingMembers(nodes, t, i, nodes[i].bridges);
      var b := next[i].bridges[k];
      assert b in next[i].bridges;
      var l :| 0 <= l < |nodes[i].bridges| && nodes[i].bridges[l] == b;
      assert SoundBridge(nodes[i].bridges[l]);
    }
    forall i, k, l | 0 <= i < |next| && 0 <= k < l < |next[i].bridges|
      ensures next[i].bridges[k].target != next[i].bridges[l].target
    {
      SurvivingNoRepeat(nodes, t, i, nodes[i].bridges);
    }
  }

  lemma {:induction false} PrunedSymmetric(nodes: seq<Node>, t: real)
    requires Symmetric(nodes)
    ensures Symmetric(PrunedNodes(nodes, t))
  {
    PrunedHasBridge(nodes, t);
    var next := PrunedNodes(nodes, t);
    forall i, j | HasBridge(next, i, j) ensures HasBridge(next, j, i) {
      assert HasBridge(nodes, j, i);
      assert j != i ==> Mutual(nodes, t, i, j) && Mutual(nodes, t, j, i);
    }
  }

  lemma {:induction false} PrunedIndexed(m: Mesh, t: real)
    requires Indexed(m)
    ensures Indexed(Prune(m, t))
    ensures t >= 0.0 ==> Prune(m, t).relationships == PresentOnly(m.relationships, PrunedNodes(m.nodes, t))
  {
    var nodes := PrunedNodes(m.nodes, t);
    PrunedHasBridge(m.nodes, t);
    assert nodes == m.nodes ==> PresentOnly(m.relationships, nodes) == m.relationships;
  }

  lemma {:induction false} PrunedRecords(m: Mesh, t: real)
    requires Embodied(m) && Incarnated(m) && Bounded(m) && Distinct(m.relationships)
    ensures var next := Prune(m, t);
            Embodied(next) && Incarnated(next) && Bounded(next) && Distinct(next.relationships)
  {
  }

  lemma {:induction false} PruneInv(m: Mesh, t: real)
    requires Inv(m)
    ensures Inv(Prune(m, t))
  {
    PrunedLinked(m.nodes, t);
    PrunedSymmetric(m.nodes, t);
    PrunedIndexed(m, t);
    PrunedRecords(m, t);
  }

  // ---------------------------------------------------------------- two prunings

  /** What survives one pruning and then another is what survives the stricter one. */
  lemma {:induction false} MutualTwice(nodes: seq<Node>, a: real, b: real, i: int, j: int)
    requires i != j && 0 <= i < |nodes| && 0 <= j < |nodes|
    ensures Mutual(nodes, a, i, j) && Mutual(PrunedNodes(nodes, a), b, i, j) <==> Mutual(nodes, RealMax(a, b), i, j)
  {
    var next := PrunedNodes(nodes, a);
    MutualIff(nodes, a, i, j);
    MutualIff(nodes, RealMax(a, b), i, j);
    MutualIff(next, b, i, j);
    SurvivingMembers(nodes, a, i, nodes[i].bridges);
    SurvivingMembers(nodes, a, j, nodes[j].bridges);
  }

  lemma {:induction false} SurvivesTwice(nodes: seq<Node>, a: real, b: real, i: int, j: int)
    requires 0 <= i < |nodes|
    ensures Survives(nodes, a, i, j) && Survives(PrunedNodes(nodes, a), b, i, j)
       <==> Survives(nodes, RealMax(a, b), i, j)
  {
    if 0 <= j < |nodes| && i != j {
      MutualTwice(nodes, a, b, i, j);
    }
  }

  lemma {:induction false} SurvivingPush(nodes: seq<Node>, t: real, i: int, bridges: seq<Bridge>, last: Bridge)
    ensures Surviving(nodes, t, i, bridges + [last])
         == Surviving(nodes, t, i, bridges) + if Survives(nodes, t, i, last.target) then [last] else []
  {
    assert (bridges + [last])[..|bridges|] == bridges;
  }

  lemma {:induction false} SurvivingTwice(nodes: seq<Node>, a: real, b: real, i: int, bridges: seq<Bridge>)
    requires 0 <= i < |nodes|
    ensures Surviving(PrunedNodes(nodes, a), b, i, Surviving(nodes, a, i, bridges))
         == Surviving(nodes, RealMax(a, b), i, bridges)
    decreases |bridges|
  {
    if bridges != [] {
      var n := |bridges| - 1;
      SurvivingTwice(nodes, a, b, i, bridges[..n]);
      SurvivesTwice(nodes, a, b, i, bridges[n].target);
      var once, x := Surviving(nodes, a, i, bridges[..n]), bridges[n];
      SurvivingPush(PrunedNodes(nodes, a), b, i, once, x);
      assert bridges == bridges[..n] + [x];
      SurvivingPush(nodes, a, i, bridges[..n], x);
      SurvivingPush(nodes, RealMax(a, b), i, bridges[..n], x);
      assert once + [] == once;
    }
  }

  lemma {:induction false} PrunedTwice(nodes: seq<Node>, a: real, b: real)
    ensures PrunedNodes(PrunedNodes(nodes, a), b) == PrunedNodes(nodes, RealMax(a, b))
  {
    forall i | 0 <= i < |nodes|
      ensures PrunedNodes(PrunedNodes(nodes, a), b)[i] == PrunedNodes(nodes, RealMax(a, b))[i]
    {
      SurvivingTwice(nodes, a, b, i, nodes[i].bridges);
    }
  }

  /** Pruning at a and then at b is pruning at the larger of the two: nodes, records and alpha. */
  lemma {:induction false} PruneTwice(m: Mesh, a: real, b: real)
    requires Indexed(m) && a >= 0.0 && b >= 0.0
    ensures Prune(Prune(m, a), b) == Prune(m, RealMax(a, b))
  {
    PrunedTwice(m.nodes, a, b);
    PrunedIndexed(m, a);
    PrunedIndexed(Prune(m, a), b);
    PrunedIndexed(m, RealMax(a, b));
    var once, twice := PrunedNodes(m.nodes, a), PrunedNodes(m.nodes, RealMax(a, b));
    PrunedHasBridge(m.nodes, a);
    PrunedHasBridge(once, b);
    assert PresentOnly(PresentOnly(m.relationships, once), twice) == PresentOnly(m.relationships, twice);
  }
}
