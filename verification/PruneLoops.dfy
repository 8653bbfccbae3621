/**
 The three passes of a pruning, on whatever adjacency: unhealthy bridges condemn their pair, then
 bridges without a healthy counterpart do, then condemned bridges are erased.
 */
module PruneLoops {
  import opened Dynamics
  import opened MeshState
  import opened Pruning
  import opened MeshLoops

  /** Some bridge that leads to j is unhealthy. */
  predicate Flawed(bridges: seq<Bridge>, j: int, t: real) {
    |bridges| > 0 &&
    ((bridges[|bridges| - 1].target == j && Unhealthy(bridges[|bridges| - 1], t))
        || Flawed(bridges[..|bridges| - 1], j, t))
  }

  lemma {:induction false} FlawedIff(bridges: seq<Bridge>, j: int, t: real)
    ensures Flawed(bridges, j, t) <==>
      exists k :: 0 <= k < |bridges| && bridges[k].target == j && Unhealthy(bridges[k], t)
    decreases |bridges|
  {
    if |bridges| > 0 {
      var n := |bridges| - 1;
      FlawedIff(bridges[..n], j, t);
      if k :| 0 <= k < |bridges| && bridges[k].target == j && Unhealthy(bridges[k], t) && k < n {
        assert bridges[..n][k] == bridges[k];
      }
    }
  }

  lemma {:induction false} FlawedPrefix(bridges: seq<Bridge>, k: nat, j: int, t: real)
    requires k < |bridges|
    ensures Flawed(bridges[..k + 1], j, t) <==>
      Flawed(bridges[..k], j, t) || (bridges[k].target == j && Unhealthy(bridges[k], t))
  {
    assert bridges[..k + 1][..k] == bridges[..k];
  }

  /** The bridges of node r that a pass standing at the k-th bridge of node i has seen. */
  function Row(nodes: seq<Node>, i: nat, k: nat, r: nat): seq<Bridge>
    requires r < |nodes| && (i < |nodes| ==> k <= |nodes[i].bridges|)
  {
    if r < i then nodes[r].bridges else if r == i then nodes[r].bridges[..k] else []
  }

  /** The key of the unordered pair of a node and another. */
  function PairKey(i: nat, j: nat): Edge {
    if i < j then (i, j) else (j, i)
  }

  /** The condemned pairs are those with a flawed direction among the bridges seen. */
  ghost predicate FlawsUpTo(nodes: seq<Node>, t: real, i: nat, k: nat, condemned: set<Edge>)
    requires i < |nodes| ==> k <= |nodes[i].bridges|
  {
    forall p: Edge :: p in condemned <==>
      p.0 < p.1 < |nodes| && (Flawed(Row(nodes, i, k, p.0), p.1, t) || Flawed(Row(nodes, i, k, p.1), p.0, t))
  }

  /** The remembered bridges are those of the ordinary edges seen, and an unhealthy one flaws its edge. */
  ghost predicate FirstsUpTo(nodes: seq<Node>, t: real, i: nat, k: nat, firsts: map<Edge, Bridge>)
    requires i < |nodes| ==> k <= |nodes[i].bridges|
  {
    && (forall e: Edge :: e in firsts <==>
          e.0 < |nodes| && e.1 < |nodes| && e.0 != e.1 && Targets(Row(nodes, i, k, e.0), e.1))
    && (forall e: Edge :: e in firsts && Unhealthy(firsts[e], t) ==> Flawed(Row(nodes, i, k, e.0), e.1, t))
  }

  lemma {:induction false} RowGrows(nodes: seq<Node>, t: real, i: nat, k: nat)
    requires i < |nodes| && k < |nodes[i].bridges|
    ensures var b := nodes[i].bridges[k];
            forall r: nat, j: int :: r < |nodes| ==>
              && (Targets(Row(nodes, i, k + 1, r), j) <==> Targets(Row(nodes, i, k, r), j) || (r == i && b.target == j))
              && (Flawed(Row(nodes, i, k + 1, r), j, t) <==>
                    Flawed(Row(nodes, i, k, r), j, t) || (r == i && b.target == j && Unhealthy(b, t)))
  {
    var b := nodes[i].bridges[k];
    forall r: nat, j: int | r < |nodes|
      ensures Targets(Row(nodes, i, k + 1, r), j) <==> Targets(Row(nodes, i, k, r), j) || (r == i && b.target == j)
      ensures Flawed(Row(nodes, i, k + 1, r), j, t) <==>
              Flawed(Row(nodes, i, k, r), j, t) || (r == i && b.target == j && Unhealthy(b, t))
    {
      if r == i {
        TargetsPrefix(nodes[i].bridges, k, j);
        FlawedPrefix(nodes[i].bridges, k, j, t);
      }
    }
  }

  lemma {:induction false} RowEnds(nodes: seq<Node>, i: nat)
    requires i < |nodes|
    ensures forall r: nat :: r < |nodes| ==> Row(nodes, i + 1, 0, r) == Row(nodes, i, |nodes[i].bridges|, r)
  {
    assert nodes[i].bridges[..|nodes[i].bridges|] == nodes[i].bridges;
    forall r: nat | r < |nodes| ensures Row(nodes, i + 1, 0, r) == Row(nodes, i, |nodes[i].bridges|, r) {
      assert i + 1 < |nodes| ==> nodes[i + 1].bridges[..0] == [];
    }
  }

  function Remember(nodes: seq<Node>, i: nat, k: nat, firsts: map<Edge, Bridge>): map<Edge, Bridge>
    requires i < |nodes| && k < |nodes[i].bridges|
  {
    var b := nodes[i].bridges[k];
    if GoodTarget(nodes, i, b) && (i, b.target as nat) !in firsts then firsts[(i, b.target as nat) := b] else firsts
  }

  function Condemn(nodes: seq<Node>, t: real, i: nat, k: nat, condemned: set<Edge>): set<Edge>
    requires i < |nodes| && k < |nodes[i].bridges|
  {
    var b := nodes[i].bridges[k];
    if GoodTarget(nodes, i, b) && Unhealthy(b, t) then condemned + {PairKey(i, b.target)} else condemned
  }

  lemma {:induction false} RememberStep(nodes: seq<Node>, t: real, i: nat, k: nat, firsts: map<Edge, Bridge>)
    requires i < |nodes| && k < |nodes[i].bridges| && FirstsUpTo(nodes, t, i, k, firsts)
    ensures FirstsUpTo(nodes, t, i, k + 1, Remember(nodes, i, k, firsts))
  {
    RowGrows(nodes, t, i, k);
    hide Row, Targets, Flawed, Unhealthy;
  }

  lemma {:induction false} CondemnStep(nodes: seq<Node>, t: real, i: nat, k: nat, condemned: set<Edge>)
    requires i < |nodes| && k < |nodes[i].bridges| && FlawsUpTo(nodes, t, i, k, condemned)
    ensures FlawsUpTo(nodes, t, i, k + 1, Condemn(nodes, t, i, k, condemned))
  {
    RowGrows(nodes, t, i, k);
    hide Row, Targets, Flawed, Unhealthy;
  }

  lemma {:induction false} ScanRowEnds(nodes: seq<Node>, t: real, i: nat, firsts: map<Edge, Bridge>,
                                       condemned: set<Edge>)
    requires i < |nodes|
    requires FirstsUpTo(nodes, t, i, |nodes[i].bridges|, firsts)
       && FlawsUpTo(nodes, t, i, |nodes[i].bridges|, condemned)
    ensures FirstsUpTo(nodes, t, i + 1, 0, firsts) && FlawsUpTo(nodes, t, i + 1, 0, condemned)
  {
    RowEnds(nodes, i);
    hide Row, Targets, Flawed, Unhealthy;
  }

  /** First pass: remembers a bridge of every edge, and condemns the pairs of unhealthy bridges. */
  method ScanBridges(nodes: seq<Node>, t: real) returns (firsts: map<Edge, Bridge>, condemned: set<Edge>)
    ensures FirstsUpTo(nodes, t, |nodes|, 0, firsts) && FlawsUpTo(nodes, t, |nodes|, 0, condemned)
  {
    firsts, condemned := map[], {};
    ScanStarts(nodes, t);
    hide FirstsUpTo, FlawsUpTo;
    for i := 0 to |nodes|
      invariant FirstsUpTo(nodes, t, i, 0, firsts) && FlawsUpTo(nodes, t, i, 0, condemned)
    {
      var bridges := nodes[i].bridges;
      for k := 0 to |bridges|
        invariant FirstsUpTo(nodes, t, i, k, firsts) && FlawsUpTo(nodes, t, i, k, condemned)
      {
        RememberStep(nodes, t, i, k, firsts);
        CondemnStep(nodes, t, i, k, condemned);
        var b := bridges[k];
        if GoodTarget(nodes, i, b) {
          if (i, b.target as nat) !in firsts {
            firsts := firsts[(i, b.target as nat) := b];
          }
          if Unhealthy(b, t) {
            condemned := condemned + {PairKey(i, b.target)};
          }
        }
      }
      ScanRowEnds(nodes, t, i, firsts, condemned);
    }
  }

  lemma {:induction false} ScanStarts(nodes: seq<Node>, t: real)
    ensures FirstsUpTo(nodes, t, 0, 0, map[]) && FlawsUpTo(nodes, t, 0, 0, {})
  {
  }

  // ---------------------------------------------------------------- counterparts

  /** A flaw in either direction between the ends of p. */
  ghost predicate FlawedPair(nodes: seq<Node>, t: real, p: Edge)
    requires p.0 < |nodes| && p.1 < |nodes|
  {
    Flawed(nodes[p.0].bridges, p.1, t) || Flawed(nodes[p.1].bridges, p.0, t)
  }

  /** Among the bridges seen, one between the ends of p has no counterpart. */
  ghost predicate Lonely(nodes: seq<Node>, i: nat, k: nat, p: Edge)
    requires p.0 < |nodes| && p.1 < |nodes| && (i < |nodes| ==> k <= |nodes[i].bridges|)
  {
    || (Targets(Row(nodes, i, k, p.0), p.1) && !HasBridge(nodes, p.1, p.0))
    || (Targets(Row(nodes, i, k, p.1), p.0) && !HasBridge(nodes, p.0, p.1))
  }

  ghost predicate LonelyUpTo(nodes: seq<Node>, t: real, i: nat, k: nat, condemned: set<Edge>)
    requires i < |nodes| ==> k <= |nodes[i].bridges|
  {
    forall p: Edge :: p in condemned <==> p.0 < p.1 < |nodes| && (FlawedPair(nodes, t, p) || Lonely(nodes, i, k, p))
  }

  /** The counterpart the second pass looks up is missing or unhealthy. */
  predicate Unanswered(nodes: seq<Node>, t: real, i: nat, bridge: Bridge, firsts: map<Edge, Bridge>)
    requires GoodTarget(nodes, i, bridge)
  {
    (bridge.target as nat, i) !in firsts || Unhealthy(firsts[(bridge.target as nat, i)], t)
  }

  lemma {:induction false} LookedUp(nodes: seq<Node>, t: real, i: nat, bridge: Bridge, firsts: map<Edge, Bridge>)
    requires i < |nodes| && GoodTarget(nodes, i, bridge) && FirstsUpTo(nodes, t, |nodes|, 0, firsts)
    ensures !HasBridge(nodes, bridge.target, i) ==> Unanswered(nodes, t, i, bridge, firsts)
    ensures Unanswered(nodes, t, i, bridge, firsts) ==>
      !HasBridge(nodes, bridge.target, i) || FlawedPair(nodes, t, PairKey(i, bridge.target))
  {
  }

  lemma {:induction false} LonelyStep(nodes: seq<Node>, t: real, i: nat, k: nat, firsts: map<Edge, Bridge>,
                                      condemned: set<Edge>)
    requires i < |nodes| && k < |nodes[i].bridges|
    requires FirstsUpTo(nodes, t, |nodes|, 0, firsts) && LonelyUpTo(nodes, t, i, k, condemned)
    ensures var b := nodes[i].bridges[k];
            LonelyUpTo(nodes, t, i, k + 1,
                       if GoodTarget(nodes, i, b) && Unanswered(nodes, t, i, b, firsts)
                           then condemned + {PairKey(i, b.target)}
                       else condemned)
  {
    var b := nodes[i].bridges[k];
    RowGrows(nodes, t, i, k);
    if GoodTarget(nodes, i, b) {
      LookedUp(nodes, t, i, b, firsts);
    }
    hide Row, Targets, Flawed, Unhealthy, HasBridge, Unanswered, FirstsUpTo, FlawedPair;
  }

  lemma {:induction false} LonelyRowEnds(nodes: seq<Node>, t: real, i: nat, condemned: set<Edge>)
    requires i < |nodes| && LonelyUpTo(nodes, t, i, |nodes[i].bridges|, condemned)
    ensures LonelyUpTo(nodes, t, i + 1, 0, condemned)
  {
    RowEnds(nodes, i);
    hide Row, Targets, FlawedPair, HasBridge;
  }

  lemma {:induction false} LonelyStarts(nodes: seq<Node>, t: real, condemned: set<Edge>)
    requires FlawsUpTo(nodes, t, |nodes|, 0, condemned)
    ensures LonelyUpTo(nodes, t, 0, 0, condemned)
  {
    assert forall r: nat :: r < |nodes| ==> Row(nodes, 0, 0, r) == [];
  }

  /** Second pass: condemns the pairs of bridges whose counterpart is missing or unhealthy. */
  method ScanCounterparts(nodes: seq<Node>, t: real, firsts: map<Edge, Bridge>, flawed: set<Edge>)
      returns (condemned: set<Edge>)
    requires FirstsUpTo(nodes, t, |nodes|, 0, firsts) && FlawsUpTo(nodes, t, |nodes|, 0, flawed)
    ensures LonelyUpTo(nodes, t, |nodes|, 0, condemned)
  {
    hide FirstsUpTo, FlawsUpTo, LonelyUpTo, Unhealthy, Targets, Flawed, Row;
    condemned := flawed;
    LonelyStarts(nodes, t, condemned);
    for i := 0 to |nodes|
      invariant LonelyUpTo(nodes, t, i, 0, condemned)
    {
      var bridges := nodes[i].bridges;
      for k := 0 to |bridges|
        invariant LonelyUpTo(nodes, t, i, k, condemned)
      {
        LonelyStep(nodes, t, i, k, firsts, condemned);
        var b := bridges[k];
        if GoodTarget(nodes, i, b) {
          var reverse: Edge := (b.target as nat, i);
          if reverse !in firsts || Unhealthy(firsts[reverse], t) {
            condemned := condemned + {PairKey(i, b.target)};
          }
        }
      }
      LonelyRowEnds(nodes, t, i, condemned);
    }
  }

  // ---------------------------------------------------------------- erasing

  lemma {:induction false} MutualByFlaws(nodes: seq<Node>, t: real, i: nat, j: nat)
    requires i < |nodes| && j < |nodes|
    ensures Mutual(nodes, t, i, j) <==>
      HasBridge(nodes, i, j) && HasBridge(nodes, j, i) && !FlawedPair(nodes, t, (i, j))
  {
    FlawedIff(nodes[i].bridges, j, t);
    FlawedIff(nodes[j].bridges, i, t);
    hide Targets, Flawed;
  }

  /** A bridge is spared by the third pass exactly when it is meant to survive. */
  lemma {:induction false} SparedIff(nodes: seq<Node>, t: real, condemned: set<Edge>, i: nat, k: nat)
    requires LonelyUpTo(nodes, t, |nodes|, 0, condemned) && i < |nodes| && k < |nodes[i].bridges|
    ensures var target := nodes[i].bridges[k].target;
            0 <= target < |nodes| ==> (Survives(nodes, t, i, target) <==> PairKey(i, target) !in condemned)
  {
    var target := nodes[i].bridges[k].target;
    TargetsIff(nodes[i].bridges, target);
    if 0 <= target < |nodes| {
      MutualByFlaws(nodes, t, i, target);
      hide Mutual, Flawed, Targets;
    }
  }

  method EraseCondemned(nodes: seq<Node>, ghost t: real, condemned: set<Edge>, i: nat) returns (kept: seq<Bridge>)
    requires LonelyUpTo(nodes, t, |nodes|, 0, condemned) && i < |nodes|
    ensures kept == Surviving(nodes, t, i, nodes[i].bridges)
  {
    var bridges := nodes[i].bridges;
    kept := [];
    for k := 0 to |bridges|
      invariant kept == Surviving(nodes, t, i, bridges[..k])
    {
      SparedIff(nodes, t, condemned, i, k);
      SurvivingPush(nodes, t, i, bridges[..k], bridges[k]);
      assert bridges[..k + 1] == bridges[..k] + [bridges[k]];
      hide Surviving, LonelyUpTo, Mutual;
      if 0 <= bridges[k].target < |nodes| && PairKey(i, bridges[k].target) !in condemned {
        kept := kept + [bridges[k]];
      }
    }
    assert bridges[..|bridges|] == bridges;
  }

  /** All three passes: what is left, and whether any bridge was erased. */
  method PruneNodes(nodes: seq<Node>, threshold: real) returns (next: seq<Node>, shapeChanged: bool)
    ensures next == PrunedNodes(nodes, threshold)
    ensures shapeChanged <==> next != nodes
  {
    var firsts, flawed := ScanBridges(nodes, threshold);
    var condemned := ScanCounterparts(nodes, threshold, firsts, flawed);
    hide LonelyUpTo, FlawsUpTo, FirstsUpTo, Surviving;
    next, shapeChanged := [], false;
    for i := 0 to |nodes|
      invariant |next| == i
      invariant forall r :: 0 <= r < i ==>
         next[r] == nodes[r].(bridges := Surviving(nodes, threshold, r, nodes[r].bridges))
      invariant shapeChanged <==> exists r :: 0 <= r < i && |next[r].bridges| != |nodes[r].bridges|
    {
      var kept := EraseCondemned(nodes, threshold, condemned, i);
      shapeChanged := shapeChanged || |kept| != |nodes[i].bridges|;
      next := next + [nodes[i].(bridges := kept)];
    }
    forall r | 0 <= r < |nodes| ensures |next[r].bridges| == |nodes[r].bridges| ==> next[r] == nodes[r] {
      SurvivingMembers(nodes, threshold, r, nodes[r].bridges);
    }
  }
}
