/**
  Pieces shared by the two traversals (the `.map(node => node.value)` at the
  end), and breadth-first search: its loop over a node's adjacency set, its
  loop invariant, and the facts it yields about hop distance.
 */
module Search {
  import opened Adjacency
  import opened Walks

  /** The values carried by the nodes of `order`, in the same order. */
  function Lookup<T>(m: map<Vertex, T>, order: seq<Vertex>): (r: seq<T>)
    requires forall i :: 0 <= i < |order| ==> order[i] in m
    ensures |r| == |order| && forall i :: 0 <= i < |order| ==> r[i] == m[order[i]]
  {
    seq(|order|, i requires 0 <= i < |order| => m[order[i]])
  }

  /** Every node of `order` after the first is adjacent to some node before it. */
  ghost predicate Discovered(adj: AdjMap, order: seq<Vertex>) {
    forall i :: 0 < i < |order| ==>
      exists j :: 0 <= j < i && order[j] in adj && order[i] in adj[order[j]]
  }

  /**
    The loop of breadth-first search over `start.adjacent`: appends every
    neighbour not yet in the results, in the unspecified order of the set.
   */
  method AppendNew(results: seq<Vertex>, nbrs: set<Vertex>) returns (r: seq<Vertex>)
    requires Distinct(results)
    ensures |r| >= |results| && r[..|results|] == results
    ensures forall w :: w in r <==> w in results || w in nbrs
    ensures Distinct(r)
  {
    r := results;
    var rest := nbrs;
    while exists w :: w in rest
      invariant rest <= nbrs
      invariant |r| >= |results| && r[..|results|] == results
      invariant forall w :: w in r <==> w in results || w in nbrs - rest
      invariant Distinct(r)
      decreases rest
    {
      var w :| w in rest;
      if w !in r {
        r := r + [w];
      }
      rest := rest - {w};
    }
  }

  /** Each node after the first was appended while expanding an earlier node, one level further. */
  ghost predicate FoundFromExpanded(adj: AdjMap, results: seq<Vertex>, levels: seq<nat>, index: nat)
    requires |levels| == |results|
  {
    forall i :: 0 < i < |results| ==>
      exists j :: 0 <= j < i && j < index && results[j] in adj && results[i] in adj[results[j]] && levels[i] == levels[j] + 1
  }

  /** Levels never decrease along the results. */
  ghost predicate NonDecreasing(levels: seq<nat>) {
    forall i, j :: 0 <= i <= j < |levels| ==> levels[i] <= levels[j]
  }

  /** Nothing found so far is more than one level past the node under the cursor. */
  ghost predicate WithinOneOfCursor(levels: seq<nat>, index: nat) {
    index < |levels| ==> forall i :: 0 <= i < |levels| ==> levels[i] <= levels[index] + 1
  }

  /** The neighbours of the expanded nodes have all been found. */
  ghost predicate ExpandedClosed(adj: AdjMap, results: seq<Vertex>, index: nat) {
    forall i :: 0 <= i < index && i < |results| && results[i] in adj ==>
      forall w :: w in adj[results[i]] ==> w in results
  }

  /** A found neighbour of a found node is at most one level further. */
  ghost predicate NeighbourLevels(adj: AdjMap, results: seq<Vertex>, levels: seq<nat>)
    requires |levels| == |results|
  {
    forall i, k :: 0 <= i < |results| && 0 <= k < |results| && results[i] in adj && results[k] in adj[results[i]] ==>
      levels[k] <= levels[i] + 1
  }

  /**
    The state of breadth-first search: `results` holds the nodes found so far,
    `index` is the cursor (the nodes before it have been expanded), and the
    ghost `levels` gives, for each node found, the number of edges on the chain
    of discoveries that led to it from `start`.
   */
  ghost predicate BfsInv(adj: AdjMap, start: Vertex, results: seq<Vertex>, levels: seq<nat>, index: nat) {
    && |levels| == |results| && |results| >= 1 && index <= |results|
    && results[0] == start && levels[0] == 0
    && Distinct(results)
    && (forall i :: 0 <= i < |results| ==> results[i] in adj)
    && FoundFromExpanded(adj, results, levels, index)
    && NonDecreasing(levels)
    && WithinOneOfCursor(levels, index)
    && ExpandedClosed(adj, results, index)
    && NeighbourLevels(adj, results, levels)
  }

  lemma BfsInit(adj: AdjMap, start: Vertex)
    requires start in adj
    ensures BfsInv(adj, start, [start], [0], 0)
  {
  }

  /** Expanding the node under the cursor, then advancing the cursor, keeps the invariant. */
  lemma BfsStep(adj: AdjMap, start: Vertex, results: seq<Vertex>, levels: seq<nat>, index: nat, r: seq<Vertex>)
    requires WellFormed(adj)
    requires BfsInv(adj, start, results, levels, index) && index < |results|
    requires |r| >= |results| && r[..|results|] == results
    requires forall w :: w in r <==> w in results || w in adj[results[index]]
    requires Distinct(r)
    ensures BfsInv(adj, start, r, levels + seq(|r| - |results|, _ => levels[index] + 1), index + 1)
  {
    var n := |results|;
    var u := results[index];
    var lv := levels + seq(|r| - n, _ => levels[index] + 1);
    assert forall i :: 0 <= i < n ==> r[i] == results[i] && lv[i] == levels[i];
    assert forall i :: n <= i < |r| ==> lv[i] == levels[index] + 1;
    forall i | n <= i < |r| ensures r[i] !in results && r[i] in adj[u] {
      forall k | 0 <= k < n ensures results[k] != r[i] {
        assert r[k] == results[k];
      }
    }
    forall i | 0 <= i < |r| ensures r[i] in adj {
    }
    StepFoundFromExpanded(adj, results, levels, index, r, lv);
    StepNonDecreasing(levels, index, lv);
    StepWithinOneOfCursor(levels, index, lv);
    StepExpandedClosed(adj, results, index, r);
    StepNeighbourLevels(adj, results, levels, index, r, lv);
  }

  lemma StepFoundFromExpanded(adj: AdjMap, results: seq<Vertex>, levels: seq<nat>, index: nat, r: seq<Vertex>, lv: seq<nat>)
    requires |levels| == |results| && index < |results| <= |r| == |lv|
    requires FoundFromExpanded(adj, results, levels, index)
    requires forall i :: 0 <= i < |results| ==> r[i] == results[i] && lv[i] == levels[i]
    requires results[index] in adj
    requires forall i :: |results| <= i < |r| ==> r[i] in adj[results[index]] && lv[i] == levels[index] + 1
    ensures FoundFromExpanded(adj, r, lv, index + 1)
  {
    var n := |results|;
    forall i | 0 < i < |r|
      ensures exists j :: 0 <= j < i && j < index + 1 && r[j] in adj && r[i] in adj[r[j]] && lv[i] == lv[j] + 1
    {
      if i < n {
        var level := levels[i];
        var j :| 0 <= j < i && j < index && results[j] in adj && results[i] in adj[results[j]] && level == levels[j] + 1;
        assert r[j] in adj && r[i] in adj[r[j]] && lv[i] == lv[j] + 1;
      } else {
        assert r[index] == results[index] && lv[i] == lv[index] + 1;
      }
    }
  }

  lemma StepNonDecreasing(levels: seq<nat>, index: nat, lv: seq<nat>)
    requires index < |levels| <= |lv|
    requires NonDecreasing(levels) && WithinOneOfCursor(levels, index)
    requires forall i :: 0 <= i < |levels| ==> lv[i] == levels[i]
    requires forall i :: |levels| <= i < |lv| ==> lv[i] == levels[index] + 1
    ensures NonDecreasing(lv)
  {
    forall i, j | 0 <= i <= j < |lv| ensures lv[i] <= lv[j] {
      if j >= |levels| && i < |levels| {
        assert levels[i] <= levels[index] + 1;
      }
    }
  }

  lemma StepWithinOneOfCursor(levels: seq<nat>, index: nat, lv: seq<nat>)
    requires index < |levels| <= |lv|
    requires NonDecreasing(levels) && WithinOneOfCursor(levels, index)
    requires forall i :: 0 <= i < |levels| ==> lv[i] == levels[i]
    requires forall i :: |levels| <= i < |lv| ==> lv[i] == levels[index] + 1
    ensures WithinOneOfCursor(lv, index + 1)
  {
    if index + 1 < |lv| {
      assert lv[index] <= lv[index + 1] by {
        if index + 1 < |levels| {
          assert levels[index] <= levels[index + 1];
        }
      }
      forall i | 0 <= i < |lv| ensures lv[i] <= lv[index + 1] + 1 {
        if i < |levels| {
          assert levels[i] <= levels[index] + 1;
        }
      }
    }
  }

  lemma StepExpandedClosed(adj: AdjMap, results: seq<Vertex>, index: nat, r: seq<Vertex>)
    requires index < |results| <= |r|
    requires ExpandedClosed(adj, results, index)
    requires forall i :: 0 <= i < |results| ==> r[i] == results[i]
    requires forall w :: w in r <==> w in results || (results[index] in adj && w in adj[results[index]])
    ensures ExpandedClosed(adj, r, index + 1)
  {
    forall i, w | 0 <= i < index + 1 && i < |r| && r[i] in adj && w in adj[r[i]] ensures w in r {
      assert r[i] == results[i];
    }
  }

  lemma StepNeighbourLevels(adj: AdjMap, results: seq<Vertex>, levels: seq<nat>, index: nat, r: seq<Vertex>, lv: seq<nat>)
    requires |levels| == |results| && index < |results| <= |r| == |lv|
    requires NeighbourLevels(adj, results, levels) && ExpandedClosed(adj, results, index)
    requires NonDecreasing(levels) && WithinOneOfCursor(levels, index)
    requires forall i :: 0 <= i < |results| ==> r[i] == results[i] && lv[i] == levels[i]
    requires forall i :: |results| <= i < |r| ==> r[i] !in results && lv[i] == levels[index] + 1
    ensures NeighbourLevels(adj, r, lv)
  {
    var n := |results|;
    forall i, k | 0 <= i < index && n <= k < |r| && results[i] in adj ensures r[k] !in adj[results[i]] {
      assert forall w :: w in adj[results[i]] ==> w in results;
    }
    forall i, k | 0 <= i < |r| && 0 <= k < |r| && r[i] in adj && r[k] in adj[r[i]] ensures lv[k] <= lv[i] + 1 {
      if i < n && k < n {
        assert results[i] in adj && results[k] in adj[results[i]];
      } else if i < n {
        assert r[i] == results[i];
        assert levels[index] <= levels[i];
      } else if k < n {
        assert levels[k] <= levels[index] + 1;
      }
    }
  }

  /** Following the chain of discoveries back to `start` gives a walk as long as the level says. */
  lemma {:induction false} BfsLevelWalk(adj: AdjMap, start: Vertex, results: seq<Vertex>, levels: seq<nat>, index: nat, k: nat)
    requires |levels| == |results| && k < |results|
    requires results[0] == start && levels[0] == 0
    requires FoundFromExpanded(adj, results, levels, index)
    ensures exists p :: Walk(adj, p, start, results[k]) && |p| == levels[k] + 1
    decreases k
  {
    if k == 0 {
      assert Walk(adj, [start], start, results[0]);
    } else {
      var level := levels[k];
      var j :| 0 <= j < k && j < index && results[j] in adj && results[k] in adj[results[j]] && level == levels[j] + 1;
      BfsLevelWalk(adj, start, results, levels, index, j);
      var p :| Walk(adj, p, start, results[j]) && |p| == levels[j] + 1;
      WalkExtend(adj, p, start, results[j], results[k]);
    }
  }

  /** Once every reachable node has been found, no walk to a found node is shorter than its level. */
  lemma {:induction false} BfsLevelBound(adj: AdjMap, start: Vertex, results: seq<Vertex>, levels: seq<nat>, index: nat, p: seq<Vertex>, k: nat)
    requires BfsInv(adj, start, results, levels, index)
    requires forall w :: Reachable(adj, start, w) ==> w in results
    requires k < |results| && Walk(adj, p, start, results[k])
    ensures levels[k] + 1 <= |p|
    decreases |p|
  {
    if |p| == 1 {
      assert results[k] == results[0];
    } else {
      var q := p[..|p| - 1];
      var u := p[|p| - 2];
      assert Walk(adj, q, start, u) by {
        forall i | 0 <= i < |q| - 1 ensures q[i] in adj && q[i + 1] in adj[q[i]] {
          assert q[i] == p[i] && q[i + 1] == p[i + 1];
        }
      }
      assert u in results;
      var k' :| 0 <= k' < |results| && results[k'] == u;
      BfsLevelBound(adj, start, results, levels, index, q, k');
      assert results[k'] in adj && results[k] in adj[results[k']];
    }
  }

  /**
    Once every reachable node has been found, each found node's level is its
    hop distance from `start`, so the results are in non-decreasing hop distance.
   */
  lemma BfsLevelsAreHopDistances(adj: AdjMap, start: Vertex, results: seq<Vertex>, levels: seq<nat>, index: nat)
    requires BfsInv(adj, start, results, levels, index)
    requires forall w :: Reachable(adj, start, w) ==> w in results
    ensures forall k :: 0 <= k < |results| ==>
      Reachable(adj, start, results[k]) && HopDistance(adj, start, results[k]) == levels[k]
    ensures forall i, j :: 0 <= i <= j < |results| ==>
      HopDistance(adj, start, results[i]) <= HopDistance(adj, start, results[j])
  {
    forall k | 0 <= k < |results|
      ensures Reachable(adj, start, results[k]) && HopDistance(adj, start, results[k]) == levels[k]
    {
      BfsLevelWalk(adj, start, results, levels, index, k);
      forall p | Walk(adj, p, start, results[k]) ensures levels[k] + 1 <= |p| {
        BfsLevelBound(adj, start, results, levels, index, p, k);
      }
      assert IsHopDistance(adj, start, results[k], levels[k]);
      HopDistanceUnique(adj, start, results[k], levels[k], HopDistance(adj, start, results[k]));
    }
  }

  /** With the cursor at the end, the results are closed under adjacency: they hold every reachable node. */
  lemma BfsExhausted(adj: AdjMap, start: Vertex, results: seq<Vertex>, levels: seq<nat>)
    requires BfsInv(adj, start, results, levels, |results|)
    ensures forall w :: Reachable(adj, start, w) <==> w in results
  {
    var c := set i | 0 <= i < |results| :: results[i];
    assert Closed(c, adj) by {
      forall u | u in c ensures u in adj && adj[u] <= c {
        var i :| 0 <= i < |results| && results[i] == u;
        forall w | w in adj[u] ensures w in c {
          assert w in results;
        }
      }
    }
    forall w ensures Reachable(adj, start, w) <==> w in results {
      if Reachable(adj, start, w) {
        ClosedHoldsReachable(adj, c, start, w);
      }
      if w in results {
        var k :| 0 <= k < |results| && results[k] == w;
        BfsLevelWalk(adj, start, results, levels, |results|, k);
      }
    }
  }

  /** Every node found is reachable, and each was discovered from an earlier one. */
  lemma BfsFound(adj: AdjMap, start: Vertex, results: seq<Vertex>, levels: seq<nat>, index: nat)
    requires BfsInv(adj, start, results, levels, index)
    ensures forall k :: 0 <= k < |results| ==> Reachable(adj, start, results[k])
    ensures Discovered(adj, results)
  {
    forall k | 0 <= k < |results| ensures Reachable(adj, start, results[k]) {
      BfsLevelWalk(adj, start, results, levels, index, k);
    }
    forall i | 0 < i < |results|
      ensures exists j :: 0 <= j < i && results[j] in adj && results[i] in adj[results[j]]
    {
      var level := levels[i];
      var j :| 0 <= j < i && j < index && results[j] in adj && results[i] in adj[results[j]] && level == levels[j] + 1;
    }
  }
}
