/**
  `distanceOfShortestPath`: a recursive search over simple paths. Each branch
  gets its own copy of the set of nodes already on the path, so the search is
  exponential, yet it returns the length of a shortest walk, as proved below.
 */
module ShortestPath {
  import opened Adjacency
  import opened Walks

  /**
    The three outcomes of the search: `undefined` when an end is not a
    registered node, `Infinity` when no path joins them, or a number of edges.
   */
  datatype Distance = NotFound | Unreachable | Dist(n: nat)

  /** `a` is no greater than `b`, `Unreachable` standing for infinity. */
  predicate AtMost(a: Distance, b: Distance) {
    b == Unreachable || (a.Dist? && b.Dist? && a.n <= b.n)
  }

  /** `Math.min` of two outcomes, infinity being the neutral element. */
  function Min(a: Distance, b: Distance): Distance {
    if a.Dist? && b.Dist? then Dist(if a.n <= b.n then a.n else b.n)
    else if a.Dist? then a
    else b
  }

  /** `1 + d`, infinity absorbing the increment. */
  function Succ(d: Distance): Distance {
    if d.Dist? then Dist(d.n + 1) else d
  }

  /**
    `distanceOfShortestPath(start, end, visited)`; `visited` holds the nodes
    already on the current path. The search relies on the invariant that the
    neighbours of registered nodes are registered.
   */
  ghost function ShortestFrom(nodes: set<Vertex>, adj: AdjMap, start: Vertex, end: Vertex, visited: set<Vertex>): (d: Distance)
    requires Closed(nodes, adj)
    ensures d == NotFound <==> start !in nodes || end !in nodes
    decreases nodes - visited, 0
  {
    if start !in nodes || end !in nodes then NotFound
    else if start == end then Dist(0)
    else if start in visited then Unreachable
    else Succ(MinOver(nodes, adj, adj[start], end, visited + {start}))
  }

  /** `Math.min(...paths)`: the least of the searches from the nodes of `nbrs`. */
  ghost function MinOver(nodes: set<Vertex>, adj: AdjMap, nbrs: set<Vertex>, end: Vertex, visited: set<Vertex>): (d: Distance)
    requires Closed(nodes, adj) && nbrs <= nodes && end in nodes
    ensures d != NotFound
    ensures forall x :: x in nbrs ==> AtMost(d, ShortestFrom(nodes, adj, x, end, visited))
    ensures d.Dist? ==> exists x :: x in nbrs && ShortestFrom(nodes, adj, x, end, visited) == d
    decreases nodes - visited, 1, nbrs
  {
    if exists x :: x in nbrs then
      var x :| x in nbrs;
      Min(ShortestFrom(nodes, adj, x, end, visited), MinOver(nodes, adj, nbrs - {x}, end, visited))
    else
      Unreachable
  }

  /** Every number the search returns is the length of some walk. */
  lemma {:induction false} ShortestFromSound(nodes: set<Vertex>, adj: AdjMap, start: Vertex, end: Vertex, visited: set<Vertex>)
    requires Closed(nodes, adj)
    requires ShortestFrom(nodes, adj, start, end, visited).Dist?
    ensures exists p :: Walk(adj, p, start, end) && |p| == ShortestFrom(nodes, adj, start, end, visited).n + 1
    decreases nodes - visited
  {
    if start == end {
      assert Walk(adj, [start], start, end);
    } else {
      var m := MinOver(nodes, adj, adj[start], end, visited + {start});
      var x :| x in adj[start] && ShortestFrom(nodes, adj, x, end, visited + {start}) == m;
      ShortestFromSound(nodes, adj, x, end, visited + {start});
      var q :| Walk(adj, q, x, end) && |q| == m.n + 1;
      var p := [start] + q;
      assert Walk(adj, p, start, end) by {
        forall i | 0 <= i < |p| - 1 ensures p[i] in adj && p[i + 1] in adj[p[i]] {
          if i > 0 {
            assert p[i] == q[i - 1] && p[i + 1] == q[i];
          }
        }
      }
    }
  }

  /**
    The search is no longer than any path without repeated nodes whose nodes,
    except perhaps the last, are off the current path.
   */
  lemma {:induction false} ShortestFromComplete(nodes: set<Vertex>, adj: AdjMap, p: seq<Vertex>, start: Vertex, end: Vertex, visited: set<Vertex>)
    requires Closed(nodes, adj) && start in nodes && end in nodes
    requires Walk(adj, p, start, end) && Distinct(p)
    requires forall i :: 0 <= i < |p| - 1 ==> p[i] !in visited
    ensures AtMost(ShortestFrom(nodes, adj, start, end, visited), Dist(|p| - 1))
    decreases nodes - visited
  {
    if start != end {
      var x, q := p[1], p[1..];
      assert x in nodes;
      assert Walk(adj, q, x, end) by {
        forall i | 0 <= i < |q| - 1 ensures q[i] in adj && q[i + 1] in adj[q[i]] {
          assert q[i] == p[i + 1] && q[i + 1] == p[i + 2];
        }
      }
      assert Distinct(q) by {
        forall i, j | 0 <= i < j < |q| ensures q[i] != q[j] {
          assert q[i] == p[i + 1] && q[j] == p[j + 1];
        }
      }
      forall i | 0 <= i < |q| - 1 ensures q[i] !in visited + {start} {
        assert q[i] == p[i + 1] && p[0] == start;
      }
      ShortestFromComplete(nodes, adj, q, x, end, visited + {start});
    }
  }

  /**
    Between registered nodes, the search returns the hop distance when the end
    is reachable and infinity when it is not.
   */
  lemma ShortestIsHopDistance(nodes: set<Vertex>, adj: AdjMap, start: Vertex, end: Vertex)
    requires Closed(nodes, adj) && start in nodes && end in nodes
    ensures ShortestFrom(nodes, adj, start, end, {}) ==
      if Reachable(adj, start, end) then Dist(HopDistance(adj, start, end)) else Unreachable
  {
    var d := ShortestFrom(nodes, adj, start, end, {});
    if Reachable(adj, start, end) {
      var h := HopDistance(adj, start, end);
      var p :| Walk(adj, p, start, end) && |p| == h + 1;
      var q := Shortcut(adj, p, start, end);
      ShortestFromComplete(nodes, adj, q, start, end, {});
      ShortestFromSound(nodes, adj, start, end, {});
    } else if d.Dist? {
      ShortestFromSound(nodes, adj, start, end, {});
    }
  }

  /** Under the graph invariants the distance does not depend on the direction of the search. */
  lemma ShortestSymmetric(nodes: set<Vertex>, adj: AdjMap, a: Vertex, b: Vertex)
    requires Undirected(nodes, adj)
    ensures ShortestFrom(nodes, adj, a, b, {}) == ShortestFrom(nodes, adj, b, a, {})
  {
    if a in nodes && b in nodes {
      ShortestIsHopDistance(nodes, adj, a, b);
      ShortestIsHopDistance(nodes, adj, b, a);
      if Reachable(adj, a, b) {
        HopDistanceSymmetric(nodes, adj, a, b);
      } else if Reachable(adj, b, a) {
        ReachableSymmetric(nodes, adj, b, a);
      }
    }
  }
}
