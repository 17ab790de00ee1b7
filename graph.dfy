/**
  The `Graph` class: a set of registered nodes over an arena of nodes, each
  node carrying a value and its own `adjacent` set.

  A `Node` is modelled by its id in the arena: `values[v]` is its `value` and
  `adj[v]` its `adjacent` set. Both are fields of the graph here because a
  node's adjacency is updated in place by the graph's operations.
 */
module Graphs {
  import opened Adjacency
  import opened Walks
  import opened Search
  import opened DepthFirst
  import opened ShortestPath

  /**
    What `breadthFirstSearch` does as written: it either throws (reading
    `.adjacent` of `undefined`) or returns the values of the nodes it found,
    `order` being the found nodes themselves.
   */
  datatype BfsOutcome<T> = Threw | Returned(found: seq<T>, order: seq<Vertex>)

  class Graph<T> {
    /** The registered vertices (`this.nodes`). */
    var nodes: set<Vertex>
    /** The `adjacent` set of every allocated node. */
    var adj: AdjMap
    /** The `value` of every allocated node. */
    var values: map<Vertex, T>
    /** The next fresh node id. */
    var nextId: Vertex

    /** The arena is well formed: every node has a value and lists only allocated nodes. */
    ghost predicate Valid()
      reads this
    {
      && WellFormed(adj)
      && values.Keys == adj.Keys
      && nodes <= adj.Keys
      && forall u :: u in adj ==> u < nextId
    }

    /** The registered vertices are closed under adjacency, and adjacency among them is symmetric. */
    ghost predicate Consistent()
      reads this
    {
      Undirected(nodes, adj)
    }

    /** `new Graph()`: no vertex is registered. */
    constructor()
      ensures Valid() && Consistent()
      ensures nodes == {} && adj == map[] && values == map[]
    {
      nodes := {};
      adj := map[];
      values := map[];
      nextId := 0;
    }

    /** `new Node(value, adjacent)`: allocates a node that is not yet registered in the graph. */
    method NewNode(value: T, adjacent: set<Vertex>) returns (v: Vertex)
      requires Valid() && adjacent <= adj.Keys
      modifies this`adj, this`values, this`nextId
      ensures Valid() && v !in old(adj)
      ensures adj == old(adj)[v := adjacent] && values == old(values)[v := value]
      ensures old(Consistent()) ==> Consistent()
    {
      v := nextId;
      nextId := nextId + 1;
      adj := adj[v := adjacent];
      values := values[v := value];
    }

    /**
      `addVertex(v)`: registers `v`. The invariants survive exactly when `v`
      was registered already or lists only itself and registered nodes that
      list it back.
     */
    method AddVertex(v: Vertex)
      requires Valid() && v in adj
      modifies this`nodes
      ensures Valid() && nodes == old(nodes) + {v}
      ensures v in old(nodes) ==> nodes == old(nodes)
      ensures old(Consistent()) ==> (Consistent() <==> v in old(nodes) || Attachable(old(nodes), adj, v))
    {
      if Consistent() {
        AttachKeepsUndirected(nodes, adj, v);
      }
      nodes := nodes + {v};
    }

    /** `addVertices(vs)`: registers each node of `vs`, in order. */
    method AddVertices(vs: seq<Vertex>)
      requires Valid() && forall i :: 0 <= i < |vs| ==> vs[i] in adj
      modifies this`nodes
      ensures Valid() && nodes == old(nodes) + (set i | 0 <= i < |vs| :: vs[i])
      ensures old(Consistent()) && (forall i :: 0 <= i < |vs| ==> vs[i] in old(nodes) || Attachable(old(nodes), adj, vs[i]))
        ==> Consistent()
    {
      for i := 0 to |vs|
        invariant Valid() && nodes == old(nodes) + (set j | 0 <= j < i :: vs[j])
        invariant old(Consistent()) && (forall j :: 0 <= j < |vs| ==> vs[j] in old(nodes) || Attachable(old(nodes), adj, vs[j]))
          ==> Consistent()
      {
        AddVertex(vs[i]);
      }
    }

    /**
      `addEdge(v1, v2)`: each node lists the other. The invariants survive
      exactly when both ends are registered or neither is; the source does
      not check.
     */
    method AddEdge(v1: Vertex, v2: Vertex)
      requires Valid() && v1 in adj && v2 in adj
      modifies this`adj
      ensures Valid() && adj == WithEdge(old(adj), v1, v2)
      ensures old(Consistent()) ==> (Consistent() <==> (v1 in nodes <==> v2 in nodes))
    {
      if Consistent() {
        WithEdgeKeepsUndirected(nodes, adj, v1, v2);
      }
      adj := adj[v1 := adj[v1] + {v2}];
      adj := adj[v2 := adj[v2] + {v1}];
    }

    /** `removeEdge(v1, v2)`: neither node lists the other any more. */
    method RemoveEdge(v1: Vertex, v2: Vertex)
      requires Valid() && v1 in adj && v2 in adj
      modifies this`adj
      ensures Valid() && adj == WithoutEdge(old(adj), v1, v2)
      ensures old(Consistent()) ==> Consistent()
    {
      if Consistent() {
        WithoutEdgeKeepsUndirected(nodes, adj, v1, v2);
      }
      adj := adj[v1 := adj[v1] - {v2}];
      adj := adj[v2 := adj[v2] - {v1}];
    }

    /**
      `removeVertex(v)`: unregisters `v` and deletes it from the adjacency of
      every node it lists. `v`'s own adjacency set keeps its other neighbours,
      and loses `v` only when `v` lists itself.
     */
    method RemoveVertex(v: Vertex)
      requires Valid() && v in adj
      modifies this`nodes, this`adj
      ensures Valid() && nodes == old(nodes) - {v} && adj == Detach(old(adj), v)
      ensures old(Consistent()) ==> Consistent() && forall u :: u in nodes ==> v !in adj[u]
    {
      if Consistent() {
        DetachKeepsUndirected(nodes, adj, v);
      }
      nodes := nodes - {v};
      ghost var adj0 := adj;
      assert adj0[v] <= adj0.Keys;
      var rest := adj[v];
      while exists u :: u in rest
        invariant nodes == old(nodes) - {v}
        invariant rest <= adj0[v]
        invariant adj == DetachFrom(adj0, v, adj0[v] - rest)
        decreases rest
      {
        var u :| u in rest;
        DetachOneMore(adj0, v, adj0[v] - rest, u);
        assert adj0[v] - (rest - {u}) == (adj0[v] - rest) + {u};
        adj := adj[u := adj[u] - {v}];
        rest := rest - {u};
      }
      assert adj0[v] - rest == adj0[v];
      DetachWellFormed(adj0, v);
      assert adj == Detach(adj0, v) && adj.Keys == adj0.Keys;
    }

    /**
      `depthFirstSearch(start)`: the values of the nodes reachable from
      `start`, each once, in the order they are first popped from the stack.
     */
    method DepthFirstSearch(start: Vertex) returns (result: seq<T>, order: seq<Vertex>)
      requires Valid() && start in adj
      ensures |order| >= 1 && order[0] == start && Distinct(order)
      ensures forall v :: v in order <==> Reachable(adj, start, v)
      ensures DepthFirstOrder(adj, order)
      ensures result == Lookup(values, order)
    {
      result, order := [], [];
      var toVisit := [start];
      var seen: set<Vertex> := {};
      ghost var owner: seq<int> := [-1];
      DfsInit(adj, start);
      while |toVisit| > 0
        invariant DfsInv(adj, start, order, seen, toVisit, owner)
        invariant result == Lookup(values, order)
        decreases adj.Keys - seen, |toVisit|
      {
        var current := toVisit[|toVisit| - 1];
        ghost var stack, seen0 := toVisit, seen;
        toVisit := toVisit[..|toVisit| - 1];
        if current in seen {
          DfsSkip(adj, start, order, seen, stack, owner);
          owner := owner[..|owner| - 1];
        } else {
          seen := seen + {current};
          result := result + [values[current]];
          toVisit := PushUnseen(toVisit, adj[current], seen);
          DfsVisit(adj, start, order, seen0, stack, current, owner, toVisit);
          owner := owner[..|stack| - 1] + seq(|toVisit| - (|stack| - 1), _ => |order|);
          order := order + [current];
        }
      }
      DfsDone(adj, start, order, seen, owner);
    }

    /**
      `breadthFirstSearch(start)` as written: expands `results[index]` and
      stops once as many nodes were found as are registered. When fewer are
      reachable, the cursor runs past the end of `results` and the next
      expansion reads `.adjacent` of `undefined`, which throws.
     */
    method BreadthFirstSearch(start: Vertex) returns (outcome: BfsOutcome<T>)
      requires Valid() && start in adj
      ensures outcome.Returned? ==>
        && |outcome.order| == |nodes| >= 1 && outcome.order[0] == start && Distinct(outcome.order)
        && (forall k :: 0 <= k < |outcome.order| ==> outcome.order[k] in adj && Reachable(adj, start, outcome.order[k]))
        && Discovered(adj, outcome.order)
        && outcome.found == Lookup(values, outcome.order)
      ensures Closed(nodes, adj) && start in nodes ==>
        (outcome.Returned? <==> forall v :: v in nodes ==> Reachable(adj, start, v))
      ensures Closed(nodes, adj) && start in nodes && outcome.Returned? ==>
        && (forall v :: v in outcome.order <==> v in nodes)
        && forall i, j :: 0 <= i <= j < |outcome.order| ==>
             HopDistance(adj, start, outcome.order[i]) <= HopDistance(adj, start, outcome.order[j])
    {
      var results := [start];
      ghost var levels: seq<nat> := [0];
      var index := 0;
      BfsInit(adj, start);
      DistinctLength(results, adj.Keys);
      while |results| != |nodes|
        invariant BfsInv(adj, start, results, levels, index)
        invariant |results| <= |adj.Keys|
        decreases |adj.Keys| - index
      {
        if index >= |results| {
          if Closed(nodes, adj) && start in nodes {
            BfsExhausted(adj, start, results, levels);
            forall v | Reachable(adj, start, v) ensures v in nodes {
              ClosedHoldsReachable(adj, nodes, start, v);
            }
            DistinctSameElements(results, nodes);
          }
          return Threw;
        }
        var next := AppendNew(results, adj[results[index]]);
        BfsStep(adj, start, results, levels, index, next);
        levels := levels + seq(|next| - |results|, _ => levels[index] + 1);
        results := next;
        index := index + 1;
        DistinctLength(results, adj.Keys);
      }
      BfsFound(adj, start, results, levels, index);
      if Closed(nodes, adj) && start in nodes {
        forall k | 0 <= k < |results| ensures results[k] in nodes {
          ClosedHoldsReachable(adj, nodes, start, results[k]);
        }
        DistinctCovers(results, nodes);
        forall v | Reachable(adj, start, v) ensures v in results {
          ClosedHoldsReachable(adj, nodes, start, v);
        }
        BfsLevelsAreHopDistances(adj, start, results, levels, index);
      }
      outcome := Returned(Lookup(values, results), results);
    }

    /**
      Breadth-first search stopped when the cursor reaches the end of the
      results: the values of exactly the nodes reachable from `start`, in
      order of their hop distance from `start`.
     */
    method BreadthFirstSearchToExhaustion(start: Vertex) returns (result: seq<T>, order: seq<Vertex>)
      requires Valid() && start in adj
      ensures |order| >= 1 && order[0] == start && Distinct(order)
      ensures forall v :: v in order <==> Reachable(adj, start, v)
      ensures forall k :: 0 <= k < |order| ==> order[k] in adj
      ensures Discovered(adj, order)
      ensures forall i, j :: 0 <= i <= j < |order| ==>
        HopDistance(adj, start, order[i]) <= HopDistance(adj, start, order[j])
      ensures result == Lookup(values, order)
    {
      var results := [start];
      ghost var levels: seq<nat> := [0];
      var index := 0;
      BfsInit(adj, start);
      while index < |results|
        invariant BfsInv(adj, start, results, levels, index)
        invariant |results| <= |adj.Keys|
        decreases |adj.Keys| - index
      {
        var next := AppendNew(results, adj[results[index]]);
        BfsStep(adj, start, results, levels, index, next);
        levels := levels + seq(|next| - |results|, _ => levels[index] + 1);
        results := next;
        index := index + 1;
        DistinctLength(results, adj.Keys);
      }
      BfsExhausted(adj, start, results, levels);
      BfsFound(adj, start, results, levels, index);
      BfsLevelsAreHopDistances(adj, start, results, levels, index);
      order := results;
      result := Lookup(values, order);
    }

    /**
      `distanceOfShortestPath(start, end)`: `NotFound` (`undefined`) when an
      end is not registered, otherwise the number of edges on a shortest walk,
      or `Unreachable` (`Infinity`) when there is none.
     */
    ghost function DistanceOfShortestPath(start: Vertex, end: Vertex): (d: Distance)
      reads this
      requires Valid() && Closed(nodes, adj)
      ensures d == NotFound <==> start !in nodes || end !in nodes
      ensures start in nodes && end in nodes ==>
        d == if Reachable(adj, start, end) then Dist(HopDistance(adj, start, end)) else Unreachable
      ensures start in nodes && start == end ==> d == Dist(0)
    {
      var d := ShortestFrom(nodes, adj, start, end, {});
      if start in nodes && end in nodes then
        ShortestIsHopDistance(nodes, adj, start, end);
        d
      else
        d
    }

    /** Under the graph invariants the distance from `a` to `b` is the distance from `b` to `a`. */
    lemma DistanceSymmetric(a: Vertex, b: Vertex)
      requires Valid() && Consistent()
      ensures DistanceOfShortestPath(a, b) == DistanceOfShortestPath(b, a)
    {
      ShortestSymmetric(nodes, adj, a, b);
    }
  }
}
