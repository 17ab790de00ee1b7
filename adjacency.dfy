/**
  The adjacency relation of an undirected graph, and the three ways the graph's
  operations change it: adding an edge, removing an edge, and detaching a vertex
  from everything that lists it.

  Nodes are identified by integer ids (an arena): two nodes are the same node
  exactly when their ids are equal, whatever values they carry. `adj[u]` is the
  `adjacent` set of node `u`; every allocated node has one, whether or not it is
  registered in a graph's vertex set.
 */
module Adjacency {

  type Vertex = int
  type AdjMap = map<Vertex, set<Vertex>>

  /** Every neighbour listed by an allocated node is itself an allocated node. */
  ghost predicate WellFormed(adj: AdjMap) {
    forall u :: u in adj ==> adj[u] <= adj.Keys
  }

  /** The nodes of `c` are allocated and list neighbours only inside `c`. */
  ghost predicate Closed(c: set<Vertex>, adj: AdjMap) {
    forall u :: u in c ==> u in adj && adj[u] <= c
  }

  /** Among the nodes of `c`, `w` is adjacent to `u` exactly when `u` is adjacent to `w`. */
  ghost predicate Symmetric(c: set<Vertex>, adj: AdjMap) {
    forall u, w :: u in c && w in c && u in adj && w in adj ==> (w in adj[u] <==> u in adj[w])
  }

  /** The two invariants of a graph's vertex set: adjacency is closed within it and symmetric. */
  ghost predicate Undirected(nodes: set<Vertex>, adj: AdjMap) {
    Closed(nodes, adj) && Symmetric(nodes, adj)
  }

  /**
    A node outside the vertex set can join it without breaking the invariants:
    each node it lists is itself, or a registered node that lists it back.
   */
  ghost predicate Attachable(nodes: set<Vertex>, adj: AdjMap, v: Vertex)
    requires v in adj
  {
    forall u :: u in adj[v] ==> u == v || (u in nodes && u in adj && v in adj[u])
  }

  /** `v1.adjacent.add(v2)` followed by `v2.adjacent.add(v1)`. */
  function WithEdge(adj: AdjMap, a: Vertex, b: Vertex): (r: AdjMap)
    requires a in adj && b in adj
    ensures r.Keys == adj.Keys
    ensures b in r[a] && a in r[b]
    ensures forall u :: u in adj ==>
      r[u] == adj[u] + (if u == a then {b} else {}) + (if u == b then {a} else {})
  {
    var r := adj[a := adj[a] + {b}];
    r[b := r[b] + {a}]
  }

  /** `v1.adjacent.delete(v2)` followed by `v2.adjacent.delete(v1)`. */
  function WithoutEdge(adj: AdjMap, a: Vertex, b: Vertex): (r: AdjMap)
    requires a in adj && b in adj
    ensures r.Keys == adj.Keys
    ensures b !in r[a] && a !in r[b]
    ensures forall u :: u in adj ==>
      r[u] == adj[u] - (if u == a then {b} else {}) - (if u == b then {a} else {})
  {
    var r := adj[a := adj[a] - {b}];
    r[b := r[b] - {a}]
  }

  /** Deletes `v` from the adjacency set of every node in `done`. */
  function DetachFrom(adj: AdjMap, v: Vertex, done: set<Vertex>): (r: AdjMap)
    ensures r.Keys == adj.Keys
    ensures forall u :: u in adj ==> r[u] == if u in done then adj[u] - {v} else adj[u]
  {
    map u | u in adj :: if u in done then adj[u] - {v} else adj[u]
  }

  /** Deletes `v` from the adjacency set of every node that `v` lists as adjacent. */
  function Detach(adj: AdjMap, v: Vertex): (r: AdjMap)
    requires v in adj
    ensures r.Keys == adj.Keys
    ensures forall u :: u in adj && u !in adj[v] ==> r[u] == adj[u]
    ensures forall u :: u in adj && u in adj[v] ==> r[u] == adj[u] - {v}
    ensures r[v] == if v in adj[v] then adj[v] - {v} else adj[v]
  {
    DetachFrom(adj, v, adj[v])
  }

  /**
    Adding an edge keeps the invariants exactly when both ends are registered
    or neither is: an edge from a registered node to an unregistered one
    leaves the vertex set.
   */
  lemma WithEdgeKeepsUndirected(nodes: set<Vertex>, adj: AdjMap, a: Vertex, b: Vertex)
    requires Undirected(nodes, adj) && a in adj && b in adj
    ensures Undirected(nodes, WithEdge(adj, a, b)) <==> (a in nodes <==> b in nodes)
  {
    var r := WithEdge(adj, a, b);
    if a in nodes <==> b in nodes {
      forall u, w | u in nodes && w in nodes && u in r && w in r
        ensures w in r[u] <==> u in r[w]
      {
        assert u in adj && w in adj;
      }
    } else if a in nodes {
      assert b in r[a] && b !in nodes;
    } else {
      assert a in r[b] && a !in nodes;
    }
  }

  /** Adding the same edge twice is the same as adding it once. */
  lemma WithEdgeIdempotent(adj: AdjMap, a: Vertex, b: Vertex)
    requires a in adj && b in adj
    ensures WithEdge(WithEdge(adj, a, b), a, b) == WithEdge(adj, a, b)
  {
    var r := WithEdge(adj, a, b);
    var rr := WithEdge(r, a, b);
    assert forall u :: u in rr ==> rr[u] == r[u];
  }

  /** `addEdge(v1, v2)` and `addEdge(v2, v1)` leave the same adjacency. */
  lemma WithEdgeCommutes(adj: AdjMap, a: Vertex, b: Vertex)
    requires a in adj && b in adj
    ensures WithEdge(adj, a, b) == WithEdge(adj, b, a)
  {
    var r, s := WithEdge(adj, a, b), WithEdge(adj, b, a);
    assert forall u :: u in r ==> r[u] == s[u];
  }

  /** Removing an edge keeps the invariants. */
  lemma WithoutEdgeKeepsUndirected(nodes: set<Vertex>, adj: AdjMap, a: Vertex, b: Vertex)
    requires Undirected(nodes, adj) && a in adj && b in adj
    ensures Undirected(nodes, WithoutEdge(adj, a, b))
  {
    var r := WithoutEdge(adj, a, b);
    forall u, w | u in nodes && w in nodes && u in r && w in r
      ensures w in r[u] <==> u in r[w]
    {
      assert u in adj && w in adj;
    }
  }

  /** Removing an edge that is not there changes nothing. */
  lemma WithoutAbsentEdge(adj: AdjMap, a: Vertex, b: Vertex)
    requires a in adj && b in adj
    requires b !in adj[a] && a !in adj[b]
    ensures WithoutEdge(adj, a, b) == adj
  {
    var r := WithoutEdge(adj, a, b);
    assert forall u :: u in r ==> r[u] == adj[u];
  }

  /** Removing an edge and adding it back restores the adjacency the graph had. */
  lemma RemoveThenAddEdge(adj: AdjMap, a: Vertex, b: Vertex)
    requires a in adj && b in adj
    requires b in adj[a] && a in adj[b]
    ensures WithEdge(WithoutEdge(adj, a, b), a, b) == adj
  {
    var r := WithEdge(WithoutEdge(adj, a, b), a, b);
    assert forall u :: u in r ==> r[u] == adj[u];
  }

  /** Adding an absent edge and removing it again restores the adjacency the graph had. */
  lemma AddThenRemoveEdge(adj: AdjMap, a: Vertex, b: Vertex)
    requires a in adj && b in adj
    requires b !in adj[a] && a !in adj[b]
    ensures WithoutEdge(WithEdge(adj, a, b), a, b) == adj
  {
    var r := WithoutEdge(WithEdge(adj, a, b), a, b);
    assert forall u :: u in r ==> r[u] == adj[u];
  }

  /**
    Unregistering `v` and detaching it keeps the invariants, and no registered
    node is left listing `v`.
   */
  lemma DetachKeepsUndirected(nodes: set<Vertex>, adj: AdjMap, v: Vertex)
    requires Undirected(nodes, adj) && v in adj
    ensures Undirected(nodes - {v}, Detach(adj, v))
    ensures forall u :: u in nodes - {v} ==> v !in Detach(adj, v)[u]
  {
    var r := Detach(adj, v);
    forall u | u in nodes - {v} ensures v !in r[u] && r[u] <= nodes - {v} {
      if v in adj[u] {
        assert v in nodes;
        assert u in adj[v];
      }
    }
    forall u, w | u in nodes - {v} && w in nodes - {v} && u in r && w in r
      ensures w in r[u] <==> u in r[w]
    {
      assert w in adj[u] <==> u in adj[w];
    }
  }

  /**
    Registering `v` keeps the invariants exactly when `v` is already registered
    or is attachable.
   */
  lemma AttachKeepsUndirected(nodes: set<Vertex>, adj: AdjMap, v: Vertex)
    requires Undirected(nodes, adj) && v in adj
    ensures Undirected(nodes + {v}, adj) <==> v in nodes || Attachable(nodes, adj, v)
  {
    if v !in nodes {
      if Attachable(nodes, adj, v) {
        forall u | u in nodes + {v} ensures u in adj && adj[u] <= nodes + {v} {
          if u == v {
            forall x | x in adj[v] ensures x in nodes + {v} {
            }
          }
        }
        forall u, w | u in nodes + {v} && w in nodes + {v} && u in adj && w in adj
          ensures w in adj[u] <==> u in adj[w]
        {
          if u == v && w != v {
            assert v !in adj[w];
          } else if w == v && u != v {
            assert v !in adj[u];
          }
        }
      }
      if Undirected(nodes + {v}, adj) {
        forall u | u in adj[v] ensures u == v || (u in nodes && u in adj && v in adj[u]) {
        }
      }
    }
  }

  /** Detaching `v` from one more node is one more map update. */
  lemma DetachOneMore(adj: AdjMap, v: Vertex, done: set<Vertex>, u: Vertex)
    requires u in adj
    ensures DetachFrom(adj, v, done + {u}) == DetachFrom(adj, v, done)[u := DetachFrom(adj, v, done)[u] - {v}]
  {
    var a, b := DetachFrom(adj, v, done + {u}), DetachFrom(adj, v, done)[u := DetachFrom(adj, v, done)[u] - {v}];
    assert forall x :: x in a ==> a[x] == b[x];
  }

  /** Detaching a vertex lists no new neighbour anywhere. */
  lemma DetachWellFormed(adj: AdjMap, v: Vertex)
    requires WellFormed(adj) && v in adj
    ensures WellFormed(Detach(adj, v))
  {
  }
}
