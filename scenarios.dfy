/**
  A graph with two components, A - B and a lone C, built through the graph's own
  operations, and what each traversal and the distance search make of it.
 */
module Scenarios {
  import opened Adjacency
  import opened Walks
  import opened ShortestPath
  import opened Graphs

  /** Nothing outside a set closed under adjacency is reachable from inside it. */
  lemma NotReachableOutside(adj: AdjMap, c: set<Vertex>, s: Vertex, v: Vertex)
    requires Closed(c, adj) && s in c && v !in c
    ensures !Reachable(adj, s, v)
  {
    if Reachable(adj, s, v) {
      ClosedHoldsReachable(adj, c, s, v);
    }
  }

  /** Three nodes `A`, `B` and `C`, registered and not yet joined. */
  method ThreeNodes() returns (g: Graph<string>, a: Vertex, b: Vertex, c: Vertex)
    ensures fresh(g) && g.Valid() && g.Consistent()
    ensures g.nodes == {a, b, c} && |g.nodes| == 3
    ensures g.adj[a] == {} && g.adj[b] == {} && g.adj[c] == {}
    ensures g.values[a] == "A" && g.values[b] == "B" && g.values[c] == "C"
  {
    g := new Graph();
    a := g.NewNode("A", {});
    b := g.NewNode("B", {});
    c := g.NewNode("C", {});
    assert a != b && a != c && b != c;
    assert |{a, b, c}| == 3 by {
      assert {a, b, c} == {a, b} + {c} && c !in {a, b};
    }
    var vs := [a, b, c];
    g.AddVertices(vs);
    assert g.nodes == {a, b, c} by {
      assert vs[0] == a && vs[1] == b && vs[2] == c;
      ghost var listed := set i | 0 <= i < |vs| :: vs[i];
      assert a in listed && b in listed && c in listed;
    }
  }

  /** `A - B` and a lone `C`: three registered nodes in two components. */
  method TwoComponents() returns (g: Graph<string>, a: Vertex, b: Vertex, c: Vertex)
    ensures fresh(g) && g.Valid() && g.Consistent()
    ensures g.nodes == {a, b, c} && |g.nodes| == 3
    ensures g.adj[a] == {b} && g.adj[b] == {a} && g.adj[c] == {}
    ensures g.values[a] == "A" && g.values[b] == "B" && g.values[c] == "C"
  {
    g, a, b, c := ThreeNodes();
    g.AddEdge(a, b);
  }

  /**
    As written, breadth-first search from A throws: it finds A and B, then
    looks for a third node to expand and reads `.adjacent` of `undefined`.
   */
  method BreadthFirstSearchThrowsOnTwoComponents() returns (outcome: BfsOutcome<string>)
    ensures outcome.Threw?
  {
    var g, a, b, c := TwoComponents();
    outcome := g.BreadthFirstSearch(a);
    NotReachableOutside(g.adj, {a, b}, a, c);
  }

  /**
    Stopped when the results are exhausted, breadth-first search from A
    returns A then B, and the distance from A to C is infinite.
   */
  method ExhaustiveSearchOnTwoComponents() returns (result: seq<string>, g: Graph<string>, a: Vertex, c: Vertex)
    ensures result == ["A", "B"]
    ensures g.Valid() && g.Consistent() && g.DistanceOfShortestPath(a, c) == Unreachable
  {
    var b;
    g, a, b, c := TwoComponents();
    var order;
    result, order := g.BreadthFirstSearchToExhaustion(a);
    assert Walk(g.adj, [a, b], a, b);
    NotReachableOutside(g.adj, {a, b}, a, c);
    forall x ensures x in order <==> x in {a, b} {
      if x != a && x != b {
        NotReachableOutside(g.adj, {a, b}, a, x);
      }
    }
    DistinctSameElements(order, {a, b});
    assert order[1] == b;
    assert order == [a, b];
  }
}
