/**
  Walks, reachability and hop distance over an adjacency map: the vocabulary in
  which the traversals and the shortest-path search are specified.
 */
module Walks {
  import opened Adjacency

  /** No node occurs twice in `s`. */
  ghost predicate Distinct(s: seq<Vertex>) {
    forall i, j :: 0 <= i < j < |s| ==> s[i] != s[j]
  }

  /** `p` is a walk from `s` to `v`: each node after the first is adjacent to the one before it. */
  ghost predicate Walk(adj: AdjMap, p: seq<Vertex>, s: Vertex, v: Vertex) {
    && |p| >= 1 && p[0] == s && p[|p| - 1] == v
    && forall i :: 0 <= i < |p| - 1 ==> p[i] in adj && p[i + 1] in adj[p[i]]
  }

  /** Some walk leads from `s` to `v`; in particular every node reaches itself. */
  ghost predicate Reachable(adj: AdjMap, s: Vertex, v: Vertex) {
    exists p :: Walk(adj, p, s, v)
  }

  /** `d` edges are enough to walk from `s` to `v`, and no walk uses fewer. */
  ghost predicate IsHopDistance(adj: AdjMap, s: Vertex, v: Vertex, d: nat) {
    && (exists p :: Walk(adj, p, s, v) && |p| == d + 1)
    && (forall p :: Walk(adj, p, s, v) ==> d + 1 <= |p|)
  }

  /** The number of edges on a shortest walk from `s` to `v`. */
  ghost function HopDistance(adj: AdjMap, s: Vertex, v: Vertex): (d: nat)
    requires Reachable(adj, s, v)
    ensures IsHopDistance(adj, s, v, d)
  {
    HopDistanceExists(adj, s, v);
    var d :| IsHopDistance(adj, s, v, d); d
  }

  function Reverse(p: seq<Vertex>): (r: seq<Vertex>)
    ensures |r| == |p|
    ensures forall i :: 0 <= i < |p| ==> r[i] == p[|p| - 1 - i]
  {
    if p == [] then [] else Reverse(p[1..]) + [p[0]]
  }

  lemma WalkExtend(adj: AdjMap, p: seq<Vertex>, s: Vertex, u: Vertex, w: Vertex)
    requires Walk(adj, p, s, u) && u in adj && w in adj[u]
    ensures Walk(adj, p + [w], s, w)
  {
    var q := p + [w];
    forall i | 0 <= i < |q| - 1 ensures q[i] in adj && q[i + 1] in adj[q[i]] {
      if i < |p| - 1 {
        assert q[i] == p[i] && q[i + 1] == p[i + 1];
      }
    }
  }

  /** A neighbour of a node reachable from `s` is reachable from `s`. */
  lemma ReachableStep(adj: AdjMap, s: Vertex, u: Vertex, w: Vertex)
    requires Reachable(adj, s, u) && u in adj && w in adj[u]
    ensures Reachable(adj, s, w)
  {
    var p :| Walk(adj, p, s, u);
    WalkExtend(adj, p, s, u, w);
  }

  /** A walk that starts inside a set closed under adjacency never leaves it. */
  lemma {:induction false} WalkStaysIn(adj: AdjMap, c: set<Vertex>, p: seq<Vertex>, s: Vertex, v: Vertex)
    requires Closed(c, adj) && s in c
    requires Walk(adj, p, s, v)
    ensures forall i :: 0 <= i < |p| ==> p[i] in c
    decreases |p|
  {
    if |p| > 1 {
      var q := p[..|p| - 1];
      assert Walk(adj, q, s, p[|p| - 2]) by {
        forall i | 0 <= i < |q| - 1 ensures q[i] in adj && q[i + 1] in adj[q[i]] {
          assert q[i] == p[i] && q[i + 1] == p[i + 1];
        }
      }
      WalkStaysIn(adj, c, q, s, p[|p| - 2]);
      forall i | 0 <= i < |p| ensures p[i] in c {
        if i < |p| - 1 {
          assert p[i] == q[i];
        } else {
          assert p[i - 1] in c;
        }
      }
    }
  }

  /** A set closed under adjacency that contains `s` contains everything reachable from `s`. */
  lemma ClosedHoldsReachable(adj: AdjMap, c: set<Vertex>, s: Vertex, v: Vertex)
    requires Closed(c, adj) && s in c
    requires Reachable(adj, s, v)
    ensures v in c
  {
    var p :| Walk(adj, p, s, v);
    WalkStaysIn(adj, c, p, s, v);
    assert p[|p| - 1] in c;
  }

  /** Under the graph invariants a walk between registered nodes can be walked backwards. */
  lemma WalkReverse(nodes: set<Vertex>, adj: AdjMap, p: seq<Vertex>, s: Vertex, v: Vertex)
    requires Undirected(nodes, adj) && s in nodes
    requires Walk(adj, p, s, v)
    ensures Walk(adj, Reverse(p), v, s)
  {
    WalkStaysIn(adj, nodes, p, s, v);
    var r := Reverse(p);
    var n := |p|;
    forall i | 0 <= i < n - 1 ensures r[i] in adj && r[i + 1] in adj[r[i]] {
      var k := n - 2 - i;
      assert r[i] == p[k + 1] && r[i + 1] == p[k];
      assert p[k] in nodes && p[k + 1] in nodes;
      assert p[k + 1] in adj[p[k]];
    }
  }

  /** Under the graph invariants reachability between registered nodes is symmetric. */
  lemma ReachableSymmetric(nodes: set<Vertex>, adj: AdjMap, s: Vertex, v: Vertex)
    requires Undirected(nodes, adj) && s in nodes
    requires Reachable(adj, s, v)
    ensures v in nodes && Reachable(adj, v, s)
  {
    var p :| Walk(adj, p, s, v);
    ClosedHoldsReachable(adj, nodes, s, v);
    WalkReverse(nodes, adj, p, s, v);
  }

  /** Under the graph invariants hop distance between registered nodes is symmetric. */
  lemma HopDistanceSymmetric(nodes: set<Vertex>, adj: AdjMap, s: Vertex, v: Vertex)
    requires Undirected(nodes, adj) && s in nodes
    requires Reachable(adj, s, v)
    ensures Reachable(adj, v, s) && HopDistance(adj, s, v) == HopDistance(adj, v, s)
  {
    ReachableSymmetric(nodes, adj, s, v);
    var d := HopDistance(adj, s, v);
    var p :| Walk(adj, p, s, v) && |p| == d + 1;
    WalkReverse(nodes, adj, p, s, v);
    forall q | Walk(adj, q, v, s) ensures d + 1 <= |q| {
      WalkReverse(nodes, adj, q, v, s);
    }
    assert IsHopDistance(adj, v, s, d);
    HopDistanceUnique(adj, v, s, d, HopDistance(adj, v, s));
  }

  lemma HopDistanceUnique(adj: AdjMap, s: Vertex, v: Vertex, d: nat, e: nat)
    requires IsHopDistance(adj, s, v, d) && IsHopDistance(adj, s, v, e)
    ensures d == e
  {
    var p :| Walk(adj, p, s, v) && |p| == d + 1;
    var q :| Walk(adj, q, s, v) && |q| == e + 1;
  }

  lemma HopDistanceExists(adj: AdjMap, s: Vertex, v: Vertex)
    requires Reachable(adj, s, v)
    ensures exists d: nat :: IsHopDistance(adj, s, v, d)
  {
    var p :| Walk(adj, p, s, v);
    ShortestWalkWithin(adj, s, v, |p|);
  }

  /** If some walk has at most `n` nodes, a shortest walk exists. */
  lemma {:induction false} ShortestWalkWithin(adj: AdjMap, s: Vertex, v: Vertex, n: nat)
    requires exists p :: Walk(adj, p, s, v) && |p| <= n
    ensures exists d: nat :: IsHopDistance(adj, s, v, d)
    decreases n
  {
    if exists p :: Walk(adj, p, s, v) && |p| < n {
      ShortestWalkWithin(adj, s, v, n - 1);
    } else {
      var p :| Walk(adj, p, s, v) && |p| <= n;
      assert IsHopDistance(adj, s, v, |p| - 1);
    }
  }

  /** Every walk can be shortened to a walk with no repeated node between the same ends. */
  lemma {:induction false} Shortcut(adj: AdjMap, p: seq<Vertex>, s: Vertex, v: Vertex) returns (q: seq<Vertex>)
    requires Walk(adj, p, s, v)
    ensures Walk(adj, q, s, v) && Distinct(q) && |q| <= |p|
    decreases |p|
  {
    if Distinct(p) {
      q := p;
    } else {
      var i, j :| 0 <= i < j < |p| && p[i] == p[j];
      var r := p[..i] + p[j..];
      assert Walk(adj, r, s, v) by {
        assert |r| == |p| - (j - i);
        forall k | 0 <= k < |r| - 1 ensures r[k] in adj && r[k + 1] in adj[r[k]] {
          if k < i - 1 {
            assert r[k] == p[k] && r[k + 1] == p[k + 1];
          } else if k == i - 1 {
            assert r[k] == p[k] && r[k + 1] == p[j] == p[k + 1];
          } else {
            assert r[k] == p[k + j - i] && r[k + 1] == p[k + 1 + j - i];
          }
        }
        if i == 0 {
          assert r[0] == p[j] == p[0];
        } else {
          assert r[0] == p[0];
        }
        assert r[|r| - 1] == p[|p| - 1];
      }
      q := Shortcut(adj, r, s, v);
    }
  }

  /** A sequence of distinct nodes drawn from `c` is no longer than `c` is large. */
  lemma {:induction false} DistinctLength(s: seq<Vertex>, c: set<Vertex>)
    requires Distinct(s) && forall i :: 0 <= i < |s| ==> s[i] in c
    ensures |s| <= |c|
    decreases |s|
  {
    if s != [] {
      var x := s[|s| - 1];
      var t := s[..|s| - 1];
      assert forall i :: 0 <= i < |t| ==> t[i] == s[i] && t[i] != x;
      DistinctLength(t, c - {x});
    }
  }

  /** A sequence of distinct nodes drawn from `c`, as long as `c` is large, holds all of `c`. */
  lemma {:induction false} DistinctCovers(s: seq<Vertex>, c: set<Vertex>)
    requires Distinct(s) && forall i :: 0 <= i < |s| ==> s[i] in c
    requires |s| == |c|
    ensures forall x :: x in c ==> x in s
  {
    forall x | x in c ensures x in s {
      if x !in s {
        DistinctLength(s, c - {x});
      }
    }
  }

  /** A sequence of distinct nodes holding exactly the nodes of `c` is as long as `c` is large. */
  lemma {:induction false} DistinctSameElements(s: seq<Vertex>, c: set<Vertex>)
    requires Distinct(s)
    ensures (forall x :: x in s <==> x in c) ==> |s| == |c|
    decreases |s|
  {
    if forall x :: x in s <==> x in c {
      if s != [] {
        var x := s[|s| - 1];
        var t := s[..|s| - 1];
        assert forall i :: 0 <= i < |t| ==> t[i] == s[i] && t[i] != x;
        assert forall y :: y in t <==> y in c - {x} by {
          forall y ensures y in t <==> y in c - {x} {
            if y in s && y != x {
              var i :| 0 <= i < |s| && s[i] == y;
              assert i < |t| && t[i] == y;
            }
          }
        }
        DistinctSameElements(t, c - {x});
      }
    }
  }
}
