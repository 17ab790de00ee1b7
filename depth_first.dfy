/**
  The loop of depth-first search: the stack `toVisit`, the `seen` set and
  the visit order, with the invariant that makes the order depth-first
  whatever order each adjacency set is iterated in.

  Every stack entry carries, as ghost bookkeeping, its owner: the position in
  the visit order of the node whose expansion pushed it, or -1 for the initial
  `start`. Owners never decrease towards the top of the stack, and every
  unseen neighbour of a visited node sits on the stack under that node as
  owner; together these say that the node popped next is a neighbour of the
  latest visited node that still has a neighbour left to visit.
 */
module DepthFirst {
  import opened Adjacency
  import opened Walks

  /**
    The loop of depth-first search over `current.adjacent`: pushes every
    neighbour not yet seen, once each, in the unspecified order of the set.
   */
  method PushUnseen(stack: seq<Vertex>, nbrs: set<Vertex>, seen: set<Vertex>) returns (r: seq<Vertex>)
    ensures |r| >= |stack| && r[..|stack|] == stack
    ensures forall k :: |stack| <= k < |r| ==> r[k] in nbrs && r[k] !in seen
    ensures forall w :: w in nbrs && w !in seen ==> exists k :: |stack| <= k < |r| && r[k] == w
    ensures Distinct(r[|stack|..])
  {
    r := stack;
    var rest := nbrs;
    while exists w :: w in rest
      invariant rest <= nbrs
      invariant |r| >= |stack| && r[..|stack|] == stack
      invariant forall k :: |stack| <= k < |r| ==> r[k] in nbrs && r[k] !in seen && r[k] !in rest
      invariant Distinct(r[|stack|..])
      invariant forall w :: w in nbrs - rest && w !in seen ==> exists k :: |stack| <= k < |r| && r[k] == w
      decreases rest
    {
      var w :| w in rest;
      if w !in seen {
        ghost var r0 := r;
        r := r + [w];
        assert forall k :: 0 <= k < |r0| ==> r[k] == r0[k];
        assert r[|r| - 1] == w;
        assert r[|stack|..] == r0[|stack|..] + [w];
      }
      rest := rest - {w};
    }
  }

  /** Node `u` still has a neighbour outside `visited`. */
  ghost predicate Unfinished(adj: AdjMap, u: Vertex, visited: seq<Vertex>) {
    u in adj && exists w :: w in adj[u] && w !in visited
  }

  /**
    A depth-first visit order: each node after the first is a neighbour of
    the latest node before it that still had a neighbour left to visit.
   */
  ghost predicate DepthFirstOrder(adj: AdjMap, order: seq<Vertex>) {
    forall i :: 0 < i < |order| ==>
      exists j :: 0 <= j < i && order[j] in adj && order[i] in adj[order[j]]
        && forall m :: j < m < i ==> !Unfinished(adj, order[m], order[..i])
  }

  /**
    `owner[k]` is the position in `order` of the node that pushed `stack[k]`,
    or -1 for the initial `start`; owners never decrease up the stack.
   */
  ghost predicate StackOwners(adj: AdjMap, start: Vertex, order: seq<Vertex>, stack: seq<Vertex>, owner: seq<int>) {
    && |owner| == |stack|
    && (forall k :: 0 <= k < |stack| ==> -1 <= owner[k] < |order|)
    && (forall k :: 0 <= k < |stack| && owner[k] == -1 ==> stack[k] == start)
    && (forall k :: 0 <= k < |stack| && owner[k] >= 0 ==>
          order[owner[k]] in adj && stack[k] in adj[order[owner[k]]])
    && (forall k, l :: 0 <= k <= l < |stack| ==> owner[k] <= owner[l])
  }

  /** Every unseen neighbour of a visited node is on the stack, pushed by that node. */
  ghost predicate PendingOnStack(adj: AdjMap, order: seq<Vertex>, seen: set<Vertex>, stack: seq<Vertex>, owner: seq<int>)
    requires |owner| == |stack|
  {
    forall j, w :: 0 <= j < |order| && order[j] in adj && w in adj[order[j]] && w !in seen ==>
      exists k :: 0 <= k < |stack| && owner[k] == j && stack[k] == w
  }

  /**
    The loop invariant of depth-first search: `order` lists the visited nodes
    (the `seen` set) in the order they were visited, and `stack` is `toVisit`.
   */
  ghost predicate DfsInv(adj: AdjMap, start: Vertex, order: seq<Vertex>, seen: set<Vertex>, stack: seq<Vertex>, owner: seq<int>) {
    && (forall k :: 0 <= k < |stack| ==> stack[k] in adj && Reachable(adj, start, stack[k]))
    && (forall i :: 0 <= i < |order| ==> order[i] in adj && Reachable(adj, start, order[i]))
    && Distinct(order)
    && (forall v :: v in seen <==> v in order)
    && (order == [] ==> stack == [start])
    && (order != [] ==> order[0] == start)
    && DepthFirstOrder(adj, order)
    && StackOwners(adj, start, order, stack, owner)
    && PendingOnStack(adj, order, seen, stack, owner)
  }

  lemma DfsInit(adj: AdjMap, start: Vertex)
    requires start in adj
    ensures DfsInv(adj, start, [], {}, [start], [-1])
  {
    assert Walk(adj, [start], start, start);
  }

  /** Popping a node already seen keeps the invariant. */
  lemma DfsSkip(adj: AdjMap, start: Vertex, order: seq<Vertex>, seen: set<Vertex>, stack: seq<Vertex>, owner: seq<int>)
    requires DfsInv(adj, start, order, seen, stack, owner) && |stack| > 0
    requires stack[|stack| - 1] in seen
    ensures DfsInv(adj, start, order, seen, stack[..|stack| - 1], owner[..|stack| - 1])
  {
    var n := |stack| - 1;
    assert forall k :: 0 <= k < n ==> stack[..n][k] == stack[k];
    PopOwners(adj, start, order, stack, owner);
    PopPending(adj, order, seen, stack, owner);
  }

  lemma PopOwners(adj: AdjMap, start: Vertex, order: seq<Vertex>, stack: seq<Vertex>, owner: seq<int>)
    requires StackOwners(adj, start, order, stack, owner) && |stack| > 0
    ensures StackOwners(adj, start, order, stack[..|stack| - 1], owner[..|stack| - 1])
  {
    var n := |stack| - 1;
    assert forall k :: 0 <= k < n ==> stack[..n][k] == stack[k] && owner[..n][k] == owner[k];
  }

  lemma PopPending(adj: AdjMap, order: seq<Vertex>, seen: set<Vertex>, stack: seq<Vertex>, owner: seq<int>)
    requires |owner| == |stack| > 0 && PendingOnStack(adj, order, seen, stack, owner)
    requires stack[|stack| - 1] in seen
    ensures PendingOnStack(adj, order, seen, stack[..|stack| - 1], owner[..|stack| - 1])
  {
    var n := |stack| - 1;
    var s, ow := stack[..n], owner[..n];
    assert forall k :: 0 <= k < n ==> s[k] == stack[k] && ow[k] == owner[k];
    forall j, w | 0 <= j < |order| && order[j] in adj && w in adj[order[j]] && w !in seen
      ensures exists k :: 0 <= k < |s| && ow[k] == j && s[k] == w
    {
      var k :| 0 <= k < |stack| && owner[k] == j && stack[k] == w;
      assert k < n && ow[k] == j && s[k] == w;
    }
  }

  /**
    Popping an unseen node `c`, marking it seen and pushing its unseen
    neighbours, each owned by `c`'s new position, keeps the invariant.
   */
  lemma DfsVisit(adj: AdjMap, start: Vertex, order: seq<Vertex>, seen: set<Vertex>, stack: seq<Vertex>, c: Vertex, owner: seq<int>, r: seq<Vertex>)
    requires |stack| > 0 && stack[|stack| - 1] == c
    requires WellFormed(adj) && DfsInv(adj, start, order, seen, stack, owner)
    requires c !in seen
    requires |r| >= |stack| - 1 && r[..|stack| - 1] == stack[..|stack| - 1]
    requires forall k :: |stack| - 1 <= k < |r| ==> r[k] in adj[c] && r[k] !in seen + {c}
    requires forall w :: w in adj[c] && w !in seen + {c} ==>
      exists k :: |stack| - 1 <= k < |r| && r[k] == w
    ensures DfsInv(adj, start, order + [c], seen + {c}, r,
                   owner[..|stack| - 1] + seq(|r| - (|stack| - 1), _ => |order|))
  {
    var n := |stack| - 1;
    VisitReachable(adj, start, order, stack, c, r);
    VisitSeen(adj, start, order, seen, stack, c);
    var J := owner[n];
    assert order != [] ==> J >= 0 by {
      if order != [] {
        assert order[0] in seen && c != start;
      }
    }
    TopOwnerIsLatest(adj, start, order, seen, stack, owner);
    VisitOrder(adj, order, c, J);
    VisitOwners(adj, start, order, stack, c, owner, r);
    VisitPending(adj, order, seen, stack, c, owner, r);
  }

  lemma VisitReachable(adj: AdjMap, start: Vertex, order: seq<Vertex>, stack: seq<Vertex>, c: Vertex, r: seq<Vertex>)
    requires |stack| > 0 && stack[|stack| - 1] == c
    requires WellFormed(adj)
    requires forall k :: 0 <= k < |stack| ==> stack[k] in adj && Reachable(adj, start, stack[k])
    requires forall i :: 0 <= i < |order| ==> order[i] in adj && Reachable(adj, start, order[i])
    requires |r| >= |stack| - 1 && r[..|stack| - 1] == stack[..|stack| - 1]
    requires forall k :: |stack| - 1 <= k < |r| ==> r[k] in adj[c]
    ensures forall k :: 0 <= k < |r| ==> r[k] in adj && Reachable(adj, start, r[k])
    ensures forall i :: 0 <= i < |order| + 1 ==>
      (order + [c])[i] in adj && Reachable(adj, start, (order + [c])[i])
  {
    var n := |stack| - 1;
    var o := order + [c];
    assert forall k :: 0 <= k < n ==> r[k] == stack[k];
    assert forall i :: 0 <= i < |order| ==> o[i] == order[i];
    assert o[|order|] == c;
    forall k | 0 <= k < |r| ensures r[k] in adj && Reachable(adj, start, r[k]) {
      if n <= k {
        ReachableStep(adj, start, c, r[k]);
      }
    }
  }

  lemma VisitSeen(adj: AdjMap, start: Vertex, order: seq<Vertex>, seen: set<Vertex>, stack: seq<Vertex>, c: Vertex)
    requires |stack| > 0 && stack[|stack| - 1] == c && c !in seen
    requires Distinct(order) && (forall v :: v in seen <==> v in order)
    requires order == [] ==> stack == [start]
    requires order != [] ==> order[0] == start
    ensures Distinct(order + [c])
    ensures forall v :: v in seen + {c} <==> v in order + [c]
    ensures (order + [c])[0] == start
  {
    var o := order + [c];
    assert c !in order;
    assert forall i :: 0 <= i < |order| ==> o[i] == order[i];
    forall i, j | 0 <= i < j < |o| ensures o[i] != o[j] {
      if j == |order| {
        assert o[i] in order;
      }
    }
    if order == [] {
      assert stack == [start];
    }
  }

  /**
    Every visited node after the owner of the top of the stack is finished:
    an unseen neighbour would sit on the stack with a larger owner.
   */
  lemma TopOwnerIsLatest(adj: AdjMap, start: Vertex, order: seq<Vertex>, seen: set<Vertex>, stack: seq<Vertex>, owner: seq<int>)
    requires |stack| > 0 && StackOwners(adj, start, order, stack, owner)
    requires PendingOnStack(adj, order, seen, stack, owner)
    requires forall v :: v in seen <==> v in order
    ensures forall m :: owner[|stack| - 1] < m < |order| ==> !Unfinished(adj, order[m], order)
  {
    var J := owner[|stack| - 1];
    assert forall k :: 0 <= k < |stack| ==> owner[k] <= J;
    forall m | J < m < |order| ensures !Unfinished(adj, order[m], order) {
      if order[m] in adj {
        forall w | w in adj[order[m]] ensures w in order {
          assert order[m] in adj && w in adj[order[m]];
        }
      }
    }
  }

  /** Appending a neighbour of the latest unfinished node keeps the order depth-first. */
  lemma VisitOrder(adj: AdjMap, order: seq<Vertex>, c: Vertex, J: int)
    requires DepthFirstOrder(adj, order)
    requires order != [] ==>
      && 0 <= J < |order| && order[J] in adj && c in adj[order[J]]
      && forall m :: J < m < |order| ==> !Unfinished(adj, order[m], order)
    ensures DepthFirstOrder(adj, order + [c])
  {
    var o := order + [c];
    assert forall i :: 0 <= i < |order| ==> o[i] == order[i];
    assert o[|order|] == c;
    forall i | 0 < i < |o|
      ensures exists j :: (0 <= j < i && o[j] in adj && o[i] in adj[o[j]]
        && forall m :: j < m < i ==> !Unfinished(adj, o[m], o[..i]))
    {
      assert o[..i] == order[..i];
      if i < |order| {
        var x := order[i];
        var j :| 0 <= j < i && order[j] in adj && x in adj[order[j]]
          && forall m :: j < m < i ==> !Unfinished(adj, order[m], order[..i]);
        assert o[j] == order[j];
      } else {
        assert o[..i] == order;
        assert o[J] == order[J];
      }
    }
  }

  lemma VisitOwners(adj: AdjMap, start: Vertex, order: seq<Vertex>, stack: seq<Vertex>, c: Vertex, owner: seq<int>, r: seq<Vertex>)
    requires |stack| > 0 && stack[|stack| - 1] == c
    requires StackOwners(adj, start, order, stack, owner) && c in adj
    requires |r| >= |stack| - 1 && r[..|stack| - 1] == stack[..|stack| - 1]
    requires forall k :: |stack| - 1 <= k < |r| ==> r[k] in adj[c]
    ensures StackOwners(adj, start, order + [c], r,
                        owner[..|stack| - 1] + seq(|r| - (|stack| - 1), _ => |order|))
  {
    var n := |stack| - 1;
    var o := order + [c];
    var ow := owner[..n] + seq(|r| - n, _ => |order|);
    assert forall i :: 0 <= i < |order| ==> o[i] == order[i];
    assert o[|order|] == c;
    assert forall k :: 0 <= k < n ==> r[k] == stack[k] && ow[k] == owner[k];
    assert forall k :: n <= k < |r| ==> ow[k] == |order|;
  }

  lemma VisitPending(adj: AdjMap, order: seq<Vertex>, seen: set<Vertex>, stack: seq<Vertex>, c: Vertex, owner: seq<int>, r: seq<Vertex>)
    requires |stack| > 0 && stack[|stack| - 1] == c
    requires |owner| == |stack| && c in adj
    requires PendingOnStack(adj, order, seen, stack, owner)
    requires |r| >= |stack| - 1 && r[..|stack| - 1] == stack[..|stack| - 1]
    requires forall w :: w in adj[c] && w !in seen + {c} ==>
      exists k :: |stack| - 1 <= k < |r| && r[k] == w
    ensures PendingOnStack(adj, order + [c], seen + {c}, r,
                           owner[..|stack| - 1] + seq(|r| - (|stack| - 1), _ => |order|))
  {
    var n := |stack| - 1;
    var o := order + [c];
    var ow := owner[..n] + seq(|r| - n, _ => |order|);
    assert forall i :: 0 <= i < |order| ==> o[i] == order[i];
    assert o[|order|] == c;
    assert forall k :: 0 <= k < n ==> r[k] == stack[k] && ow[k] == owner[k];
    assert forall k :: n <= k < |r| ==> ow[k] == |order|;
    forall j, w | 0 <= j < |o| && o[j] in adj && w in adj[o[j]] && w !in seen + {c}
      ensures exists k :: 0 <= k < |r| && ow[k] == j && r[k] == w
    {
      if j < |order| {
        assert order[j] in adj && w in adj[order[j]] && w !in seen;
        var k :| 0 <= k < |stack| && owner[k] == j && stack[k] == w;
        assert k < n && ow[k] == j && r[k] == w;
      } else {
        var k :| n <= k < |r| && r[k] == w;
        assert ow[k] == j;
      }
    }
  }

  /** When the stack is empty, the visited nodes are exactly the nodes reachable from `start`. */
  lemma DfsDone(adj: AdjMap, start: Vertex, order: seq<Vertex>, seen: set<Vertex>, owner: seq<int>)
    requires DfsInv(adj, start, order, seen, [], owner)
    ensures |order| >= 1 && order[0] == start
    ensures forall v :: v in order <==> Reachable(adj, start, v)
  {
    assert order != [];
    assert order[0] in seen;
    forall u | u in seen ensures u in adj && adj[u] <= seen {
      var i :| 0 <= i < |order| && order[i] == u;
      forall w | w in adj[u] ensures w in seen {
        assert order[i] in adj && w in adj[order[i]];
      }
    }
    forall v | Reachable(adj, start, v) ensures v in order {
      ClosedHoldsReachable(adj, seen, start, v);
    }
  }
}
