# graph.js in Dafny

This project models the in-memory undirected graph of `graph.js`. A `Node` carries an opaque
`value` and an `adjacent` set. A `Graph` keeps a set of registered nodes and offers:

- the mutations `addVertex`, `addVertices`, `addEdge`, `removeEdge` and `removeVertex`;
- depth-first and breadth-first traversal;
- the `distanceOfShortestPath` search.

Nodes are identified by reference in the source, so the model gives every node an integer id in
an arena. `Graphs.Graph` holds four fields:

- `nodes`: the registered ids;
- `adj`: the `adjacent` set of every allocated node;
- `values`: each node's value;
- `nextId`: the next fresh id.

Two predicates describe the class:

- `Valid()`: the arena is well formed. Every operation keeps it.
- `Consistent()`: adjacency is closed within `nodes` and symmetric there. The contracts of
  `AddVertex`, `AddEdge`, `RemoveEdge` and `RemoveVertex` state exactly when each keeps it;
  the contract of `AddVertices` gives a sufficient condition only.

Files:

- `adjacency.dfy` (module `Adjacency`): the adjacency map, and the edge and vertex updates as
  functions on it, with their round-trip and invariant lemmas.
- `walks.dfy` (module `Walks`): walks, reachability and hop distance.
- `search.dfy` (module `Search`): the final `.map(node => node.value)`, and breadth-first search:
  its loop over a node's adjacency set, its invariant with the step lemmas, and hop distance.
- `depth_first.dfy` (module `DepthFirst`): depth-first search: its loop over a node's adjacency
  set, and the invariant that makes the visit order depth-first, with the step lemmas.
- `shortest_path.dfy` (module `ShortestPath`): the recursive distance search, and the proof that
  it computes hop distance.
- `graph.dfy` (module `Graphs`): the `Graph` class.
- `scenarios.dfy` (module `Scenarios`): a concrete graph with two components, built through the
  class's own operations.

Behaviour of `graph.js` that the model keeps as written:

- `depthFirstSearch` pushes only the neighbours that are not yet seen (graph.js:81-83), and
  skips a popped node that was seen after it was pushed (graph.js:77).
- `breadthFirstSearch` stops when it has found as many nodes as are registered (graph.js:113), not
  when the reachable component is exhausted. It is modelled as written, including the exception
  this causes (see "## Findings"). The exhaustion-bounded search is modelled beside it.
- `distanceOfShortestPath` searches every simple path recursively, with a copy of `visited` for
  each branch (graph.js:131-138). It is modelled as written and proved to return the hop
  distance.
- `removeVertex` deletes the removed node only from the sets of the nodes it lists
  (graph.js:48-50). Its own `adjacent` set keeps every other neighbour, and loses the node itself
  only when the node lists itself. `AddVertex` therefore states exactly when re-registering a
  node keeps the invariants.

## Model

| member | source | states |
|---|---|---|
| Graphs.Graph.constructor | graph.js:13-15 | a new graph has no registered vertex and satisfies both invariants |
| Graphs.Graph.NewNode | graph.js:3-8 | `new Node(value, adjacent)` allocates a fresh node that is not registered, with that value and adjacency set; nothing else changes and the invariants survive |
| Graphs.Graph.AddVertex | graph.js:18-20 | afterwards `nodes` is the old set plus `v`, adjacency is untouched, and adding a registered vertex is a no-op; the invariants survive exactly when `v` was registered or is `Attachable` |
| Graphs.Graph.AddVertices | graph.js:23-27 | afterwards `nodes` is the old set plus every element of the list; the invariants survive when each element is registered or attachable |
| Graphs.Graph.AddEdge | graph.js:30-33 | the new adjacency is `WithEdge(old adjacency, v1, v2)`; from a consistent graph, the invariants survive exactly when both ends are registered or neither is |
| Graphs.Graph.RemoveEdge | graph.js:36-39 | the new adjacency is `WithoutEdge(old adjacency, v1, v2)`, and the invariants survive |
| Graphs.Graph.RemoveVertex | graph.js:46-51 | `v` leaves `nodes`, and the new adjacency is `Detach(old adjacency, v)`; under the invariants they survive and no registered node lists `v` |
| Graphs.Graph.DepthFirstSearch | graph.js:54-88 | the order starts at `start`, has no repeated node, and holds exactly the nodes reachable from `start`; it is depth-first: each later node neighbours the latest earlier node that still had an unvisited neighbour; the result is their values |
| Graphs.Graph.BreadthFirstSearch | graph.js:112-123 | when it returns: `nodes.size` distinct reachable nodes, starting at `start`, each later one neighbouring an earlier one. With a closed vertex set and `start` registered, it returns iff every registered node is reachable, and then the order holds exactly `nodes` in non-decreasing hop distance |
| Graphs.Graph.BreadthFirstSearchToExhaustion | graph.js:112-123 | corrected termination: the order starts at `start`, is distinct, holds exactly the reachable nodes, each later node neighbours an earlier one, and hop distance never decreases along it |
| Graphs.Graph.DistanceOfShortestPath | graph.js:126-141 | `NotFound` exactly when an end is unregistered; otherwise the hop distance, or `Unreachable` when there is no walk; 0 when `start == end` |
| Graphs.Graph.DistanceSymmetric | graph.js:126-141 | under the invariants, the distance from `a` to `b` equals the distance from `b` to `a` |
| Adjacency.WithEdge | graph.js:30-33 | each end lists the other; every other adjacency set is unchanged |
| Adjacency.WithoutEdge | graph.js:36-39 | neither end lists the other; every other adjacency set is unchanged |
| Adjacency.Detach | graph.js:48-50 | the nodes that `v` lists lose `v` and nothing else; every other node is unchanged; `v`'s own set loses `v` exactly when `v` lists itself |
| Adjacency.DetachOneMore | graph.js:48-50 | one more turn of the loop deletes `v` from one more node |
| Adjacency.WithEdgeKeepsUndirected | graph.js:30-33 | from a closed and symmetric adjacency, adding an edge keeps it closed and symmetric exactly when both ends are registered or neither is |
| Adjacency.WithEdgeIdempotent | graph.js:30-33 | adding the same edge twice equals adding it once |
| Adjacency.WithEdgeCommutes | graph.js:30-33 | `addEdge(v1, v2)` and `addEdge(v2, v1)` give the same adjacency |
| Adjacency.WithoutEdgeKeepsUndirected | graph.js:36-39 | removing an edge keeps adjacency closed and symmetric |
| Adjacency.WithoutAbsentEdge | graph.js:36-39 | removing an absent edge changes nothing |
| Adjacency.RemoveThenAddEdge | graph.js:30-39 | removing a present edge and adding it back restores the adjacency |
| Adjacency.AddThenRemoveEdge | graph.js:30-39 | adding an absent edge and removing it again restores the adjacency |
| Adjacency.DetachKeepsUndirected | graph.js:46-51 | unregistering and detaching `v` keeps the invariants, and no remaining node lists `v` |
| Adjacency.AttachKeepsUndirected | graph.js:18-20 | registering `v` keeps the invariants iff `v` was registered or every node it lists is itself or a registered node listing it back |
| DepthFirst.PushUnseen | graph.js:80-84 | the stack keeps its old contents below; everything pushed is an unseen neighbour, and every unseen neighbour is pushed above the old contents, exactly once |
| Search.AppendNew | graph.js:117-121 | the results keep their prefix, gain exactly the neighbours, and stay free of repeats |
| DepthFirst.DfsInit | graph.js:66-68 | the depth-first invariant holds for the initial stack `[start]` and empty seen set |
| DepthFirst.DfsSkip | graph.js:75-77 | popping a node already seen keeps the depth-first invariant |
| DepthFirst.DfsVisit | graph.js:75-85 | visiting an unseen node and pushing its unseen neighbours keeps the depth-first invariant, the pushed entries being owned by the new node |
| DepthFirst.TopOwnerIsLatest | graph.js:75-85 | every node visited after the one that pushed the top of the stack has no unvisited neighbour left |
| DepthFirst.VisitOrder | graph.js:75-79 | appending a neighbour of the latest node with an unvisited neighbour keeps the visit order depth-first |
| DepthFirst.PopPending | graph.js:75-77 | popping a seen node leaves every unseen neighbour of a visited node on the stack |
| DepthFirst.VisitPending | graph.js:78-85 | after a visit, every unseen neighbour of a visited node is on the stack, pushed by that node |
| DepthFirst.DfsDone | graph.js:71-72 | when the stack is empty, the visited nodes are exactly the nodes reachable from `start` |
| Search.BfsInit | graph.js:112 | the breadth-first invariant holds for `results = [start]` and `index = 0` |
| Search.BfsStep | graph.js:117-122 | expanding the node at the cursor and advancing it keeps the breadth-first invariant, the new nodes being one level further |
| Search.BfsFound | graph.js:112-123 | every node found is reachable from `start`, and each later one neighbours an earlier one |
| Search.BfsExhausted | graph.js:112-123 | once the cursor has passed every result, the results are exactly the reachable nodes |
| Search.BfsLevelsAreHopDistances | graph.js:112-123 | once every reachable node has been found, each node's level is its hop distance, and hop distance never decreases along the results |
| ShortestPath.ShortestFrom | graph.js:126-141 | the search returns `NotFound` exactly when an end is unregistered |
| ShortestPath.MinOver | graph.js:133-137 | `Math.min` over the neighbours' searches: a lower bound of each, attained by one of them, and infinity for no neighbours |
| ShortestPath.ShortestFromSound | graph.js:126-141 | every number the search returns is the length of some walk from `start` to `end` |
| ShortestPath.ShortestFromComplete | graph.js:126-141 | the search is no longer than any repeat-free walk that avoids the current path |
| ShortestPath.ShortestIsHopDistance | graph.js:126-141 | between registered nodes the search returns the hop distance, or `Unreachable` when no walk exists |
| ShortestPath.ShortestSymmetric | graph.js:126-141 | under the invariants the search is symmetric in its two ends |
| Walks.ReachableSymmetric | graph.js:30-33 | under the invariants, reachability between registered nodes is symmetric |
| Walks.HopDistanceSymmetric | graph.js:30-33 | under the invariants, hop distance between registered nodes is symmetric |
| Scenarios.ThreeNodes | graph.js:23-27 | three fresh nodes registered by `addVertices` form a consistent graph with three vertices and no edge |
| Scenarios.TwoComponents | graph.js:30-33 | adding the edge A - B to the three nodes gives a consistent graph with components {A, B} and {C} |
| Scenarios.BreadthFirstSearchThrowsOnTwoComponents | graph.js:122 | breadth-first search from A, as written, throws on that graph |
| Scenarios.ExhaustiveSearchOnTwoComponents | graph.js:112-123 | the corrected search from A returns `["A", "B"]`, and the distance from A to C is `Unreachable` |
| Scenarios.NotReachableOutside | graph.js:112-123 | nothing outside a set closed under adjacency is reachable from inside it |

## Left out

- Set iteration order: JavaScript iterates a `Set` in insertion order. The model picks an arbitrary element of each adjacency set. The traversals are therefore specified only by properties that do not depend on the order.
- Object identity and aliasing: nodes are ids in an arena held by one graph. Sharing a node between two graphs, and aliasing of the `adjacent` set handed to the `Node` constructor, are not modelled.
- Graphs.Graph.NewNode: requires the given adjacency set to hold allocated nodes only, since adjacency sets in the arena hold ids and not arbitrary objects.
- Graphs.Graph.DistanceOfShortestPath: requires adjacency to be closed within `nodes`. Otherwise line 128 returns `undefined` for a neighbour outside the vertex set, and `Math.min` turns that into `NaN` at line 137. `NaN` is not modelled.
- `Infinity` is the constructor `Unreachable`, and `undefined` is `NotFound`. Floating point is not modelled.
- The optional arguments `results` and `index` of `breadthFirstSearch` (graph.js:112) and `visited` of `distanceOfShortestPath` (graph.js:126): the model covers the calls that leave them at their defaults. Recursive calls are modelled through the loop state and the `visited` argument of `ShortestPath.ShortestFrom`; a caller-supplied initial value is not.
- Recursion depth: the recursive helpers of the source (graph.js:70-88, 112-123 and 126-141) are loops or terminating functions here. Running out of call stack is not modelled.
- The demonstration script (graph.js:146-182), `module.exports` (graph.js:144) and the commented-out traversal (graph.js:90-106) are not part of this model.
- The running time of the distance search is not modelled. It is exponential in the source, and only its result is proved.

## Findings

| source | as written | input that shows it | evidently intended | confidence | as-written member | corrected member |
|---|---|---|---|---|---|---|
| graph.js:113-122 | `breadthFirstSearch` stops only when `results.length === this.nodes.size`; otherwise it recurses on `results[index + 1]`, which is `undefined` once the reachable nodes are exhausted, and `start.adjacent` throws | nodes A, B, C registered, edge A - B only, `breadthFirstSearch(A)` | stop when the cursor passes the end of the results and return the values of the reachable component, here `["A", "B"]` | not executed | Scenarios.BreadthFirstSearchThrowsOnTwoComponents | Graphs.Graph.BreadthFirstSearchToExhaustion |
