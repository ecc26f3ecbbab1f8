# MyGraph: a directed, weighted graph and its neighbourhood and reachability queries

This project models `MyGraph`, a directed graph with weighted edges. The graph holds a
collection of vertices and a collection of edges; every edge has a `from` vertex, a `to`
vertex and a cost. The queries derive facts from those two collections:

- in-neighbours and out-neighbours of a vertex, by one scan over the edges;
- the source vertices (`minNodes`): vertices of the graph that no edge enters;
- the adjacent vertices of a vertex (its out-neighbours), with an argument check;
- the vertices reachable from a vertex, by a level-by-level breadth-first loop;
- the cost of an edge `a -> b`, or -1 when there is none, with an argument check.

Layout:

- `graphs.dfy`, module `Graphs`: vertices (`nat` identities), the `Edge` datatype, and the
  reference definitions the queries are proved against. `OutSet`/`InSet` are set
  comprehensions over the edges. `IsPath`/`Reachable`/`ReachableFrom` define directed paths
  and reachability. It also holds the lemmas about these definitions: duality of in- and
  out-neighbours, the effect of one more edge, closure and leastness of the reachable set,
  transitivity (so the reachable set of a reachable vertex lies inside the reachable set),
  and monotonicity under added edges.
- `my_graph.dfy`, module `MyGraphs`: class `MyGraph` with the two collections as fields
  and one method per query. Each method builds its result set in a loop, as the source
  does, and its `ensures` ties that set to the definitions in `Graphs`.
- `graph_tester.dfy`, module `GraphTester`: the seven-vertex sample graph of the
  demonstration driver. Lemmas state the sample's neighbourhoods and reachable set. Methods
  run the queries on a `MyGraph` built from the sample and prove the answers that follow
  from the sample's edges and each method's documented contract.

Decisions where the code is unfinished or leaves a case open:

- `inNeighbors` and `outNeighbors` (and `reachableVertices`) do not check that `v` belongs
  to the graph. The model follows the code: a vertex outside the graph gets the neighbours
  the edges give it.
- `adjacentVertices` and `isAdjacent` are stubs. Their doc comments fix the contract: an
  `IllegalArgumentException` for a missing vertex becomes `Failure(IllegalArgument)`. The
  bodies are written as the comments say (`adjacentVertices` reuses `outNeighbors`).
- `isAdjacent` keeps the source's -1 for "no edge". -1 is unambiguous only when costs are
  non-negative, which the class comment assumes. The contract states that equivalence under
  `NonNegativeCosts`. With several parallel edges `a -> b`, the first one in scanning order
  gives the cost.
- `reachableVertices` seeds `result` and `frontier` with `v`, but its loop is unfinished:
  it calls an undefined `set_union` and returns `null`. The model finishes the loop the way
  the written part sets it up. The union of the frontier's out-neighbours, minus `result`,
  is added to `result` and becomes the next frontier. The loop stops when the frontier is
  empty.
- The driver's comment for `reachableVertices(v5)` lists "3, 4, 3, 6, and 7". The code
  always puts `v` itself in the result, so the model's answer is {3, 4, 5, 6, 7}.
- The constructor is an empty stub. It is modelled as storing the two collections. The
  fields are `const`, because nothing changes them after construction.

## Model

| member | source | states |
|---|---|---|
| `MyGraphs.MyGraph.constructor` | src/MyGraph.java:18-22 | the graph holds exactly the given vertex collection and edge sequence |
| `MyGraphs.MyGraph.InNeighbors` | src/MyGraph.java:142-153 | the result is the set of all `u` with an edge `u -> v` in `myEdges`, each once; loop invariant: the set of the edges scanned so far |
| `MyGraphs.MyGraph.OutNeighbors` | src/MyGraph.java:157-168 | the result is the set of all `w` with an edge `v -> w`, each once, and empty when `v` has no outgoing edge; loop invariant: the set of the edges scanned so far |
| `MyGraphs.MyGraph.MinNodes` | src/MyGraph.java:171-184 | the result is a subset of `myVertices` and holds exactly the graph's vertices with an empty in-neighbour set, i.e. that no edge enters |
| `MyGraphs.MyGraph.AdjacentVertices` | src/MyGraph.java:46-59 | fails exactly when `v` is not in the graph; otherwise returns the set of all `w` with an edge `v -> w` (empty if none) |
| `MyGraphs.MyGraph.ReachableVertices` | src/MyGraph.java:61-89 | the result contains `v`, is closed under out-neighbours, holds only vertices reachable from `v` by a directed path, and equals the set of all reachable vertices; terminates on cyclic graphs because `result` only grows |
| `MyGraphs.MyGraph.IsAdjacent` | src/MyGraph.java:101-115 | fails exactly when `a` or `b` is not in the graph; -1 when no edge `a -> b` exists, otherwise the cost of the first edge `a -> b`; with non-negative costs, -1 exactly when no such edge exists |
| `Graphs.NeighborDuality` | src/MyGraph.java:142-168 | `u` is an in-neighbour of `v` if and only if `v` is an out-neighbour of `u`, if and only if an edge `u -> v` exists |
| `Graphs.OutSetAppend` | src/MyGraph.java:158-165 | scanning one more edge `a -> b` adds `b` to the out-neighbours of `a` and changes no other out-neighbour set |
| `Graphs.InSetAppend` | src/MyGraph.java:143-150 | scanning one more edge `a -> b` adds `a` to the in-neighbours of `b` and changes no other in-neighbour set |
| `Graphs.ParallelEdgesCollapse` | src/MyGraph.java:142-168 | an edge already present, added again, changes no in- or out-neighbour set: parallel edges collapse |
| `Graphs.ReachableRefl` | src/MyGraph.java:74-76 | every vertex is reachable from itself (path of length 0) |
| `Graphs.ReachableStep` | src/MyGraph.java:83-85 | an out-neighbour of a reachable vertex is reachable |
| `Graphs.PathStaysInClosed` | src/MyGraph.java:61-66 | a directed path that starts in a set closed under out-neighbours ends in it |
| `Graphs.ClosedContainsReachable` | src/MyGraph.java:61-66 | a set closed under out-neighbours that contains `v` contains every vertex reachable from `v` |
| `Graphs.ReachableFromIsLeastClosed` | src/MyGraph.java:61-66 | the reachable set contains `v`, is closed under out-neighbours, and lies inside every closed set that contains `v` |
| `Graphs.ReachableFromCharacterized` | src/MyGraph.java:61-89 | a closed set that contains `v` and holds only vertices reachable from `v` is exactly the reachable set |
| `Graphs.ReachableTrans` | src/MyGraph.java:62-63 | reachability is transitive: paths concatenate |
| `Graphs.ReachableFromTransitive` | src/MyGraph.java:62-63 | everything reachable from a vertex reachable from `v` is itself reachable from `v` |
| `Graphs.ReachableMonotone` | src/MyGraph.java:62-63 | adding edges never shrinks the set of vertices reachable from a vertex |
| `GraphTester.SampleOutSets` | src/GraphTester.java:37-52 | in the sample graph the out-neighbours of 3, 4, 5, 6 and 7 are {6}, {3, 6, 7}, {4, 7}, {} and {6} |
| `GraphTester.SampleSources` | src/GraphTester.java:27-52 | in the sample graph vertex 1 is the only vertex with no in-neighbour |
| `GraphTester.SampleReachableFrom5` | src/GraphTester.java:68-70 | in the sample graph the vertices reachable from 5 are exactly {3, 4, 5, 6, 7} |
| `GraphTester.SampleAdjacentVertices` | src/GraphTester.java:64-66 | `adjacentVertices(v4)` on the sample graph succeeds with {3, 6, 7} |
| `GraphTester.SampleReachableVertices` | src/GraphTester.java:68-70 | `reachableVertices(v5)` on the sample graph returns {3, 4, 5, 6, 7} |
| `GraphTester.SampleMinNodes` | src/MyGraph.java:171-184 | `minNodes()` on the sample graph returns {1} |
| `GraphTester.SampleIsAdjacentMissing` | src/GraphTester.java:76-77 | `isAdjacent(v6, v3)` on the sample graph succeeds with -1 |
| `GraphTester.SampleIsAdjacentPresent` | src/GraphTester.java:79-80 | `isAdjacent(v4, v6)` on the sample graph succeeds with cost 0 |

## Left out

- `topologicalSort` (src/MyGraph.java:96-99) and `shortestPath` (src/MyGraph.java:117-137): the
  source has no algorithm for them, only bodies that return `null` and -1.
- `vertices()` and `edges()` (src/MyGraph.java:24-44): stubs that return `null`; the model's
  fields are public constants instead.
- `Vertex`, `Edge` and the `Graph` interface are not part of this model. Vertices are
  `nat` identities with mathematical equality. Java's `equals`/`hashCode` are not modelled.
- Iteration order of Java's `HashSet`: only set membership is modelled. The edges are a
  sequence whose order is the scanning order. That order matters only for which parallel
  edge's cost `IsAdjacent` returns.
- The demonstration driver's console printing.
