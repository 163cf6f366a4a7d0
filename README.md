# Dijkstra's shortest paths, in Kotlin and in Rust

The repository implements Dijkstra's single-source shortest-path algorithm
twice, on the same nine-node undirected example graph.

The Kotlin version (`Graph.kt`, `Data.kt`) works as follows:
- It keeps a frontier list of `(node, distance)` pairs.
- Each round it picks the first pair of least distance with `minBy`, removes
  it, and relaxes the node's edges that lead to no settled node.
- It pushes a new pair for every relaxed edge, whether the distance improved
  or not.
- It returns a `DijkstraResult`: the start, the distances of every other
  node (`Int.MAX_VALUE` for an unreached node), and the precursor map.
- `reconstructFullPathFromPreviousNode` walks the precursors back to the
  start and builds the route front to back.

The Rust version (`model.rs`, `main.rs`) works as follows:
- It puts every node id in a queue and picks the id of least distance with
  `min_by_key`.
- It relaxes every edge at that id, using `u32` arithmetic.
- It fills a `ResultSet` of distances and predecessors.
- `get_path` rebuilds a route from the `ResultSet`, and `VcWrapper`
  displays a route as comma-separated ids.

The model follows each source file's own shape:
- Pure lookups and list operations are functions.
- The two `dijkstra` loops, the Kotlin set-up loop, the path reconstruction
  and the Rust adjacency scan are methods with loop invariants.
- `ResultSet` is a class whose methods update its two maps.

Each `dijkstra` method is proved against a predicate `Finished` that says
what a completed run returns. Separate modules then prove what `Finished`
means for shortest paths:
- No walk from the start to a node is lighter than the distance reported
  for it.
- A node left at the "unreached" sentinel has no walk from the start.
- The route the path reconstruction returns starts at the start, ends at
  the target, and weighs exactly the reported distance.

For the example graph both versions ship, the model proves that a run
from node 1 returns the distances and routes their tests expect. For the
Rust version this is the run as written: a panic in the Rust `dijkstra`
is proved to come only from an edge to an id that is not a node, or from
adding an edge's weight to a removed node's distance when that distance,
its shortest distance from the start, is too close to `u32::MAX`. Neither
can happen on the example.

The Rust `dijkstra` puts every node in its queue, including nodes no walk
from the start reaches. Such a node is removed at `u32::MAX`, and adding an
edge's weight to that distance overflows. The model proves this on a small
disconnected graph (see "## Findings"). It also gives a corrected
`dijkstra` whose addition saturates at `u32::MAX`, and proves it finished on
every graph whose edges join its own nodes, the disconnected graph and the
example included.

Modules:
- `Walks` (walks.dfy): walks over a set of undirected weighted links, and
  the bound that a closed labelling puts on every walk.
- `KotlinData`, `KotlinGraph`, `KotlinDijkstra`, `KotlinShortest` and
  `KotlinExample`: the Kotlin implementation.
- `RustModel`, `RustMain` and `RustShortest`: the Rust implementation.
- `ExampleTable`, `KotlinExample` and `RustExample`: the shared example
  graph, its expected distances and parents, and what each version's run
  returns on it.
- `RustDisconnected`: the disconnected graph on which the Rust run
  overflows.
- `Wrappers`: `Option` and `Result`.

## Model

| member | source | states |
|---|---|---|
| KotlinData.GetNeighbourNode | kotlin/src/main/kotlin/Data.kt:12-20 | `null` exactly when the node's id is neither endpoint's id; otherwise the far endpoint, and the second endpoint when the id matches the first |
| KotlinData.NeighbourJoins | kotlin/src/main/kotlin/Data.kt:12-20 | the neighbour lookup returns `y` exactly when the edge's link joins the node to `y` |
| KotlinData.NeighbourInvolution | kotlin/src/main/kotlin/Data.kt:12-20 | on an edge between two distinct ids, looking up the neighbour of the neighbour returns the node |
| KotlinGraph.FilterCount | kotlin/src/main/kotlin/Graph.kt:108-110 | `filter` keeps each accepted element exactly as often as it occurs and drops every other element |
| KotlinGraph.FilterAppend | kotlin/src/main/kotlin/Graph.kt:63-66 | filtering a concatenation is the concatenation of the filtered parts, so order is kept |
| KotlinGraph.GetAllNeighboursEdges | kotlin/src/main/kotlin/Graph.kt:107-111 | an edge is returned exactly when it is listed and has an endpoint with the node's id, as often as it is listed |
| KotlinGraph.TouchesHasNeighbour | kotlin/src/main/kotlin/Graph.kt:107-111 | the edges this selects are exactly those on which the neighbour lookup finds a node |
| KotlinGraph.MinBy | kotlin/src/main/kotlin/Graph.kt:58 | `minBy` picks a position whose distance is no larger than any other, and every earlier entry is strictly larger |
| KotlinGraph.MinByLeast | kotlin/src/main/kotlin/Graph.kt:58 | the picked entry is in the queue, and no queued entry has a smaller distance |
| KotlinGraph.RemoveFirst | kotlin/src/main/kotlin/Graph.kt:60 | `remove` takes exactly one copy of the entry out of the multiset, and the length drops by one exactly when the entry was present |
| KotlinGraph.RemoveFirstMembers | kotlin/src/main/kotlin/Graph.kt:60 | removal adds no entry and keeps every entry different from the removed one |
| KotlinGraph.RemoveFirstAt | kotlin/src/main/kotlin/Graph.kt:60 | removing an entry whose first occurrence is at position `i` leaves the list before `i` followed by the list after `i` |
| KotlinGraph.MinByIsFirst | kotlin/src/main/kotlin/Graph.kt:58-60 | the entry `minBy` picks does not occur earlier, so `remove` deletes the picked position itself |
| KotlinGraph.ReconstructFullPathFromPreviousNode | kotlin/src/main/kotlin/Graph.kt:91-105 | the deque returned is the backward walk's route from the precursors, placed in front of the deque passed in |
| KotlinGraph.RootedRoute | kotlin/src/main/kotlin/Graph.kt:91-105 | when the backward walk reaches a node without precursor, it returns, and its route is a precursor chain ending at the target |
| KotlinGraph.ChainIsRoute | kotlin/src/main/kotlin/Graph.kt:91-105 | every precursor chain from a node without precursor to the target is the route the reconstruction returns |
| KotlinDijkstra.Setup | kotlin/src/main/kotlin/Graph.kt:40-54 | every listed node is at `Int.MAX_VALUE` with a `null` precursor, the start is at 0, the frontier is the single pair `(start, 0)`, and nothing is settled |
| KotlinDijkstra.SetupRound | kotlin/src/main/kotlin/Graph.kt:40-54 | the state after set-up satisfies the outer loop's invariant |
| KotlinDijkstra.UnsettledNeighbourEdges | kotlin/src/main/kotlin/Graph.kt:62-66 | an edge is kept exactly when it is listed, touches the popped node, and has neither endpoint settled |
| KotlinDijkstra.RelaxNeighbours | kotlin/src/main/kotlin/Graph.kt:68-80 | after the inner loop, distances, precursors and frontier are the edge-by-edge relaxation of the kept edges: an improved far end gets the popped distance plus the weight and the popped node as precursor, and every edge pushes a pair |
| KotlinDijkstra.RelaxEdgesLowered | kotlin/src/main/kotlin/Graph.kt:68-80 | relaxation only lowers distances, and a lowered node gets the popped node as its precursor |
| KotlinDijkstra.FreshPop | kotlin/src/main/kotlin/Graph.kt:58-66 | popping a least pair for an unsettled node settles that node at its recorded distance, and the inner loop's invariant holds for the kept edges |
| KotlinDijkstra.StalePop | kotlin/src/main/kotlin/Graph.kt:58-66 | popping a pair of an already settled node keeps no edge and keeps the outer invariant |
| KotlinDijkstra.FreshRound | kotlin/src/main/kotlin/Graph.kt:68-81 | relaxing all kept edges of a freshly settled node restores the outer invariant |
| KotlinDijkstra.SettleShrinks | kotlin/src/main/kotlin/Graph.kt:81 | settling a new node leaves fewer nodes to settle |
| KotlinDijkstra.RankedRooted | kotlin/src/main/kotlin/Graph.kt:76 | when precursors are always settled before their successors, every backward walk from a settled node reaches a node without precursor |
| KotlinDijkstra.DoneDistances | kotlin/src/main/kotlin/Graph.kt:84-88 | the returned distances are those of every node other than the start, unchanged |
| KotlinDijkstra.DoneClosed | kotlin/src/main/kotlin/Graph.kt:56-82 | once the frontier is empty, no edge lets one reached distance undercut another |
| KotlinDijkstra.RoundsDone | kotlin/src/main/kotlin/Graph.kt:84-88 | when the frontier is empty, the result satisfies `Finished` |
| KotlinDijkstra.Dijkstra | kotlin/src/main/kotlin/Graph.kt:39-89 | with non-negative weights, a run returns the given start and a result satisfying `Finished`: start left out, `Int.MAX_VALUE` exactly for the nodes without precursor, reached distances closed over every edge, precursor links tight, and every backward walk rooted |
| KotlinShortest.ReachedReported | kotlin/src/main/kotlin/Graph.kt:84-88 | the ids labelled by a run are the start and the nodes reported below `Int.MAX_VALUE`, with the reported distance as label |
| KotlinShortest.NoLighterWalk | kotlin/src/main/kotlin/Graph.kt:39-89 | every walk from the start ends at a reached id, whose distance is at most the walk's weight |
| KotlinShortest.UnreachedIsUnreachable | kotlin/src/main/kotlin/Graph.kt:39-89 | a node reported at `Int.MAX_VALUE` has no walk from the start |
| KotlinShortest.ChainWalk | kotlin/src/main/kotlin/Graph.kt:91-105 | a precursor chain ending at a reached node starts at the start and is a walk whose weight is the node's distance |
| KotlinShortest.DistanceIsShortest | kotlin/src/main/kotlin/Graph.kt:39-105 | for the start or a reached node, the reconstruction returns, its route runs from the start to the node with weight equal to the reported distance, and no walk between them is lighter |
| KotlinExample.ExampleUniverse | kotlin/src/main/kotlin/Graph.kt:9-33 | a run on the example from node 1 meets only nodes 1 to 9 |
| KotlinExample.ExampleEdge | kotlin/src/main/kotlin/Graph.kt:15-30 | every example edge joins nodes whose expected distances differ by at most its weight, and an edge of exact rise is the farther node's parent link |
| KotlinExample.ExampleWalkTo | kotlin/src/main/kotlin/Graph.kt:9-33 | every example node has a walk from node 1 whose weight is its expected distance |
| KotlinExample.ExampleShaped | kotlin/src/main/kotlin/Graph.kt:9-33 | the example graph has every property used below: ids within 1 to 9, expected distances closed over its edges, parent links, walks from node 1 |
| KotlinExample.ExampleWeights | kotlin/src/main/kotlin/Graph.kt:15-30 | the example meets `Dijkstra`'s preconditions |
| KotlinExample.ShapedReached | kotlin/src/test/kotlin/GraphTest.kt:28-39 | on such a graph a finished run from node 1 labels exactly nodes 1 to 9, each with its expected distance |
| KotlinExample.ShapedRoute | kotlin/src/test/kotlin/GraphTest.kt:41-163 | on such a graph the reconstruction of each node's route returns the expected route |
| KotlinExample.ExampleDistances | kotlin/src/test/kotlin/GraphTest.kt:28-39 | every finished run from node 1 on the example returns exactly the eight distances the test expects |
| KotlinExample.ExampleRun | kotlin/src/test/kotlin/GraphTest.kt:21-39 | `dijkstra` from node 1 on the example returns those eight distances |
| KotlinExample.ExampleRoutes | kotlin/src/test/kotlin/GraphTest.kt:41-163 | after such a run, the reconstruction returns the expected route for each of the nine nodes, with node 1 alone for node 1 |
| RustModel.Edge.GetNeighbourNodeId | rust/src/model.rs:52-60 | an id that is no endpoint comes back unchanged; for an endpoint, the id and the result are together exactly the edge's two ids |
| RustModel.ContainsIsEndpoint | rust/src/model.rs:63-65 | `contains` holds exactly for the ids the edge's link joins to something |
| RustModel.NeighbourJoins | rust/src/model.rs:52-65 | following an edge from an endpoint is exactly taking the edge's link |
| RustModel.NeighbourInvolution | rust/src/model.rs:52-60 | on an edge between two distinct ids, the neighbour of the neighbour is the id itself |
| RustModel.Graph.GetAllNeighbourEdges | rust/src/model.rs:69-77 | the vector holds exactly the edges containing the id, each once |
| RustModel.ResultSet.constructor | rust/src/model.rs:127-134 | both maps start empty |
| RustModel.ResultSet.GetDistance | rust/src/model.rs:90-101 | an id missing from the map panics; otherwise the stored distance, with `None` read as `u32::MAX` |
| RustModel.ResultSet.SetDistance | rust/src/model.rs:103-105 | the id's distance becomes `Some(distance)`, and nothing else changes |
| RustModel.ResultSet.SetPrev | rust/src/model.rs:107-109 | the id's predecessor becomes `Some(prev)`, and nothing else changes |
| RustModel.ResultSet.GetPathRecursive | rust/src/model.rs:116-124 | the predecessors of the target are pushed in front of the deque, farthest first, or the walk panics at a missing key |
| RustModel.ResultSet.GetPath | rust/src/model.rs:111-114 | the returned deque is the predecessors, then the old contents, then the target |
| RustModel.AncestorsAreChain | rust/src/model.rs:116-124 | when the backward walk does not panic, the predecessors followed by the target form a predecessor chain from an id without predecessor |
| RustModel.ChainIsAncestors | rust/src/model.rs:116-124 | every such chain is what the backward walk produces |
| RustModel.RootedHalts | rust/src/model.rs:116-124 | a rooted backward walk returns without panicking |
| RustModel.DecimalRoundTrip | rust/src/model.rs:141-143 | reading the decimal text of a number back gives the number |
| RustModel.FieldsOfJoin | rust/src/model.rs:136-150 | splitting a displayed route at the commas gives the ids' decimal texts |
| RustModel.DisplayRoundTrip | rust/src/model.rs:136-150 | parsing the displayed text of a route gives the route back |
| RustModel.VcWrapper.Fmt | rust/src/model.rs:136-150 | `fmt` writes the ids in decimal, separated by single commas |
| RustMain.MinByKey | rust/src/main.rs:23-27 | `min_by_key` yields a position of least key, and every earlier position has a strictly larger key |
| RustMain.MinByKeyLeast | rust/src/main.rs:23-27 | among ids that all have a distance, the id picked has the least distance |
| RustMain.RemoveAt | rust/src/main.rs:28 | `remove(index)` takes out exactly that id and keeps the queue free of repeats |
| RustMain.PopStep | rust/src/main.rs:23-30 | removing the queued id of least distance keeps the queue's bookkeeping and starts the inner loop's invariant |
| RustMain.RelaxLower | rust/src/main.rs:35-38 | a relaxation that lowers the neighbour's distance keeps the inner invariant |
| RustMain.RelaxKeep | rust/src/main.rs:35 | a relaxation that finds no improvement keeps the inner invariant |
| RustMain.RoundEnd | rust/src/main.rs:32-39 | once every edge of the id is relaxed, the outer invariant holds again |
| RustMain.RankedRooted | rust/src/main.rs:37 | when predecessors are always removed from the queue before their successors, every backward walk from a removed id is rooted |
| RustMain.RoundsDone | rust/src/main.rs:22-41 | with the queue empty, the maps satisfy `Finished` |
| RustMain.SetupRound | rust/src/main.rs:15-20 | the state after set-up satisfies the outer invariant |
| RustMain.Setup | rust/src/main.rs:12-20 | a fresh `ResultSet` with every node's id at `u32::MAX` without predecessor, the start at 0, and every id queued once |
| RustMain.LowerKeepsIdle | rust/src/main.rs:35-38 | lowering the distance of an id outside a set keeps every id of the set that is at `u32::MAX` touching only edges of weight 0 |
| RustMain.WeightlessAt | rust/src/main.rs:32-33 | when the edges relaxed so far all weigh 0, each of them does |
| RustMain.ActiveIdle | rust/src/main.rs:32-39 | once the removed id's edges are relaxed without overflow, the id, if at `u32::MAX`, touches only edges of weight 0 |
| RustMain.RelaxNeighbours | rust/src/main.rs:32-39 | the inner loop either relaxes every edge of the id, keeping the inner invariant and, if the id is at `u32::MAX`, finding all its edges of weight 0, or panics for a missing neighbour id, or for an edge at the id whose weight overflows when added to the id's distance at removal |
| RustMain.OverflowWitness | rust/src/main.rs:33 | an edge at an id whose weight added to a distance exceeds `u32::MAX` is an overflow at that id |
| RustMain.CappedClosed | rust/src/main.rs:23-39 | when the start is a node, the distances capped at the least queued distance let no edge undercut them |
| RustMain.TightWalk | rust/src/main.rs:35-38 | following tight predecessor links back to a root gives a walk from the start weighing the id's distance |
| RustMain.PopShortest | rust/src/main.rs:23-27 | when the start is a node, the queued id of least distance is at its shortest distance: no walk from the start is lighter, and below `u32::MAX` one weighs exactly that |
| RustMain.Dijkstra | rust/src/main.rs:11-42 | a run either returns a fresh `ResultSet` satisfying `Finished` in which every id left at `u32::MAX` touches only edges of weight 0, or panics for an edge to an id that is not a node, or for an edge at a node whose weight overflows when added to the node's distance, which is the node's shortest distance from the start when the start is a node |
| RustMain.NoMissingKey | rust/src/main.rs:33-35 | when every edge joins two nodes of the graph, the only panic left is an overflowing addition |
| RustMain.RelaxNeighboursSaturating | rust/src/main.rs:32-39 | with a saturating addition, the inner loop relaxes every edge of the id, keeping the inner invariant, or panics for a missing neighbour id only |
| RustMain.DijkstraSaturating | rust/src/main.rs:11-42 | with a saturating addition, a run panics only for a missing neighbour id, or returns a fresh `ResultSet` satisfying `Finished` |
| RustShortest.FinishedClosed | rust/src/main.rs:32-39 | in a finished run, no edge lets one recorded distance undercut another |
| RustShortest.NoLighterWalk | rust/src/main.rs:11-42 | every walk from the start ends at a node id whose recorded distance is at most the walk's weight |
| RustShortest.ChainWalk | rust/src/model.rs:116-124 | a predecessor chain ending at the start or at an id below `u32::MAX` begins at the start and is a walk whose weight is that id's distance |
| RustShortest.RouteIsShortest | rust/src/main.rs:11-42 | for an id below `u32::MAX`, `get_path` returns the route from the start, the route's weight is the recorded distance, and no walk is lighter |
| RustExample.ExampleIds | rust/src/model.rs:152-159 | the example's ids are 1 to 9 |
| RustExample.ExampleEdge | rust/src/model.rs:161-181 | every example edge joins two of nodes 1 to 9 whose expected distances differ by at most its weight, and an edge of exact rise is the farther node's parent link |
| RustExample.ExampleEdgesWithin | rust/src/model.rs:152-181 | every example edge joins two nodes of the example |
| RustExample.ExampleClosed | rust/src/model.rs:161-181 | no example edge lets one expected distance undercut another |
| RustExample.ExampleWalkTo | rust/src/model.rs:161-181 | every example node has a walk from node 1 whose weight is its expected distance |
| RustExample.ExampleDistanceOf | rust/src/main.rs:61-70 | a finished run from node 1 on the example records each node's expected distance |
| RustExample.ExamplePrev | rust/src/main.rs:72-88 | a finished run from node 1 on the example records each other node's parent as its predecessor |
| RustExample.ExampleDistances | rust/src/main.rs:60-70 | a finished run from node 1 on the example leaves exactly the nine expected distances |
| RustExample.ExamplePrevs | rust/src/main.rs:72-88 | a finished run from node 1 on the example leaves exactly the expected predecessors |
| RustExample.ExampleAncestor | rust/src/main.rs:72-88 | after such a run, the backward walk from a node along an expected chain returns the rest of the chain |
| RustExample.ExampleAncestors | rust/src/main.rs:72-88 | after such a run, the backward walks from nodes 4, 3, 6 and 9 return their expected predecessors |
| RustExample.ExampleDistanceCount | rust/src/main.rs:60 | the expected distances are nine |
| RustExample.ExampleNoOverflow | rust/src/main.rs:33 | on the example, an edge's weight added to a shortest distance from node 1 is at most 15 |
| RustExample.ExampleNoPanic | rust/src/main.rs:54-58 | no run from node 1 on the example can panic |
| RustExample.ExampleRoutes | rust/src/main.rs:72-88 | after a finished run on the example, the routes `get_path` builds for nodes 4, 3, 6 and 9 are 1-7-8-5-4, 1-2-3, 1-6 and 1-7-9 |
| RustExample.ExampleRun | rust/src/main.rs:54-89 | the run as written from node 1 on the example completes with nine distances, the values the test asserts, and the `get_path` routes the test asserts for nodes 4, 3, 6 and 9 |
| RustExample.ExampleRunSaturating | rust/src/main.rs:54-70 | the saturating run on the example completes too, with the expected distances and predecessors |
| RustDisconnected.DisconnectedStep | rust/src/main.rs:35-37 | in a finished run on the disconnected graph, an endpoint of its edge other than the start and below `u32::MAX` is one heavier than the other endpoint |
| RustDisconnected.DisconnectedUnreached | rust/src/main.rs:11-42 | a finished run from node 1 on the disconnected graph leaves nodes 2 and 3 at `u32::MAX` |
| RustDisconnected.DisconnectedNotIdle | rust/src/main.rs:32-33 | no finished run from node 1 on the disconnected graph meets the guarantee above: node 2 stays at `u32::MAX` with an edge of weight 1 |
| RustDisconnected.DisconnectedPanic | rust/src/main.rs:33 | the only panic a run on the disconnected graph can raise is adding 1 to `u32::MAX` |
| RustDisconnected.DisconnectedRun | rust/src/main.rs:33 | the run as written from node 1 on the disconnected graph panics adding 1 to `u32::MAX` |
| RustDisconnected.DisconnectedDistances | rust/src/main.rs:11-42 | a finished run from node 1 on the disconnected graph leaves node 1 at 0 and nodes 2 and 3 at `u32::MAX` |
| RustDisconnected.DisconnectedPrev | rust/src/main.rs:11-42 | such a run leaves no predecessor |
| RustDisconnected.DisconnectedRunSaturating | rust/src/main.rs:11-42 | the saturating run from node 1 on the disconnected graph completes with those distances and no predecessor |

## Findings

| source | as written | input that shows it | evidently intended | confidence | as-written member | corrected member |
|---|---|---|---|---|---|---|
| rust/src/main.rs:33 | every node id is queued, so an id that no walk from the start reaches is removed at `u32::MAX`, and its edges' weights are added to `u32::MAX` | nodes 1, 2 and 3, one edge between 2 and 3 of weight 1, start 1: the run panics adding 1 to `u32::MAX` in a debug build | unreached ids stay at `u32::MAX` and the run completes, as the Kotlin version and `get_distance`'s reading of `None` as `u32::MAX` do | not executed | RustDisconnected.DisconnectedRun | RustMain.DijkstraSaturating |

## Left out

- KotlinDijkstra.Dijkstra: requires non-negative weights, and requires that the number of nodes a run can meet times the largest weight stays below `Int.MAX_VALUE`. Under these two conditions the Kotlin `Int` additions cannot wrap. Wrap-around with negative or huge weights is not modelled.
- `minBy` on the distance map (Graph.kt line 54) is modelled by its only possible outcome: the start is the single entry at 0, and every other entry is at `Int.MAX_VALUE`.
- The iteration order of the Rust `HashSet` of edges is not modelled. `GetAllNeighbourEdges` returns the matching edges in some order, each once, and the Rust `dijkstra` is proved for every such order.
- The iteration order of the Rust `HashSet` of nodes is not modelled either: the queue holds the ids in some order, each once. `min_by_key`'s tie-break is modelled as the first least position, as the Rust standard library documents it. The Kotlin `minBy` tie-break is the first least entry as well.
- Rust `u32` overflow is modelled as a panic (`Panic.AddOverflow`), as in a debug build; release builds wrap around instead, and that is not modelled.
- A Rust `unwrap` on a missing key and indexing a `HashMap` with a missing key are modelled as the panic value `Panic.MissingKey`.
- The Kotlin `ArrayDeque` passed to `reconstructFullPathFromPreviousNode` is mutated and returned. It is modelled as a value: the method returns the new contents. Aliasing between the argument and the result is not modelled.
- KotlinGraph.ReconstructFullPathFromPreviousNode: the recursion is bounded by a ghost step count, and callers must show the backward walk returns. A precursor cycle that does not pass through a self-precursor makes the Kotlin code recurse until the stack overflows, and that is not modelled.
- RustModel.ResultSet.GetPath: the recursion is bounded by a ghost step count, and callers must show the backward walk stops. A predecessor cycle overflows the Rust stack, and that is not modelled.
- `Main.kt`, the Rust `main` function and the `println!` calls are I/O and are not modelled.
- RustMain.Dijkstra: when the start id is not a node, its edges are never relaxed (main.rs line 20 gives it a distance but not a place in the queue). The distance in an overflow panic is then not tied to walks from the start.
- RustShortest.FinishedClosed, RustShortest.NoLighterWalk, RustShortest.RouteIsShortest: require the start to be a node. main.rs line 20 accepts any start id, but a start that is not a node never has its edges relaxed. A weight-0 edge from such a start to node 2 would leave node 2 at `u32::MAX` although a walk of weight 0 reaches it, so the shortest-path promise does not hold there.
- A release build would wrap the overflowing addition at main.rs line 33 instead of panicking. On the disconnected graph it would then give one of nodes 2 and 3 distance 0 through the other. That behaviour is not modelled.
- The `three_equals_1` test in model.rs (lines 183-189) asserts only `3 == 3` and is not modelled.
- `Debug` output of `ResultSet` is not modelled. `Graph::default` is modelled by the constant `RustExample.G`.
