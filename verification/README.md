# Graph distances: a Dafny model

This project models the core of a small Rust program that loads a directed
social graph from an edge list and computes hop-count statistics on it:

- the `Graph` type, with its adjacency map (node to set of out-neighbours) and
  in-degree counters;
- edge insertion, the edge and node counts, and the loader's closure pass that
  makes every mentioned node an adjacency key;
- breadth-first search (BFS) from a source node;
- the "within k degrees of separation" check;
- the "six degrees" estimate over sampled node pairs;
- the average pairwise distance over a sample of source nodes.

The model proves properties of these operations.

Modules, one per concern:

| file | module | models |
|---|---|---|
| `graph.dfy` | `Graphs` | the graph, `new`, `add_edge`, the two counts, the loader's edge loop and closure |
| `walks.dfy` | `Walks` | reference definitions: walks, reachability, shortest distance, the distance map |
| `algorithm.dfy` | `Search` | `bfs`, `are_nodes_within_degrees_of_separation`, `calculate_six_degrees` |
| `algorithm2.dfy` | `PairwiseDistance` | `calculate_average_distance` and the five-node path graph used by its test |
| `tally.dfy` | `Tallies` | (sum, count) accumulators and their mean |
| `wrappers.dfy` | `Wrappers` | `Option` |

The BFS result is proved equal to a reference distance map, defined without
any search: every node reachable from the source along outgoing edges maps to
the length of a shortest walk, and no other node is a key. The statistics are
stated against that reference. The random choices of the Rust code become
parameters: the sampled pairs for the six-degrees estimate, and the sampled
sources for the average distance. Each has preconditions describing what the
random generator can return. Means are exact rational numbers (`real`) over
integer sums and counts.

Three behaviours of the source are easy to miss; the model follows the
source:

- A fresh graph filled only by `add_edge` has no adjacency entry for a node
  that is only ever a destination. Only the loader's closure pass
  (`graph.rs:84-87`) adds one. So in the test graph `1 -> 2 -> 3 -> 4 -> 5`,
  the keys are 1..4 and 5 is not a key.
- `calculate_average_distance` samples among the adjacency keys, not among all
  mentioned nodes (`algorithm2.rs:8`, `algorithm2.rs:19-20`). An empty graph
  is one with no keys. The model proves that this is the same as having no
  nodes at all.
- `calculate_six_degrees` does not return 0 for an empty graph when at least
  one pair is requested. It unwraps a random choice from an empty key list,
  which panics (`algorithm.rs:51`). The model expresses this as the
  precondition that every sampled pair is made of adjacency keys. No sample
  satisfies that precondition when there are no keys and `numPairs > 0`.

## Model

| member | source | states |
|---|---|---|
| Graphs.New | finalproject/src/graph.rs:15-20 | a new graph has no edges, no nodes and every in-degree 0 |
| Graphs.AddEdge | finalproject/src/graph.rs:23-28 | after insertion the edge is present; `src` is the only possible new key; `dest` joins the successors of `src`; every other node keeps its successors; the in-degree of `dest` rises by exactly one and no other in-degree changes |
| Graphs.AddEdgeEdges | finalproject/src/graph.rs:23-25 | inserting an edge adds exactly that pair to the set of distinct edges, and `dest` to the set of destinations |
| Graphs.AddExistingEdge | finalproject/src/graph.rs:25-27 | re-inserting a present edge leaves the adjacency and the edge set unchanged but still raises the in-degree of `dest` |
| Graphs.AddEdgeTwice | finalproject/src/graph.rs:23-28 | inserting the same edge twice yields one new distinct edge and two in-degree increments |
| Graphs.NumberOfEdges | finalproject/src/graph.rs:31-33 | summing the adjacency-set sizes gives the number of distinct directed edges |
| Graphs.EdgesFromInsert | finalproject/src/graph.rs:32 | each key contributes as many distinct edges as its adjacency set has members |
| Graphs.NumberOfNodes | finalproject/src/graph.rs:36-45 | the count is the number of distinct keys and destinations, and never less than the number of keys |
| Graphs.AddEdges | finalproject/src/graph.rs:75-81 | inserting a list of pairs adds their sources as keys, the pairs as edges and their destinations as destinations, and nothing else |
| Graphs.AddEdgesInDegree | finalproject/src/graph.rs:75-81 | inserting a list of pairs raises each node's in-degree by the number of pairs ending at it, duplicates included |
| Graphs.CloseEdges | finalproject/src/graph.rs:84-87 | the closure pass adds keys with empty successor sets but no edges and no destinations |
| Graphs.Close | finalproject/src/graph.rs:84-87 | the closure pass makes every given node a key, keeps every node's successors and leaves the in-degrees untouched |
| Graphs.FromEdges | finalproject/src/graph.rs:74-87 | after loading, the keys are exactly the mentioned nodes, so both ends of every pair are keys; the distinct edges are the distinct pairs of the list |
| Graphs.FromEdgesProperties | finalproject/src/graph.rs:74-87 | after loading, the node count equals the key count, and each in-degree counts the node's occurrences as a destination, duplicates included |
| Walks.ReachesEnds | finalproject/src/algorithm.rs:20-21 | a walk of no edges ends at its start; a longer walk starts at a key and ends at a destination |
| Walks.Dist | finalproject/src/algorithm.rs:7-33 | the shortest distance is the length of some walk and no walk is shorter |
| Walks.DistanceMap | finalproject/src/algorithm.rs:7-33 | the reference distance map has exactly the reachable nodes as keys, each mapped to its shortest distance |
| Walks.DistanceMapUnique | finalproject/src/algorithm.rs:7-33 | a map that is sound (every value is the length of some walk) and complete and minimal (every walk ends at a key whose value is no longer) is exactly the reference distance map, and conversely |
| Walks.DistanceMapSource | finalproject/src/algorithm.rs:12-13 | the source maps to 0, every other reachable node to a positive distance, and a source with no adjacency entry reaches only itself |
| Search.LeavesThroughFront | finalproject/src/algorithm.rs:16-29 | a walk that starts among the discovered nodes leaves them only through a queued node |
| Search.UndiscoveredIsFar | finalproject/src/algorithm.rs:23-25 | while level `d` is being expanded, every node not yet discovered is at least `d + 1` edges away, so the first distance given to it is its shortest |
| Search.ClosedIsComplete | finalproject/src/algorithm.rs:16 | once the queue is empty, every node reachable from the source has been discovered |
| Search.VisitNeighbors | finalproject/src/algorithm.rs:17-28 | expanding one node discovers all its out-neighbours and nothing else, and gives each new one its shortest distance; the old queue stays a prefix, and exactly the newly discovered nodes are appended, each at one more than the expanded node's distance; the queue stays in distance order |
| Search.AppendsStep | finalproject/src/algorithm.rs:23-25 | discovering one more node and pushing it on the back keeps the queue an extension of the earlier one, with exactly the new nodes appended |
| Search.EnqueuedOnceStep | finalproject/src/algorithm.rs:16-28 | after a round, the record of queued nodes extended by what the round appended still lists each discovered node exactly once, and the queue is still its tail |
| Search.NothingAppended | finalproject/src/algorithm.rs:23-25 | a round that pushed nothing discovered nothing |
| Search.Expand | finalproject/src/algorithm.rs:16-28 | one round pops the front node, keeps the rest of the queue in front, discovers only out-neighbours of the popped node and appends exactly those new ones at one hop further, and extends the record of queued nodes by exactly what it appended; the search state is kept, and either fewer nodes are left to discover or the queue is shorter |
| Search.DiscoverKeeps | finalproject/src/algorithm.rs:23-25 | giving an undiscovered out-neighbour one more than the expanded node's distance and pushing it keeps every distance shortest and the queue a level queue |
| Search.RoundKeepsSearching | finalproject/src/algorithm.rs:16-28 | the state left by a round is again a search state, with the record extended by the appended nodes |
| Search.MeasureDrops | finalproject/src/algorithm.rs:16 | after a round either fewer nodes are left undiscovered or the queue is shorter, so the loop ends |
| Search.SearchDone | finalproject/src/algorithm.rs:16-32 | when the queue runs empty, the distances found are exactly the reference distance map |
| Search.Bfs | finalproject/src/algorithm.rs:7-33 | the result maps the source to 0 and is exactly the reference distance map, whatever order the neighbours are visited in; a source with no adjacency entry yields just itself at 0; the ghost record of queued nodes starts at the source, has no repeats and holds exactly the discovered nodes, and each round extends it by exactly the nodes that round pushed (the contract of `Search.Expand`), so each node is queued at most once |
| Search.AreNodesWithinDegreesOfSeparation | finalproject/src/algorithm.rs:36-40 | true exactly when some walk of at most `maxDegrees` edges joins the two nodes, equivalently when the end is reachable at shortest distance at most `maxDegrees`; always true for a node and itself when `maxDegrees >= 0` |
| Search.PairTally | finalproject/src/algorithm.rs:58-64 | each sampled pair is counted at most once |
| Search.PairTallyAppend | finalproject/src/algorithm.rs:59-64 | a further pair adds its shortest distance and one count when its end is reachable, and nothing otherwise |
| Search.SelfPairs | finalproject/src/algorithm.rs:52-54 | pairs of a node with itself are all counted, with total distance 0 |
| Search.NoReachablePair | finalproject/src/algorithm.rs:61-68 | when no sampled pair is reachable, nothing is counted |
| Search.CalculateSixDegrees | finalproject/src/algorithm.rs:43-69 | the result is the mean shortest distance over the reachable sampled pairs, or 0 when none is reachable; it is never negative; in test mode it is exactly 0 |
| Tallies.Mean | finalproject/src/algorithm2.rs:37-42 | the mean is non-negative, and 0 exactly when nothing was counted or the counted distances add up to 0 |
| Tallies.MeanTimesCount | finalproject/src/algorithm2.rs:38 | the mean of a non-empty tally, multiplied by the count, gives back the total |
| Tallies.MeanAtLeastOne | finalproject/src/algorithm2.rs:29-38 | when every counted distance is at least 1, a non-empty tally has mean at least 1 |
| PairwiseDistance.PositiveTally | finalproject/src/algorithm2.rs:28-32 | counting only strictly positive distances gives a total at least as large as the count |
| PairwiseDistance.PositiveTallyRemove | finalproject/src/algorithm2.rs:28 | the tally does not depend on the order in which the map's values are visited |
| PairwiseDistance.PositiveTallyCount | finalproject/src/algorithm2.rs:29-31 | the count is the number of entries with a strictly positive value |
| PairwiseDistance.PositiveKeysRemove | finalproject/src/algorithm2.rs:29-31 | dropping one entry lowers the number of positive entries by one exactly when its value is positive |
| PairwiseDistance.SumPositiveDistances | finalproject/src/algorithm2.rs:28-33 | the loop over a search result's values computes the positive tally of that map, in any iteration order |
| PairwiseDistance.SourceTally | finalproject/src/algorithm2.rs:27-33 | one source contributes one count per node other than itself that it reaches |
| PairwiseDistance.SampleTallyAppend | finalproject/src/algorithm2.rs:26-34 | sampling one more source adds the total and the count of its positive distances |
| PairwiseDistance.SampleTallyConcat | finalproject/src/algorithm2.rs:26-34 | the tally of two samples taken in turn is the sum of their tallies |
| PairwiseDistance.SampleTallyPermutation | finalproject/src/algorithm2.rs:19-20 | two samples holding the same sources, with multiplicity, have the same tally, so the order of the random draw does not matter |
| PairwiseDistance.FullSampleIsPermutation | finalproject/src/algorithm2.rs:15-20 | a sample of distinct keys as large as the key set holds every key exactly once |
| PairwiseDistance.FullSampleTally | finalproject/src/algorithm2.rs:15-20 | when the sample size is at least the number of keys, every admissible sample has the same tally |
| PairwiseDistance.CalculateAverageDistance | finalproject/src/algorithm2.rs:7-43 | `None` exactly when the graph has no keys, equivalently no nodes; otherwise the mean of the positive distances from the sampled sources, which is 0 exactly when none was found and at least 1 otherwise |
| PairwiseDistance.PathGraphBuilt | finalproject/src/algorithm2.rs:54-60 | the four `add_edge` calls of the test build a graph with keys 1..4, one successor each, and in-degree 1 for nodes 2..5 |
| PairwiseDistance.PathGraphReaches | finalproject/src/algorithm2.rs:57-60 | in the path graph, `s` reaches `t` in `n` edges exactly when `t == s + n` and `t <= 5` |
| PairwiseDistance.PathGraphDistances | finalproject/src/algorithm2.rs:57-60 | the distances from `s` in the path graph are `t - s` for every `t` from `s` to 5 |
| PairwiseDistance.PathGraphSourceTally | finalproject/src/algorithm2.rs:26-33 | source `s` of the path graph finds `5 - s` positive distances summing to the triangle number of `5 - s` |
| PairwiseDistance.PathGraphFullSample | finalproject/src/algorithm2.rs:53-67 | every sample that the test's random draw of size 4 can return finds 10 positive distances summing to 20 |
| PairwiseDistance.PathGraphAverage | finalproject/src/algorithm2.rs:53-70 | for every sample that the test's random draw of size 4 can return, the average is exactly 2.0, as the test asserts |

## Left out

- Reading and tokenising the dataset file (`graph.rs:58-73`). The model starts from the list of accepted pairs, that is, lines that parsed to exactly two integers. File and I/O errors are not modelled.
- `print_summary` (`graph.rs:48-54`) and `main.rs`: console output only.
- The random number generator. The sampled pairs and sources are parameters. Their preconditions state what `choose` and `choose_multiple` can return: keys of the adjacency, drawn with replacement for pairs, and `min(sample_size, keys)` distinct keys for sources. The probability distribution is not modelled.
- Hash-map and hash-set iteration order. The model picks neighbours and map entries in an arbitrary order, and the results are proved independent of that order.
- Search.Bfs: distances are unbounded naturals. The source's `i32` distance can only overflow on a graph with over 2^31 nodes.
- PairwiseDistance.CalculateAverageDistance: the running sum is unbounded. The source accumulates it in an `i32`, which could overflow on a very large sample. The result is an exact rational rather than an `f64` quotient.
- Search.CalculateSixDegrees: the result is an exact rational rather than a sum and quotient of `f64` values, whose rounding is not modelled. The panic on an empty key list is a precondition (see above).
- Graphs.NumberOfEdges and Graphs.NumberOfNodes: the `usize` results are unbounded naturals.
- The dataset-based tests (`algorithm.rs:84-103`) depend on a local file. Their BFS assertion, that the source is at distance 0, is covered by `Search.Bfs` for every graph and source.
