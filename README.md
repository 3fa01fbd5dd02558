# dijkstra_openmpi in Dafny

This project models a single-source Dijkstra engine and the drivers that use it to build all-pairs
distance tables. A table is built either sequentially or by splitting the source vertices among MPI
ranks and gathering their rows at rank 0.

- **`Graphs`** (`graph.dfy`) defines the vocabulary: weighted adjacency lists, directed walks, their
  cost, and the shortest distance. The shortest distance is the least walk cost when the target is
  reachable, and the sentinel `INT_MAX` (2^31 - 1) otherwise. It also proves a certificate lemma: a
  vector that is 0 at the source, relaxed on every edge, closed under edges and realised by walks is
  the distance vector.
- **`DijkstraEngine`** (`dijkstra.dfy`) is the `Dijkstra` class. Its fields are `numVertices`, set
  once by the constructor, and `adjList`, updated in place by `AddEdge` and `GenerateRandomGraph`.
  - `ShortestPath` is the set-based loop. The ordered `std::set` of (distance, vertex) pairs is a
    `set<(int, int)>`, and `begin()` is its lexicographically least element.
  - The body of the inner loop is the method `Relax`.
- **`DijkstraLoop`** (`dijkstra_loop.dfy`) holds the two loop invariants and one lemma per loop step.
  - Queue consistency: `setds` holds exactly the pairs `(dist[v], v)` of reached, unextracted
    vertices, which is what `setds.find` relies on.
  - Extraction order: it is non-decreasing, and each vertex is extracted at most once (unreachable
    vertices never are).
  - Relaxation and overflow: finished vertices are relaxed, and no relaxation overflows.
- **`RandomGraphs`** (`random_graph.dfy`) is the edge-window policy of `generate_random_graph`. The
  k-th `rand()` call is `rand(k)` of a stream the caller supplies.
- **`AllPairs`** (`all_pairs.dfy`) covers three things:
  - the row-by-row table loops of `test_case_small` and `test_case_big`;
  - the five-vertex test graph, with its table proved;
  - `main`'s generated 1024-vertex graph, with weights up to 20.
- **`Partition`** (`partition.dfy`) is the integer arithmetic of `test_case_big_openmpi`:
  `nodes_per_proc`, `remainder`, each rank's `[start_node, end_node)`, the root's `recv_counts` and
  the partition those counts describe.
- **`Distributed`** (`distributed.dfy`) runs the ranks one after another. Each rank fills
  `local_distances`. The root builds `recv_counts`/`displacements`, then `MPI_Gatherv` places each
  buffer at its displacement. `all_distances[i * N + j]` is read back.
- **`Arith`** (`arith.dfy`) holds min/max and small arithmetic facts.

The distributed run is modelled twice. `Distributed.DistributedAllPairs` follows the code: ranks send
`nodes_per_proc` rows each, but the root expects one more row from each of the first `remainder`
ranks. Its contract says that the gather succeeds exactly when the number of ranks divides the number
of vertices, and that otherwise rank 0 is the first rank whose count is wrong.

The root's receive counts (main.cpp:117-118) hand the `remainder` extra rows to the first ranks,
but the ranks' own ranges (main.cpp:97-98) never compute them. The model follows the code and records
the gap under "Findings".
`Distributed.DistributedAllPairsFixed` gives each rank the rows the receive counts describe, and is
proved to gather the sequential table for every number of ranks.

The comment at `dijkstra/dijkstra.cpp:65` describes the backward edge of vertex 17 as `12->17`. The
code adds it from `i` to `prev_node` (line 81), and the model follows the code.

## Model

| member | source | states |
|---|---|---|
| Graphs.CertifiedDistanceVector | dijkstra/dijkstra.cpp:29-50 | a vector can be certified as the shortest-distance vector from s: it is 0 at s, no larger than INT_MAX, every edge is relaxed, finite entries are closed under edges and each finite entry is the cost of a given walk |
| Graphs.RelaxedIsLowerBound | dijkstra/dijkstra.cpp:39-47 | when every edge is relaxed and the source entry is at most 0, every entry is at most the cost of every walk to it |
| Graphs.ClosedReachesFinite | dijkstra/dijkstra.cpp:34-47 | when finite entries are closed under edges, every vertex reachable from a finite source is finite |
| Graphs.ShortestDistanceUnique | dijkstra/dijkstra.cpp:20-53 | the shortest distance between two vertices is unique |
| Graphs.DistanceVectorUnique | dijkstra/dijkstra.hpp:21-23 | two distance vectors from the same source are equal: with no state beyond the graph, repeated shortest_path(src) calls agree |
| Graphs.DistanceVectorBasics | dijkstra/dijkstra.cpp:23-27 | with non-negative weights the distance vector is 0 at its source and every entry lies in [0, INT_MAX] |
| Graphs.CostNonNegative | dijkstra/dijkstra.cpp:36-46 | with non-negative weights no walk has negative cost |
| Graphs.EdgeWeightAtMost | dijkstra/dijkstra.cpp:36-46 | with non-negative weights each edge of a list weighs at most the list's total weight |
| Graphs.ListWeightNonNegative | dijkstra/dijkstra.cpp:34-36 | a list of non-negative weights has non-negative total weight |
| Graphs.SetWeightAdd | dijkstra/dijkstra.cpp:34-49 | adding a vertex to a set adds that vertex's list weight to the set's edge weight |
| Graphs.SetWeightBounded | dijkstra/dijkstra.cpp:34-49 | with non-negative weights the list weight of a set of vertices below k lies between 0 and that of all vertices below k |
| RandomGraphs.NextNode | dijkstra/dijkstra.cpp:72 | the forward neighbour of vertex i lies in [i+1, min(i+5, n-1)] |
| RandomGraphs.PrevNode | dijkstra/dijkstra.cpp:79 | the backward neighbour of vertex i lies in [max(i-5, 0), i-1] |
| RandomGraphs.EdgeWeight | dijkstra/dijkstra.cpp:73 | a drawn weight lies in [1, max_weight] |
| RandomGraphs.WindowEdges | dijkstra/dijkstra.cpp:69-83 | vertex i gets one forward edge unless it is the last vertex, then one backward edge unless it is the first; each goes to a vertex other than i and weighs between 1 and max_weight |
| RandomGraphs.Generated | dijkstra/dijkstra.cpp:67-84 | the generated graph has one list per vertex |
| RandomGraphs.GeneratedOnEmpty | dijkstra/dijkstra.cpp:67-84 | appending each vertex's window to an edgeless graph yields the generated graph |
| RandomGraphs.GeneratedWellFormed | dijkstra/dijkstra.cpp:67-84 | every generated edge ends at a vertex, and every weight lies in [1, max_weight] |
| RandomGraphs.GeneratedEdgeCount | dijkstra/dijkstra.cpp:69-83 | exactly 2(n-1) edges are generated for n >= 1 vertices |
| RandomGraphs.GeneratedPrefixEdgeCount | dijkstra/dijkstra.cpp:69-83 | the first k vertices together get min(k, n-1) + (k-1) edges |
| RandomGraphs.GeneratedTotalWeight | dijkstra/dijkstra.cpp:69-83 | the generated graph weighs at most 2(n-1) * max_weight in total |
| RandomGraphs.ListWeightAtMost | dijkstra/dijkstra.cpp:73 | a list whose weights are at most w weighs at most its length times w |
| RandomGraphs.PrefixWeightAtMost | dijkstra/dijkstra.cpp:80 | the first k lists weigh at most their edge count times the largest weight |
| DijkstraEngine.Dijkstra.constructor | dijkstra/dijkstra.cpp:7-12 | a graph with the given number of vertices and only empty lists |
| DijkstraEngine.Dijkstra.AddEdge | dijkstra/dijkstra.cpp:15-18 | (dest, weight) is appended to src's list, every other list is unchanged, and non-negative weights stay non-negative |
| DijkstraEngine.Dijkstra.ShortestPath | dijkstra/dijkstra.cpp:20-53 | the result is the shortest-distance vector from src: one entry per vertex, 0 at src, the least walk cost for reachable vertices and INT_MAX for the rest |
| DijkstraEngine.Relax | dijkstra/dijkstra.cpp:34-48 | when going through u is shorter, the stale pair is erased if v was reached, v's distance drops to dist[u] + weight and the new pair is inserted; otherwise nothing changes; either way the inner invariant holds with one more edge done |
| DijkstraEngine.Dijkstra.GenerateRandomGraph | dijkstra/dijkstra.cpp:67-84 | every vertex's list is extended by exactly its window edges, drawn in call order from the stream |
| DijkstraEngine.Dijkstra.AddWindowEdges | dijkstra/dijkstra.cpp:70-82 | only vertex i's list changes, it grows by i's window edges, and the next vertex draws from the next unused stream position |
| DijkstraLoop.FirstExists | dijkstra/dijkstra.cpp:30 | a non-empty set of pairs has a lexicographically least element |
| DijkstraLoop.FirstUnique | dijkstra/dijkstra.cpp:30-31 | the least element is unique, so begin() is determined by the set |
| DijkstraLoop.SubsetOfRangeBounded | dijkstra/dijkstra.cpp:29 | at most n vertices can be extracted, which bounds the outer loop |
| DijkstraLoop.Initial | dijkstra/dijkstra.cpp:22-27 | the state after inserting (0, src) and setting distances[src] = 0 satisfies the outer invariant |
| DijkstraLoop.ExtractFirst | dijkstra/dijkstra.cpp:29-31 | the extracted vertex was not extracted before, and its distance is at least the last one extracted (extraction is non-decreasing); the inner invariant holds |
| DijkstraLoop.ImprovingTarget | dijkstra/dijkstra.cpp:39-46 | when the relaxation fires, v is neither u, an extracted vertex nor src, and dist[u] + weight lies in [0, INT_MAX): the sentinel is never added to and nothing overflows |
| DijkstraLoop.StalePresent | dijkstra/dijkstra.cpp:41-42 | when the relaxation fires and dist[v] is finite, the pair (dist[v], v) that setds.find looks up is in the set |
| DijkstraLoop.RelaxKeep | dijkstra/dijkstra.cpp:39 | an edge that offers nothing shorter keeps the inner invariant with one more edge done |
| DijkstraLoop.RelaxTentative | dijkstra/dijkstra.cpp:46 | after a relaxation every finite distance is still the cost of its recorded walk |
| DijkstraLoop.RelaxQueue | dijkstra/dijkstra.cpp:41-47 | after erase and insert, setds again holds exactly the pairs of the reached, unextracted vertices |
| DijkstraLoop.RelaxOrder | dijkstra/dijkstra.cpp:46 | after a relaxation the extracted vertices, u included, are still at most the last extracted distance and every other vertex at least that distance |
| DijkstraLoop.RelaxEdges | dijkstra/dijkstra.cpp:39-47 | after relaxing edge k, edges 0..k of u and every edge of the earlier vertices stay relaxed |
| DijkstraLoop.RelaxNoOverflow | dijkstra/dijkstra.cpp:46 | after a relaxation no extracted vertex's distance plus edge weight reaches INT_MAX |
| DijkstraLoop.RelaxBound | dijkstra/dijkstra.cpp:46 | a lowered distance is bounded by the weight of the extracted vertices' lists |
| DijkstraLoop.RelaxUpdate | dijkstra/dijkstra.cpp:39-47 | a relaxation that fires keeps the inner invariant with one more edge done |
| DijkstraLoop.InnerDone | dijkstra/dijkstra.cpp:34-49 | once all of u's edges are relaxed, u joins the extracted vertices and the outer invariant holds again |
| DijkstraLoop.Finish | dijkstra/dijkstra.cpp:29-52 | when setds is empty, every unextracted vertex is unreachable and the distances form the distance vector |
| AllPairs.AllPairsTable | main.cpp:53-64 | filling the all-INT_MAX table row by row with shortest_path(src) yields the distance table: row s is the distance vector from s |
| AllPairs.DistanceTableUnique | main.cpp:28-37 | a graph has exactly one distance table |
| AllPairs.SmallGraphAdmissible | main.cpp:21-26 | the five-vertex graph is well formed, non-negative and weighs 12 in total |
| AllPairs.SmallCertificate | main.cpp:21-26 | a vector meeting the six edge inequalities of the small graph is relaxed and closed under edges |
| AllPairs.SmallWalks0Valid | main.cpp:21-32 | the walks 0->1, 0->1->2, 0->3 and 0->3->4 realise row 0 |
| AllPairs.SmallRow0 | main.cpp:21-32 | shortest_path(0) on the small graph is [0, 1, 2, 2, 3] |
| AllPairs.SmallRow1 | main.cpp:21-32 | the distances from vertex 1 are [INT_MAX, 0, 1, INT_MAX, 4] |
| AllPairs.SmallRow2 | main.cpp:21-32 | the distances from vertex 2 are [INT_MAX, INT_MAX, 0, INT_MAX, 3] |
| AllPairs.SmallRow3 | main.cpp:21-32 | the distances from vertex 3 are [INT_MAX, INT_MAX, INT_MAX, 0, 1] |
| AllPairs.SmallRow4 | main.cpp:21-32 | the distances from vertex 4 are [INT_MAX, INT_MAX, INT_MAX, INT_MAX, 0] |
| AllPairs.SmallTableCorrect | main.cpp:21-37 | the five rows together form the distance table of the small graph |
| AllPairs.TestCaseSmall | main.cpp:10-37 | test_case_small's adjacency table is exactly the five rows above |
| AllPairs.RunBigGraph | main.cpp:155-160 | for every rand() stream, main's generated 1024-vertex graph with weights up to 20 gets its distance table, with no 32-bit overflow |
| Partition.SendRangesTile | main.cpp:95-98 | the ranks' [start_node, end_node) ranges are contiguous in rank order and together cover [0, world_size * nodes_per_proc) |
| Partition.SendOwner | main.cpp:97-98 | every row below world_size * nodes_per_proc is computed by exactly one rank |
| Partition.SendMisses | main.cpp:95-98 | the last `remainder` rows are computed by no rank |
| Partition.NoRemainder | main.cpp:95-98 | when world_size divides N, the ranks' ranges end at N and agree with the partition the receive counts describe |
| Partition.CountsMatchIff | main.cpp:97-118 | rank r sends as many distances as recv_counts[r] expects exactly when r >= remainder or N = 0 |
| Partition.AllCountsMatchIff | main.cpp:95-118 | all ranks' counts match exactly when world_size divides N |
| Partition.Owner | main.cpp:114-121 | a point of a tiled interval lies in some range of the tiling |
| Partition.OwnerUnique | main.cpp:114-121 | a point of a tiled interval lies in only one range |
| Partition.StepsMonotone | main.cpp:116-120 | boundaries that never step down are monotone between any two ranks |
| Partition.RowsBeforeIsLocalStart | main.cpp:116-120 | the running total of row counts before rank i is i * nodes_per_proc + min(i, remainder) |
| Partition.LocalEndIsNextStart | main.cpp:116-120 | in the partition the receive counts describe, rank i's rows end where rank i+1's start |
| Partition.LocalRangesTile | main.cpp:114-121 | the ranges the receive counts describe are contiguous and cover [0, N) |
| Partition.LocalOwner | main.cpp:118 | under the receive counts every row belongs to exactly one rank |
| Distributed.FlattenSnoc | main.cpp:104 | appending one more row to local_distances appends its entries |
| Distributed.FlattenConcat | main.cpp:104 | flattening two row sequences one after the other equals flattening their concatenation |
| Distributed.FlattenLength | main.cpp:104 | k rows of N entries flatten to k * N entries |
| Distributed.FlattenIndex | main.cpp:138-139 | entry i * N + j of the flattened rows is entry j of row i |
| Distributed.FlattenDistanceTable | main.cpp:133-139 | a distance table laid out row after row prints, at every (i, j), the shortest distance from i to j |
| Distributed.FlatEntriesAgree | main.cpp:138-139 | two flat distance tables of one graph agree at every index |
| Distributed.FlatTableIsSequential | main.cpp:130-142 | any flat table whose printed entries are all shortest distances is the sequential table of test_case_big, row after row |
| Distributed.FirstMismatch | main.cpp:126-128 | the first rank at or after `from` whose buffer length differs from its receive count, or the rank count if there is none |
| Distributed.Write | main.cpp:126-128 | writing a buffer into the root's buffer keeps its length |
| Distributed.Place | main.cpp:126-128 | writing ranks 0..k-1 at their displacements keeps the root buffer's length |
| Distributed.Gatherv | main.cpp:126-128 | the gather fails exactly when some rank's length differs from its receive count, reporting the first such rank; otherwise the root buffer holds total entries |
| Distributed.PlaceContiguous | main.cpp:126-128 | buffers placed at the running sums of their lengths lay their entries out one after another |
| Distributed.PlaceStep | main.cpp:126-128 | placing buffer k at the end of the first k-1 buffers extends the laid-out prefix |
| Distributed.WriteAfterPrefix | main.cpp:126-128 | writing a row right after a prefix of the buffer extends that prefix |
| Distributed.GathervContiguous | main.cpp:126-128 | when every count matches and each displacement is the length of the buffers before it, the root receives the buffers one after another |
| Distributed.LocalDistances | main.cpp:101-105 | local_distances holds the distance vectors of start_node..end_node-1, one after another |
| Distributed.GatherLayout | main.cpp:114-123 | recv_counts[i] = (nodes_per_proc + (i < remainder ? 1 : 0)) * N; displacements[i] is the start row of rank i in the partition the counts describe, times N; total_elements = N * N; every rank's slot fits |
| Distributed.TotalStep | main.cpp:118-120 | adding recv_counts[i] to the running total moves it from rank i's start row to rank i+1's, times N |
| Distributed.RunningSumsLayout | main.cpp:116-122 | the running sums of the root's loop are the corrected partition's starts times N, and the total is N * N |
| Distributed.LayoutFits | main.cpp:118-122 | each rank's slot [displacements[i], displacements[i] + recv_counts[i]) fits in N * N entries |
| Distributed.RankBuffers | main.cpp:95-105 | ranks 0..world_size-1 each send the distance vectors of their own rows, and taken together the buffers are those vectors in order |
| Distributed.RankStep | main.cpp:97-105 | one more rank computes its rows and its buffer joins the others |
| Distributed.DistanceRowsAppend | main.cpp:102-104 | distance vectors for consecutive vertices can be concatenated |
| Distributed.PrefixLengthsSnoc | main.cpp:104 | appending rank k's buffer keeps every prefix of buffers as long as its rows times N |
| Distributed.DistributedAllPairs | main.cpp:94-139 | the run as written: the gather succeeds exactly when world_size divides N, otherwise rank 0 is the first rank whose count is wrong; a successful gather prints the shortest distance at every (i, j) |
| Distributed.AsWrittenRun | main.cpp:95-128 | the as-written outcome, from what the ranks and the root's layout establish |
| Distributed.BigGraphOnThreeRanks | main.cpp:95-118 | with 1024 vertices and 3 ranks, rank 0 sends 341 * 1024 entries, the root expects 342 * 1024, and row 1023 is computed by no rank |
| Distributed.MismatchAtRankZero | main.cpp:97-118 | when world_size does not divide N, the gather fails at rank 0 |
| Distributed.MatchedGather | main.cpp:114-128 | when world_size divides N, the root receives the computed rows one after another |
| Distributed.DistributedAllPairsFixed | main.cpp:114-139 | with ranks taking the rows the receive counts describe, the gather succeeds for every world_size and prints the shortest distance at every (i, j) |
| Distributed.FixedOutcome | main.cpp:114-128 | the corrected partition's buffers match every receive count and gather to the flat distance table |

## Left out

- MPI itself is not modelled: `MPI_Init`, `MPI_Comm_size`, `MPI_Comm_rank`, `MPI_Barrier`, `MPI_Wtime` and `MPI_Finalize` (main.cpp:84-92, 107, 146). The ranks run one after another, and `world_size >= 1` is a parameter.
- The model does not cover what happens on a real MPI run when the counts disagree; the MPI standard calls that erroneous. `Gatherv` stops at the first rank whose count differs and returns `CountMismatch` for it.
- Timing and the `double` seconds arithmetic are left out (main.cpp:55, 66, 76-77, 144), because they are clocks and floating point.
- All printing is left out (main.cpp:39-46, 68-74, 130-145) because it is I/O. What the root would print is kept as `PrintedEntry` at index `i * N + j`.
- `srand(time(NULL))` and `rand()` (dijkstra/dijkstra.cpp:10, 72-73, 79-80) are hidden global state seeded by the clock. They become the caller-supplied stream `rand: nat -> nat`, where the k-th call returns `rand(k)`. `RAND_MAX` is not modelled.
- 32-bit `int` arithmetic is mathematical. `ShortestPath`, `AllPairsTable` and the distributed runs require the graph's total weight to be below `INT_MAX`, and the loop invariant proves that `distances[u] + weight` stays below `INT_MAX` at every relaxation. Wrap-around is not modelled.
- Dijkstra.ShortestPath requires non-negative weights (`NonNegativeWeights(adjList)`). The C++ code reads the weights without checking them (dijkstra/dijkstra.cpp:36-39), and what it returns on a graph with a negative weight is not modelled.
- The counts and displacements of the MPI code (main.cpp:118-120) do not overflow for N = 1024, and their wrap-around is not modelled either.
- Dijkstra.GenerateRandomGraph requires `maxWeight >= 1`. With 0 the C++ code divides by zero once the graph has at least two vertices; with 0 or 1 vertex it never evaluates `rand() % max_weight` (dijkstra/dijkstra.cpp:71, 78), a case the model does not admit either. A negative `max_weight` is not modelled.
- Dijkstra.constructor requires a non-negative vertex count. `std::vector::resize` with a negative count is not modelled.
- Dijkstra.AddEdge requires `src` to be a vertex, because `adj_list[src]` is out of bounds otherwise (dijkstra/dijkstra.cpp:17). It also requires `dest` to be a vertex, which add_edge itself does not check: an out-of-range `dest` is stored without complaint and only goes wrong later, at `distances[v]` in shortest_path (dijkstra/dijkstra.cpp:39). The bound keeps the graph well formed (`Valid()`), so that ShortestPath stays in bounds. Adding such an edge is not modelled.
- The toggles between test cases in `main` (main.cpp:150-164) are left out. `RunBigGraph` models the path that is active (generate, then `test_case_big`).
- Distributed.DistributedAllPairs and Distributed.DistributedAllPairsFixed give every rank the same graph `d`. In the C++ program each MPI process runs `main` itself and generates its own graph (main.cpp:156-157) from its own `srand(time(NULL))` seed (dijkstra/dijkstra.cpp:10), before `MPI_Init` (main.cpp:84). The processes share one graph only if they seed from the same clock second. Otherwise the root gathers rows of different graphs, which the model does not capture. The contracts' promise that a gathered buffer holds the shortest distance at every (i, j) holds for ranks that share one graph.
- The distributed runs take the graph's own vertex count where the source uses `NUMBER_OF_BIG_GRAPH_NODES`. The two coincide for the graph `main` builds. `test_case_big`'s loop over `NUMBER_OF_BIG_GRAPH_NODES` sources is `AllPairsTable`'s loop over `numVertices`.
- Distributed.DistributedAllPairs and Distributed.DistributedAllPairsFixed return the gather outcome rather than printing it. Only the root's buffer is modelled. Other ranks' `all_distances` stay empty, as in the source.
- Three loop bodies are split into methods of their own: DijkstraEngine.Relax, Dijkstra.AddWindowEdges and Distributed.RankStep. Each holds one iteration, and the loop calls it.
- DijkstraEngine.Dijkstra.ShortestPath picks `begin()` with an assign-such-that statement (`:|`) over the least element, which is unique by `FirstUnique`. The red-black tree behind `std::set` is not modelled.

## Findings

| source | as written | input that shows it | evidently intended | confidence | as-written member | corrected member |
|---|---|---|---|---|---|---|
| main.cpp:95-118 | each rank computes rows `[rank * nodes_per_proc, (rank + 1) * nodes_per_proc)` and ignores `remainder`, while the root expects `nodes_per_proc + 1` rows from each rank below `remainder` | N = 1024, world_size = 3: nodes_per_proc = 341 and remainder = 1; rank 0 sends 341 * 1024 entries, the root expects 342 * 1024, and row 1023 is computed by no rank | every rank computes the rows the receive counts describe, starting at `rank * nodes_per_proc + min(rank, remainder)`, so the gather matches for every world_size and covers all N rows | not executed | Distributed.DistributedAllPairs | Distributed.DistributedAllPairsFixed |
