# Verified model of the graph-algorithms core

This project models the C++ core of an R package for graph work on record-linkage output, in Dafny. The core lives in `src/graph_algorithms.cpp` and consists of:

- a union-find engine: a disjoint-set forest with path compression and union by rank;
- connected-component labelling, per node and per edge;
- batched connectivity queries;
- batched breadth-first shortest-path queries with an optional distance cutoff;
- the integer part of the degree statistics;
- multi-pattern fixed-string containment, in matrix mode and in "any" mode.

Edges and queries are sequences of 1-based `(int, int)` pairs, as the host passes them. Node ids inside the model are 0-based.

The files:

- `disjoint_set.dfy` (module `DisjointSet`) is the pure model of the forest. `Forest` holds two sequences, `parent` and `rank`. `WellFormed` is the invariant: every non-root has a parent of strictly larger rank, which also makes `Root` terminate. The module also defines `Compress` (what `find` does to the forest), `Merge` (what `union_sets` does) and `Connect` (what `connected` does), with lemmas about which root every node reaches afterwards.
- `union_find.dfy` (module `UnionFindEngine`) is the class `UnionFind` over two `array<int>` fields. Every method is proved to move the arrays from `Model()` to the forest that the pure function prescribes.
- `graph.dfy` (module `Graph`) is the reference notion of connectivity. `Adjacent` holds for the two ends of an edge whose endpoints are both in range and distinct. `HasWalk` is a walk of a given length over adjacent steps, and `Reachable` means some walk exists.
- `sums.dfy` (module `Sums`) is the sum of a sequence of counts, used for the component sizes and the degree vector.
- `labels.dfy` (module `Labels`) covers the first-seen relabelling pass over the roots of nodes `0..n-1` (`LabelScan`), the 1-based shift, and the component-size count.
- `components.dfy` (module `Components`) covers `find_components_cpp`, `get_edge_components_cpp` and `are_connected_cpp`. They are proved against the fold of unions over the edge list (`Build`), and that fold is proved to partition the nodes exactly by reachability.
- `shortest_paths.dfy` (module `ShortestPaths`) covers the adjacency list and the per-query BFS. The BFS has a queue, a distance array, discovery-time termination and the frontier cutoff. It is proved against `Answers`, which states the shortest-walk specification.
- `degree_stats.dfy` (module `DegreeStats`) covers the degree array of `graph_stats_cpp`, its minimum, maximum and total, and the raw edge count.
- `grep.dfy` (module `Grep`) covers ASCII lower-casing, substring search, `multi_grepl_cpp` in both modes and `multi_grepl_any_cpp`.

## Model

| member | source | states |
|---|---|---|
| DisjointSet.Init | src/graph_algorithms.cpp:13-17 | a fresh forest of n nodes is well formed, and every node is its own parent with rank 0 |
| DisjointSet.Root | src/graph_algorithms.cpp:19-24 | the node `find` returns is in range and is its own parent; a non-root has strictly smaller rank than its root |
| DisjointSet.Path | src/graph_algorithms.cpp:19-24 | the chain of parents that `find` walks starts at x, follows parent pointers, stays in range, shares x's root, and ends at that root |
| DisjointSet.Compress | src/graph_algorithms.cpp:19-24 | path compression changes no rank and keeps the number of nodes |
| DisjointSet.CompressRedirectsPath | src/graph_algorithms.cpp:19-24 | after `find(x)`, exactly the nodes on x's path point straight at x's root; every other parent pointer is unchanged |
| DisjointSet.CompressPreserves | src/graph_algorithms.cpp:19-24 | compression keeps the rank invariant, makes x point at its root, and leaves the root reached by every node unchanged |
| DisjointSet.CompressWellFormed | src/graph_algorithms.cpp:21 | rewriting the pointers on x's path to the root keeps every non-root below its parent in rank |
| DisjointSet.Merge | src/graph_algorithms.cpp:26-41 | `union_sets` keeps the forest well formed and the same size |
| DisjointSet.Link | src/graph_algorithms.cpp:32-39 | hanging the lower-rank root under the other, with the rank bump on a tie, keeps the forest well formed |
| DisjointSet.LinkRoots | src/graph_algorithms.cpp:33-37 | after root c is hung under root d, nodes whose root was c now reach d and all other nodes keep their root |
| DisjointSet.MergeRoots | src/graph_algorithms.cpp:26-41 | the merge reports true iff the two roots differ; nodes in x's or y's set then reach the surviving root (the higher-rank one, x's root on a tie); every other node keeps its root |
| DisjointSet.MergeSameSet | src/graph_algorithms.cpp:26-41 | after the merge, two nodes share a set iff they already did, or one was with x and the other with y |
| DisjointSet.MergeRanks | src/graph_algorithms.cpp:32-39 | only x's root gains rank, by exactly one, and only when a merge joined two roots of equal rank |
| DisjointSet.Connect | src/graph_algorithms.cpp:43-45 | `connected` answers true iff the two nodes are in the same set, and leaves the root of every node unchanged |
| UnionFindEngine.UnionFind.constructor | src/graph_algorithms.cpp:13-17 | the new arrays are valid and hold the fresh forest: every node its own root with rank 0 |
| UnionFindEngine.UnionFind.Find | src/graph_algorithms.cpp:19-24 | returns x's root and leaves the arrays in the path-compressed state; no node changes root |
| UnionFindEngine.UnionFind.UnionSets | src/graph_algorithms.cpp:26-41 | the new arrays and the returned flag are exactly the pure merge of the old forest |
| UnionFindEngine.UnionFind.LinkByRank | src/graph_algorithms.cpp:32-39 | the three rank cases: the lower-rank root goes under the higher; on a tie y's root goes under x's root and x's root's rank rises by one |
| UnionFindEngine.UnionFind.Connected | src/graph_algorithms.cpp:43-45 | the arrays and the answer are exactly the pure `Connect` of the old forest (same set, roots kept) |
| Graph.AdjacentAppend | src/graph_algorithms.cpp:53-60 | one more edge row adds exactly its own two endpoints as an adjacent pair, when they are in range and distinct |
| Graph.ReachableAppend | src/graph_algorithms.cpp:53-60 | after one more edge, a node reaches another iff it did before or it gets there through the new edge |
| Components.Build | src/graph_algorithms.cpp:51-60 | the union loop over all edge rows yields a well-formed forest over n nodes |
| Components.BuildAppend | src/graph_algorithms.cpp:53-60 | an edge row with both ends in range merges its two endpoints; any other row leaves the forest as it was |
| Components.MergedSets | src/graph_algorithms.cpp:57-59 | after one edge is processed, two nodes share a set iff they did before, or the edge is usable and joins their two sets |
| Components.BuildStep | src/graph_algorithms.cpp:53-60 | the loop keeps the invariant "same set iff reachable over the rows seen so far" |
| Components.BuildConnectsReachable | src/graph_algorithms.cpp:51-60 | after all unions, two nodes are in the same set iff a walk over in-range, non-self-loop edges joins them |
| Components.SameRootIffReachable | src/graph_algorithms.cpp:51-60 | the same, stated per pair of nodes as equality of their roots |
| Components.Roots | src/graph_algorithms.cpp:66-67 | the roots found while scanning nodes 0..n-1, one per node |
| Components.ComponentIdsMatchReachability | src/graph_algorithms.cpp:53-72 | in both modes, two nodes get the same component id iff they are connected in the graph |
| Components.CompressedIdsAreFirstSeen | src/graph_algorithms.cpp:62-85 | with `compress`, ids are 1..n_components, numbered in the order the components are first met, so node 0 gets id 1; every id in that range is used |
| Components.CompressedIdsDetermined | src/graph_algorithms.cpp:62-85 | any first-seen numbering from 1 that matches reachability equals the computed ids, so the labelling is fully determined by the graph |
| Components.ComponentSizes | src/graph_algorithms.cpp:74-79 | `component_sizes` has n_components entries; entry k counts the nodes with id k+1; every entry is at least 1; the entries sum to n_nodes |
| Components.RawIdsAreRoots | src/graph_algorithms.cpp:66-79 | without `compress`, each id is a node reachable from that node and is its own id, `component_sizes` is empty and n_components is 0 |
| Components.InvalidIsNoId | src/graph_algorithms.cpp:289-293 | the marker for an invalid edge (0 compressed, -1 raw) is never a node's component id |
| Components.EdgeEndsShareId | src/graph_algorithms.cpp:282-288 | the two ends of an in-range edge always get the same id |
| Components.UnionEdge | src/graph_algorithms.cpp:53-60 | one iteration of the union loop moves the engine from the fold over the first i rows to the fold over i+1 rows |
| Components.BuildUnionFind | src/graph_algorithms.cpp:51-60 | the engine after the union loop holds the fold of unions over all edge rows |
| Components.LabelNodes | src/graph_algorithms.cpp:62-72 | the labelling loop writes exactly the first-seen scan of the nodes' roots and returns its counter, without changing any node's root |
| Components.LabelStep | src/graph_algorithms.cpp:66-72 | one iteration extends the ids, the root-to-id map and the counter by the scan of one more node |
| Components.FindRoot | src/graph_algorithms.cpp:67 | `find` on the engine returns the node's root and changes no node's root |
| Components.ShiftIds | src/graph_algorithms.cpp:81-85 | the in-place `comp++` loop adds one to every id |
| Components.CountSizes | src/graph_algorithms.cpp:74-79 | the sizes vector counts, for each id below the counter, the nodes carrying it (empty without `compress`, where the counter is 0) |
| Components.LabelComponents | src/graph_algorithms.cpp:62-91 | ids, sizes and count are exactly the labelling of the engine's forest |
| Components.FindComponents | src/graph_algorithms.cpp:50-92 | `find_components_cpp` returns exactly the labelling of the union of all in-range edges |
| Components.NodeIds | src/graph_algorithms.cpp:259-276 | the per-node ids of the edge variant equal those of `find_components_cpp`, shift included |
| Components.StampEdges | src/graph_algorithms.cpp:279-294 | one id pair per edge row, in input order: the endpoints' ids for an in-range edge, the invalid marker on both sides otherwise |
| Components.GetEdgeComponents | src/graph_algorithms.cpp:245-301 | from/to have the length and order of the edge rows; an in-range row gets its endpoints' component ids, any other row gets 0 (compressed) or -1 (raw) on both sides; n_components equals that of `find_components_cpp` |
| Components.Answer | src/graph_algorithms.cpp:110-117 | a query is true iff both endpoints are in range and have the same root; the roots are unchanged |
| Components.AnswerAll | src/graph_algorithms.cpp:108-118 | the answers, in query order, are the per-query root comparisons on the built forest |
| Components.AreConnected | src/graph_algorithms.cpp:96-121 | one answer per query, in order: false for an out-of-range endpoint, otherwise true iff the endpoints are connected by in-range edges |
| Components.AnswersAreReachability | src/graph_algorithms.cpp:108-118 | each root-comparison answer is true iff the query's endpoints are in range and reachable from each other |
| Labels.LabelScan | src/graph_algorithms.cpp:62-72 | the scan yields one id per node and a non-negative counter |
| Labels.ScanSnoc | src/graph_algorithms.cpp:66-72 | scanning one more root either reuses that root's id or gives it the next id (or the raw root), and bumps the counter only for a new root in compressed mode |
| Labels.RawLabelsAreRoots | src/graph_algorithms.cpp:69 | without `compress`, the scan's ids are the roots themselves and the counter stays 0 |
| Labels.DenseMap | src/graph_algorithms.cpp:62-72 | the map holds exactly the roots seen; each node's id is its root's entry; distinct roots get distinct ids |
| Labels.DenseLabels | src/graph_algorithms.cpp:62-72 | the compressed ids split the nodes exactly as the roots do, lie in 0..counter-1 and are numbered in first-seen order |
| Labels.DensePartition | src/graph_algorithms.cpp:62-72 | two nodes get the same compressed id iff they have the same root |
| Labels.DenseOrder | src/graph_algorithms.cpp:64-72 | the counter is one more than the largest id, and each new id is one more than the largest id before it |
| Labels.DenseBounds | src/graph_algorithms.cpp:64-72 | every compressed id is below the final counter |
| Labels.DenseCovers | src/graph_algorithms.cpp:64-72 | every id below the counter is used by some node |
| Labels.FirstSeenUnique | src/graph_algorithms.cpp:62-72 | two first-seen numberings that induce the same partition are equal |
| Labels.ShiftFirstSeen | src/graph_algorithms.cpp:81-85 | shifting a first-seen numbering from 0 gives one from 1 whose largest id is one higher |
| Labels.MultisetShift | src/graph_algorithms.cpp:81-85 | after the shift, id k+1 occurs as often as id k did before |
| Labels.SizesSum | src/graph_algorithms.cpp:74-79 | when every id is below the count, the size counts sum to the number of nodes |
| Labels.SizesSnoc | src/graph_algorithms.cpp:77 | counting one more node adds one to its id's entry |
| Labels.DenseShifted | src/graph_algorithms.cpp:62-85 | the shifted compressed ids are a first-seen numbering from 1 whose largest id is n_components, and node 0 has id 1 |
| Labels.DenseShiftedRange | src/graph_algorithms.cpp:62-85 | the shifted ids lie in 1..n_components and every value there is used |
| Labels.DenseSizes | src/graph_algorithms.cpp:74-85 | the sizes have n_components entries; entry k counts the nodes with shifted id k+1 and is at least 1; they sum to n_nodes |
| Labels.ScanBounds | src/graph_algorithms.cpp:64-77 | compressed ids index the sizes vector; without `compress` the counter stays 0 |
| ShortestPaths.AdjLists | src/graph_algorithms.cpp:128-138 | the adjacency list has one entry per node |
| ShortestPaths.AdjListsMatch | src/graph_algorithms.cpp:128-138 | v is in u's list iff u and v are the two ends of some in-range, non-self-loop edge |
| ShortestPaths.AdjListsInRange | src/graph_algorithms.cpp:134-136 | every listed neighbour is a node id in range |
| ShortestPaths.BuildAdjacency | src/graph_algorithms.cpp:128-138 | the `push_back` loop fills exactly the adjacency lists |
| ShortestPaths.AnswerUnique | src/graph_algorithms.cpp:142-189 | at most one result satisfies the per-query specification, so the result is fully determined |
| ShortestPaths.UnboundedMeansUnreachable | src/graph_algorithms.cpp:167-188 | with `max_distance <= 0` (no bound), -1 for distinct in-range endpoints means exactly "unreachable" |
| ShortestPaths.Frontier | src/graph_algorithms.cpp:163-184 | BFS invariant: every node not yet discovered but reachable in k steps lies beyond the head of the queue (k exceeds the head's distance) |
| ShortestPaths.SoundUpdate | src/graph_algorithms.cpp:173 | recording a shortest distance for a node keeps every recorded distance a shortest-walk length |
| ShortestPaths.Visit | src/graph_algorithms.cpp:172-182 | an undiscovered neighbour gets distance level+1 (a shortest-walk length); no other entry of the distance array changes and no recorded distance is rewritten; found is reported only for the target |
| ShortestPaths.Scan | src/graph_algorithms.cpp:171-183 | after the neighbour loop, either the target was found at level+1 or every neighbour of the current node is discovered |
| ShortestPaths.Neighbours | src/graph_algorithms.cpp:171 | every entry of a node's list is an in-range node adjacent to it |
| ShortestPaths.ScanCloses | src/graph_algorithms.cpp:171-183 | once the current node's neighbours are all discovered, every discovered node outside the queue has all its neighbours discovered |
| ShortestPaths.Cutoff | src/graph_algorithms.cpp:167-169 | when the head of the queue is at distance L, every undiscovered node is more than L steps away |
| ShortestPaths.Exhausted | src/graph_algorithms.cpp:186-188 | when the queue empties, an undiscovered node has no walk from the source |
| ShortestPaths.Pop | src/graph_algorithms.cpp:164-165 | removing the head keeps the queue ordered by distance and closed apart from the node being expanded |
| ShortestPaths.RoundStart | src/graph_algorithms.cpp:164-169 | the popped node's recorded distance is its shortest-walk length, and nothing undiscovered is closer |
| ShortestPaths.RoundEnd | src/graph_algorithms.cpp:171-184 | after one node's expansion, the search invariant holds again and the work measure does not grow |
| ShortestPaths.Round | src/graph_algorithms.cpp:163-184 | one iteration either stops at the cutoff, where every walk to the target is longer than `max_distance`, or keeps the search invariant and strictly decreases the work measure |
| ShortestPaths.SearchStart | src/graph_algorithms.cpp:156-160 | the source at distance 0 alone in the queue satisfies the search invariant |
| ShortestPaths.SearchEnd | src/graph_algorithms.cpp:186-188 | when the search ends, with the target found or the queue empty, the result meets the specification |
| ShortestPaths.Bfs | src/graph_algorithms.cpp:156-188 | for distinct in-range endpoints, the result is the shortest walk length if it is within the cutoff, and -1 if there is no walk or every walk exceeds `max_distance` > 0 |
| ShortestPaths.ShortestPaths | src/graph_algorithms.cpp:125-192 | one result per query: -1 for an out-of-range endpoint, 0 for source == target, otherwise the shortest edge count over in-range non-self-loop edges, never above a positive `max_distance`, and -1 when unreachable or beyond the bound |
| DegreeStats.Degrees | src/graph_algorithms.cpp:197-208 | the degree vector has one entry per node |
| DegreeStats.DegreesCountIncidences | src/graph_algorithms.cpp:200-208 | each node's degree is the number of in-range, non-self-loop edge rows that have it as an endpoint |
| DegreeStats.DegreeSum | src/graph_algorithms.cpp:200-208 | the degrees sum to twice the number of counted edges |
| DegreeStats.CountDegrees | src/graph_algorithms.cpp:197-208 | the `degree[u]++; degree[v]++` loop fills exactly the degree vector |
| DegreeStats.MinElement | src/graph_algorithms.cpp:210 | the minimum is one of the degrees and no degree is smaller |
| DegreeStats.MaxElement | src/graph_algorithms.cpp:211 | the maximum is one of the degrees and no degree is larger |
| DegreeStats.Total | src/graph_algorithms.cpp:212-215 | the accumulated total is the sum of the degrees |
| DegreeStats.GraphStats | src/graph_algorithms.cpp:196-233 | `n_edges` is the raw row count; 0 <= min <= max; both occur as degrees and bound every node's incidence count; the degree total is twice the counted edges; the possible-edge count is n(n-1)/2 |
| Grep.LowerChar | src/graph_algorithms.cpp:344-345 | 'A'..'Z' go to the letter at the same place in 'a'..'z'; every other character is unchanged; the result is never upper-case |
| Grep.Lower | src/graph_algorithms.cpp:344-345 | the lower-cased string contains no upper-case letter and agrees with the input up to ASCII case, position by position |
| Grep.LowerEqualIffUpToCase | src/graph_algorithms.cpp:344-345 | two strings lower-case to the same string iff they are equal up to ASCII case |
| Grep.LowerIdempotent | src/graph_algorithms.cpp:355-357 | lower-casing twice is the same as once |
| Grep.ToLower | src/graph_algorithms.cpp:356 | the in-place `std::transform` leaves the buffer holding the lower-cased string |
| Grep.Prepared | src/graph_algorithms.cpp:354-357 | a string is lower-cased exactly when `ignore_case` is set |
| Grep.Find | src/graph_algorithms.cpp:361 | `find` returns -1 (npos) iff the pattern is not a substring; otherwise the first position where it occurs |
| Grep.ContainsLower | src/graph_algorithms.cpp:380-386 | a substring remains a substring after both sides are lower-cased |
| Grep.HitIgnoresCase | src/graph_algorithms.cpp:342-346 | with `ignore_case`, strings equal up to case and patterns equal up to case give the same match result |
| Grep.HitWithoutCase | src/graph_algorithms.cpp:342-346 | every case-sensitive match is also a case-insensitive match |
| Grep.AnyHitIsSomeHit | src/graph_algorithms.cpp:359-364 | the any-mode answer is true iff some pattern matches, hence false for every string when there are no patterns |
| Grep.PreparePatterns | src/graph_algorithms.cpp:339-347 | the pattern vector holds every pattern in order, lower-cased when `ignore_case` |
| Grep.MatchesAny | src/graph_algorithms.cpp:359-364 | the early-exit loop returns true exactly when some pattern matches |
| Grep.AnyColumn | src/graph_algorithms.cpp:351-366 | any mode gives one flag per string: true iff some pattern matches it |
| Grep.MultiGrepl | src/graph_algorithms.cpp:330-392 | any mode gives an n×1 matrix of the any-match flags; matrix mode sets cell (i, p) iff pattern p is a substring of string i, both lower-cased when `ignore_case` |
| Grep.MultiGreplAny | src/graph_algorithms.cpp:406-441 | one flag per string, equal to the any-mode column of `multi_grepl_cpp` on the same inputs |

## Left out

- Rcpp marshalling is not modelled: `IntegerMatrix`, `CharacterVector`, `List::create` and the export glue. Edges and queries are sequences of integer pairs, strings are `seq<char>`, and the n×1 logical matrix of any mode is a two-dimensional array with one column.
- 32-bit integer width is not modelled. Node ids and edge endpoints are unbounded integers, so `edges(i, 0) - 1` on the most negative `int` (R's `NA_integer_`) does not wrap. The model treats such a row as out of range, as the source evidently means to.
- A negative `n_nodes` (a failed vector allocation in the source) is excluded by typing the node count as `nat`.
- DegreeStats.GraphStats: requires `n_nodes >= 1`, because for zero nodes the source dereferences `min_element` of an empty vector and divides by zero. That behaviour is undefined.
- DegreeStats.GraphStats: the floating-point `mean` and `density` are not computed. The result exposes their integer numerators and denominators instead: the degree total, `n_nodes`, the raw `n_edges`, and n(n-1)/2.
- `::tolower` is locale-dependent. It is modelled as ASCII lower-casing (`A`-`Z` to `a`-`z`, everything else unchanged).
- `std::string::find` is modelled by its contract (`Grep.Find`: the first occurrence, or -1 for npos), not by the library's algorithm.
- Default arguments are not modelled: `compress = true`, `match_any = true` and `ignore_case = false` become explicit parameters that every caller passes.
- `std::map` is modelled as a Dafny `map` and `std::queue` as a sequence.
- `find`'s recursion depth and running time are not modelled. The model's `Find` is recursive exactly as the source's is.
- test_compile.cpp is not part of this model. It is a compile stub that inspects R object types and writes sequential ids; it holds no union logic.
- The record-linkage grouper and the length-sorted "fast" matcher are not part of this model. Their code is not among the modelled sources.
