# GraphPi counting core in Dafny

This project models the sequential counting logic of GraphPi's `Graph`
class (`src/graph.cpp`). A graph is held in compressed sparse row (CSR)
form: `vertex[v] .. vertex[v+1]` delimits v's neighbours in `edge`, each
slice sorted ascending without duplicates. On that representation the
model covers:

- **Neighbour lookup:** `get_edge_index`.
- **Merge intersections:** `intersection_size` and its bounded variant
  `intersection_size_clique`.
- **Serial triangle counters:** `triangle_counting` (the sum of common
  neighbours over all directed edges, divided by six), and the body of
  `tc_mt` (neighbours below v only, through the bounded intersection).
- **The data path of `triangle_counting_mpi`, run sequentially:**
  - the partition of the vertices into per-rank blocks;
  - the ANSWER message and the sentinel-terminated worker buffer;
  - the sentinel merge against it;
  - the 30-bit split of a 64-bit partial sum across two `int` words and its
    reassembly.
- **The plan-driven enumerator:** `pattern_matching` with its workers
  `pattern_matching_func` and `pattern_matching_aggressive_func`. They
  rebuild an array of candidate sets in place and push and pop a stack of
  chosen vertices around each recursive call.

**How it is stated.** The graph is a `class Graph` whose CSR offsets and
adjacency lists are immutable sequences, set once by its constructor. Each counter
is a method proved equal to a specification function on a value view of
the graph (`Csr.CsrGraph`). The specification sums are proved to count sets:
- `triangle_counting`'s sum is the number of ordered triangles;
- `tc_mt`'s sum is the number of triangles;
- on a simple symmetric graph the first is six times the second.

**The enumerator.** Its methods mutate an `array<seq<int>>` of candidate
sets and a `SubtractionSet` stack object. They are proved to agree with
specification functions that thread the same candidate-set state through
the recursion. The plan (`Schedule`) is read-only data.

**The triangle plans.** Two hand-written plans for the three-vertex clique
serve as worked instances of the enumerator; the plans themselves model no
source code. Run through the enumerator:
- the plan without restrictions reproduces `tc_mt`'s total in clique mode
  and six times `triangle_counting`'s total otherwise;
- the plan with the restrictions u < v and w < u, run in aggressive mode,
  reproduces `tc_mt`'s total.

Files, one module each:
- `sorted_seq.dfy`: sorted sequences, common elements, merge counts.
- `csr.dfy`: the CSR value and its sums.
- `graph.dfy`: the `Graph` class.
- `partition.dfy`: rank ranges.
- `wire.dfy`: the two-word encoding.
- `distributed.dfy`: the MPI data path.
- `plan.dfy`: the `Schedule` tables.
- `vertex_set.dfy`: the candidate-set operations and the stack.
- `enumerator.dfy`: the enumerator.
- `triangle_plan.dfy`: the two triangle plans.

## Model

| member | source | states |
|---|---|---|
| GraphImpl.Graph.GetEdgeIndex | src/graph.cpp:281-285 | v's slice is `[vertex[v], vertex[v+1])`, lies inside `edge`, and its length is v's degree |
| GraphImpl.Graph.IntersectionSize | src/graph.cpp:16-38 | the two-pointer merge returns \|N(v1) ∩ N(v2)\|, a set size and so symmetric in v1, v2, and at most either degree |
| GraphImpl.Graph.MergeSlices | src/graph.cpp:22-36 | the merge loop over two sorted slices counts the merge recurrence; with `MergeOfAdj` that is the size of the intersection |
| GraphImpl.MergeOfAdj | src/graph.cpp:16-69 | on a valid graph the unbounded merge of two adjacency slices counts their common neighbours, and the bounded merge counts the common neighbours below v2 |
| SortedSeq.MergeCountIsCard | src/graph.cpp:22-36 | advancing the smaller cursor, or both on a match, counts exactly the common elements of two strictly sorted slices |
| SortedSeq.MergeBelowIsCard | src/graph.cpp:47-67 | stopping as soon as a cursor reaches a value ≥ the bound loses nothing: the bounded merge counts exactly the common elements below the bound |
| GraphImpl.Graph.IntersectionSizeClique | src/graph.cpp:40-69 | returns \|{x ∈ N(v1) ∩ N(v2) : x < v2}\| even though it reads one entry past a slice; returns 0 when either list's first neighbour is ≥ v2 |
| GraphImpl.Graph.MergeSlicesBelow | src/graph.cpp:47-67 | the guarded-read merge loop, with its pre-incremented reads, computes the bounded merge recurrence |
| GraphImpl.Graph.TriangleCounting | src/graph.cpp:71-84 | returns (Σ_v Σ_{u∈N(v)} \|N(v) ∩ N(u)\|) / 6; on a simple symmetric graph that is the number of triangles |
| GraphImpl.Graph.NeighbourSum | src/graph.cpp:75-80 | the inner loop of `triangle_counting` adds Σ_{u∈N(v)} \|N(v) ∩ N(u)\| |
| GraphImpl.Graph.TcMt | src/graph.cpp:95-113 | the sequential `tc_mt` total is Σ_v Σ_{u∈N(v), u<v} \|{x ∈ N(v) ∩ N(u) : x < u}\|; on a simple graph it is the number of triangles and equals `triangle_counting`'s result |
| GraphImpl.Graph.LowerNeighbourSum | src/graph.cpp:100-107 | the inner loop stops at the first neighbour u ≥ v and adds the bounded intersections of the neighbours before it |
| GraphImpl.Graph.AdjacencyOf | src/graph.cpp:346-350 | the slice `&edge[l], r - l` handed to `build_vertex_set` is exactly v's neighbour list |
| Csr.ValidIff | src/graph.cpp:281-285 | the recursive validity predicate is equivalent to every slice being in bounds, strictly sorted and made of vertex ids |
| Csr.TriangleSumCountsOrderedTriples | src/graph.cpp:71-84 | `triangle_counting`'s undivided sum is the number of ordered triples (v, u, w) with u ∈ N(v) and w ∈ N(v) ∩ N(u) |
| Csr.TcSumCountsTriangles | src/graph.cpp:95-113 | `tc_mt`'s sum counts the triples w < u < v with u ∈ N(v) and w ∈ N(v) ∩ N(u), each once |
| Csr.OrderedTriplesSixfold | src/graph.cpp:71-84 | on a simple symmetric graph every triangle appears as exactly six ordered triples |
| Csr.CountersAgree | src/graph.cpp:71-113 | on a simple symmetric graph `triangle_counting`'s sum is six times `tc_mt`'s, and both counters return the number of triangles |
| Partition.BlockSizeIsCeiling | src/graph.cpp:130 | `blocksize` is ⌈v_cnt / comm_sz⌉ |
| Partition.AsWrittenRangesIff | src/graph.cpp:130-132 | the unclamped ranges stay inside `[0, v_cnt]` exactly when blocksize·(comm_sz−1) ≤ v_cnt |
| Partition.AsWrittenOvershoots | src/graph.cpp:130-132 | with v_cnt = 5 and comm_sz = 4, rank 2 gets [4, 6) and rank 3 gets [6, 5) |
| Partition.AsWrittenAgreesWhenInRange | src/graph.cpp:130-132 | whenever the unclamped ranges stay in bounds, the clamped ranges coincide with them |
| Partition.RankRangesTile | src/graph.cpp:130-133 | the clamped ranges start at 0, end at v_cnt, and each ends where the next begins |
| Partition.OwnerIsUnique | src/graph.cpp:243-250 | for 0 ≤ v < v_cnt the owner `v / blocksize` is a rank, and it is the only rank whose range holds v |
| Wire.EncodeHi | src/graph.cpp:195 | the high word fits an `int`, and for a sum x below 2^61 it is ⌊x / 2^30⌋ (also line 208) |
| Wire.EncodeLo | src/graph.cpp:196 | the low word is in [0, 2^30) and agrees with the sum modulo 2^30 (also line 209) |
| Wire.DecodeAsWritten | src/graph.cpp:172-175 | the 32-bit shift always yields a value in the `int` range |
| Wire.AsWrittenDecodeWraps | src/graph.cpp:172-175 | the as-written round trip returns the sum wrapped to 32 bits (also lines 195-196) |
| Wire.AsWrittenRoundTripIff | src/graph.cpp:172-175 | the as-written round trip returns a sum x ≥ 0 unchanged exactly when x < 2^31 (also lines 195-196) |
| Wire.AsWrittenLosesTwo31 | src/graph.cpp:172 | the sum 2^31 arrives as −2^31 (also lines 195-196) |
| Wire.Decode | src/graph.cpp:172-175 | the 64-bit reassembly stays below 2^61 in size and keeps the low word |
| Wire.RoundTripIff | src/graph.cpp:172-175 | with a 64-bit shift a sum 0 ≤ x < 2^63 round-trips exactly when x < 2^61 (also lines 195-196, 208-209) |
| Distributed.AnswerRequest | src/graph.cpp:151-157 | for a REQUEST naming a vertex, the ANSWER message is the tag followed by that vertex's whole adjacency list, and its length is degree + 1 |
| Distributed.DeliverAnswer | src/graph.cpp:165-166 | the worker buffer holds the payload followed by the −1 sentinel; nothing after it changes |
| Distributed.SentinelMerge | src/graph.cpp:256-268 | merging N(v) against a buffer of non-negative sorted ids ended by −1 counts exactly \|N(v) ∩ payload\| |
| Distributed.RemoteIntersection | src/graph.cpp:247-268 | request, answer, delivery and sentinel merge together give `intersection_size(v, x)` (also lines 151-166) |
| Distributed.LocalOrRemote | src/graph.cpp:242-269 | whether the neighbour is local or remote, the worker adds \|N(v) ∩ N(v2)\| |
| Distributed.VertexShare | src/graph.cpp:237-270 | a worker's pass over one vertex adds the same as `triangle_counting`'s inner loop |
| Distributed.RankSum | src/graph.cpp:217-276 | a rank's `node_ans` is the triangle sum over its own vertex range |
| Distributed.ShipSum | src/graph.cpp:194-196 | through the corrected 64-bit reassembly, an IDLE or END message delivers any sum below 2^61 unchanged (also lines 172, 175, 208-209) |
| Distributed.ShipSumAsWritten | src/graph.cpp:194-196 | through the reassembly as written, an IDLE or END message delivers the sum wrapped to 32 bits, which is a sum x ≥ 0 unchanged exactly when x < 2^31 (also lines 172, 175, 208-209) |
| Distributed.RankShare | src/graph.cpp:130-133 | each rank's share extends the sum over the earlier ranks and is at most the whole sum (also lines 217-276) |
| Distributed.Collect | src/graph.cpp:170-173 | through the corrected 64-bit reassembly, rank 0 obtains each rank's sum below 2^61 unchanged, its own directly and the others through IDLE messages (also lines 199-203) |
| Distributed.GatherSums | src/graph.cpp:191-205 | rank 0's `tot_ans` is the whole undivided triangle sum (also lines 170-173) |
| Distributed.TriangleCountingMpi | src/graph.cpp:115-279 | with the corrected reassembly and the clamped ranges, rank 0 and every other rank return the same total, `triangle_counting`'s; on a simple graph that is the number of triangles |
| Distributed.GatherSumsAsWritten | src/graph.cpp:191-205 | with the unclamped ranges and the 32-bit reassembly as written, rank 0's `tot_ans` is still the whole triangle sum whenever the ranges stay in bounds and that sum is below 2^31 (also lines 130-132, 170-173) |
| Distributed.TriangleCountingMpiAsWritten | src/graph.cpp:115-279 | as written, with the END message rebuilt in 32 bits and the division truncating, every rank returns `triangle_counting`'s total whenever the ranges stay in bounds and the triangle sum is below 2^31 |
| Plan.ChainMinIsMin | src/graph.cpp:396-399 | the restriction-chain loop yields the minimum of `v_cnt` and the chosen vertices the chain indexes (also lines 381-384) |
| VertexSets.BuildVertexSet | src/graph.cpp:324 | a prefix with no father is the vertex's neighbour list; otherwise the father set ∩ neighbours, below the vertex in clique mode, and sorted (also lines 350, 411) |
| VertexSets.SubtractionSize | src/graph.cpp:307 | counts the entries of the first `limit` candidates that are not on the stack (also lines 388, 391) |
| VertexSets.LowerBound | src/graph.cpp:386 | `std::lower_bound`: the first index whose entry is ≥ the bound, with every entry before it below the bound |
| VertexSets.SubtractionSet.constructor | src/graph.cpp:339-340 | the stack of chosen vertices starts empty |
| VertexSets.SubtractionSet.HasData | src/graph.cpp:318 | true exactly when the vertex is on the stack (also line 405) |
| VertexSets.SubtractionSet.GetLast | src/graph.cpp:311 | the last vertex pushed |
| VertexSets.SubtractionSet.GetData | src/graph.cpp:398-399 | the i-th vertex chosen (also lines 383-384) |
| VertexSets.SubtractionSet.PushBack | src/graph.cpp:327 | appends the vertex to the stack (also lines 353, 414) |
| VertexSets.SubtractionSet.PopBack | src/graph.cpp:329 | removes the last vertex from the stack (also lines 358, 416) |
| Enumerator.RebuildChain | src/graph.cpp:322-325 | the prefix-chain loop rebuilds each set on the chain, in place, and leaves every other set unchanged (also lines 348-351, 409-412) |
| Enumerator.MinBound | src/graph.cpp:396-399 | the loop computes the restriction-chain minimum starting from `v_cnt` (also lines 381-384) |
| Enumerator.PatternMatchingFunc | src/graph.cpp:287-331 | adds what the specification run adds and leaves the candidate sets it computes. That run adds nothing for an empty loop set, and in clique mode adds the loop-set size at the leaf. The stack is unchanged on return, and sets outside this depth's chains are untouched |
| Enumerator.PatternMatchingAggressiveFunc | src/graph.cpp:368-418 | the same for the aggressive worker: the loop is bounded by the restriction minimum, chosen vertices are skipped, and the stack is unchanged on return |
| Enumerator.Iterate | src/graph.cpp:312-330 | the candidate loop, with its `break` at the bound, adds what the specification loop adds (also lines 400-417) |
| Enumerator.Candidate | src/graph.cpp:316-319 | a candidate already on the stack is skipped outside clique mode; otherwise it is descended into (also lines 404-406) |
| Enumerator.Descend | src/graph.cpp:320-329 | rebuild this depth's chain, push, recurse, pop: the stack is restored and the count is the deeper run's (also lines 407-416) |
| Enumerator.BreakIsSkip | src/graph.cpp:312-315 | on a sorted loop set, breaking at the first candidate ≥ the bound gives the same count and candidate sets as skipping each such candidate (also lines 400-403) |
| Enumerator.LeafCount | src/graph.cpp:300-308 | the last depth counts exactly its admissible candidates: all of them in clique mode, otherwise those not chosen yet (also lines 375-392) |
| Enumerator.RestrictedLeafCount | src/graph.cpp:379-389 | with restrictions, the `lower_bound` prefix minus the stack is exactly the candidates below every restricting vertex; an empty prefix adds nothing |
| Enumerator.OuterStep | src/graph.cpp:346-358 | one outer vertex: build the depth-0 chain, push, run the worker the mode selects, pop |
| Enumerator.PatternMatching | src/graph.cpp:333-366 | the total is the specification count over all start vertices, with aggressive mode when there are restrictions and no clique flag |
| TrianglePlan.CliqueLeafIsShare | src/graph.cpp:304-305 | the clique leaf counts what `intersection_size_clique(v, u)` counts (also lines 40-69) |
| TrianglePlan.PlainLeafIsCommon | src/graph.cpp:306-307 | without self-loops the plain leaf counts what `intersection_size(v, u)` counts (also lines 16-38) |
| TrianglePlan.CliqueLoop | src/graph.cpp:312-330 | depth 1 in clique mode over N(v) adds v's `tc_mt` share (also lines 98-107) |
| TrianglePlan.PlainLoop | src/graph.cpp:312-330 | on a graph without self-loops, depth 1 in plain mode over N(v) adds v's share of `triangle_counting`'s sum (also lines 75-80) |
| TrianglePlan.CliqueOuterIsTcSum | src/graph.cpp:333-366 | the outer loop in clique mode adds `tc_mt`'s sum over the remaining vertices (also lines 95-113) |
| TrianglePlan.PlainOuterIsRangeSum | src/graph.cpp:333-366 | the outer loop in plain mode adds `triangle_counting`'s sum over the remaining vertices (also lines 71-84) |
| TrianglePlan.CliqueCountsTriangles | src/graph.cpp:333-366 | `pattern_matching` with the triangle plan in clique mode returns `tc_mt`'s total: the number of triangles on a simple graph (also lines 95-113) |
| TrianglePlan.PlainCountsOrderedTriangles | src/graph.cpp:333-366 | without the clique bound it returns `triangle_counting`'s undivided sum, six times the number of triangles and six times the clique-mode count (also lines 71-84) |
| TrianglePlan.CliqueAgreesWithTcMt | src/graph.cpp:333-366 | the enumerator and `tc_mt` return the same total on every graph both accept (also lines 95-113) |
| TrianglePlan.PlainAgreesWithTriangleCounting | src/graph.cpp:333-366 | on a simple graph the plain enumerator's total is six times `triangle_counting`'s result (also lines 71-84) |
| TrianglePlan.OrderedLeafIsShare | src/graph.cpp:379-392 | with the restriction w < u, the aggressive leaf for u < v counts what `intersection_size_clique(v, u)` counts (also lines 40-69) |
| TrianglePlan.OrderedLoop | src/graph.cpp:394-417 | with the restriction u < v, depth 1 in aggressive mode over N(v) adds v's `tc_mt` share (also lines 98-107) |
| TrianglePlan.OrderedOuterIsTcSum | src/graph.cpp:333-366 | the outer loop in aggressive mode with the ordered plan adds `tc_mt`'s sum over the remaining vertices (also lines 95-113) |
| TrianglePlan.OrderedCountsTriangles | src/graph.cpp:333-366 | `pattern_matching` with the ordered plan in aggressive mode returns `tc_mt`'s total: the number of triangles on a simple graph (also lines 368-418) |
| TrianglePlan.AggressiveAgreesWithTcMt | src/graph.cpp:333-366 | the aggressive enumerator with the ordered plan and `tc_mt` return the same total on every graph both accept (also lines 95-113) |

## Left out

- **MPI event loop:** message passing and termination, namely `MPI_Init_thread`, `MPI_Test`, `MPI_Irecv`, `MPI_Isend`, `MPI_Finalize`, the IDLE/END protocol and the single in-flight request (src/graph.cpp:124-216).
  - Ranks run one after another.
  - A remote lookup is the REQUEST/ANSWER pair applied directly.
- **OpenMP threading:** the `parallel`, `for schedule(dynamic)`, `critical`, `atomic` and `reduction` pragmas, the `atomic_flag` spin-wait, the request queue and the shared `globalv` cursor.
  - Each loop runs on one thread over its whole range.
  - A critical-section or reduction add is a plain `+`.
- Enumerator.PatternMatching: the source gives each thread its own candidate-set array. The model runs one array over all vertices in order.
  - The per-vertex count is proved independent of leftover sets only for the two triangle plans.
  - It is not proved for every plan.
- **Progress output:** the `printf`/`fflush` progress lines are output only.
- **64-bit overflow:** `long long` overflow of the counters is not modelled, because integers are unbounded.
- **Static capacities:** the capacities `MAXN`, `data[24][MAXN]`, `qrynode[64]`, `recv` and `send` are not modelled.
  - Distributed.AnswerRequest keeps only the needed capacity as a precondition.
- **Schedule construction and VertexSet internals:** the header files for `Schedule` and `VertexSet` are not part of this model.
  - The plan is a record of its tables. Prefix and restriction chains are taken to point to lower ids, which makes every chain finite.
  - A plan is further taken to have at least two depths.
  - No depth's loop set is among the prefixes rebuilt while that depth iterates (the chains of the depths from it down to the second-last).
  - A depth's restrictions refer only to vertices chosen at earlier depths.
  - The enumerator is proved for plans that satisfy these, which schedule construction is meant to guarantee.
  - `build_vertex_set` and `unorderd_subtraction_size` are contracted functions, as their callers use them.
  - A prefix with no father takes the vertex's neighbour list and ignores the clique bound.
- **Graph loading:** loading and CSR construction are not part of this model. GraphImpl.Graph.constructor stands in for the loader and requires a monotone `vertex` array with sorted, duplicate-free slices of vertex ids.
- GraphImpl.Graph.IntersectionSizeClique requires one padding entry after the last slice (`vertex[v_cnt] < |edge|`). The source reads `edge[r]`, one past a slice, and for the last vertex one past the array. The values read there never change the count.
- GraphImpl.Graph.TcMt requires the same padding entry, because it calls `intersection_size_clique`.
- Distributed.SentinelMerge requires the payload to hold non-negative ids, so that −1 can only be the sentinel, as in the source.
- Distributed.ShipSum requires the sum to be below 2^61. That is the range the corrected 64-bit reassembly covers; the as-written decode covers less (see Findings).
- Distributed.GatherSums requires the whole triangle sum to be below 2^61, for the same reason.
- Distributed.TriangleCountingMpi requires the whole triangle sum to be below 2^61, for the same reason.
- Distributed.Collect requires the sum to be below 2^61 and delivers it through the corrected 64-bit reassembly. The as-written decode is exact only below 2^31; that range is covered by Distributed.ShipSumAsWritten and Distributed.GatherSumsAsWritten.
- Distributed.GatherSums uses the clamped rank ranges, not the as-written ones (see Findings). Distributed.GatherSumsAsWritten uses the as-written ranges and requires them to stay in bounds, since otherwise the source reads past the `vertex` array.
- Distributed.GatherSumsAsWritten and Distributed.TriangleCountingMpiAsWritten state the result only for a triangle sum below 2^31; above it the as-written totals are wrapped sums, which the model computes but no contract describes beyond Distributed.ShipSumAsWritten.
- Enumerator.PatternMatching is not proved to equal the number of embeddings of the pattern in general. That is a property of `Schedule` construction, which is not part of this model. It is proved for the two triangle plans only.
- **The triangle plans:** hand-written instances, since schedule construction is out of scope.

## Findings

| source | as written | input that shows it | evidently intended | confidence | as-written member | corrected member |
|---|---|---|---|---|---|---|
| src/graph.cpp:130-132 | `mynoder` is clamped to `v_cnt` only for the last rank, so a non-last rank's range can run past `v_cnt` and the last rank's range can start after its end | v_cnt = 5, comm_sz = 4: blocksize 2, rank 2 gets [4, 6) (vertex 5 does not exist), rank 3 gets [6, 5) (its cursor never meets `mynoder`) | each rank's range clamped to `[0, v_cnt]`, so that the ranges tile the vertices | not executed; follows from the arithmetic | Partition.AsWrittenOvershoots | Partition.RankRangesTile |
| src/graph.cpp:172, 175, 195-196, 208-209 | the sum is reassembled as `(recv[1] << 30) \| recv[2]` on a 32-bit `int` | a partial sum of 2^31 arrives as −2^31 | reassembly in 64 bits, exact for every sum below 2^61 | not executed; follows from the arithmetic | Wire.AsWrittenLosesTwo31 | Wire.RoundTripIff |

