# Verified model of filtered nearest-neighbour execution

A Dafny model of the parts of the repository whose correctness is not visible
from one function: several very different scanners that must return the same
ranked answer, a budgeted choice of layouts, a release protocol between two
processes, and the directories and generators underneath. Sizes that the
programs freeze (k, dimensions where possible, bins, tokens, lanes, blocks) are
parameters here, so the statements hold for all of them.

## How the files belong together

| Part | Files | Main results |
|---|---|---|
| Exact scanning | `Distance`, `DistanceKernels`, `Ranking`, `BinaryHeap`, `TopKScan`, `CompactScan` | the vector kernels are the scalar distance; the pruned two-phase scan is the exact top k |
| Predicate cube | `CellLayout`, `LayoutAudit`, `Supports`, `PredicateCube`, `CubePlans` | the constructor builds the only correct layout; four plans agree |
| Pair-major base | `PairMajor`, `Postings` | what the audit accepts; ranked search over slices and postings; in-place compilation changes no answer |
| Fragment selection | `FragmentCover`, `FragmentSelect`, `FragmentOrder`, `FragmentQuery`, `FragmentEngine` | optimal covers; greedy selection that never loses to its incumbent; exact merging; no layout changes an answer |
| Ordered ranges | `Divisibility`, `OrderedCover`, `OrderedQuery`, `Dedup`, `RangeBench` | shortest dyadic cover; unfiltered interiors are sound and complete; two schedules agree |
| Release contract | `ContractText`, `ContractParse`, `ContractFields`, `Contract`, `BlockPublisher` | the strict validators accept exactly what the printers print |
| Release protocol | `PassProtocol`, `PassSafety`, `PassGap`, `PassCompletes` | safety of every run, with a stop latch, changed files and a crash; which raw files an acknowledgement keeps; completion means every block was released, and some run gets there |
| Timed block | `SharedBlock`, `SharedBlockRuns` | every row executed once and read once under every schedule |
| Label compiler | `EndpointBins`, `Labels`, `LabelSupport` | numeric predicates keep their meaning as label sets |
| Compact directories | `CompactKeys`, `RankDirectory`, `SupportArena`, `U24View` | key and rank bijections; build, resolve and audit |
| Deterministic machinery | `Powers`, `SplitMix`, `FrozenPermutation`, `IdSort`, `NeighborUnion`, `VamanaPass`, `GraphAudit` | unbiased terminating draws; canonical graphs through every batch |
| Advisor | `Advisor`, `AdvisorRows`, `AdvisorOptimum` | the integer program and the exhaustive oracle have one optimum |

Objects that the programs update in place are classes here (the bounded heaps,
the four-way buffer, the arena and its view), loops over arrays are methods
with invariants, and each is tied to a specification whose own properties are
proved as lemmas. The two concurrent parts are state machines: a run is a
sequence of states in which every step is one of the listed atomic steps, and
the results hold in every state of every run.

Five facts about the code came out of the proofs and are stated exactly:

- An acknowledgement can be durable while the summary it counts is not
  (`PassGap.AckCanOutliveSummary`). The adapter's comment asks callers for raw
  files that are already durable; the controller waits until they are visible.
  The summary survives every continuation if and only if it is durable when the
  acknowledgement is about to be linked (`PassGap.SummarySurvivesExactly`), which
  a sync of the raw directory before publishing would ensure. The results file
  is never the one that is lost (`PassGap.ResultsSurvive`), and the next block
  starts only behind durable raw files (`PassSafety.StartIsGranted`).
- The arena audit's check of the last word's high bits would refuse a good
  arena if the number of positions were a multiple of 64
  (`SupportArena.BuiltArenaPassesAudit`, `SupportArena.AuditBuilt`). The frozen
  constants are not.
- The three-byte view accepts set bits behind the last position, which no key
  can reach, for exactly those shapes that leave such a bit
  (`U24View.StrayViewIsGranted`, `U24View.FullWordsHaveNoStray`).
- The pair-major audit tests no label domain: it passes on labels outside their
  domain that name the same pair (`PairMajor.ForeignLabelsPass`,
  `PairMajor.ForeignBytes`), and what passes is the base of its labels if and
  only if they are in their domains (`PairMajor.PassingIsBase`).
- The sort before staged admission compares quotients of doubles, and a fragment
  with neither rows nor uses divides zero by zero; the comparator is a valid
  order exactly without such fragments, or with at most one other
  (`FragmentOrder.ComparatorIsSound`, `FragmentOrder.UnratedBreaksTheOrder`).
  Admission itself is proved for every order.

To check everything: `dafny verify dfyconfig.toml`.

## Model

| member | source | states |
|---|---|---|
| `DistanceKernels.ScalarDistance` | src/predicate_cube/layout_selector_x3.cpp:18-23 | the plain loop in 32-bit words gives the sum of squared differences, modulo 2^32 at an arbitrary dimension |
| `DistanceKernels.FourDistances` | src/predicate_cube/predicate_cube.hpp:24-65 | the four-row kernel accepts exactly the nonempty multiples of the block size, and gives each row the same distance as the scalar sum |
| `DistanceKernels.OneDistance` | src/predicate_cube/sieve_packed_kernel.hpp:90-123 | on 128-byte vectors the kernel is the exact squared distance: nothing wraps |
| `DistanceKernels.HalfFour` | src/predicate_cube/layout_selector.cpp:631-642 | four half distances at once equal the scalar sums over those 64 dimensions |
| `DistanceKernels.HalfOne` | src/predicate_cube/layout_selector.cpp:644-655 | one half distance equals the scalar sum over those 64 dimensions |
| `DistanceKernels.PrefixPlusSuffix` | src/predicate_cube/layout_selector.cpp:592-656 | prefix half plus suffix half is the whole squared distance |
| `Distance.ReduceFourIsTotals` | src/predicate_cube/layout_selector.cpp:620-629 | the shared horizontal-add reduction of four registers gives the four lane totals, each in its own place |
| `Ranking.SortedKeepsIsTopK` | src/predicate_cube/layout_selector_x3.cpp:11-31 | any sorted list of k hits that leaves out nothing smaller is the k least hits, so there is one such list |
| `Ranking.TopKPicks` | src/predicate_cube/layout_selector.cpp:659-686 | the k least hits, place by place: each is one hit of the input, a smaller distance comes first and of equal distances the smaller id, and what is left out is no better |
| `Ranking.TopKMeans` | src/predicate_cube/mixed_runner.cpp:32-32 | when no two hits have one id: the answer is strictly ascending by distance and then id, and every hit left out has a greater distance than each answered one, or an equal distance and a greater id |
| `Ranking.KeepsReplace` | src/predicate_cube/layout_selector.cpp:659-670 | replacing the greatest kept hit by a smaller one keeps the k least of what was seen |
| `BinaryHeap.SiftDown` | src/predicate_cube/layout_selector.cpp:62-71 | restores heap order from a node down and permutes nothing else |
| `BinaryHeap.MakeHeap` | src/predicate_cube/layout_selector.cpp:62-71 | makes any buffer a heap with the same contents |
| `BinaryHeap.PopHeap` | src/predicate_cube/layout_selector.cpp:62-71 | moves the front to the freed slot and leaves a heap of the others |
| `TopKScan.TopKHeap.Consider` | src/predicate_cube/layout_selector.cpp:659-670 | the bounded heap holds the k least hits seen; once full its threshold never rises |
| `TopKScan.TopKHeap.Finish` | src/predicate_cube/layout_selector.cpp:675-686 | the answer is the k least hits in rank order, or an error below k |
| `TopKScan.FourWayTopK.Add` | src/predicate_cube/layout_selector.cpp:34-38 | a buffered row counts as fed; four waiting rows are flushed together |
| `TopKScan.FourWayTopK.FlushFour` | src/predicate_cube/layout_selector.cpp:72-78 | the four waiting rows enter the heap in order with their distances |
| `TopKScan.FourWayTopK.Finish` | src/predicate_cube/layout_selector.cpp:39-54 | a remainder of one to three rows is scored one by one; the answer is the k least of everything fed, or an error below k |
| `TopKScan.TopKQueue.Consider` | src/predicate_cube/pair_major_layout.hpp:563-570 | the queue keeps the k least hits at every size, starting from none |
| `TopKScan.TopKQueue.Drain` | src/predicate_cube/pair_major_layout.hpp:572-580 | popping into the last free place yields the k least hits in order |
| `CompactScan.BatchSplits` | src/predicate_cube/layout_selector.cpp:728-773 | of each batch, the completed survivors and the dropped rows together are all its rows |
| `CompactScan.DroppedAreFar` | src/predicate_cube/layout_selector.cpp:736-757 | a row dropped on its prefix has a whole distance above the threshold frozen at the batch start |
| `CompactScan.Prefix` | src/predicate_cube/layout_selector.cpp:730-757 | the survivor array holds exactly the rows of the batch whose prefix is within the threshold, in order, with their partial distances |
| `CompactScan.Batch` | src/predicate_cube/layout_selector.cpp:728-773 | although the threshold is stale inside the batch, the heap ends as if every row had been scored in full |
| `CompactScan.RangeScan` | src/predicate_cube/layout_selector.cpp:694-776 | the two-phase scan answers k different rows, for every row count and tie pattern, a smaller distance first and of equal distances the smaller id; a row left out is farther than each answered one, or as far with an id at least as great; it is an error exactly below k rows |
| `CompactScan.IndexedScan` | src/predicate_cube/mechanism_ablation.cpp:41-134 | the gathering form of that scan returns the k least pairs of the rows its positions name |
| `CellLayout.Build` | src/predicate_cube/predicate_cube.hpp:140-174 | counting, prefix sums and the cursor scatter produce a layout sorted by (cell, global id) with inverse maps, in bounds throughout |
| `CellLayout.LayoutIsUnique` | src/predicate_cube/predicate_cube.hpp:125-178 | there is only one such layout |
| `CellLayout.SliceIsCells` | src/predicate_cube/predicate_cube.hpp:219-237 | the rows between two cell offsets are exactly the rows of those cells |
| `LayoutAudit.AuditAgainst` | src/predicate_cube/predicate_cube.hpp:239-307 | the audit passes exactly when the state is the correct layout of the reference columns and every label is valid |
| `PredicateCube.BuildCube` | src/predicate_cube/predicate_cube.hpp:125-178 | a cube is built exactly for accepted inputs, and it is the layout over (bin, A, B) cells: its own audit cannot fail |
| `PredicateCube.RangeSliceIsRange` | src/predicate_cube/predicate_cube.hpp:219-226 | a bin range is one slice, holding exactly the rows of those bins |
| `PredicateCube.ASliceIsA` | src/predicate_cube/predicate_cube.hpp:227-233 | the A slice of a bin holds exactly the rows of that bin and A value |
| `PredicateCube.CellSliceIsCell` | src/predicate_cube/predicate_cube.hpp:234-237 | a cell slice holds exactly the rows of that cell |
| `Supports.Support` | src/predicate_cube/mixed_runner.cpp:178-189 | the naive support lists exactly the matching rows, ascending |
| `Supports.ExactIsUnique` | src/predicate_cube/mixed_runner.cpp:183-201 | there is one exact answer: rank the support by (distance, id) and keep k |
| `Supports.ExactMeans` | src/predicate_cube/mixed_runner.cpp:183-201 | the exact answer in plain integers: k matching rows, for i < j the distance of the first is smaller, or equal with the smaller id; a matching row left out is farther, or as far with a greater id; no answer exactly when fewer than k rows match |
| `CubePlans.Segments` | src/predicate_cube/layout_selector.cpp:526-576 | the slices collected for any predicate are disjoint, in position order, and hold exactly its matching rows |
| `CubePlans.PlanOff` | src/predicate_cube/layout_selector.cpp:526-576 | scanning those slices with the four-way buffer returns the exact answer |
| `CubePlans.Full` | src/predicate_cube/layout_selector.cpp:778-792 | the engine that routes ranges to the pruned scan returns the exact answer |
| `CubePlans.SupportOff` | src/predicate_cube/mechanism_ablation.cpp:137-174 | filtering every physical row returns the exact answer |
| `CubePlans.LayoutOff` | src/predicate_cube/mechanism_ablation.cpp:176-203 | gathering the support through the inverse map returns the exact answer |
| `CubePlans.CompareArms` | src/predicate_cube/mechanism_ablation.cpp:137-203 | on every cube and every admitted predicate all four plans return the same k matching rows, a smaller distance first and of equal distances the smaller id, and leave out only rows that are farther, or as far with a greater id; no answer exactly when fewer than k rows match |
| `PairMajor.BuildBase` | src/predicate_cube/pair_major_layout.hpp:136-185 | a base is built exactly for accepted inputs, and it is the unique layout over (A, B) pairs |
| `PairMajor.AuditBase` | src/predicate_cube/pair_major_layout.hpp:310-383 | the audit passes exactly on the layout over the pair indices of the labels it is given: it tests no label domain |
| `PairMajor.PassingIsBase` | src/predicate_cube/pair_major_layout.hpp:310-383 | a state that passes is the base of those labels exactly when the labels are in their domains |
| `PairMajor.ForeignLabelsPass` | src/predicate_cube/pair_major_layout.hpp:363-365 | on every base, moving a row with a positive A label one A down and the B count up leaves the audit passing on labels outside their domain; they are bytes again exactly when the new B label is below 256 |
| `PairMajor.ForeignBytes` | src/predicate_cube/pair_major_layout.hpp:310-383 | a base of one row with labels (1, 0) over two by two pairs passes its audit on the byte labels (0, 2) |
| `PairMajor.PairSliceIsPair` | src/predicate_cube/pair_major_layout.hpp:255-261 | a pair slice holds exactly that pair's rows |
| `PairMajor.ASliceHoldsA` | src/predicate_cube/pair_major_layout.hpp:263-269 | an A slice holds exactly that A value's rows |
| `PairMajor.ExactTopKSegments` | src/predicate_cube/pair_major_layout.hpp:385-421 | over repeated slices the answer is the sorted k least of the union, for every k; slices that overlap, leave the base or carry the wrong id space are refused, and only those |
| `PairMajor.RankingIsUnique` | src/predicate_cube/pair_major_layout.hpp:572-580 | a set of rows has one ranked answer |
| `PairMajor.RankingMeans` | src/predicate_cube/pair_major_layout.hpp:572-580 | a ranking in plain integers: rows of the set with their own distances, smaller distance first and of equal distances the smaller id; a row that is left out finds k rows that are nearer, or as near with a smaller id |
| `PairMajor.SlicesRanked` | src/predicate_cube/pair_major_layout.hpp:385-421 | the answer over slices in those terms: each answered row lies in a slice, and each row of a slice that is not answered is worse than all k |
| `Postings.ExactTopKPostings` | src/predicate_cube/pair_major_layout.hpp:422-453 | over any mix of global-id and physical-position postings each row is ranked once; an id outside the base is refused |
| `Postings.PostingsRanked` | src/predicate_cube/pair_major_layout.hpp:422-453 | the answer over postings in those terms: each answered row is named by a posting, and each named row that is not answered is worse than all k |
| `Postings.CompileInPlace` | src/predicate_cube/pair_major_layout.hpp:271-308 | the in-place compilation sorts the positions of the ids; its receipt passes exactly for distinct valid ids |
| `Postings.CompiledRoundTrip` | src/predicate_cube/pair_major_layout.hpp:271-308 | reading the compiled positions back gives the original ids |
| `Postings.CompiledSameIds` | src/predicate_cube/pair_major_layout.hpp:271-308 | a compiled posting names the same rows as the one it replaced |
| `Postings.CompareCompiled` | src/predicate_cube/pair_major_layout.hpp:422-453 | before and after one posting is compiled the answer is the ranked k least of the rows named, and the two are equal |
| `FragmentCover.ComputeCover` | src/predicate_cube/mixed_runner.cpp:221-221 | the dynamic program returns a tiling of least cost, join charge included, and with fewest fragments among those, over all tilings by single bins and admitted dyadic fragments; of several such it returns the one with the narrowest first fragment, and so on behind it |
| `FragmentCover.CoverMeans` | src/predicate_cube/mixed_runner.cpp:221-221 | the cover in plain integers: fragments of 1, 2, 4 or 8 bins from lo to hi, each aligned and, if wider than a bin, admitted; the cost is the sum of theirs and 1500 for each join |
| `FragmentCover.CoverIsBest` | src/predicate_cube/mixed_runner.cpp:221-221 | any other such layout costs more, or as much with more fragments, or as much with as many and a wider fragment where the two first differ |
| `FragmentCover.ChosenIsUnique` | src/predicate_cube/mixed_runner.cpp:221-221 | there is exactly one cover the program can return |
| `FragmentCover.LeastCostIsUnique` | src/predicate_cube/mixed_runner.cpp:221-221 | all optimal covers of a range have one cost and one number of fragments |
| `FragmentCover.LeastCostFalls` | src/predicate_cube/mixed_runner.cpp:221-221 | a larger selection never makes the best cover dearer |
| `FragmentCover.StorageSaves` | src/predicate_cube/mixed_runner.cpp:220-220 | what a fragment costs packed, stored, and as a pair that is not stored |
| `FragmentCover.SizeOfRanges` | src/predicate_cube/mixed_runner.cpp:140-147 | a range of bins has the rows of its parts |
| `FragmentCover.TilesPartition` | src/predicate_cube/mixed_runner.cpp:221-221 | every bin of the range lies in exactly one chosen fragment |
| `FragmentSelect.ComputeTotal` | src/predicate_cube/mixed_runner.cpp:222-223 | the loop over the development queries adds up each query's least cost |
| `FragmentSelect.OneMoreQuery` | src/predicate_cube/mixed_runner.cpp:222-223 | one more development query adds its fragment, the cost of the cover the program returns, or two pairs and a join |
| `FragmentSelect.TotalCostFalls` | src/predicate_cube/mixed_runner.cpp:222-223 | the total cost never rises when a selection grows |
| `FragmentSelect.VariantsMean` | src/predicate_cube/mixed_runner.cpp:264-264 | the moves of one catalog key: a pair or wide range not yet admitted is added to the ids alone or to ids and packed together; what is stored or narrow and not packed is packed |
| `FragmentSelect.MovesMean` | src/predicate_cube/mixed_runner.cpp:264-264 | the moves a greedy step weighs are exactly those of the catalog keys and, for each development range, all even width-two fragments in it added together |
| `FragmentSelect.JointStep` | src/predicate_cube/mixed_runner.cpp:264-264 | one greedy step stops exactly when none of these lowers the cost while it adds bytes within the budget, and else takes one of them: a pair or wide range admitted, admitted and packed, a stored or narrow fragment packed, or the even width-two run of a development range admitted and packed; all written with set expressions |
| `FragmentSelect.BestMoveMeans` | src/predicate_cube/mixed_runner.cpp:264-264 | the move it takes, in whole numbers: no other such move saves more per added byte, or as much per byte at a lower cost |
| `FragmentSelect.JointSelect` | src/predicate_cube/mixed_runner.cpp:264-264 | the greedy run takes such a best move each time, until nothing gains or its rounds are used up; the result is the incumbent when that fits and is strictly cheaper, else the last selection of the run |
| `FragmentSelect.TraceMoves` | src/predicate_cube/mixed_runner.cpp:264-264 | a greedy run starts from nothing, each step is one of those moves, and a run that stops early stops where none of them gains |
| `FragmentSelect.TraceGains` | src/predicate_cube/mixed_runner.cpp:264-264 | along the run bytes strictly rise within the budget and cost strictly falls |
| `FragmentSelect.AccountOfOneMore` | src/predicate_cube/mixed_runner.cpp:219-219 | one more stored id list costs four bytes a row, one more packed copy 128 |
| `FragmentSelect.AdmitStage` | src/predicate_cube/mixed_runner.cpp:236-240 | for every order of the candidates, a fragment is admitted exactly when it is used and fits beside those admitted before it |
| `FragmentSelect.PackStep` | src/predicate_cube/mixed_runner.cpp:245-261 | one layout step packs a densest local saving, the one with the least key of those, and stops exactly when nothing gains |
| `FragmentSelect.PackGainsMeans` | src/predicate_cube/mixed_runner.cpp:245-261 | a packing step weighs exactly the used fragments that are stored or need not be, are not packed, cost less packed and fit |
| `FragmentSelect.BestPackMeans` | src/predicate_cube/mixed_runner.cpp:245-261 | the layout a packing step takes, in whole numbers: none saves more per added byte, and none that saves as much has a lesser key |
| `FragmentSelect.StagedSelect` | src/predicate_cube/mixed_runner.cpp:224-263 | the staged run is such an admission followed by such packing steps until nothing gains; what was admitted is never revisited, and the result is within budget |
| `FragmentSelect.BuildSelection` | src/predicate_cube/mixed_runner.cpp:265-265 | the selection is the staged one, or the greedy one when that is no dearer; both predictions are the costs of those selections, so the chosen one is never above the staged one and the check that would throw cannot fire |
| `FragmentOrder.ComparatorIsSound` | src/predicate_cube/mixed_runner.cpp:231-235 | the comparator by value per byte and key is fit for a sort exactly when every fragment has rows or uses, or at most one has: 0/0 has no place in the order |
| `FragmentOrder.UnratedBreaksTheOrder` | src/predicate_cube/mixed_runner.cpp:231-235 | a catalog of one empty unused pair and two others on which the comparator is no order, whatever the key order |
| `FragmentOrder.SupportOrder` | src/predicate_cube/mixed_runner.cpp:226-235 | the sort lists every pair and every range of several bins once, so that of two nonempty fragments the earlier has uses times weight times the size of the other at least as great, with weight 35000 for a pair and 3000 for a range, and the key decides a tie; fragments without rows come first |
| `FragmentOrder.OrderIsUnique` | src/predicate_cube/mixed_runner.cpp:231-235 | there is only one such list |
| `FragmentQuery.Scan` | src/predicate_cube/mixed_runner.cpp:197-201 | the priority-queue scan of a support, over the base rows or over a packed copy, returns its ranked k least, or an error below k |
| `FragmentQuery.ScalarTopK` | src/predicate_cube/layout_selector_x3.cpp:11-31 | sorting all hits and keeping k is the same answer |
| `FragmentQuery.Intersect` | src/predicate_cube/mixed_runner.cpp:267-267 | the two-pointer intersection holds exactly the common ids, ascending |
| `FragmentQuery.MergeIsExact` | src/predicate_cube/mixed_runner.cpp:202-204 | rescoring the union of the fragments' answers loses nothing: it ranks like the union of their supports |
| `FragmentEngine.BuildStore` | src/predicate_cube/mixed_runner.cpp:265-265 | after a build exactly the selected ids and the selected packed vectors are stored |
| `FragmentEngine.OnlinePair` | src/predicate_cube/mixed_runner.cpp:267-267 | a pair that is not stored is served by intersecting two postings |
| `FragmentEngine.PairFragment` | src/predicate_cube/mixed_runner.cpp:267-267 | stored, packed or intersected, a pair fragment is the pair's support |
| `FragmentEngine.CoverFragments` | src/predicate_cube/mixed_runner.cpp:221-221 | the supports of a cover's fragments are disjoint and together are the range's support |
| `FragmentEngine.QueryRange` | src/predicate_cube/mixed_runner.cpp:268-268 | a range query answers exactly when every fragment of the one cover it takes has k rows, and then exactly |
| `FragmentEngine.RangeAnswersBetween` | src/predicate_cube/mixed_runner.cpp:268-268 | k rows in every bin of the range are enough for an answer, fewer than k rows in the range are not |
| `FragmentEngine.QueryDnf` | src/predicate_cube/mixed_runner.cpp:268-268 | a two-pair query answers exactly when both pairs have k rows, and then exactly |
| `FragmentEngine.Query` | src/predicate_cube/mixed_runner.cpp:268-268 | whatever was selected, each of the four families answers exactly when the fragments it reads have k rows each; the answer is then k matching rows, a smaller distance first and of equal distances the smaller id, and every matching row left out is worse: storage never changes an answer |
| `OrderedCover.AllNodes` | src/ordered/hierarchical_range_bench.cpp:282-289 | the hierarchy lists each aligned power-of-two node once |
| `OrderedCover.Cover` | src/ordered/hierarchical_range_bench.cpp:291-300 | the greedy loop takes at each start the widest aligned node that fits |
| `OrderedCover.GreedyTiles` | src/ordered/hierarchical_range_bench.cpp:291-300 | the greedy nodes tile [first, end) without gap or overlap |
| `OrderedCover.GreedyIsShortest` | src/ordered/hierarchical_range_bench.cpp:291-300 | no aligned tiling uses fewer nodes |
| `OrderedCover.AtMostTwoOfEachWidth` | src/ordered/hierarchical_range_bench.cpp:291-300 | no width is used more than twice |
| `OrderedQuery.CoverInHierarchy` | src/ordered/hierarchical_range_bench.cpp:282-300 | every node the cover names exists in the hierarchy |
| `OrderedQuery.InteriorIsFiltered` | src/ordered/hierarchical_range_bench.cpp:430-455 | on a node strictly between the boundary blocks filtering would drop nothing |
| `OrderedQuery.PlanReachesRange` | src/ordered/hierarchical_range_bench.cpp:430-455 | the plan reaches every row of the closed range exactly once and no other row, with filtering skipped inside |
| `OrderedQuery.AnySearchStaysInRange` | src/ordered/hierarchical_range_bench.cpp:406-428 | whatever a node search finds in its node, what is kept lies in the range |
| `OrderedQuery.Query` | src/ordered/hierarchical_range_bench.cpp:430-455 | with complete node searches a query is the filtered, ranked whole store, padded with -1 |
| `OrderedQuery.QueryMeans` | src/ordered/hierarchical_range_bench.cpp:430-455 | the answer in plain integers: stored rows whose attribute lies in lo..hi, each place once, a smaller distance first and of equal distances the smaller id, then -1; a row of the range that is left out finds k that are no worse |
| `RangeBench.PlanTasks` | src/ordered/range_bench.cpp:265-286 | a query, clause and block have a task exactly when the block meets the clause, tasks ascend by query, clause and block, so there is one of each; a task is full exactly when every attribute value of the block lies in the clause, and its overlap is the number of values in both; the block lists partition the tasks |
| `RangeBench.RunBlocks` | src/ordered/range_bench.cpp:350-368 | in every interleaving of the parallel blocks each task runs once and fills its own slot |
| `RangeBench.RunQuery` | src/ordered/range_bench.cpp:372-398 | the query schedule merges the same results in plan order |
| `RangeBench.FoundMeans` | src/ordered/range_bench.cpp:350-398 | what a query finds is what the searches of its planned tasks return |
| `RangeBench.CompareSchedules` | src/ordered/range_bench.cpp:350-402 | for any deterministic block search both schedules return the ranked k least of what the query's own tasks found, each id once when there are several clauses |
| `Dedup.Compact` | src/ordered/range_bench.cpp:319-349 | the in-place read/write compaction keeps each id once, with its least distance |
| `Dedup.DeduplicatedIsUnique` | src/ordered/range_bench.cpp:319-349 | there is one such list |
| `Dedup.FinishQuery` | src/ordered/range_bench.cpp:319-349 | with several clauses the answer ranks the deduplicated hits, with one clause all of them |
| `Dedup.DistinctRankingMeans` | src/ordered/range_bench.cpp:319-349 | the answer of several clauses in plain integers: each id once with the least distance it was found at, a smaller distance first and of equal distances the smaller id; an id left out is worse than all k |
| `ContractText.NumberOfDecimal` | src/laion_sieve/pass_release_contract.h:92-133 | a printed number reads back as itself and has no leading zero |
| `ContractText.MarkerOccurs` | src/laion_sieve/pass_release_contract.h:59-69 | in quote-separated text a key marker occurs exactly in front of a piece that is that key and is followed by a colon |
| `ContractParse.DecimalOfNumber` | src/laion_sieve/pass_release_contract.h:92-110 | canonical digits are what printing their number gives |
| `ContractParse.UniqueValueOffset` | src/laion_sieve/pass_release_contract.h:59-69 | an offset is returned exactly when the first marker has no other behind it |
| `ContractParse.CanonicalStringValue` | src/laion_sieve/pass_release_contract.h:71-90 | a string is read exactly when it is terminated and holds no control character, quote or backslash |
| `ContractParse.CanonicalSizeValue` | src/laion_sieve/pass_release_contract.h:92-110 | a size is read exactly from a whole run of canonical digits below 2^64 |
| `ContractFields.KeysAreFields` | src/laion_sieve/pass_release_contract.h:59-69 | a key occurs once per field, even where another key begins with it or a value spells it |
| `ContractFields.FieldIsRead` | src/laion_sieve/pass_release_contract.h:59-110 | reading any field of a printed object gives that field back |
| `Contract.AckBytes` | src/laion_sieve/pass_release_contract.h:112-123 | the acknowledgement is this one literal line |
| `Contract.ReleaseBytes` | src/laion_sieve/pass_release_contract.h:125-133 | the release is this one literal line |
| `Contract.ValidateAck` | src/laion_sieve/pass_release_contract.h:135-156 | an acknowledgement is accepted exactly when it is the printed form of a record of this state and pass whose numbers are below 2^64 and whose texts need no escape, and that record is returned |
| `Contract.ValidateRelease` | src/laion_sieve/pass_release_contract.h:158-187 | a release is accepted exactly when it is the printed form of a record of this state and pass with 64 digits out of 0-9 and a-f, and that record is returned |
| `BlockPublisher.ValidateStateId` | scripts/laion_sieve_formal/laion1m_paired_formal_block_adapter.py:63-70 | a state id is admitted exactly with 1 to 128 letters, digits, dots, underscores and dashes |
| `BlockPublisher.FileNamesAreDistinct` | scripts/laion_sieve_formal/laion1m_paired_formal_block_adapter.py:73-77 | no two blocks and no two kinds of file share a name |
| `BlockPublisher.EscapeIsIdentity` | scripts/laion_sieve_formal/laion1m_paired_formal_block_adapter.py:80-84 | text is written as it is exactly when no character needs an escape |
| `BlockPublisher.PublishedAckIsCanonical` | scripts/laion_sieve_formal/laion1m_paired_formal_block_adapter.py:148-159 | the publisher's sorted, escaped JSON is byte for byte the canonical acknowledgement |
| `BlockPublisher.PublishedReleaseIsCanonical` | scripts/laion_sieve_formal/laion1m_paired_formal_block_adapter.py:255-262 | the publisher's release is byte for byte the canonical release |
| `BlockPublisher.AckRoundTrip` | src/laion_sieve/pass_release_contract.h:135-156 | the validator returns the very record that was published |
| `BlockPublisher.ReleaseRoundTrip` | src/laion_sieve/pass_release_contract.h:158-187 | the same for releases |
| `PassSafety.OrderedGrows` | scripts/laion_sieve_formal/laion1m_paired_formal_block_adapter.py:162-314 | a history stays well ordered when an event is added whose preconditions the history meets |
| `PassSafety.ControllerKeeps` | scripts/laion_sieve_formal/run_laion1m_v19_same_resident_paired_formal.py:1264-1368 | every controller step, from audit to the next block or completion, keeps the invariant; when it completes is PassCompletes.CompletedIsReleased |
| `PassSafety.ReadyCanBeReused` | scripts/laion_sieve_formal/laion1m_paired_formal_block_adapter.py:266-283 | a release whose ready record could not be synced can be tried again from the ready name that is already there |
| `PassSafety.StopKeeps` | scripts/laion_sieve_formal/run_laion1m_v19_same_resident_paired_formal.py:1129-1132 | latching a stop under the commit lock keeps it |
| `PassSafety.RunnerKeeps` | src/laion_sieve/laion1m_v19_same_resident_paired_formal_runner.cpp:1182-1226 | every runner step keeps it |
| `PassSafety.CrashKeeps` | scripts/laion_sieve_formal/laion1m_paired_formal_block_adapter.py:241-249 | a crash that loses any names that are not durable keeps it |
| `PassSafety.InvInEveryRun` | scripts/laion_sieve_formal/run_laion1m_v19_same_resident_paired_formal.py:1204-1368 | the invariant holds in every state of every run of controller, runner, stop latch, file changes and crash |
| `PassSafety.StartIsGranted` | src/laion_sieve/laion1m_paired_formal_block_durability.h:111-137 | a block starts only after the canonical release of the one before, which binds a durable acknowledgement of exactly the byte counts the runner wrote |
| `PassSafety.NothingIsGrantedAfterStop` | scripts/laion_sieve_formal/laion1m_paired_formal_block_adapter.py:300-303 | once the stop is latched no acknowledgement and no canonical release is linked |
| `PassSafety.FailedGateStopsTheRun` | scripts/laion_sieve_formal/run_laion1m_v19_same_resident_paired_formal.py:1337-1356 | a block whose gate failed is never released, and its successor never starts |
| `PassSafety.RunnerBranchesUnreachable` | src/laion_sieve/pass_release_contract.h:327-350 | the runner's release-before-acknowledgement branch and its malformed-contract branches are never taken |
| `PassSafety.VisibleReleaseIsRecoverable` | scripts/laion_sieve_formal/laion1m_paired_formal_block_adapter.py:241-249 | in every state, also behind a crash, a visible release has a durable acknowledgement and a durable ready name with its bytes |
| `PassSafety.NamesAreLinkedOnce` | scripts/laion_sieve_formal/laion1m_paired_formal_block_adapter.py:205-217 | no name is linked twice |
| `PassSafety.BlocksStartInOrder` | src/laion_sieve/laion1m_v19_same_resident_paired_formal_runner.cpp:1182-1226 | blocks start once each, in order |
| `PassCompletes.CompletedIsReleased` | scripts/laion_sieve_formal/run_laion1m_v19_same_resident_paired_formal.py:1264-1368 | in every state of every run, a completed controller has durably acknowledged and canonically released every block, and no gate had failed |
| `PassCompletes.AckCountsFiles` | scripts/laion_sieve_formal/laion1m_paired_formal_block_adapter.py:119-205 | every linked acknowledgement is the canonical text of the sizes, both positive, that the two raw files had in one earlier state |
| `PassCompletes.SomeRunCompletes` | scripts/laion_sieve_formal/run_laion1m_v19_same_resident_paired_formal.py:1264-1368 | for every good configuration and whatever the blocks write, some run ends with the controller completed and the runner done: every block started, wrote its files, was acknowledged durably and released |
| `PassGap.SummarySurvivesExactly` | scripts/laion_sieve_formal/run_laion1m_v19_same_resident_paired_formal.py:1175-1187 | when the controller is about to link an acknowledgement, every continuation with that acknowledgement, visible or durable, keeps the summary if and only if the summary is durable at that moment |
| `PassGap.ResultsSurvive` | scripts/laion_sieve_formal/laion1m_paired_formal_block_adapter.py:162-205 | in every state of every run, also behind a crash, a visible acknowledgement has its results file, and that file is durable: the results are never what is lost |
| `PassGap.AckCanOutliveSummary` | scripts/laion_sieve_formal/run_laion1m_v19_same_resident_paired_formal.py:1175-1187 | a run of every configuration ends with a durable acknowledgement and without the summary it counts: the controller waits for a visible summary, not a durable one |
| `SharedBlock.LaneKeeps` | src/laion_sieve/laion1m_v19_same_resident_paired_formal_runner.cpp:719-766 | every step of a worker keeps the block invariant |
| `SharedBlock.ParentKeeps` | src/laion_sieve/laion1m_v19_same_resident_paired_formal_runner.cpp:768-812 | every step of the parent keeps it |
| `SharedBlock.InvInEveryRun` | src/laion_sieve/laion1m_v19_same_resident_paired_formal_runner.cpp:719-812 | it holds under every schedule, for any number of lanes and rows |
| `SharedBlock.EveryRowExecutedOnce` | src/laion_sieve/laion1m_v19_same_resident_paired_formal_runner.cpp:719-812 | when all lanes are done with status zero each row was executed behind the go, by exactly the lane that signed it, and the counts add up to the rows |
| `SharedBlock.ReadsFollowWrites` | src/laion_sieve/laion1m_v19_same_resident_paired_formal_runner.cpp:823-833 | the parent reads result slots without a test, and no slot it reads is empty: a lane wrote that value before |
| `SharedBlock.CensusHolds` | src/laion_sieve/laion1m_v19_same_resident_paired_formal_runner.cpp:785-809 | the row census check cannot fail, and the shared counter never passes the rows plus one per lane |
| `SharedBlock.SignaturesAddUp` | src/laion_sieve/laion1m_v19_same_resident_paired_formal_runner.cpp:785-809 | if every row is signed by a lane, the lanes' counts sum to the rows |
| `SharedBlockRuns.ReadsAreInOrder` | src/laion_sieve/laion1m_v19_same_resident_paired_formal_runner.cpp:823-833 | the parent reads rows in ascending order, each at most once |
| `SharedBlockRuns.CompleteIsRead` | src/laion_sieve/laion1m_v19_same_resident_paired_formal_runner.cpp:814-833 | when the parent is complete it has read every row, and the value some lane executed it to |
| `SharedBlockRuns.SomeRunCompletes` | src/laion_sieve/laion1m_v19_same_resident_paired_formal_runner.cpp:719-833 | for any number of rows and lanes and any values some run completes, with every row executed and read as its value |
| `EndpointBins.UpperBound` | src/laion_sieve/laion1m_sieve_mixed_pilot_runner.cpp:286-294 | the binary search splits the inner edges at the value |
| `EndpointBins.BinColumn` | src/laion_sieve/laion1m_sieve_mixed_pilot_runner.cpp:286-294 | each valid value gets the bin whose half-open interval holds it, each missing value gets -1 |
| `EndpointBins.ReadNumeric` | src/laion_sieve/laion1m_sieve_mixed_pilot_runner.cpp:266-296 | a column is refused exactly when its edges do not ascend, are not infinite at both ends or not 2 to 257 many, a validity byte is above one or a valid value is not finite; else a missing value has -1 and each other a bin whose half-open interval holds it |
| `EndpointBins.BinIsUnique` | src/laion_sieve/laion1m_sieve_mixed_pilot_runner.cpp:286-294 | a value has one bin, also with repeated edges |
| `EndpointBins.EveryValueHasABin` | src/laion_sieve/laion1m_sieve_mixed_pilot_runner.cpp:286-294 | every value has a bin |
| `EndpointBins.BinsAreIntervals` | src/laion_sieve/laion1m_sieve_mixed_pilot_runner.cpp:384-387 | a bin lies in lo..hi exactly when edges[lo] <= value < edges[hi] |
| `Labels.Matches` | src/laion_sieve/laion1m_sieve_mixed_pilot_runner.cpp:378-398 | the row test, with binary search for tokens, is the meaning of the specification |
| `Labels.IntervalMeansEdges` | src/laion_sieve/laion1m_sieve_mixed_pilot_runner.cpp:384-387 | bin membership is the endpoint test on the value |
| `Labels.CrossIsInjective` | src/laion_sieve/laion1m_sieve_mixed_pilot_runner.cpp:400-406 | different tokens, attributes or bins have different labels |
| `Labels.ExpandedRises` | src/laion_sieve/laion1m_sieve_mixed_pilot_runner.cpp:500-515 | an expanded row is strictly ascending and has one label per token for itself and for each valid attribute |
| `Labels.CrossInExpanded` | src/laion_sieve/laion1m_sieve_mixed_pilot_runner.cpp:500-515 | a cross label is in an expanded row exactly when the row has the token and the bin |
| `Labels.Compile` | src/laion_sieve/laion1m_sieve_mixed_pilot_runner.cpp:408-428 | the label filter accepts an expanded row exactly when the specification holds; an interval outside the endpoint library is refused |
| `LabelSupport.BuildPostings` | src/laion_sieve/laion1m_sieve_mixed_pilot_runner.cpp:346-361 | each token's posting lists its rows, ascending |
| `LabelSupport.FindSupport` | src/laion_sieve/laion1m_sieve_mixed_pilot_runner.cpp:430-454 | intersections, branches and unions of postings give exactly the matching rows |
| `LabelSupport.ExactSupport` | src/laion_sieve/laion1m_sieve_mixed_pilot_runner.cpp:430-462 | the support is exactly the matching rows without the query row, and it is an error exactly when the query row does not match or the size differs |
| `LabelSupport.BuildMetadata` | src/laion_sieve/laion1m_sieve_mixed_pilot_runner.cpp:485-517 | the flat file holds each expanded row between its two offsets; it is refused exactly when the total differs |
| `SplitMix.UnshiftUndoes` | src/laion_sieve/laion1m_v19_same_resident_formal_protocol.h:119-121 | xor-shift can be undone at any width |
| `SplitMix.MixIsBijective` | src/laion_sieve/laion1m_v19_same_resident_formal_protocol.h:117-122 | the finalizer is a bijection on 64-bit words, with an explicit inverse |
| `SplitMix.OneStepCloser` | src/laion_sieve/laion1m_v19_same_resident_formal_protocol.h:117-118 | each advance brings the state one step nearer to any target |
| `SplitMix.StepsReach` | src/laion_sieve/laion1m_v19_same_resident_formal_protocol.h:117-118 | every state reaches every other state |
| `SplitMix.XorBits` | src/laion_sieve/laion1m_v19_same_resident_formal_protocol.h:117-122 | each bit of an exclusive or is one exactly when the two bits differ |
| `SplitMix.MixInWords` | src/laion_sieve/laion1m_v19_same_resident_formal_protocol.h:117-122 | the finalizer in plain words: shifts by 30, 27 and 31 as divisions, two multiplications modulo 2^64 |
| `SplitMix.AdvanceByAdds` | src/laion_sieve/laion1m_v19_same_resident_formal_protocol.h:117-122 | after n advances the state has grown by n times the increment, modulo 2^64 |
| `FrozenPermutation.BoundedDraw` | src/laion_sieve/laion1m_v19_same_resident_formal_protocol.h:124-131 | the rejection loop ends and returns the first accepted draw; bound zero is an error |
| `FrozenPermutation.DrawIsFirstAccepted` | src/laion_sieve/laion1m_v19_same_resident_formal_protocol.h:124-131 | the draw is the first value at or above the threshold along the generator's states, modulo the bound, and the state returned is the one behind it |
| `FrozenPermutation.EveryResidueIsEquallyLikely` | src/laion_sieve/laion1m_v19_same_resident_formal_protocol.h:124-131 | every residue has exactly floor(2^64 / bound) accepted words |
| `FrozenPermutation.EveryResidueIsDrawnEquallyOften` | src/laion_sieve/laion1m_v19_same_resident_formal_protocol.h:117-131 | over the generator's period every residue is drawn equally often |
| `FrozenPermutation.FrozenOrder` | src/laion_sieve/laion1m_v19_same_resident_formal_protocol.h:133-144 | the in-place swaps are the shuffle by those draws |
| `FrozenPermutation.FrozenMeans` | src/laion_sieve/laion1m_v19_same_resident_formal_protocol.h:133-144 | the order step by step: from 0, 1, 2, ... each draw, bounded by the open places and made from the state the last draw left, swaps its place with the last open one |
| `FrozenPermutation.FrozenIsPermutation` | src/laion_sieve/laion1m_v19_same_resident_formal_protocol.h:133-144 | the order is a permutation for every count and seed |
| `FrozenPermutation.ShuffleIsInjective` | src/laion_sieve/laion1m_v19_same_resident_formal_protocol.h:138-142 | different draws give different orders |
| `FrozenPermutation.ShuffleReaches` | src/laion_sieve/laion1m_v19_same_resident_formal_protocol.h:138-142 | every rearrangement is reached by some valid draws |
| `CompactKeys.PositionInRange` | src/laion/compact_support_arena.py:53-79 | every canonical key has a position in its own section |
| `CompactKeys.PositionsAreDistinct` | src/laion/compact_support_arena.py:53-79 | different keys have different positions, for any number of tokens, attributes and blocks |
| `CompactKeys.PositionsKeepOrder` | src/laion/compact_support_arena.py:53-79 | positions keep the order of the keys: pairs before cells, pairs by first and second token, cells by token, attribute and block |
| `CompactKeys.PositionToKey` | src/laion/compact_support_arena.py:82-94 | every position has a key that maps back to it, and the search over pair starts cannot leave the pairs |
| `RankDirectory.OrdinalIsRank` | src/laion/compact_support_arena.py:298-306 | prefix plus masked popcount is the number of selected positions before |
| `RankDirectory.RankCounts` | src/laion/compact_support_arena.py:298-306 | the rank of a position is the number of selected positions before it |
| `RankDirectory.SelectExists` | src/laion/compact_support_arena.py:298-306 | every ordinal is the rank of some selected position |
| `RankDirectory.RankIsInjective` | src/laion/compact_support_arena.py:298-306 | no two selected positions share an ordinal |
| `RankDirectory.RankOfSelected` | src/laion/compact_support_arena.py:205-217 | the k-th selected position has ordinal k |
| `SupportArena.Build` | src/laion/compact_support_arena.py:169-258 | an arena is built exactly when rows and ids fit the limits, positions ascend and are those of the keys, and each row's source has its cardinality, ascends strictly and lies below the id bound; it then holds each row's source between its offsets |
| `SupportArena.BuiltRowResolves` | src/laion/compact_support_arena.py:308-326 | resolving a selected key returns its source; an empty source reads as drift |
| `SupportArena.UnselectedIsRefused` | src/laion/compact_support_arena.py:298-326 | a key that was not selected is refused |
| `SupportArena.CompactArena.Resolve` | src/laion/compact_support_arena.py:308-326 | on any owner a foreign key, a released arena and an unselected key are refused in that order, and a stored ordinal inside the inventory gives its payload; on one whose directory is in order that ordinal is the rank |
| `SupportArena.CompactArena.Contains` | src/laion/compact_support_arena.py:331-339 | a foreign key is not contained, any other key is an error behind a release and otherwise contained exactly when its bit is set |
| `SupportArena.CompactArena.Release` | src/laion/compact_support_arena.py:419-432 | a release gives the two counts once; a second one is an error |
| `SupportArena.CompactArena.Audit` | src/laion/compact_support_arena.py:349-414 | the audit passes exactly when the arena is not released, its sections fit, and the directory and if asked for every payload is in order |
| `SupportArena.DirectoryMeans` | src/laion/compact_support_arena.py:359-377 | what the directory audit checks, bit by bit: counts, offsets that do not fall, a last word without high bits, and before each word the number of selected positions |
| `SupportArena.AuditedRankKeepsOrder` | src/laion/compact_support_arena.py:359-377 | under a passed audit rank keeps the order of the selected positions |
| `SupportArena.AuditedOrdinalIsSelected` | src/laion/compact_support_arena.py:359-377 | under a passed audit every ordinal belongs to a position of the domain |
| `SupportArena.PayloadsAreDisjoint` | src/laion/compact_support_arena.py:378-385 | under a passed audit payloads are disjoint and in bounds |
| `SupportArena.BuiltArenaPassesAudit` | src/laion/compact_support_arena.py:359-361 | a built arena passes the directory audit exactly when the number of positions is not a multiple of 64, or nothing in the last word is selected |
| `SupportArena.AuditBuilt` | src/laion/compact_support_arena.py:143-149 | the full audit that setup makes of what it built passes exactly under that condition and with no empty source |
| `U24View.Open` | src/laion/fixed_block_compositor.py:362-426 | a view is granted exactly when its sections fit and its offsets and rank directory are in order |
| `U24View.ViewMeans` | src/laion/fixed_block_compositor.py:362-426 | what opening a view checks, bit by bit and byte range by byte range |
| `U24View.CompactU24View.PayloadBounds` | src/laion/fixed_block_compositor.py:427-458 | a selected key gets whole three-byte ids inside the payload; the drift branch cannot be taken |
| `U24View.BoundsMean` | src/laion/fixed_block_compositor.py:427-458 | a selected key's range is the one behind as many others as there are selected positions before its own |
| `U24View.PayloadsInOrder` | src/laion/fixed_block_compositor.py:443-458 | payloads follow the key order without overlap |
| `U24View.EveryOrdinalHasAKey` | src/laion/fixed_block_compositor.py:397-410 | since the view does not check bits behind the last position, every ordinal has a key exactly when none of them is set |
| `U24View.StrayViewIsGranted` | src/laion/fixed_block_compositor.py:397-410 | for every shape that leaves a bit of the last word free, a view that selects nothing but such a bit is granted, and its one ordinal is no key's |
| `U24View.FullWordsHaveNoStray` | src/laion/fixed_block_compositor.py:397-410 | for every other shape each ordinal of a granted view is some key's |
| `NeighborUnion.CanonicalNeighborUnion` | src/categorical/build_categorical_shards.cpp:80-115 | the union keeps each valid id that is not the vertex once, in order of first occurrence, and its three counters are the foreign ids, the self ids and all the rest |
| `NeighborUnion.UnionKeepsFirst` | src/categorical/build_categorical_shards.cpp:62-72 | existing edges come first and none is dropped |
| `NeighborUnion.UnionIsFirsts` | src/categorical/build_categorical_shards.cpp:80-115 | the union lists exactly the valid ids of both lists that are not the vertex, in order of first occurrence |
| `NeighborUnion.FirstsAreUnique` | src/categorical/build_categorical_shards.cpp:80-115 | there is one such list |
| `VamanaPass.Forward` | src/categorical/build_categorical_shards.cpp:258-279 | forward lists are canonical; the phase fails exactly when a search returned the vertex itself or a foreign id |
| `VamanaPass.GroupByTarget` | src/categorical/build_categorical_shards.cpp:281-287 | each target's group lists its new sources in batch order |
| `VamanaPass.Reverse` | src/categorical/build_categorical_shards.cpp:293-318 | answering the groups in any order gives each vertex its union or its prune (see BatchMeans), and no id it meets can be fatal |
| `VamanaPass.BatchKeepsGraph` | src/categorical/build_categorical_shards.cpp:258-318 | a batch keeps every list duplicate-free, self-free, in range and within the degree |
| `VamanaPass.BatchMeans` | src/categorical/build_categorical_shards.cpp:258-318 | a batch in plain terms: the batch vertices get the first occurrences of what search returned, the sources of a vertex are the batch vertices that list it, in batch order; its candidates are its list and then the sources not in it; with no source the list stays, within the degree it is the candidates, beyond it the admissible ids that prune returned on the candidates, in order of first occurrence |
| `VamanaPass.EdgesAreAnswered` | src/categorical/build_categorical_shards.cpp:293-301 | the target of a new edge points back, unless its list overflowed and was pruned |
| `VamanaPass.NextSpan` | src/categorical/build_categorical_shards.cpp:243-256 | a round takes exactly 2^k vertices while that is within the cap, leaving the last vertex for later, and then the cap or what is left, without gap, overlap or underflow |
| `VamanaPass.RoundsDouble` | src/categorical/build_categorical_shards.cpp:243-256 | round k begins behind 2^k - 1 vertices while 2^k is within the cap, and later rounds take the cap or what is left |
| `VamanaPass.ScheduleIsUnique` | src/categorical/build_categorical_shards.cpp:243-256 | there is one schedule of batches |
| `VamanaPass.TilesCover` | src/categorical/build_categorical_shards.cpp:243-256 | every index lies in exactly one batch |
| `VamanaPass.EachInsertedOnce` | src/categorical/build_categorical_shards.cpp:243-279 | every shuffled vertex is inserted by exactly one batch of a complete schedule |
| `VamanaPass.CanonicalPass` | src/categorical/build_categorical_shards.cpp:210-331 | the pass ends; its batches follow the schedule, each graph follows from the one before by its own batch (see BatchMeans) and is canonical; the pass fails exactly when a batch's search, on the graph that batch found, returned the vertex itself or a foreign id, and that batch leaves no trace |
| `GraphAudit.AuditGraph` | src/categorical/build_categorical_shards.cpp:152-198 | the audit counts nothing exactly on a canonical graph |
| `Advisor.BruteForce` | src/advisor/fragment_advisor.py:180-198 | the mask loop returns the best value over all selections in the budget |
| `Advisor.CostOfOneMore` | src/advisor/fragment_advisor.py:180-198 | one more chosen unit costs what that unit costs |
| `AdvisorRows.BuildEdges` | src/advisor/fragment_advisor.py:64-72 | edges are exactly the positive benefits, in order |
| `AdvisorRows.EdgesMean` | src/advisor/fragment_advisor.py:64-72 | the edges are the positive benefits, weight times saving, each once, by query and then by saving |
| `AdvisorRows.Encode` | src/advisor/fragment_advisor.py:78-136 | a point meets the written rows exactly when it stays in the budget, serves each query at most once, admits what it assigns and uses what it admits |
| `AdvisorRows.RowsMean` | src/advisor/fragment_advisor.py:78-136 | the rows in words: within the budget, no two edges of one query, no edge to a unit that is not admitted, no admitted unit without an edge |
| `AdvisorOptimum.PointIsBounded` | src/advisor/fragment_advisor.py:93-117 | a feasible point is worth no more than its selection |
| `AdvisorOptimum.PointIsFeasible` | src/advisor/fragment_advisor.py:84-136 | every selection in the budget has a feasible point |
| `AdvisorOptimum.PointIsWorth` | src/advisor/fragment_advisor.py:64-76 | and that point is worth as much |
| `AdvisorOptimum.RowsKeepTheOptimum` | src/advisor/fragment_advisor.py:64-136 | the encoded optimum is the best selection's value |
| `AdvisorOptimum.EncodedOptimum` | src/advisor/fragment_advisor.py:64-198 | encoding and oracle agree on every instance |

## Left out

- Flat byte addressing: vectors are rows of bytes, and a packed fragment is a list of rows.
- Floating point: distances of the range benches and endpoint edges are ordered numbers, costs are integers, weights and densities are reals; rounding, and the cast of 64-bit integers to doubles, are not modelled.
- Graph search, robust prune, HNSW and the integer-program solver: search and prune are arbitrary functions with a stated bound on what they return, and the solver's answer is not modelled, only the optimum of what it is given.
- SHA-256 (section 6.2 of FIPS 180-4): an arbitrary function with 64 lower-case digits; no result needs it to be free of collisions.
- System calls, file reads and process control: the protocol keeps visible names, durable names, sizes and versions; timeouts and signals are steps that may happen at any time.
- Wall-clock deadlines, telemetry, heartbeats, CPU pinning, the post-run memory census and all statistics.
- The exclusive preparation of private files: a name appears with its whole content, as the hard link gives it.
- Parsing of JSON workloads, options and manifests; the checks they make on a predicate or an advisor instance are preconditions here.
- Byte packing of the arena sections: words, counts, offsets and ids are separate arrays; keys are values, so spellings such as `00` of one number are one key.
- SupportArena.CompactArena.Resolve: what a selected key gives when the stored ordinal lies behind the inventory; the program reads whatever bytes are there.
- The audit report of the graph beyond its four failure counts, and the sort of each list by distance at the end of the pass.
- std::sort, std::priority_queue, std::upper_bound and their relatives are modelled by implementations proved here.
- Memory orderings of the shared block: its steps are sequentially consistent.
- The routes of the C and P engines in the layout selector, which only choose among supports modelled here, and the numeric predicates of other runners.
- FragmentSelect.Moves: the moves of one greedy round are listed in catalog order, so which of two moves that save as much per byte and cost as much is taken is not stated.
- FragmentEngine.QueryRange: the total cost of a chosen cover is stated by FragmentCover.ComputeCover and not repeated for the query.
- TopKScan.FourWayTopK: the query vector is fixed when the object is made, where the program sets it before feeding and passes it again at the end.
- CubePlans.Full: the predicate must name two different pairs in a two-pair query, as the workload loader enforces.
- VamanaPass.CanonicalPass: pruning in the reverse phase depends on the vertex and its candidates only, so that answering the groups in parallel cannot change what it returns.
- PassSafety.ReadyCanBeReused: the repository's own controller gives up where a release may be tried again; the step stands for any caller of the adapter.
- PassSafety.NothingIsGrantedAfterStop: the ready name is linked outside the commit lock and may still appear; it authorizes nothing.
