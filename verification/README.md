# Cancer cellular automaton — a Dafny model

This project models the state-transition engine of a probabilistic cellular
automaton of tumour growth, written in C. The automaton lives on an N x N grid
stored row-major in a flat integer buffer: cell (i, j) sits at index N * i + j.
A cell is in one of four states: 0 Normal, 1 Cancer, 2 Effector (cytotoxic)
or 3 Dead. A step applies these transitions, each under its own threshold
probability:

- k0: mutation, Normal to Cancer;
- k1: proliferation, where a Cancer cell invades a Normal von Neumann neighbour;
- k2: effection, Cancer to Effector;
- k3: death, Effector to Dead;
- k4: rebirth, Dead to Normal.

The proliferation rate is k1 * (1 - c / 4), where c counts the neighbours
that hold Cancer or the sentinel 111 in `c_automata.c`, and only those equal
to Cancer in `automata.c`. Neighbours are scanned East, South, West, North.

Two versions of the step are modelled:

- `c_automata.c` uses a single row-major pass. A Cancer cell's
  `proliferate` marks the chosen Normal neighbour with the sentinel 111,
  and a closing sweep turns every sentinel into Cancer. The same file has
  the population tally (`type_count`), the rejection-sampling seeder
  (`init_state`), the drivers `iterate` and `iterate_endcount`, and the
  histogram behind `pdf`.
- `automata.c` is an older two-stage variant. Stage 1 applies the
  self-transitions and marks each surviving Cancer cell in a side mask.
  Stage 2 lets each marked cell invade the r-th Normal neighbour, then
  clears its mark.

Randomness is input data. Each cell visit of a step receives a
`CellDraw(r, rp, u)` of reals in [0, 1):

- `r` decides the self-transition;
- `rp` decides proliferation;
- `u` feeds `randint`, which is modelled with the source's own formula
  floor(u * (high - low + 1)) + low.

The seeder receives a finite supply of candidate draws. Every operation is a
pure function over `seq<int>`. The in-place loops are methods on arrays:
`InitState` and `TypeCount` allocate and fill fresh buffers. `RunStep`,
`RunStage1` and `RunStage2` copy the grid (and mask) into fresh arrays and
update them in place. The per-cell helpers `ProliferateInPlace`,
`VisitInPlace`, `InvadeInPlace` and the stage-2 visits act on those arrays.
Each is proved to compute its function. The drivers `Iterate`,
`IterateEndcount`, `PdfRound` and `Pdf` loop over `seq` values and call the
array methods.

Files and modules:

- `results.dfy` (`Results`): `Option` and `Result`.
- `draws.dfy` (`Draws`): draws and `RandInt`.
- `grid.dfy` (`Grid`): states, `within`, `order_neighbours`, and the
  neighbour tallies and lists.
- `counting.dfy` (`Counting`): `type_count`.
- `c_step.dfy` (`CAutomata`): `proliferate` and `step` of `c_automata.c`.
- `c_drivers.dfy` (`CDrivers`): `init_state`, `iterate`,
  `iterate_endcount` and `pdf`.
- `two_stage.dfy` (`TwoStage`): `step` of `automata.c`.

## Model

| member | source | states |
|---|---|---|
| Draws.RandInt | random.c:35-38 | for a unit draw the result lies in [low, high]; for the empty range high = low - 1 it is low |
| Grid.Within | c_automata.c:300-303 | definition of `within` (0 <= i < N and 0 <= j < N); no contract of its own: `Neighbour` states that a direction gives a cell exactly when its coordinates are within the grid; the copy at automata.c:189-192 is identical |
| Grid.Toward | c_automata.c:274-288 | definition of the `switch (k)` offsets: East (i, j + 1), South (i + 1, j), West (i, j - 1), North (i - 1, j); no contract of its own: `Neighbour`, `NeighbourSymmetric` and `NeighboursDistinct` state its properties |
| Grid.Neighbour | c_automata.c:270-303 | direction k gives a cell exactly when the East/South/West/North coordinates are within the grid; then that cell is on the grid and its index decodes back to those coordinates; otherwise the result is None (NULL); the copy at automata.c:159-192 is identical |
| Grid.IndexDecode | c_automata.c:290-292 | row-major addressing N * x + y of an on-grid cell lies in [0, N * N) and decodes back to (x, y) |
| Grid.CellOf | c_automata.c:182-213 | every index the row-major sweep reaches is the image of an on-grid (i, j) |
| Grid.NeighbourSymmetric | c_automata.c:274-288 | stepping from a neighbour in the opposite direction returns to the original cell |
| Grid.NeighboursDistinct | c_automata.c:274-288 | the four directions name pairwise distinct cells, none of them the cell itself |
| Grid.CountUpTo | c_automata.c:236-254 | the running `neigh_n`/`neigh_c` tally is at most the number of directions scanned |
| Grid.DirectionsHoldingStep | c_automata.c:239-253 | scanning one more direction adds it to the counted set exactly when its neighbour exists (a NULL pointer is skipped) and holds the value |
| Grid.CountUpToCardinality | c_automata.c:236-254 | the running tally equals the number of scanned directions whose neighbour holds the value |
| Grid.NormalsUpTo | c_automata.c:245-249 | `norm_neighbours` has `neigh_n` entries, each an on-grid Normal cell |
| Grid.NormalNeighbours | c_automata.c:235-254 | definition of the finished `norm_neighbours` array, the list over all four directions; no contract of its own: `NormalsUpTo` and `NormalsMembership` state its length, contents and membership |
| Grid.NormalsMembership | c_automata.c:236-254 | a cell is in `norm_neighbours` exactly when some scanned direction reaches it and it is Normal |
| Grid.NormalPlace | c_automata.c:236-254 | every Normal neighbour has a place t in `norm_neighbours`, the list holding it at entry t |
| Grid.NormalsPrefix | c_automata.c:245-249 | the Normal-neighbour list only grows by appending, so scanning fewer directions yields a prefix |
| Grid.CountsDisjoint | c_automata.c:245-253 | no neighbour counts towards two values, so two tallies add up to at most the directions scanned |
| Counting.Count | c_automata.c:451 | a tally of s is at most its length |
| Counting.CountIsCardinality | c_automata.c:451 | the tally of v is the number of positions holding v |
| Counting.CountUpdate | c_automata.c:451 | overwriting one cell moves at most one unit between tallies |
| Counting.CountsPartition | c_automata.c:435-455 | when every cell holds one of the four states, the four tallies sum to the cell count |
| Counting.CountUniform | c_automata.c:435-455 | on a constant sequence the tally is the length for that value and 0 for every other |
| Counting.TypeCount | c_automata.c:435-455 | requires every cell in 0..3 (the sweep indexes `output` by the cell); `output[s]` is the number of cells equal to s, and the four sum to N * N; the copy at automata.c:248-268 is identical |
| Counting.TypeCounts | c_automata.c:435-455 | definition of the four-entry result `output[0..3]`, indexed by state; no contract of its own: `TypeCount` states its entries are the per-state tallies and `CountsPartition` that they sum to the grid size |
| CAutomata.CancerNeighbours | c_automata.c:250-253 | `neigh_c` counts neighbours holding Cancer or the sentinel, at most 4 |
| CAutomata.CancerLike | c_automata.c:250 | definition of the test that `*p` is 1 or TEMP_CANCER; no contract of its own: `CancerNeighbours` counts exactly these values, and `ClassesDecide` uses it to class neighbours |
| CAutomata.RateBounds | c_automata.c:258 | k1 * (1 - c / 4) lies in [0, k1], falls as c grows, is k1 for c = 0 and 0 for c = 4 |
| CAutomata.AdjustedRate | c_automata.c:258 | definition of k1' = k1 * (1 - c / 4); no contract of its own: `RateBounds` states its range, its monotonicity and its values at c = 0 and c = 4 |
| CAutomata.CompetitionRate | c_automata.c:256-258 | definition of k1' at (i, j) with c = `CancerNeighbours`; no contract of its own: `RateDependsOnClasses` states it depends only on the neighbours' classes |
| CAutomata.ClassesDecide | c_automata.c:236-254 | only a neighbour's class counts (Normal, Cancer or sentinel, or neither): grids that agree class by class give the same Normal list and the same Cancer tally, so Effector and Dead neighbours count towards neither |
| CAutomata.RateDependsOnClasses | c_automata.c:256-260 | hence the adjusted rate and the invasion candidates depend only on the neighbours' classes |
| CAutomata.Proliferate | c_automata.c:227-267 | at most one cell changes, a Normal neighbour that becomes the sentinel; something changes exactly when the draw beats k1 * (1 - c / 4) and some neighbour is Normal |
| CAutomata.ProliferateMarksChosen | c_automata.c:256-265 | once the draw beats k1', a draw u with randint(u, 0, n - 1) = t marks entry t of `norm_neighbours` and changes nothing else |
| CAutomata.ProliferateReaches | c_automata.c:256-265 | once the draw beats k1', every Normal neighbour is marked by some integer draw; with the contract of `Proliferate`, a cell can be marked exactly when it is a Normal neighbour and the test passes |
| CAutomata.ScanNeighbours | c_automata.c:235-254 | the buffer scan leaves `norm_neighbours` as the Normal neighbours in East, South, West, North order, `neigh_n` as its length, and `neigh_c` as the number of Cancer or sentinel neighbours |
| CAutomata.ProliferateInPlace | c_automata.c:227-267 | the buffer version computes `Proliferate` |
| CAutomata.Visit | c_automata.c:187-211 | one visit keeps the grid size; what it does to each cell is stated by `VisitPreserves` |
| CAutomata.Pass | c_automata.c:182-213 | the pass keeps the grid size; its effect is stated by `PassInvariantHolds` |
| CAutomata.Step | c_automata.c:176-224 | `step` keeps the grid size; its effect is stated by `StepFates` |
| CAutomata.Resolve | c_automata.c:215-223 | the sentinel sweep keeps the length; every sentinel becomes Cancer and every other value is kept, so no TEMP_CANCER remains |
| CAutomata.MarkedHasCancerNeighbour | c_automata.c:260-265 | a cell marked by the Cancer cell being visited has that cell as a neighbour |
| CAutomata.ProliferateMarks | c_automata.c:194-201 | the cells a Cancer cell's proliferation marks are Normal cells other than itself, each turned into the sentinel and each next to a cell that was Cancer when the step began |
| CAutomata.VisitCancerPreserves | c_automata.c:194-201 | visiting a Cancer cell keeps the pass invariant: it marks at most a Normal neighbour, then maybe turns Effector |
| CAutomata.VisitPreserves | c_automata.c:187-211 | every visit keeps the pass invariant: unvisited cells are untouched or marked, visited cells followed their transition, marked cells neighbour a Cancer cell of the starting grid |
| CAutomata.PassInvariantHolds | c_automata.c:182-213 | the pass invariant holds after every prefix of the row-major pass |
| CAutomata.StepFates | c_automata.c:176-224 | after `step` no sentinel remains and cells stay in 0..3; Normal ends Normal or Cancer (surely Cancer on mutation), Cancer ends Cancer or Effector, Effector ends Effector or Dead, Dead ends Dead, Normal or Cancer; a new Cancer cell that neither was Cancer nor mutated neighbours a cell that was Cancer at the start, so there is no same-step cascade |
| CAutomata.PassZeroProbs | c_automata.c:187-211 | with every threshold 0 the pass changes nothing |
| CAutomata.StepZeroProbs | c_automata.c:176-224 | with every threshold 0 and draws in [0, 1) the grid is a fixed point of `step` |
| CAutomata.StepAllMutate | c_automata.c:190-193 | with k0 >= 1 an all-Normal grid is all-Cancer after one step |
| CAutomata.StepAllNormalFixed | c_automata.c:190-193 | with k0 <= 0 an all-Normal grid is a fixed point, since nothing can invade it |
| CAutomata.VisitInPlace | c_automata.c:187-211 | the buffer visit of one cell computes `Visit` |
| CAutomata.RunPass | c_automata.c:182-213 | the row-major buffer pass computes the full `Pass` |
| CAutomata.ResolveSweep | c_automata.c:215-223 | the sweep computes `Resolve`, so no sentinel remains |
| CAutomata.RunStep | c_automata.c:176-224 | the buffer version of `step` computes `Step`, leaves no sentinel, and keeps cells in 0..3 |
| CDrivers.PickIndex | c_automata.c:150-153 | the cell `init_state` draws is always on the grid |
| CDrivers.Place | c_automata.c:148-159 | the rejection loop keeps the grid size; its outcome is stated by `PlaceCounts`, `PlaceSucceeds` and `InitStateOutcome` |
| CDrivers.AllNormal | c_automata.c:143-146 | the cleared grid is valid and every cell is Normal |
| CDrivers.InitSpec | c_automata.c:143-159 | definition of `init_state`: clear, then the rejection loop; no contract of its own: `InitStateOutcome`, `InitStateOverfull` and `InitStateFeasible` state its outcome |
| CDrivers.PlaceCounts | c_automata.c:148-159 | the loop invariant "`placed` equals the number of Cancer cells" carries to the end: exactly m Cancer and N * N - m Normal cells |
| CDrivers.PositionsMark | c_automata.c:153-157 | marking a cell Cancer adds exactly that cell to the set of Cancer cells |
| CDrivers.PlaceSucceeds | c_automata.c:148-159 | the loop finishes exactly when the cells already Cancer and the cells the supply names number at least m |
| CDrivers.InitStateOutcome | c_automata.c:135-160 | `init_state` finishes exactly when the supply names at least m distinct cells, and then leaves m Cancer and N * N - m Normal cells |
| CDrivers.InitStateOverfull | c_automata.c:148-159 | with m > N * N no supply of draws lets the loop finish (the source never terminates) |
| Draws.ScaledDraw | random.c:35-38 | `randint(0, N - 1)` maps the draw x / N back to x, for every 0 <= x < N |
| CDrivers.CellPickIndex | c_automata.c:150-153 | every cell id is named by some candidate: the draws (id / N) / N and (id % N) / N pick row id / N and column id % N |
| CDrivers.SweepFrom | c_automata.c:148-159 | a supply of valid candidate draws, one per cell from k on; `SweepFromNames` states exactly which cells it names |
| CDrivers.SweepFromNames | c_automata.c:148-159 | drawing the cells k .. N * N - 1 in row-major order names exactly those cells |
| CDrivers.SweepFinishes | c_automata.c:148-159 | with m <= N * N, drawing every cell once lets the rejection loop finish |
| CDrivers.InitStateFeasible | c_automata.c:135-160 | some supply of draws lets `init_state` finish exactly when m <= N * N |
| CDrivers.PickedInGrid | c_automata.c:150-153 | every cell a supply names lies in [0, N * N) |
| CDrivers.IndicesBounded | c_automata.c:148-159 | at most N * N distinct cells exist to be placed |
| CDrivers.InitState | c_automata.c:135-160 | the buffer version zeroes the grid and samples: it computes `InitSpec`, succeeds iff enough distinct cells are drawn, and places exactly m Cancer cells |
| CDrivers.Run | c_automata.c:82-86 | n steps keep the grid size |
| CDrivers.RunValid | c_automata.c:112-115 | any number of steps keeps every cell in 0..3, so the tallies stay defined |
| CDrivers.RowsAppend | c_automata.c:85 | writing four counts after a table of whole rows puts them at the next row index |
| CDrivers.Flatten | c_automata.c:82-86 | a table of n rows of four counts has 4 * n entries; `FlattenRows` states where each row lands |
| CDrivers.FlattenRows | c_automata.c:85 | row t of the flat table (entries 4t to 4t + 3) is the t-th row written |
| CDrivers.History | c_automata.c:82-86 | n steps give n rows of four tallies |
| CDrivers.HistoryRows | c_automata.c:82-86 | row t of the history is the tally after t + 1 steps and sums to N * N |
| CDrivers.HistoryExtend | c_automata.c:84-85 | one more step extends the evolution and appends its tallies at `out_counts[i * 4]` |
| CDrivers.HistoryTable | c_automata.c:82-86 | read row by row, the flat history holds the tallies after each step, each summing to N * N |
| CDrivers.StepAndCount | c_automata.c:84-85 | one round steps the grid, which stays valid, and tallies the result, the four counts summing to N * N |
| CDrivers.Iterate | c_automata.c:76-87 | row t of `out_counts` holds the `type_count` after t + 1 steps, each row summing to N * N, and the grid ends as the n-fold step |
| CDrivers.IterateEndcount | c_automata.c:106-118 | the final grid is the n-fold step, and the counts are its tallies summing to N * N |
| CDrivers.RunAllNormalFixed | c_automata.c:112-115 | without mutation an all-Normal grid stays all-Normal for any number of steps |
| CDrivers.FinalCancer | c_automata.c:39-42 | a realization's final Cancer count is at most N * N |
| CDrivers.FinalCounts | c_automata.c:37-43 | one final count per realization |
| CDrivers.FinalCountsBounded | c_automata.c:37-43 | every final count lies in [0, N * N], so N * N + 1 buckets are needed |
| CDrivers.FinalCountsFailureSticks | c_automata.c:37-43 | once a seeding runs out of candidates the whole run fails |
| CDrivers.FinalCountsGrow | c_automata.c:37-43 | a realization ending with count c appends c to the final counts |
| CDrivers.FinalCountsStop | c_automata.c:37-43 | a realization whose seeding runs out makes the whole run fail |
| CDrivers.Realization | c_automata.c:39-42 | one realization seeds and evolves the grid; its final Cancer count exists exactly when the seeding finishes and is at most N * N |
| CDrivers.Tally | c_automata.c:42 | a successful histogram has the buffer's length |
| CDrivers.TallySucceeds | c_automata.c:42 | the increments stay in bounds exactly when every final count has a bucket |
| CDrivers.TallyCounts | c_automata.c:37-43 | bucket k holds the number of realizations that ended with k Cancer cells, and the buckets sum to the number of realizations |
| CDrivers.SumIncrement | c_automata.c:42 | one increment adds one to the histogram's total |
| CDrivers.SumZeros | c_automata.c:34 | the freshly zeroed histogram totals 0 |
| CDrivers.TallyExtend | c_automata.c:42 | counting one more in-range final count increments exactly its bucket |
| CDrivers.PdfRound | c_automata.c:38-43 | one round of the loop extends the final counts and the histogram together, or fails exactly when its seeding runs out, and then the whole run fails |
| CDrivers.HistogramOf | c_automata.c:34-43 | definition of `pdf`'s histogram over a given number of buckets; no contract of its own: `TallySucceeds` and `TallyCounts` state when it succeeds and what its buckets hold |
| CDrivers.Histogram | c_automata.c:34-43 | definition of the histogram with N * N + 1 buckets, the corrected size; no contract of its own: `HistogramCorrect` states it is the exact tally and never overflows |
| CDrivers.HistogramAsWritten | c_automata.c:34-43 | definition of the histogram with the N * N buckets of line 34, as written; no contract of its own: `PdfAsWrittenOverflows` and `PdfOverflowWitness` show it overflows |
| CDrivers.HistogramCorrect | c_automata.c:28-53 | with N * N + 1 buckets the histogram never overflows, fails only when a seeding runs out, and otherwise tallies the final counts with `runs` increments in all |
| CDrivers.PdfAsWrittenOverflows | c_automata.c:34-42 | with N * N buckets, any realization ending all-Cancer writes past the end |
| CDrivers.PdfOverflowWitness | c_automata.c:34-42 | concretely, a 1 x 1 grid seeded with one Cancer cell and run for 0 steps overflows the one-bucket buffer at index 1 |
| CDrivers.Pdf | c_automata.c:28-53 | the buffer version (N * N + 1 buckets) computes `Histogram` and succeeds iff every seeding succeeds; by `HistogramCorrect` it then tallies the final counts with `runs` increments |
| CDrivers.PdfNoCancer | c_automata.c:28-53 | with no initial Cancer cells and no mutation all the mass sits in bucket 0 |
| CDrivers.NoCancerFinals | c_automata.c:37-43 | every such realization ends with zero Cancer cells |
| TwoStage.Stage1 | automata.c:53-88 | the grid and mask keep their size; a mask entry changes only to 1, and only at a cell that was Cancer and stays Cancer |
| TwoStage.Stage1Cell | automata.c:59-85 | a mask entry changes only to 1, at a cell that was Cancer and stays Cancer; the value changes exactly when one of the four thresholds is beaten (`Stage1Moves`); `Stage1Outcome` gives the full table |
| TwoStage.Stage1Outcome | automata.c:62-84 | from a clear mask: N to C iff r < p0, C to E iff r < p2, E to D iff r < p3, D to N iff r < p4; exactly the Cancer cells that did not become Effector get mask 1, every other entry is 0 |
| TwoStage.Invade | automata.c:128-149 | the selection scan keeps the grid size |
| TwoStage.InvadeSelects | automata.c:126-149 | the scan turns the r-th Normal neighbour in East, South, West, North order into Cancer, or changes nothing when there are fewer |
| TwoStage.NormalEntry | automata.c:132-141 | a Normal neighbour in direction k is entry number (Normal neighbours before k) of the full list, which is one longer after k |
| TwoStage.Stage2CancerNeighbours | automata.c:100-117 | stage 2's `neigh_c` counts only neighbours equal to 1, so it is at most the `c_automata.c` count of neighbours holding 1 or 111, and at most 4 |
| TwoStage.Invasion | automata.c:98-150 | at most one cell changes, a Normal neighbour that becomes Cancer; something changes exactly when the draw beats probs[1] * (1 - c / 4), with c the neighbours equal to 1, and some neighbour is Normal (with none, nothing changes even when the draw passes) |
| TwoStage.InvasionReaches | automata.c:119-149 | once the draw beats k1', every Normal neighbour is invaded by some integer draw |
| TwoStage.Stage2Visit | automata.c:96-152 | the grid and mask keep their size |
| TwoStage.Stage2Pass | automata.c:91-155 | the grid and mask keep their size after any prefix of the sweep |
| TwoStage.TwoStageStep | automata.c:45-156 | the grid and mask keep their size |
| TwoStage.InvadedHasMaskedNeighbour | automata.c:132-141 | an invaded cell has the masked invader among its neighbours |
| TwoStage.Stage2VisitPreserves | automata.c:96-152 | each stage-2 visit keeps the invariant: visited entries equal to 1 are cleared, other entries are untouched, and changed cells went from Normal to Cancer next to a cell masked when stage 2 began |
| TwoStage.Stage2InvariantHolds | automata.c:91-155 | that invariant holds after every prefix of the stage-2 sweep |
| TwoStage.MaskCleared | automata.c:74-151 | every mask entry equal to 1 after stage 1 is 0 after stage 2, and the others are unchanged |
| TwoStage.TwoStageFates | automata.c:45-156 | from a clear mask the mask ends clear and cells stay in 0..3; every cell satisfies the same per-cell fate predicate `StepFate` as in `c_automata.c` (the two steps need not agree on the same draws); a new Cancer cell that neither was Cancer nor mutated neighbours a Cancer cell that survived stage 1, so cells invaded in stage 2 never invade in the same step |
| TwoStage.TwoStageZeroProbs | automata.c:45-156 | with every threshold 0 and a clear mask the grid and mask are a fixed point |
| TwoStage.NoInvasionAtZeroRate | automata.c:119-123 | with probs[1] = 0 stage 2 changes no cell |
| TwoStage.InvadeInPlace | automata.c:128-149 | the buffer scan with its early exit computes `Invade` |
| TwoStage.Stage2VisitInPlace | automata.c:98-151 | the buffer visit of a masked cell computes `Invasion` and clears the mask entry |
| TwoStage.Stage2AtInPlace | automata.c:96-153 | the buffer visit of any cell computes `Stage2Visit` |
| TwoStage.Stage2RowInPlace | automata.c:94-154 | one row of the buffer sweep advances `Stage2Pass` by N cells |
| TwoStage.Stage2Rows | automata.c:90-155 | the row loop over already allocated buffers advances from the stage-1 result to the full `Stage2Pass` |
| TwoStage.RunStage1 | automata.c:53-88 | the buffer version of stage 1 computes `Stage1` |
| TwoStage.RunStage2 | automata.c:90-155 | the buffer version of stage 2 computes the full `Stage2Pass` |
| TwoStage.RunTwoStageStep | automata.c:45-156 | the buffer version of `step` computes `TwoStageStep`; from a clear mask and a valid grid the mask ends clear and cells stay in 0..3 |

## Left out

- Console output and timing are not modelled, as they are I/O only: `automata_print`, `rep`, `iterate_display` and its `usleep`. Also left out is the `iterate` of `automata.c`, which prints, sleeps and hard-codes its probabilities.
- The random generator (`rand_init`, `randdouble`) is replaced by supplied draws in [0, 1), and so are the reseeding calls inside `iterate`, `iterate_endcount` and `init_state`. `randdouble` divides by `RAND_MAX` and so can return 1.0, which would let `randint` return high + 1. The model assumes the intended [0, 1) range instead.
- Draws are indexed by cell rather than consumed as one stream. A visit that does not use all three draws of its `CellDraw` simply leaves them unused. The source's draw order therefore only matters up to this re-indexing.
- The floating-point division of `pdf` by `runs`, which turns counts into frequencies, is left out. Only the integer histogram is modelled.
- `Pdf`'s histogram is sized N * N + 1 rather than the source's N * N. The as-written size is kept as `HistogramAsWritten`; see Findings.
- CDrivers.InitState: the source's unbounded rejection loop runs over a finite supply of candidates here, with None when the supply runs out. Termination appears as "the supply names at least m distinct cells", and the source's hang for m > N * N appears as None for every supply.
- Allocation (`arr_alloc`, `calloc`, the `exit` on failure) and the print helpers of `arrays.c` are left out. The mask's zero start appears as the clear-mask precondition.
- Several declarations in `c_automata.h` are not part of this model: `Params`, `model_simple`, `model_extend`, `cell_density`, `pdf_rolling`, `rng_initialize` and `rng_free`. They have no implementation among the modelled sources.
- `scrap.c`, `test_automata.c`, `test_benchmark.c` and `setup.py` are scratch code, demo drivers and build configuration.
- C `double` is modelled as exact `real`: probabilities and draws are exact reals, and floating-point rounding of `k1_prime` (c_automata.c:258, automata.c:121) and of the product inside `randint` (random.c:37) is not modelled. A comparison such as `r < k1_prime` is decided on the exact value.
- C `int` overflow is not modelled. Grid sizes, counts and the histogram use unbounded integers, on the understanding that N * N + 1 fits in an `int`.

## Findings

| source | as written | input that shows it | evidently intended | confidence | as-written member | corrected member |
|---|---|---|---|---|---|---|
| c_automata.c:34-42 | `temp_output` holds N * N buckets, but it is indexed by the final Cancer count, which can be N * N | N = 1, c_cells = 1, steps = 0, runs = 1: the final count is 1 and the increment writes `temp_output[1]` in a one-element buffer | N * N + 1 buckets, one for each count 0 .. N * N (the output copy at lines 46-49 would need the same length) | not executed | CDrivers.PdfAsWrittenOverflows | CDrivers.HistogramCorrect |
