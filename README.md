# Match-3 board, modelled in Dafny

This project models the game board of an SDL match-3 game in Dafny. The board is an
8 x 8 grid of gem colours, and each cell holds one of three things:

- a static gem with a colour below the number of gem types;
- Empty (-1);
- Locked (-2), meaning a swap is moving through it.

The player captures a gem with a click and then swaps it with a neighbour, either by
clicking the neighbour or by dragging toward it. While a swap runs, two animated gems
live in a pool of swapping gems. Gem pairs link each animated gem to its partner by
index. When a gem arrives, its colour is written back and `solveBoardAtPos` looks
for runs of three or more through that cell:

- Each run found is erased and scored.
- The static gems above an erased run are handed to the column's falling-gem ring
  buffer, together with fresh gems drawn from `rand()` for the rows that open up at
  the top.

If neither gem of a swap chains, the swap is reverted. Falling gems land on the first
blocked cell below them. A landing in the top row after a player move re-solves the
whole column.

Each frame, `update` does four things:

- refills every column whose queue is empty, with one gem per Empty cell;
- advances a wrapping millisecond clock;
- moves the swapping gems and then the falling gems;
- drops a captured cell whose colour has changed.

The initial board is rejection-sampled so that it contains no run of three. Every
sampled gem is then queued above the board and dropped in.

Modules, one file each:

| file | module | what it holds |
|---|---|---|
| binary32.dfy | Binary32 | single-precision rounding of non-negative numerators, to nearest with ties to even |
| config.dfy | BoardConfig | the constants, the cell encoding and the countdown clock |
| matrix.dfy | Matrix | the bounds-checked matrix, a class over `array2` |
| geometry.dfy | Geometry | conversions between pixels and cells, using C's truncating `int` division |
| selection.dfy | Selection | the click and drag logic as pure functions |
| chains.dfy | Chains | pure functions over a grid snapshot: run limits, run lengths, score, gravity loops, the grid `solveBoardAtPos` leaves, and the match-free board |
| fall_queue.dfy | FallQueue | one column's ring buffer: enqueue, pending count and contents, landing |
| swap_pool.dfy | SwapPool | the swapping-gem and pair value types, swap-with-last removal, the pair and gem re-patching, and the pool invariants |
| batches.dfy | Batches | exactly which gems each board operation enqueues in each column, and how many colours it draws |
| falling.dfy | Falling | one tick of a falling gem, and the column re-solve after a landing |
| board.dfy | GameBoard | class `Board`: the mutable state and every operation, as methods with loops over that state |

The methods that do one board operation are proved against the pure functions of the
other modules. For example:

- `SolveBoardAtPos` leaves `SolvedGrid(old(Grid()), r, c)`. Its queues, draw count,
  score and sound count become `SolvedFeed(...)`: every column receives exactly its
  `SolveBatch(...)`, and the score rises by `ChainScore(...)`.
- An arrival (`PlaceArrivedGem`, `SettleGem`) leaves `SettledGrid(...)` and `SettledFeed(...)`.
- One tick of a falling gem (`FallTick`) leaves `Landed(...)`, or, after a re-solve,
  `ColumnResolved(...)` and `ResolvedFeed(...)`.

The methods that run a whole frame (`UpdateSwappingGems`, `UpdateFallingColumn`,
`UpdateFallingGems`, `MoveGems`, `Update`) are proved only to keep the board's
invariants, and a few more facts each; "## Left out" says which.

The properties the game relies on are proved as lemmas about those functions. Some
examples:

- solveBoardAtPos, solveFallAtPos and the column re-solve only ever empty cells;
- the enqueued gems are the erased ones;
- the ring buffers keep first-in-first-out order;
- pool links survive every removal;
- the initial board is match-free.

`rand()` is a constant function `rand: nat -> nat` of the board, plus a counter
`draws` of the calls made so far. The colour drawn is `rand(draws) % numGemTypes`.
The sound requests are counters `erasedSounds` and `movedSounds`.

`getSecondsLeft` is evaluated in single precision, as the program writes it. Each step
rounds to binary32, to nearest with ties to even:

- `m_time_ms` is converted to float;
- that float is multiplied by `0.001f`, which is 8589935 * 2^-33;
- the product is subtracted from 60;
- the difference is truncated to an `int` and clamped at 0.

Every value involved is a non-negative multiple of 2^-33, so module Binary32 represents a
float by its integer numerator over 2^33. As a result the clock can read one second less
than exact arithmetic gives: 31 at 28000 ms and 18 at 41000 ms.

## Model

| member | source | states |
|---|---|---|
| BoardConfig.StaticGemIffNotSentinel | SDLGame/Board.h:176-178 | for a valid cell value, isStaticGem holds exactly for the gem colours, and fails exactly for Empty (-1) and Locked (-2) |
| BoardConfig.IsStaticGem | SDLGame/Board.h:178 | isStaticGem: the cell is neither kEmptyCellColor nor kSwapCellColor. It is a one-line predicate with no contract of its own; StaticGemIffNotSentinel states what it means for a valid cell |
| BoardConfig.ConstantsAreSane | SDLGame/Board.h:16-22 | kBoardRowsPlusOne is kBoardRows + 1; rows and columns exceed 1; the column count fits the head and tail arrays, which have RowsPlusOne entries |
| BoardConfig.SecondsLeftBounds | SDLGame/Board.h:207-211 | getSecondsLeft in single precision is between 0 and kTotalTime_s. It is 60 at time 0 and 0 once 60000 ms have passed |
| BoardConfig.SecondsLeftMonotone | SDLGame/Board.h:207-211 | in single precision, more elapsed time never shows more seconds left |
| BoardConfig.SecondsLeft | SDLGame/Board.h:207-211 | getSecondsLeft: the single-precision difference truncated to int, with a negative result clamped to 0. The result is always between 0 and kTotalTime_s |
| BoardConfig.TruncatedLeft | SDLGame/Board.h:209 | `static_cast<int>(kTotalTime_s - elapsed)` with the difference rounded to float. It lies between 0 and 60 while the elapsed float is at most 60, and is never positive once the elapsed float exceeds 60 |
| BoardConfig.TotalIsFloat | SDLGame/Board.h:209 | kTotalTime_s, 60, converts to float exactly |
| BoardConfig.ElapsedMonotone | SDLGame/Board.h:209 | the float `m_time_ms * 0.001f` never decreases as m_time_ms grows |
| BoardConfig.TruncatedLeftMonotone | SDLGame/Board.h:209 | a larger elapsed float never leaves more whole seconds |
| BoardConfig.SecondsLeftAt28s | SDLGame/Board.h:207-211 | at 28000 ms the single-precision product is 28.0000019, and getSecondsLeft returns 31, where exact arithmetic gives 32 |
| BoardConfig.SecondsLeftAt41s | SDLGame/Board.h:207-211 | at 41000 ms the product is 41.0000019, and getSecondsLeft returns 18, where exact arithmetic gives 19 |
| Binary32.UlpExpBounds | SDLGame/Board.h:209 | the ulp exponent of n places n in its binade: below 2^24 ulps, and at least 2^23 ulps once n has more than 24 bits |
| Binary32.UlpExpOf | SDLGame/Board.h:209 | a numerator between 2^23 and 2^24 units of 2^k has its ulp at 2^k |
| Binary32.UlpExpMonotone | SDLGame/Board.h:209 | a larger number never has a finer ulp |
| Binary32.RoundToUlpNearest | SDLGame/Board.h:209 | rounding to a multiple of p gives the multiple at or below n or the next one, within p/2 of n |
| Binary32.RoundToUlpIsMultiple | SDLGame/Board.h:209 | the rounded value is a multiple of p |
| Binary32.RoundToUlpMonotone | SDLGame/Board.h:209 | rounding to a fixed ulp is monotone |
| Binary32.RoundNearest | SDLGame/Board.h:209 | rounding to binary32 gives a multiple of the ulp of n, within half an ulp of n |
| Binary32.RoundSmall | SDLGame/Board.h:209 | a number that fits a 24-bit significand is already a float |
| Binary32.RoundedRange | SDLGame/Board.h:209 | the rounded value stays in the binade of n, or reaches its top |
| Binary32.RoundMonotone | SDLGame/Board.h:209 | binary32 rounding is monotone: a larger number never rounds to a smaller float |
| Matrix.Matrix.constructor | SDLGame/Matrix.h:5-9 | a fresh ROWS x COLS matrix whose every cell holds the initial value |
| Matrix.Matrix.GetNumRows | SDLGame/Matrix.h:11 | returns ROWS, the length of the storage's first dimension |
| Matrix.Matrix.GetNumCols | SDLGame/Matrix.h:12 | returns COLS, the length of every row |
| Matrix.Matrix.Get | SDLGame/Matrix.h:19-23 | the const accessor requires row < ROWS and col < COLS, returns that cell's value and reads nothing else |
| Matrix.Matrix.Set | SDLGame/Matrix.h:14-18 | a write through the mutable accessor, with the same bounds precondition, changes cell (row, col) and no other |
| Geometry.CDiv | SDLGame/Board.cpp:49-50 | C `int` division: for a positive divisor the quotient is truncated toward zero, below or above a depending on its sign |
| Geometry.MainLayoutWellFormed | SDLGame/Main.cpp:55-63 | with the game's layout (gem 35 x 35, board 360 x 352), padding is 10 x 9, tiles are 45 x 44, and the board spans no more than its tiles |
| Geometry.TileCenterX | SDLGame/Board.cpp:718-721 | getTileCenterX, given as a formula with no contract of its own. ColByPosOfTileCenter and TileCentersSameRow state its meaning |
| Geometry.TileCenterY | SDLGame/Board.cpp:722-725 | getTileCenterY, given as a formula with no contract of its own. RowByPosOfTileCenter and TileCentersSameRow state its meaning |
| Geometry.ColByPos | SDLGame/Board.cpp:735-738 | getColByPos, for a positive tile width. From column 0's centre onward, x lies in the returned column's span, which starts at that column's centre and is one tile wide. Left of column 0's centre, C's truncation toward zero puts x in the span that ends at the returned column's centre instead |
| Geometry.RowByPos | SDLGame/Board.cpp:731-734 | getRowByPos: the same for y, rows and the tile height |
| Geometry.ColByPosOfTileCenter | SDLGame/Board.cpp:718-738 | getColByPos(getTileCenterX(c)) == c for every column c, of either sign, when the tile width is positive |
| Geometry.RowByPosOfTileCenter | SDLGame/Board.cpp:722-734 | getRowByPos(getTileCenterY(r)) == r for every row r when the tile height is positive |
| Geometry.ClickedCol | SDLGame/Board.cpp:309-312 | mouseEvent's column for an in-bounds x, computed without the padding offset, lies on the board |
| Geometry.ClickedRow | SDLGame/Board.cpp:309-313 | mouseEvent's row for an in-bounds y lies on the board |
| Geometry.TileCentersSameRow | SDLGame/Board.cpp:718-729 | two tile centres share a y (an x) exactly when they are in the same row (column) |
| Selection.Abs | SDLGame/Board.cpp:333-334 | abs returns x or -x, never negative |
| Selection.Toward | SDLGame/Board.cpp:354-364 | the snap offset toward a release point is 1 or -1, and for a non-zero distance it moves one step closer |
| Selection.SwapTarget | SDLGame/Board.cpp:330-364 | rowToSwapWith, colToSwapWith: either (-1, -1) or a cell at Manhattan distance 1 from the captured cell. A press gives the clicked cell or nothing. A release with nothing captured gives nothing |
| Selection.SwapTargetIsNeighbour | SDLGame/Board.cpp:330-366 | the target test `row >= 0 && col >= 0` tells a target from (-1, -1); every target is on the board at Manhattan distance 1 from the captured cell |
| Selection.DragSnapsTowardRelease | SDLGame/Board.cpp:348-364 | a release along the captured cell's row or column picks its immediate neighbour, one step closer to the release point |
| Selection.FirstSelectionReleaseNeverSwaps | SDLGame/Board.cpp:343-348 | a release with nothing captured never yields a swap target |
| Selection.StateAfterClick | SDLGame/Board.cpp:321-379 | the state is SecondSelection afterwards exactly for a press in FirstSelection, or a release over the captured cell in SecondSelection |
| Chains.WithCell | SDLGame/Matrix.h:14-18 | the grid after one cell write: that cell has the new value, every other cell keeps its value |
| Chains.Walk | SDLGame/Board.cpp:148-160 | the walk loop ends on a run limit at or beyond its current position |
| Chains.RunLimit | SDLGame/Board.cpp:141-163 | checkLineChain returns an in-range index on the requested side of the start; every cell passed is a static gem of the start colour; the next cell beyond is outside the board, a different colour, or not static |
| Chains.RunLimitUnique | SDLGame/Board.cpp:141-163 | those properties determine the result: any index that has them is checkLineChain's result |
| Chains.RunFromNonStaticIsTrivial | SDLGame/Board.cpp:146-159 | a walk from an Empty or Locked cell does not move |
| Chains.VerticalLen | SDLGame/Board.cpp:205 | verticalGemChain is between 1 and kBoardRows |
| Chains.HorizontalLen | SDLGame/Board.cpp:206 | horizontalGemChain is between 1 and kBoardCols |
| Chains.ThreeInAColumnErases | SDLGame/Board.cpp:200-208 | three equal static gems in a column through the pivot make eraseVertical true |
| Chains.ThreeInARowErases | SDLGame/Board.cpp:200-209 | three equal static gems in a row through the pivot make eraseHorizontal true |
| Chains.ChainScore | SDLGame/Board.cpp:210-286 | the score with the horizontal length used for a horizontal erase. It is 0 without an erase and the run length for one run. For a cross it is 2 * (v + h - 1), which counts the shared pivot once and doubles the total |
| Chains.ChainScoreAsWritten | SDLGame/Board.cpp:239-285 | the score as lines 278 and 285 write it. It is 0 without an erase, and the vertical length for a vertical-only erase and also for a horizontal-only one. For a cross it is 2 * (2v - 1) |
| Chains.ChainScoreExamples | SDLGame/Board.cpp:210-286 | a run of 3 scores 3, a run of 4 scores 4, and a 3 x 3 cross scores 10 |
| Chains.ChainScoreAsWrittenDiffers | SDLGame/Board.cpp:278 | the source as written scores a horizontal-only run of 3 as 1, and a 3 x 5 cross as 10 instead of 14 |
| Chains.ChainScoresAgreeUnlessHorizontal | SDLGame/Board.cpp:239-285 | the written and intended scores agree whenever no horizontal run fires or it has the vertical run's length |
| Chains.StaticTop | SDLGame/Board.cpp:218-230 | the gravity loop's stopping row: every row from it up to `top` is static, and the row above it is not |
| Chains.StaticTopUnique | SDLGame/Board.cpp:218-230 | those properties determine the stopping row |
| Chains.RandColor | SDLGame/Board.cpp:233 | rand() % m_numGemTypes is a real gem colour |
| Chains.LiftedGems | SDLGame/Board.cpp:218-237 | a gravity loop's k-th enqueued gem falls from row top - k, with that cell's colour on the board and fresh successive draws above it; LiftedCount says how many are enqueued |
| Chains.LiftedGem | SDLGame/Board.cpp:219-236 | the k-th gem starts in row top - k |
| Chains.LiftedPrefix | SDLGame/Board.cpp:218-237 | the first n gems of a gravity loop, element by element |
| Chains.LiftedGemsIsPrefix | SDLGame/Board.cpp:218-237 | the loop enqueues the first LiftedCount gems of the prefix |
| Chains.ColumnEmptied | SDLGame/Board.cpp:213-216 | rows lo..hi of one column become Empty, and every other cell is unchanged |
| Chains.ColumnEmptiedStep | SDLGame/Board.cpp:213-216 | emptying one more row at the bottom is one cell write |
| Chains.ColumnEmptiedNone | SDLGame/Board.cpp:213-216 | an empty row range changes nothing |
| Chains.ColumnEmptiedExtend | SDLGame/Board.cpp:213-216 | emptying one more row at the top is one cell write |
| Chains.ColumnEmptiedMerge | SDLGame/Board.cpp:213-230 | emptying the run and then the static block above it empties the combined range |
| Chains.RowEmptied | SDLGame/Board.cpp:244-247 | columns lo..hi of one row become Empty, and every other cell is unchanged |
| Chains.RowEmptiedExtend | SDLGame/Board.cpp:244-247 | emptying one more column is one cell write |
| Chains.RowEmptiedNone | SDLGame/Board.cpp:244-247 | an empty column range changes nothing |
| Chains.ColumnEmptiedAboveBoard | SDLGame/Board.cpp:221-234 | rows above the board are not cells, so emptying them changes nothing |
| Chains.LiftStopsAt | SDLGame/Board.cpp:218-237 | wherever the gravity loop stops, the emptied rows, enqueued gems and draws are those that StaticTop, LiftedGems and LiftedDraws give |
| Chains.LiftedUpToStart | SDLGame/Board.cpp:218 | the loop state before the first turn |
| Chains.LiftedUpToOnBoard | SDLGame/Board.cpp:221-230 | a static gem on the board is emptied and enqueued from its own row, and the loop moves up one row |
| Chains.LiftedUpToAboveBoard | SDLGame/Board.cpp:231-236 | above the board, a gem of the next drawn colour is enqueued |
| Chains.LiftedUpToEnd | SDLGame/Board.cpp:218-237 | at the loop's exit, the grid, ring, tail and draw count are those the gravity-loop functions give |
| Chains.ColumnEmptiedValid | SDLGame/Board.cpp:213-216 | emptying cells keeps every cell a valid colour |
| Chains.LiftedCount | SDLGame/Board.cpp:218-237 | a gravity loop from `top` down to `limit` enqueues at most top + 1 - limit gems |
| Chains.LiftedDraws | SDLGame/Board.cpp:231-234 | a gravity loop draws at most -limit fresh colours |
| Chains.LiftedGemsAreGems | SDLGame/Board.cpp:218-237 | every enqueued gem has a real colour and starts between `limit` and `top` |
| Chains.SolvedGrid | SDLGame/Board.cpp:198-279 | after solveBoardAtPos, each cell is Empty exactly when it was erased: on a qualifying run, or in the static block above one (ErasedBy). Every other cell keeps its colour |
| Chains.SolvedGridOnlyEmpties | SDLGame/Board.cpp:213-276 | solveBoardAtPos only sets cells to Empty; it never writes a colour and never clears a Locked cell |
| Chains.SolvedGridWithoutEraseIsIdentity | SDLGame/Board.cpp:208-247 | with no run of three through the pivot, the grid is unchanged |
| Chains.SolvedGridEmptiesRuns | SDLGame/Board.cpp:211-247 | with an erase, the pivot and every cell of each qualifying run are Empty afterwards |
| Chains.SolvedGridIsLocal | SDLGame/Board.cpp:211-276 | cells outside the pivot's column span, and cells below the row (other than the run's own column cells), are never touched |
| Chains.PassesInitCheckNoRunEndingHere | SDLGame/Board.cpp:111-120 | a cell that passes init's check ends no run of three leftward or upward |
| Chains.PassingColorExists | SDLGame/Board.cpp:104-120 | with at least three gem types, some colour passes, so the rejection loop can stop |
| Chains.PassingColorPassesCheck | SDLGame/Board.cpp:107-120 | a colour that clashes with neither the left pair nor the upper pair passes checkLineChain's test |
| Chains.MatchFreeStep | SDLGame/Board.cpp:98-122 | placing a passing colour extends the match-free, row-major prefix by one cell |
| Chains.MatchFreeComplete | SDLGame/Board.cpp:98-122 | the finished first pass holds gem colours only and has no horizontal or vertical run of three |
| FallQueue.FreshRing | SDLGame/Board.cpp:82-87 | each column's vector is resized to kBoardRowsPlusOne slots |
| FallQueue.Enqueue | SDLGame/Board.cpp:589-593 | addFallingGem writes the gem at `end`, leaves every other slot alone, and advances `end` modulo rows + 1 |
| FallQueue.EnqueueAll | SDLGame/Board.cpp:589-593 | enqueueing n gems moves the tail n places, modulo rows + 1 |
| FallQueue.EnqueueAllSnoc | SDLGame/Board.cpp:589-593 | enqueueing a list and then one more gem is one more addFallingGem |
| FallQueue.PendingCount | SDLGame/Board.cpp:601-606 | the count update computes is (end - start) mod (rows + 1) |
| FallQueue.Pending | SDLGame/Board.cpp:536-539 | the pending gems are the slots from the head to the tail, and there are PendingCount of them |
| FallQueue.EnqueueAppends | SDLGame/Board.cpp:589-593 | while fewer than Rows gems are pending, an enqueue appends at the back and raises the count by one |
| FallQueue.EnqueueAllAppends | SDLGame/Board.cpp:589-593 | enqueueing a whole list keeps first-in-first-out order, given room for it |
| FallQueue.AdvanceStart | SDLGame/Board.cpp:559 | a landing moves the head to another ring index |
| FallQueue.AdvanceStartDequeues | SDLGame/Board.cpp:559 | on a non-empty queue, a landing removes the oldest pending gem |
| FallQueue.AdvanceStartOnEmptyWraps | SDLGame/Board.cpp:555-559 | a landing on an empty queue makes the column look full, with Rows pending |
| FallQueue.EnqueueWhenFullEmpties | SDLGame/Board.cpp:592 | one enqueue into a column holding Rows gems makes it look empty |
| Falling.Landed | SDLGame/Board.cpp:561-565 | a landing writes the gem's colour into its row only when that row is on the board |
| Falling.Blocked | SDLGame/Board.cpp:545-550 | the landing test: the row below is past the bottom, or is on the board and not Empty. It is a one-line predicate; FallenStaysQueueable and LandingRow state its consequences |
| Falling.Fallen | SDLGame/Board.cpp:543-545 | one row further down. A one-line function; FallenStaysQueueable states that an unblocked gem lands in a free row |
| Falling.FallenStaysQueueable | SDLGame/Board.cpp:544-550 | a gem that is not blocked moves into a free row and stays above the floor |
| Falling.LandingRow | SDLGame/Board.cpp:545-552 | on an unchanging grid, a gem comes to rest in a blocked row at or below where it started |
| Falling.LandingRowIsGap | SDLGame/Board.cpp:545-552 | it rests at the bottom of the gap of Empty cells below it, the gap solveFallAtPos counts |
| Falling.ColumnResolved | SDLGame/Board.cpp:574-580 | the column re-solve, bottom row first, calls solveBoardAtPos on each static gem |
| Falling.ColumnResolvedOnlyEmpties | SDLGame/Board.cpp:574-580 | each later stage of the re-solve only empties cells of the earlier stage |
| Falling.ColumnResolvedLeavesNoRun | SDLGame/Board.cpp:574-580 | after the re-solve, no three equal static gems lie in a line through a cell of that column |
| Falling.ResolvedFeed | SDLGame/Board.cpp:574-580 | the re-solve solves each static gem, bottom row first, on the grid the earlier stages left. Score and draws only grow, with at most one erase sound per row |
| Falling.SilentResolveChangesNothing | SDLGame/Board.cpp:574-580 | a re-solve that plays no erase sound leaves the grid, queues, draws and score as they were |
| Batches.StaticTopDetermined | SDLGame/Board.cpp:218-230 | the gravity loop reads only its own column, at and above `top` |
| Batches.LiftDetermined | SDLGame/Board.cpp:218-237 | so grids that agree there lift the same gems and draw the same number of colours |
| Batches.NoEraseNoBatch | SDLGame/Board.cpp:208-242 | with no run of three through the pivot, nothing is enqueued and nothing is drawn |
| Batches.SolveDraws | SDLGame/Board.cpp:211-277 | the colours solveBoardAtPos draws: none without an erase |
| Batches.SolveBatch | SDLGame/Board.cpp:211-277 | a column receives gems only if it is the pivot column of a vertical erase, or a column of an erased horizontal run |
| Batches.LiftedRowsAreBlock | SDLGame/Board.cpp:218-237 | the gems lifted from the board are exactly the rows of the static block ending at `top` |
| Batches.SolveBatchCarriesErasedGems | SDLGame/Board.cpp:211-277 | each gem solveBoardAtPos enqueues from inside the board is a cell it erased, with that cell's colour; every gem can sit in a queue |
| Batches.VerticalBatchCarries | SDLGame/Board.cpp:218-237 | the same for the pivot column after a vertical erase |
| Batches.HorizontalBatchCarries | SDLGame/Board.cpp:250-277 | the same for another column of an erased horizontal run |
| Batches.HorizontalGemIsErased | SDLGame/Board.cpp:257-276 | each gem that loop takes from inside the board is an erased cell, with that cell's colour |
| Batches.AboveRowRunIsErased | SDLGame/Board.cpp:257-276 | a static cell above the row run, outside a vertically erased pivot column, is erased |
| Batches.ErasedGemsAreInBatch | SDLGame/Board.cpp:211-277 | conversely, every cell erased above a run is in its column's batch, bottom first, with its colour |
| Batches.ErasedGemInPivotBatch | SDLGame/Board.cpp:218-237 | the same for the pivot column |
| Batches.ErasedGemInRunBatch | SDLGame/Board.cpp:250-277 | the same for the other columns |
| Batches.LiftedCoversBlock | SDLGame/Board.cpp:218-237 | row i of the static block is the (top - i)-th gem the gravity loop lifts |
| Batches.VerticalGrid | SDLGame/Board.cpp:211-237 | after the vertical part, the grid is a valid grid |
| Batches.StageGrid | SDLGame/Board.cpp:242-277 | the grid once the runs are erased and the columns before j are lifted |
| Batches.StageQueues | SDLGame/Board.cpp:242-277 | each column's ring has received its batch so far |
| Batches.StageEnds | SDLGame/Board.cpp:242-277 | each column's tail has moved on by its batch so far; the spare index entries are untouched |
| Batches.VerticalStageGrid | SDLGame/Board.cpp:211-237 | emptying the run does not change what the vertical gravity loop sees; it enqueues the pivot column's batch and leaves VerticalGrid |
| Batches.VerticalStageQueues | SDLGame/Board.cpp:211-241 | before the horizontal loops, only the pivot column has received a batch, and only after a vertical erase |
| Batches.RowStage | SDLGame/Board.cpp:242-247 | the row erase after the vertical part gives the first horizontal stage |
| Batches.RowStageCell | SDLGame/Board.cpp:242-247 | at that stage the emptied cells are the row run plus the vertical part's cells |
| Batches.VerticalIsAll | SDLGame/Board.cpp:242 | without a horizontal erase, the vertical part is all solveBoardAtPos does to the grid |
| Batches.HorizontalStageGrid | SDLGame/Board.cpp:250-277 | each horizontal gravity loop sees its column as it was, enqueues that column's batch, and moves the stage on by one column |
| Batches.HorizontalStageLift | SDLGame/Board.cpp:257-276 | the lift at stage j is the one SolveBatch describes |
| Batches.HorizontalStageEmptied | SDLGame/Board.cpp:257-276 | emptying the lifted block of column j gives stage j + 1 |
| Batches.HorizontalStageCell | SDLGame/Board.cpp:257-276 | stage j + 1 adds exactly column j's static block above row r |
| Batches.HorizontalStageQueues | SDLGame/Board.cpp:257-276 | column j's ring is untouched before its loop, and enqueueing its batch gives the queues of stage j + 1 |
| Batches.SkippedStage | SDLGame/Board.cpp:252-256 | the horizontal loop skips the pivot column of a cross, and the stage passes it unchanged |
| Batches.StagesCompleteGrid | SDLGame/Board.cpp:242-279 | once the whole run is lifted, the stage grid is SolvedGrid |
| Batches.StagesComplete | SDLGame/Board.cpp:242-279 | once the whole run is lifted, every column has received its whole batch |
| Batches.GapBelow | SDLGame/Board.cpp:166-172 | positionsToFall: the cells right below are Empty, and the next cell is not Empty or is past the bottom |
| Batches.FallenGrid | SDLGame/Board.cpp:164-197 | solveFallAtPos only empties cells of the column at or above the checked row |
| Batches.FallBatch | SDLGame/Board.cpp:164-197 | the gems solveFallAtPos enqueues: none without a gap below the cell |
| Batches.FallDraws | SDLGame/Board.cpp:190-193 | it draws at most one fresh colour per row of the gap |
| Batches.FallBatchLiftsBlock | SDLGame/Board.cpp:164-197 | with no gap nothing is enqueued; otherwise the static block ending at the checked cell leads the batch, top first, with its colours |
| Batches.RefillGems | SDLGame/Board.cpp:609-617 | every refill gem can sit in a queue |
| Batches.RefillGemsAreEmpties | SDLGame/Board.cpp:609-617 | each refill gem starts one board height above an Empty cell, and the gems start strictly higher as they go |
| Batches.RefillGemsCoverEmpties | SDLGame/Board.cpp:609-617 | every Empty cell gets a refill gem |
| Batches.EmptyCount | SDLGame/Board.cpp:609-612 | the number of Empty cells in rows lo and below is at most Rows - lo |
| Batches.RefillGemsCount | SDLGame/Board.cpp:609-617 | one refill gem per Empty cell |
| Batches.RefillStep | SDLGame/Board.cpp:609-616 | one turn of the refill loop: an Empty cell enqueues a gem of the next draw, any other cell nothing |
| Batches.RefillResult | SDLGame/Board.cpp:599-619 | a column's ring and tail after the refill are a valid ring and index |
| Batches.RefillFillsIdleColumn | SDLGame/Board.cpp:599-619 | an idle column's queue afterwards holds exactly the refill gems, bottom first, without overflowing |
| Batches.RefilledColumnHere | SDLGame/Board.cpp:599-619 | refilling column col from its old state, with the draws the earlier columns left, gives its refilled ring and tail |
| Batches.RefilledUpToStep | SDLGame/Board.cpp:599-619 | refilling one more column moves the refill loop's state on to the next column; only idle columns draw |
| Batches.DrawsBeforeStep | SDLGame/Board.cpp:607-617 | an idle column adds its Empty-cell count to the draws made |
| Batches.RefilledColumnsStep | SDLGame/Board.cpp:599-619 | column col joins the columns already refilled |
| Batches.InitialDrops | SDLGame/Board.cpp:124-133 | init enqueues Rows gems per column |
| Batches.InitialDropsAboveBoard | SDLGame/Board.cpp:124-133 | they start above the board, bottom row first, strictly higher one after another, with the sampled colours |
| Batches.InitialQueueHoldsDrops | SDLGame/Board.cpp:124-133 | in a fresh ring they are exactly the Rows pending gems, in order |
| Batches.DropStep | SDLGame/Board.cpp:129-131 | one cell of init's second pass moves the drop loop on by one cell |
| Batches.DroppedAll | SDLGame/Board.cpp:124-133 | after the pass, every column holds all its drops in order |
| Batches.SolvedFeed | SDLGame/Board.cpp:198-296 | after solveBoardAtPos, each column's ring and tail have received its SolveBatch, and the spare tail entries are untouched. The score and draws only grow, and the score rises exactly when a run is erased. One erase sound is played per erasing call |
| Batches.StagesMakeSolvedFeed | SDLGame/Board.cpp:242-296 | once every column of the run is lifted, drawn for and scored, the queues, draws, score and sound count are SolvedFeed's |
| Batches.SolvedFeedWithoutErase | SDLGame/Board.cpp:208-247 | with no run of three through the pivot, solveBoardAtPos leaves the queues, draws, score and sounds as they were |
| Batches.FallFeed | SDLGame/Board.cpp:164-197 | solveFallAtPos enqueues only into column c and changes no other tail. It scores nothing, plays no sound, and the draws only grow |
| Batches.FallFeedWithoutGap | SDLGame/Board.cpp:164-175 | with no gap below the cell, solveFallAtPos changes none of them |
| Batches.LiftMakesFallFeed | SDLGame/Board.cpp:176-197 | the gravity loop over the gap gives FallFeed |
| SwapPool.SwappingGemsPair.SetGem1Idx | SDLGame/Board.h:55 | setGem1Idx changes gem1Idx only |
| SwapPool.SwappingGemsPair.SetGem2Idx | SDLGame/Board.h:56 | setGem2Idx changes gem2Idx only |
| SwapPool.SwappingGemsPair.SetIsReturning | SDLGame/Board.h:60 | after setIsReturning the pair is returning; nothing else changes |
| SwapPool.SwappingGemsPair.SetHasChained | SDLGame/Board.h:63-69 | after setHasChained(b), hasFinished() is true and hasChained() == b; nothing else changes |
| SwapPool.SwappingGemsPair.IsReturning | SDLGame/Board.h:61 | isReturning reads the returning flag. A one-line accessor; NewPair, SetIsReturning and ReturningIsSticky state it |
| SwapPool.SwappingGemsPair.HasFinished | SDLGame/Board.h:68 | hasFinished: the pair state is not kNotFinished. NewPair and SetHasChained state it |
| SwapPool.SwappingGemsPair.HasChained | SDLGame/Board.h:69 | hasChained: the pair state is kOtherGemChained. NewPair and SetHasChained state it |
| SwapPool.NewPair | SDLGame/Board.h:48-54 | a new pair is not finished, not returning and not chained, and links the two given gems |
| SwapPool.ReturningIsSticky | SDLGame/Board.h:55-69 | no operation clears the returning flag |
| SwapPool.SwappingGem.InvalidatePair | SDLGame/Board.h:92-93 | after invalidatePair, hasValidPair() is false and only the pair index changed |
| SwapPool.SwappingGem.HasValidPair | SDLGame/Board.h:93 | hasValidPair: the pair index is not negative. InvalidatePair and Linked state it |
| SwapPool.NewSwappingGem | SDLGame/Board.cpp:745-774 | a new swapping gem is moving, with the given pair index, destination and colour |
| SwapPool.NewSwappingGemDirection | SDLGame/Board.cpp:754-757 | for adjacent cells the gem moves along x exactly when they share a row, and in the positive direction toward a larger index |
| SwapPool.RemoveElement | SDLGame/Board.cpp:16-29 | the vector shrinks by one, the last element moves into slot idx, and no other slot changes |
| SwapPool.RemoveElementMultiset | SDLGame/Board.cpp:16-29 | exactly the element at idx leaves the vector |
| SwapPool.ReleasePair | SDLGame/Board.cpp:405-420 | corrected releasePair: the pair leaves the pair vector by swap-with-last, and the gems change only in their pair indices |
| SwapPool.ReleasePairAsWritten | SDLGame/Board.cpp:405-420 | releasePair as written: the pair vector loses the pair by swap-with-last, the gems change only in their pair indices, and both gems of the released pair become unpaired |
| SwapPool.Unpair | SDLGame/Board.cpp:407-411 | both gems of the released pair get pair index -1, and no other gem changes |
| SwapPool.Repoint | SDLGame/Board.cpp:414-419 | both gems of the moved pair learn its new index, and no other gem changes |
| SwapPool.ReleasePairKeepsLinks | SDLGame/Board.cpp:405-420 | releasing a pair keeps every remaining pair and gem linked, and unpairs exactly the released pair's gems |
| SwapPool.ReleaseLastPairKeepsLinks | SDLGame/Board.cpp:405-413 | the same when the released pair is the last one |
| SwapPool.ReleaseInnerPairKeepsLinks | SDLGame/Board.cpp:405-419 | the same when the last pair moves into the released slot and is re-pointed |
| SwapPool.ReleasePairAsWrittenAgrees | SDLGame/Board.cpp:414 | releasePair as written agrees with the corrected one unless the moved pair has already finished |
| SwapPool.ReleasePairAsWrittenBreaksLinks | SDLGame/Board.cpp:414 | a concrete pool of two finished pairs where releasePair as written leaves gems pointing past the pair vector |
| SwapPool.RemoveSwappingGem | SDLGame/Board.cpp:423-440 | the gem vector loses idx by swap-with-last; the pairs keep their states |
| SwapPool.RemoveSwappingGemKeepsLinks | SDLGame/Board.cpp:423-440 | after removeSwappingGem, every link is intact and every pair still names the same two gems, wherever they now sit |
| SwapPool.RemoveMovesPairedGem | SDLGame/Board.cpp:428-439 | the same when the last gem is paired and moves into idx |
| SwapPool.RemoveKeepsPairs | SDLGame/Board.cpp:424-428 | the same when no pair needs re-pointing |
| SwapPool.StartSwap | SDLGame/Board.cpp:383-403 | two moving gems are appended, each bound for the other cell with its own colour. A linking pair at indices n and n + 1 is pushed only when addPair is set. Links stay intact |
| SwapPool.StartSwapKeepsQuiescent | SDLGame/Board.cpp:396-400 | starting a swap keeps every gem moving and every pair unfinished |
| SwapPool.LandedRemovedMeansQuiescent | SDLGame/Board.cpp:509-523 | once every remaining gem is moving, no pair can have finished |
| SwapPool.Land | SDLGame/Board.cpp:453 | an arriving gem stops and keeps its pair; no other gem changes |
| SwapPool.LandKeepsPool | SDLGame/Board.cpp:453 | a landing keeps the links and the pool invariants |
| SwapPool.SetHasChainedKeepsPool | SDLGame/Board.cpp:501-504 | recording the first arrival's chain result keeps the links and the pool invariants |
| SwapPool.MarkReturningKeepsLinks | SDLGame/Board.cpp:492 | marking a pair returning changes no link |
| SwapPool.ReleasePairKeepsInvariants | SDLGame/Board.cpp:492-493 | releasing the returning pair keeps the pool invariants, and the gems are unchanged apart from pair indices |
| SwapPool.StartUnpairedSwapKeepsInvariants | SDLGame/Board.cpp:494 | the unpaired swap back keeps the pool invariants |
| SwapPool.RemoveSwappingGemKeepsInvariants | SDLGame/Board.cpp:509-523 | removing an arrived gem keeps the links and invariants; the moving gems form the same multiset, pair indices aside |
| GameBoard.Board.constructor | SDLGame/Board.cpp:31-56 | stores the gem count and layout, then runs init; the board is valid and initialized |
| GameBoard.Board.Init | SDLGame/Board.cpp:58-134 | init resets selection, score, time, pools and flags. The sampled board has only gem colours and no run of three. Afterwards the grid is all Empty and each column's queue holds exactly its Rows initial drops, bottom row first |
| GameBoard.Board.ResetState | SDLGame/Board.cpp:60-94 | state FirstSelection, last click -1, time and score 0, empty pools, fresh rings with head and tail 0, and the player-moved flag cleared |
| GameBoard.Board.FillBoard | SDLGame/Board.cpp:98-133 | both passes: the grid ends Empty, the sampled board is match-free, and every column queues its drops |
| GameBoard.Board.QueueDrops | SDLGame/Board.cpp:124-133 | each column's queue, headed at 0, holds exactly its initial drops |
| GameBoard.Board.SampleBoard | SDLGame/Board.cpp:98-122 | the first pass leaves only gem colours and no run of three |
| GameBoard.Board.SampleCell | SDLGame/Board.cpp:104-120 | the do/while writes one gem colour into the cell, which passes the checkLineChain test, and extends the match-free prefix |
| GameBoard.Board.PickColor | SDLGame/Board.cpp:104-120 | a colour the rejection loop can stop on |
| GameBoard.Board.DropSampled | SDLGame/Board.cpp:124-133 | the second pass empties every cell and enqueues each sampled gem in its column, bottom row first |
| GameBoard.Board.DropCell | SDLGame/Board.cpp:129-131 | one cell is enqueued and then emptied |
| GameBoard.Board.CheckLineChain | SDLGame/Board.cpp:141-163 | the loop over the live grid returns RunLimit |
| GameBoard.Board.AddFallingGem | SDLGame/Board.cpp:589-593 | column col's ring and tail become Enqueue of the gem; no other column changes |
| GameBoard.Board.LiftColumn | SDLGame/Board.cpp:218-237 | a gravity loop empties the static block, enqueues LiftedGems and draws LiftedDraws colours |
| GameBoard.Board.LiftStep | SDLGame/Board.cpp:219-236 | one turn either stops at a non-static cell or moves the loop up one row |
| GameBoard.Board.LiftOnBoard | SDLGame/Board.cpp:221-230 | on the board, an Empty or Locked cell stops the loop; a gem is taken off and enqueued |
| GameBoard.Board.LiftAboveBoard | SDLGame/Board.cpp:231-236 | above the board, a fresh colour is drawn and enqueued |
| GameBoard.Board.SolveBoardAtPos | SDLGame/Board.cpp:198-296 | returns whether a run of three through the pivot exists. The grid becomes SolvedGrid. The queues, draws, score and sounds become SolvedFeed: each column receives exactly its SolveBatch and SolveDraws colours are drawn. The score rises by ChainScore, the corrected rule (see Left out), and one erase sound is requested per erase |
| GameBoard.Board.SolveRuns | SDLGame/Board.cpp:211-279 | the erase-and-lift part gives SolvedGrid and the stage queues for the whole run |
| GameBoard.Board.SolveRow | SDLGame/Board.cpp:242-279 | the same, after the vertical part |
| GameBoard.Board.SolveRowRun | SDLGame/Board.cpp:242-279 | with a horizontal erase: the row is emptied and every column of the run is lifted |
| GameBoard.Board.SolveVertical | SDLGame/Board.cpp:211-240 | the vertical part leaves VerticalGrid and enqueues the pivot column's batch |
| GameBoard.Board.SolveHorizontal | SDLGame/Board.cpp:250-277 | the horizontal loop lifts every column of the run |
| GameBoard.Board.SolveHorizontalStep | SDLGame/Board.cpp:250-256 | one turn skips the pivot of a cross or lifts one column |
| GameBoard.Board.SkipPivot | SDLGame/Board.cpp:252-256 | the skipped pivot column leaves the stage unchanged |
| GameBoard.Board.SolveHorizontalColumn | SDLGame/Board.cpp:257-276 | one column's gravity loop moves the stage on by that column |
| GameBoard.Board.SolveFallAtPos | SDLGame/Board.cpp:164-197 | the grid becomes FallenGrid. The queues, draws, score and sounds become FallFeed: column c receives FallBatch, FallDraws colours are drawn, and nothing is scored |
| GameBoard.Board.CountGapBelow | SDLGame/Board.cpp:166-172 | the positionsToFall loop counts GapBelow, the Empty cells right below the cell |
| GameBoard.Board.SolveSelectionValidity | SDLGame/Board.cpp:297-306 | returns false and resets to FirstSelection exactly when the captured cell's colour has changed |
| GameBoard.Board.MouseEvent | SDLGame/Board.cpp:307-382 | events off the board or on a non-static cell change nothing. A press with nothing captured captures the clicked cell and its colour. A captured cell whose colour has changed is dropped, and nothing else happens. Any other event on a static gem sets the state by StateAfterClick, and starts a swap exactly when the target it picks holds a static gem. A swap starts only between the captured gem and a static neighbour at distance 1; it sets the player-moved flag and requests the move sound |
| GameBoard.Board.Capture | SDLGame/Board.cpp:322-327 | the state becomes SecondSelection, with the clicked cell and its colour captured |
| GameBoard.Board.SecondClick | SDLGame/Board.cpp:328-380 | swaps with the target when it is a static gem, then sets the state by StateAfterClick |
| GameBoard.Board.ClickSwap | SDLGame/Board.cpp:330-371 | a swap starts exactly when SwapTarget gives a target holding a static gem; otherwise nothing changes |
| GameBoard.Board.PlayerSwap | SDLGame/Board.cpp:366-371 | a player swap with a pair, the player-moved flag set and one move sound |
| GameBoard.Board.SwapGems | SDLGame/Board.cpp:383-403 | both cells become Locked, and the pool becomes StartSwap of the two colours |
| GameBoard.Board.ReleasePair | SDLGame/Board.cpp:405-420 | the pool becomes SwapPool.ReleasePair |
| GameBoard.Board.RemoveSwappingGem | SDLGame/Board.cpp:423-440 | the pool becomes SwapPool.RemoveSwappingGem |
| GameBoard.Board.UpdateSwappingGems | SDLGame/Board.cpp:441-524 | afterwards every pooled gem is moving, no pair has finished, the links hold, and every gem that did not arrive is still in the pool |
| GameBoard.Board.LandSwappingGem | SDLGame/Board.cpp:446-506 | one arrival. hasChained says whether writing the gem's colour made a run. The grid passes through SettledGrid, and the queues, draws, score and sounds become SettledFeed. The pair is then resolved as PairResolved says, and the pool invariants hold again. Other gems change only in pair index, and the pool only grows |
| GameBoard.Board.PlaceArrivedGem | SDLGame/Board.cpp:453-480 | the gem stops and its colour is written and solved. The grid becomes SettledGrid and the rest SettledFeed. The gap below is filled when nothing chained and the gem is unpaired, or its partner arrived first and chained |
| GameBoard.Board.StopGem | SDLGame/Board.cpp:453 | the gem stops moving and keeps its pair; the pool invariants hold |
| GameBoard.Board.SettleGem | SDLGame/Board.cpp:454-479 | writes the colour and solves the cell; hasChained says whether a run was erased. The grid becomes SettledGrid and the queues, draws, score and sounds SettledFeed: SolvedGrid and SolvedFeed after an erase; otherwise, when asked, FallenGrid and FallFeed |
| GameBoard.Board.SettledGrid | SDLGame/Board.cpp:454-479 | the grid after an arrival's cell work. The arriving cell holds the gem's colour or is Empty, and is Empty after an erase. Every other cell keeps its value or becomes Empty |
| GameBoard.Board.SettledFeed | SDLGame/Board.cpp:454-479 | the score rises exactly when the arrival chains, with one erase sound then. Score and draws never fall |
| GameBoard.Board.ResolvePair | SDLGame/Board.cpp:482-505 | an unpaired gem changes nothing. The first arrival of a pair records its chain result. The second arrival changes nothing if either side chained; otherwise the swap is reverted |
| GameBoard.Board.ReleaseReturningPair | SDLGame/Board.cpp:491-493 | the pair is marked returning and released; the pool invariants hold again |
| GameBoard.Board.RevertSwap | SDLGame/Board.cpp:488-499 | the revert releases the pair and starts an unpaired swap of the two cells back |
| GameBoard.Board.RemoveArrivedGems | SDLGame/Board.cpp:509-523 | every stopped gem leaves the pool, with its pair released first; the moving gems are kept as a multiset |
| GameBoard.Board.RemoveArrivedGem | SDLGame/Board.cpp:511-521 | one removal shrinks the pool by one, keeps the slots before i, and keeps the moving gems |
| GameBoard.Board.ReleaseArrivedPair | SDLGame/Board.cpp:513-516 | the stopped gem's pair is released |
| GameBoard.Board.UpdateFallingGems | SDLGame/Board.cpp:526-587 | every column's frame keeps the grid and queues valid |
| GameBoard.Board.UpdateFallingColumn | SDLGame/Board.cpp:528-586 | only column c's head moves |
| GameBoard.Board.FallTick | SDLGame/Board.cpp:536-583 | a blocked gem lands: the head of its column advances, and its colour is written when its row is on the board (Landed). A landing in the top row after a player move re-solves the column: ColumnResolved, with the feed ResolvedFeed. Otherwise queues, draws, score and sounds are unchanged. An unblocked gem falls one row and nothing else changes. No other column's head moves |
| GameBoard.Board.LandFallingGem | SDLGame/Board.cpp:553-581 | the landing itself: the head advances, Landed, and the re-solve after a top-row landing with its ResolvedFeed |
| GameBoard.Board.ResolveColumn | SDLGame/Board.cpp:574-580 | the grid becomes ColumnResolved, and the queues, draws, score and sounds ResolvedFeed |
| GameBoard.Board.Update | SDLGame/Board.cpp:595-631 | the frame keeps the board valid; the clock advances by dtMs modulo 2^32 only while the game runs |
| GameBoard.Board.StartFrame | SDLGame/Board.cpp:599-624 | the refill leaves every column as RefilledUpTo says, refilled when idle and untouched otherwise. Then the clock advances by dtMs modulo 2^32 while the game runs |
| GameBoard.Board.MoveGems | SDLGame/Board.cpp:627-628 | the swapping and falling frames keep the pool invariants and the gems that did not arrive |
| GameBoard.Board.Refill | SDLGame/Board.cpp:599-619 | every column ends as RefillResult: refilled when idle, untouched otherwise |
| GameBoard.Board.RefillColumn | SDLGame/Board.cpp:601-617 | an idle column receives its refill gems and draws one colour per Empty cell; a busy column is untouched |
| GameBoard.Board.RefillRow | SDLGame/Board.cpp:609-616 | one turn of the refill loop |
| GameBoard.Board.GetScore | SDLGame/Board.h:206 | returns the current score |
| GameBoard.Board.GetSecondsLeft | SDLGame/Board.h:207-211 | between 0 and 60, equal to SecondsLeft (single precision) of the elapsed milliseconds |
| GameBoard.Board.SetGameRunning | SDLGame/Board.h:213 | sets the running flag |
| GameBoard.Board.EmptyColumnRows | SDLGame/Board.cpp:213-216 | the grid becomes ColumnEmptied |
| GameBoard.Board.EmptyRowCols | SDLGame/Board.cpp:244-247 | the grid becomes RowEmptied |

## Left out

- Rendering, textures, text and debug drawing (`render`, `DrawGrid`, lines 634-716 of Board.cpp) are output only and change no board state.
- Asset loading and audio playback are left out; the two sound requests are counted in `erasedSounds` and `movedSounds`.
- Float motion is abstracted:
  - A swapping gem's position, speed and the `dt_s` integration are replaced by a set `arriving` of gem indices that reach their cell this frame.
  - A falling gem's pixel position, speed and acceleration are replaced by an integer row that moves down one row per tick.
- The float-to-int casts of pixel positions and the pixel start offsets of the initial, fall and refill gems are kept only as the starting row each one implies.
- The `x` a falling gem carries is its column's tile centre, so a landing uses the column of the buffer it is in (`fallCol`), not a column recomputed from pixels.
- `rand()` and `srand(time(nullptr))` are not modelled as a generator; the colour source is the parameter `rand`, fixed at construction.
- GameBoard.Board.PickColor: init's do/while draws `rand()` until a colour passes. The model picks some passing colour directly, without consuming draws, and proves that such a colour exists. Whether the loop terminates is not modelled.
- GameBoard.Board.constructor: requires 3 <= numGemTypes <= 128 and a layout whose tiles cover the board. The source demands neither. With fewer than three types init's loop may never end, the colours are `int8_t`, and the layout is what keeps mouseEvent's pixel-to-cell mapping on the board (it holds for the game's layout, see MainLayoutWellFormed).
- GameBoard.Board.constructor: `m_bGameRunning` is not initialised by the source's constructor; the model starts it at false.
- The debug `assert`s at Board.cpp lines 454, 490, 747 and 755 are not preconditions. The cell invariant every method keeps (each cell Empty, Locked or a gem colour) makes them unnecessary for the model's own checks.
- GameBoard.Board.UpdateFallingGems: proved only to keep the grid and queues valid. It is not tied to a function of the old state, because a landing's re-solve may enqueue gems in the middle of the same pass over the queue. Each tick is stated by FallTick, and each landing by LandFallingGem.
- GameBoard.Board.UpdateFallingColumn: states only that other columns' heads stay put and the board stays valid, for the same reason.
- GameBoard.Board.UpdateSwappingGems: states the pool invariants and that non-arriving gems stay, not the full resulting pool. Each arrival is stated exactly by PlaceArrivedGem and ResolvePair.
- GameBoard.Board.MoveGems: inherits the weaker postconditions of the two frame methods it calls.
- GameBoard.Board.Update: states validity and the clock; the refill, the arrivals and the falling frame are stated by Refill, UpdateSwappingGems and FallTick.
- GameBoard.Board.SolveBoardAtPos: the board scores with the corrected rule ChainScore, which adds the horizontal run length for a horizontal erase. GetScore therefore differs from the program's `m_score` on every horizontal chain. The rule as written is ChainScoreAsWritten (see "## Findings").
- GameBoard.Board.ReleasePair: re-points the gems of the pair moved into the released slot every time. Board.cpp:414 does so only when that pair has not finished. As written, those gems keep an index past the end of the pair vector, which lines 430 and 515 then read (see "## Findings"). ReleaseReturningPair and ReleaseArrivedPair release pairs the same corrected way.
- BoardConfig.SecondsLeft: assumes that each float operation of getSecondsLeft is rounded to binary32. A compiler that keeps x87 extended-precision intermediates could give other values; that evaluation is not modelled.
- FallQueue: a landing advances the head whichever slot landed (the source's own comment says landings should be first-in-first-out, but nothing enforces it). The model keeps that behaviour; only the head index moves, so a later-enqueued gem can land first.
- FallQueue.UnusedSlot stands for the default-constructed slots `resize` creates; their content is never read before it is written.
- The frame time `dt_ms` is taken as whole milliseconds, already truncated by `static_cast<int>`; the float seconds `dt_s` have no other use in the model.
- Geometry: only the integer helpers are modelled; `getCellByPos` is the pair (RowByPos, ColByPos).
- `~Board` and the pointers to the asset and graphics managers are left out.

## Findings

| source | as written | input that shows it | evidently intended | confidence | as-written member | corrected member |
|---|---|---|---|---|---|---|
| SDLGame/Board.cpp:278 | a horizontal erase adds `verticalGemChain` to the score | a horizontal-only run of 3 (vertical length 1) scores 1; a cross of a 3-long column and a 5-long row scores 10 | add `horizontalGemChain`, giving 3 and 14 | not executed | Chains.ChainScoreAsWrittenDiffers | Chains.ChainScore |
| SDLGame/Board.cpp:414 | after swap-with-last, the moved pair's gems are re-pointed only if that pair has not finished | two pairs, both finished (all four gems arrived in one tick), releasing pair 0: pair 1 moves to slot 0 but its gems still name index 1, past the end of the vector | re-point the moved pair's gems whether or not it has finished | not executed | SwapPool.ReleasePairAsWrittenBreaksLinks | SwapPool.ReleasePair |
