# CacaSudoku local-search engine, modelled in Dafny

This project models the Sudoku engine of `CacaSudoku/Sudoku.cs`. The engine works on a 9x9 grid of `(value, fixed)` cells together with a 2x9 evaluation matrix. That matrix holds, for each row and each column, how many of its entries repeat an earlier one. The score is the sum of the matrix.

- `Generate` fills the free cells of every 3x3 block with the values 1..9 that the block's givens leave over, in random order, then evaluates the grid.
- `IteratedLocalSearch` repeatedly picks a random block and sweeps it.
  - A descent sweep tries every swap of a free position `i` with every position `j` of the block and keeps the swaps that do not make the score worse.
  - Once the score has stayed the same `repAllowed` times in a row, the sweep keeps every swap instead (the random walk).
  - The search stops when the score is 0.

The model is functional. The grid is an immutable `seq<seq<Cell>>`. Every operation is a pure function over a `Sudoku(puzzle, evalMatrix)` value. The random sources are parameters:
- `Generate` takes `choices`. `choices[9 * b + i]`, reduced modulo the number of values left, is the index `rand.Next` returned for free cell `i` of block `b`. Whatever `rand.Next` returns in `Generate` is therefore described by some `choices`.
- The search takes `blocks`, the block picked in each iteration.

Modules, in dependency order:

- `Coordinates`: the cell type, the grid, and the block coordinate map `(p, i) -> (p / 3 * 3 + i / 3, p % 3 * 3 + i % 3)` with its inverse. This map is written out inline six times in the source. The module also holds the block view of a grid and the two-cell exchange.
- `Scoring`: `CountIncorrect` (and the source's seen-set loop), `Evaluate`, the incremental `Update`, and `GetScore` (and the source's double loop).
- `Puzzle`: the puzzle state, the constructor, `FromString` and `Swap` with its acceptance rule.
- `BlockInit`: `Generate`.
  - The source fills the blocks one after another.
  - Block `b` is filled only from block `b`'s own cells and its own nine choices, and blocks do not overlap. So the grid is modelled as every block filled from the original grid (`GenerateGrid`), which is the same result.
- `Search`: the sweeps, one loop iteration (`Step`), the loop as a function (`Run`) and as a method, with the loop's invariant and what a score of 0 means.

Two quirks of the source are kept as written:
- `Swap` exchanges whole cells, fixed flag included. It checks only that cell `j` is free. `SwapCanMoveGiven` shows that a given at position `i` is moved. Only the loop's own check of `i` keeps the givens in place, and `SweepFrom` relies on it.
- The constructor assigns its parameter to itself, so a new puzzle always starts as all `(0, free)` cells with a zero matrix (`NewSudoku`).

At its edges the code does the following, and the model does the same:
- `FromString` reads the first 81 tokens and fails only when there are fewer; the model's error for that is `IndexOutOfRange`.
- `FromString` ignores extra tokens, does no range check, and treats any non-zero value as a given.
- Nothing in `Swap` refuses to move a given at position `i`.
- The repetition counter `rep` is a C# `int` incremented without an overflow check. After 2^31 - 1 iterations in a row with an unchanged score it wraps from `int.MaxValue` to `int.MinValue`, which sends the loop back to descent sweeps. `Increment32` models that addition. Every other count stays far inside `int`: counts and scores lie in 0..144, `sDone` stays in 0..s, and tokens are only compared with 0.

## Model

| member | source | states |
|---|---|---|
| Coordinates.CoordinatesBijective | CacaSudoku/Sudoku.cs:44-46 | The block coordinate map is a bijection of [0,9)x[0,9): (BlockOf, PosOf) inverts (RowOf, ColOf) on both sides, and two different (block, position) pairs never name the same cell |
| Coordinates.BlockCoordinatesRoundTrip | CacaSudoku/Sudoku.cs:126-127 | Position `i` of block `p` lies in block `p`, at position `i` |
| Coordinates.GridCoordinatesRoundTrip | CacaSudoku/Sudoku.cs:139-140 | Every cell (row, col) is position PosOf(row, col) of block BlockOf(row, col) |
| Coordinates.CellInItsBlock | CacaSudoku/Sudoku.cs:167 | A cell of the grid is the cell at its position in its block's view |
| Coordinates.WithBlock | CacaSudoku/Sudoku.cs:179 | Writing a block's nine cells sets exactly that block and leaves every other block as it was |
| Coordinates.SwapCells | CacaSudoku/Sudoku.cs:46 | The tuple exchange: cell i gets cell j's (value, fixed), cell j gets cell i's, and every other cell and every other block is unchanged |
| Coordinates.SwapCellsInvolution | CacaSudoku/Sudoku.cs:46 | Exchanging the same two cells twice gives back the grid |
| Coordinates.SwapCellsKeepsBlockContents | CacaSudoku/Sudoku.cs:46 | An exchange leaves the multiset of values of every block unchanged |
| Coordinates.SwapFreeCellsKeepsGivens | CacaSudoku/Sudoku.cs:44-46 | Exchanging two free cells keeps every given's place and value and every fixed flag |
| Coordinates.BlocksRoundTrip | CacaSudoku/Sudoku.cs:161-183 | Splitting a grid into its nine blocks and joining them again gives the grid back |
| Scoring.CountIncorrect | CacaSudoku/Sudoku.cs:97-112 | The number of repeated occurrences equals the length minus the number of distinct values, and is 0 exactly when no value repeats |
| Scoring.SnocFacts | CacaSudoku/Sudoku.cs:103-109 | Appending a value adds it to the distinct values; the sequence stays duplicate-free exactly when the value was not seen before |
| Scoring.CountIncorrectScan | CacaSudoku/Sudoku.cs:97-112 | The seen-set loop returns length minus distinct count, i.e. CountIncorrect |
| Scoring.CountIncorrectBounds | CacaSudoku/Sudoku.cs:97-112 | For a non-empty line the count lies in 0..length-1 (0..8 for a row or column) |
| Scoring.CountIncorrectOrderInvariant | CacaSudoku/Sudoku.cs:97-112 | The count depends only on the multiset of the line, not on its order |
| Scoring.Row | CacaSudoku/Sudoku.cs:75 | The row line has nine entries, entry col being the value in column col of that row |
| Scoring.Column | CacaSudoku/Sudoku.cs:82-86 | The column line has nine entries, entry row being the value in row row of that column |
| Scoring.Evaluate | CacaSudoku/Sudoku.cs:70-91 | Each row and column entry is 9 minus that line's number of distinct values, and is 0 exactly when the line repeats no value |
| Scoring.Update | CacaSudoku/Sudoku.cs:121-151 | The candidate matrix differs from the stored one only at rows rowI, rowJ and columns columnI, columnJ, which hold the recomputed counts of those lines |
| Scoring.UpdateMatchesEvaluate | CacaSudoku/Sudoku.cs:121-151 | If the stored matrix is the evaluation of the grid before an exchange, the incremental update equals the full evaluation of the grid after it |
| Scoring.GetScoreLoop | CacaSudoku/Sudoku.cs:317-333 | The double loop over the 2x9 array returns the sum of all eighteen entries |
| Scoring.GetScore | CacaSudoku/Sudoku.cs:317-333 | When no entry is negative, the score is non-negative, and 0 exactly when every row entry and every column entry is 0 |
| Scoring.SumZeroIff | CacaSudoku/Sudoku.cs:317-333 | A sum of non-negative entries is non-negative, and zero exactly when every entry is |
| Scoring.ScoreZeroIffLinesDistinct | CacaSudoku/Sudoku.cs:268 | The score of an evaluated grid is non-negative, and 0 exactly when no row and no column repeats a value |
| Scoring.PigeonholeDigits | CacaSudoku/Sudoku.cs:268 | Nine distinct values from 1..9 are exactly 1..9, once each |
| Puzzle.NewSudoku | CacaSudoku/Sudoku.cs:16-23 | Whatever array is passed, the new puzzle is all (0, free) cells with an all-zero matrix |
| Puzzle.FromString | CacaSudoku/Sudoku.cs:209-229 | Fewer than 81 tokens is an out-of-range failure; otherwise token k goes to (k / 9, k % 9), fixed exactly when non-zero, and the matrix is the constructor's zero matrix |
| Puzzle.FromStringTokensRoundTrip | CacaSudoku/Sudoku.cs:217-226 | Reading tokens and listing the grid's values row-major gives back the first 81 tokens, and the givens are exactly the non-zero cells |
| Puzzle.TokensFromStringRoundTrip | CacaSudoku/Sudoku.cs:217-226 | A grid whose givens are exactly its non-zero cells is read back unchanged from its own value list |
| Puzzle.Swap | CacaSudoku/Sudoku.cs:40-63 | A given at j leaves the puzzle unchanged. Otherwise: without eval the result is the exchanged grid with the matrix replaced by the update for that exchange; with eval it is committed or the puzzle is unchanged. With eval the score never rises. Consistency, block contents and other blocks are kept, and so are the givens when i is free |
| Puzzle.SwapAcceptance | CacaSudoku/Sudoku.cs:50-57 | With eval, a free j is committed (grid exchanged, matrix := update) exactly when the updated score is at most the stored one, and reverted when it is strictly greater |
| Puzzle.SwapUndo | CacaSudoku/Sudoku.cs:44-61 | With a consistent matrix, a committed exchange of two free cells is undone by the same exchange, matrix included |
| Puzzle.SwapCanMoveGiven | CacaSudoku/Sudoku.cs:44-46 | With a given at i and a free j, the exchange moves the given to j and the givens are no longer in place |
| BlockInit.RemoveFirst | CacaSudoku/Sudoku.cs:169 | List removal drops one occurrence of the value if present, and nothing otherwise |
| BlockInit.RemoveAt | CacaSudoku/Sudoku.cs:180 | Removal at an index drops exactly that element |
| BlockInit.SplitValues | CacaSudoku/Sudoku.cs:165-176 | A block's values are its givens' values together with its free cells' values |
| BlockInit.RemoveGivens | CacaSudoku/Sudoku.cs:163-171 | The available list is 1..9 minus the givens' values, as multisets |
| BlockInit.Available | CacaSudoku/Sudoku.cs:163-171 | The list left after removing each given of the block once is 1..9 minus the givens, as a multiset |
| BlockInit.Pick | CacaSudoku/Sudoku.cs:178 | The random index is always below the number of values still available |
| BlockInit.AvailableCoversFreeCells | CacaSudoku/Sudoku.cs:163-180 | There are always at least as many available values as free cells, so the random index is always taken from a non-empty list |
| BlockInit.Fill | CacaSudoku/Sudoku.cs:174-182 | Filling keeps every fixed flag and every given, and puts an available value in each free cell |
| BlockInit.FillKeepsFixedValues | CacaSudoku/Sudoku.cs:174-182 | Filling leaves the givens' values, in order, as they were |
| BlockInit.FillUsesAllAvailable | CacaSudoku/Sudoku.cs:174-182 | With exactly as many values as free cells, the free cells receive every available value once |
| BlockInit.FillBlock | CacaSudoku/Sudoku.cs:161-183 | A filled block keeps its fixed flags and givens and holds a value of 1..9 in each free cell |
| BlockInit.AvailableMatchesFreeCells | CacaSudoku/Sudoku.cs:163-171 | With distinct givens from 1..9, the available values number the free cells and complete the givens to 1..9 |
| BlockInit.FillBlockIsPermutation | CacaSudoku/Sudoku.cs:161-183 | With distinct givens from 1..9, a filled block holds each of 1..9 exactly once |
| BlockInit.GenerateGrid | CacaSudoku/Sudoku.cs:161-183 | Every block of the result is its original block filled with its own choices |
| BlockInit.GenerateGridKeepsGivens | CacaSudoku/Sudoku.cs:161-183 | The filled grid keeps every given and fixed flag, and every free cell holds a value of 1..9 |
| BlockInit.GenerateGridArePermutations | CacaSudoku/Sudoku.cs:161-183 | With valid givens in every block, every block of the filled grid holds 1..9 exactly once |
| BlockInit.Generate | CacaSudoku/Sudoku.cs:157-187 | The matrix is the evaluation of the result, givens are kept, free cells are in 1..9, and with valid givens every block is a permutation of 1..9 |
| Search.SwapAll | CacaSudoku/Sudoku.cs:279-282 | The swaps (i, 0..8) keep consistency, block contents and other blocks; with eval the score does not rise; with i free the givens stay |
| Search.SweepFrom | CacaSudoku/Sudoku.cs:275-284 | Sweeping positions whose fixed flag is checked when reached keeps every given, consistency and block contents, and changes no other block; with eval the score does not rise |
| Search.Sweep | CacaSudoku/Sudoku.cs:291-299 | A whole descent or walk sweep of one block keeps the givens, consistency and block contents, and changes no other block; a descent sweep does not raise the score |
| Search.Increment32 | CacaSudoku/Sudoku.cs:306 | The unchecked `rep + 1`: below `int.MaxValue` it is rep + 1, and it always stays within the range of `int` |
| Search.Increment32IsModular | CacaSudoku/Sudoku.cs:306 | The increment is the one `int` value congruent to rep + 1 modulo 2^32, which is two's-complement addition |
| Search.Step | CacaSudoku/Sudoku.cs:270-306 | One iteration keeps the givens, consistency and block contents, and touches only its block. Below repAllowed it is a descent with sDone unchanged. Otherwise a walk advances sDone, wrapping at s, or does nothing once sDone > s. A walk counter in 0..s stays in 0..s |
| Search.StepCountsRepetitions | CacaSudoku/Sudoku.cs:270-306 | rep becomes 0 when the score changed, and otherwise rep + 1, wrapping from `int.MaxValue` to `int.MinValue` |
| Search.StalledWalkWraps | CacaSudoku/Sudoku.cs:273-306 | A walk already past s leaves the puzzle unchanged. At `int.MaxValue` the counter wraps to `int.MinValue`, so the next iteration is a descent whenever repAllowed > `int.MinValue` |
| Search.StepRepBound | CacaSudoku/Sudoku.cs:306 | Below `int.MaxValue`, an iteration raises rep by at most one and never makes it negative |
| Search.StepKeepsReachable | CacaSudoku/Sudoku.cs:263-306 | Each iteration keeps the loop invariant: givens in place, block contents, consistency, rep within `int`, and sDone in 0..s (0 when s < 0) |
| Search.ReachableAtZero | CacaSudoku/Sudoku.cs:268 | Stopping at score 0 from a consistent start means no row or column repeats a value, and a full solution when the blocks started as permutations of 1..9 |
| Search.RowIsPermutation | CacaSudoku/Sudoku.cs:268 | In a grid whose blocks are permutations of 1..9, a row that repeats no value holds 1..9 once each |
| Search.ColumnIsPermutation | CacaSudoku/Sudoku.cs:268 | In a grid whose blocks are permutations of 1..9, a column that repeats no value holds 1..9 once each |
| Search.DistinctLinesSolve | CacaSudoku/Sudoku.cs:268 | Blocks that are permutations of 1..9 plus duplicate-free rows and columns make every row, column and block a permutation of 1..9 |
| Search.RunLength | CacaSudoku/Sudoku.cs:268-307 | The loop runs at most one iteration per remaining block |
| Search.RunStopsAtZero | CacaSudoku/Sudoku.cs:268 | A run that used fewer iterations than there are blocks ended at score 0, and a run of no iterations returns its start |
| Search.RunKeepsReachable | CacaSudoku/Sudoku.cs:263-307 | If every iteration keeps the loop invariant, the state the loop ends in satisfies it |
| Search.RunRepBound | CacaSudoku/Sudoku.cs:306 | If every iteration raises rep by at most one, then after n iterations from rep = r, rep lies in 0..r + n while r + n fits in `int` |
| Search.RunFromStart | CacaSudoku/Sudoku.cs:263-307 | From rep = sDone = 0, the run ends at score 0 or after all blocks; the givens, block contents and consistency are kept; rep lies in 0..n after n < 2^31 iterations; sDone stays in range; score 0 from a consistent generated start is a solved Sudoku |
| Search.SearchLoop | CacaSudoku/Sudoku.cs:268-307 | The while loop computes exactly the state and iteration count that `Run` and `RunLength` describe |
| Search.IteratedLocalSearch | CacaSudoku/Sudoku.cs:261-310 | The result is the iterated `Step` from rep = sDone = 0, stopping at the first score of 0. It stops early only at score 0, and an initial score of 0 returns the puzzle untouched. Givens, block contents and consistency are kept. rep stays in 0..iterations while fewer than 2^31 iterations ran. Score 0 from a consistent generated start is a solved Sudoku |

## Left out

- `Print` and the `verbose` score line: console output only.
- `CacaSudoku/Program.cs`: the command-line driver and a commented-out timing experiment; `Program.cs` is not part of this model.
- `System.Random`: replaced by the `choices` and `blocks` parameters; the generator itself is not modelled.
- String splitting and `int.Parse` in `FromString`: the input is the sequence of parsed integers, and a token that does not parse (`FormatException`) is not modelled.
- The `Puzzle` getter: `FromString` builds the grid directly instead of writing through the returned array, which has the same result.
- The unused `timeTaken` field, the unused initial `lastScore` and the commented-out `IsNumberInBlock`: dead code.
- Search.IteratedLocalSearch: follows at most `|blocks|` iterations, because the source loop need not terminate; nothing is said about runs longer than the blocks given, and in particular that the search ever reaches score 0.
- Search.Step: with a negative walk length `s`, an iteration with `rep >= repAllowed` leaves the puzzle unchanged, and descent resumes only when `rep` wraps to `int.MinValue` (`StalledWalkWraps`). The model states both steps but says nothing about where such a run goes beyond the blocks given.
