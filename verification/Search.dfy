/**
 The iterated local search. One iteration picks a block and sweeps it:
 every free position i of the block is tried against every position j,
 either keeping only the swaps that do not worsen the score (descent) or
 keeping all of them (random walk). A repetition counter switches to the
 walk once the score has stayed put too often.

 The random block of each iteration is a parameter: `blocks[n]` is the
 block the generator returned in iteration n. The search runs until the
 score is 0 or the given blocks are used up, so the length of `blocks`
 bounds the number of iterations the model follows.
 */
module Search {
  import opened Coordinates
  import opened Scoring
  import opened Puzzle

  /** The score the search drives to 0. */
  function Score(s: Sudoku): int {
    GetScore(s.evalMatrix)
  }

  /** Blocks other than `p` are the same in both grids. */
  predicate OnlyBlockChanged(g: Grid, h: Grid, p: Index) {
    forall q: Index | q != p :: BlockCells(h, q) == BlockCells(g, q)
  }

  lemma SameBlockContentsTransitive(g: Grid, h: Grid, k: Grid)
    requires SameBlockContents(g, h) && SameBlockContents(h, k)
    ensures SameBlockContents(g, k)
  {
  }

  /**
   The swaps (i, j), (i, j + 1), ..., (i, 8) of block `p`, in that order.
   Starting from a free position i, the givens stay where they are.
   */
  function SwapAll(s: Sudoku, p: Index, i: Index, j: nat, eval: bool): (r: Sudoku)
    requires j <= 9
    ensures eval ==> Score(r) <= Score(s)
    ensures Consistent(s) ==> Consistent(r)
    ensures SameBlockContents(s.puzzle, r.puzzle)
    ensures OnlyBlockChanged(s.puzzle, r.puzzle, p)
    ensures !IsFixed(s, p, i) ==> KeepsGivens(s.puzzle, r.puzzle)
    decreases 9 - j
  {
    if j == 9 then s
    else
      var t := Swap(s, p, i, j, eval);
      var r := SwapAll(t, p, i, j + 1, eval);
      SameBlockContentsTransitive(s.puzzle, t.puzzle, r.puzzle);
      assert !IsFixed(s, p, i) ==> KeepsGivens(s.puzzle, r.puzzle) by {
        if !IsFixed(s, p, i) {
          assert !IsFixed(t, p, i);
          KeepsGivensTransitive(s.puzzle, t.puzzle, r.puzzle);
        }
      }
      r
  }

  /**
   Positions i, i + 1, ..., 8 of block `p`: each one that is free when it
   is reached is swapped with every position of the block.
   */
  function SweepFrom(s: Sudoku, p: Index, i: nat, eval: bool): (r: Sudoku)
    requires i <= 9
    ensures eval ==> Score(r) <= Score(s)
    ensures Consistent(s) ==> Consistent(r)
    ensures SameBlockContents(s.puzzle, r.puzzle)
    ensures OnlyBlockChanged(s.puzzle, r.puzzle, p)
    ensures KeepsGivens(s.puzzle, r.puzzle)
    decreases 9 - i
  {
    if i == 9 then s
    else
      var t := if IsFixed(s, p, i) then s else SwapAll(s, p, i, 0, eval);
      var r := SweepFrom(t, p, i + 1, eval);
      SameBlockContentsTransitive(s.puzzle, t.puzzle, r.puzzle);
      KeepsGivensTransitive(s.puzzle, t.puzzle, r.puzzle);
      r
  }

  /** One sweep of block `p`: descent under `eval`, random walk otherwise. */
  function Sweep(s: Sudoku, p: Index, eval: bool): (r: Sudoku)
    ensures eval ==> Score(r) <= Score(s)
    ensures Consistent(s) ==> Consistent(r)
    ensures SameBlockContents(s.puzzle, r.puzzle)
    ensures OnlyBlockChanged(s.puzzle, r.puzzle, p)
    ensures KeepsGivens(s.puzzle, r.puzzle)
  {
    SweepFrom(s, p, 0, eval)
  }

  const IntMin: int := -0x8000_0000
  const IntMax: int := 0x7fff_ffff

  /** The values of a C# `int`. */
  type Int32 = x: int | IntMin <= x <= IntMax

  /**
   The unchecked C# `x + 1` on an `int`: the 32-bit value congruent to
   x + 1, which is x + 1 itself except at `int.MaxValue`.
   */
  function Increment32(x: int): (w: int)
    ensures x < IntMax ==> w == x + 1
    ensures IntMin <= x <= IntMax ==> IntMin <= w <= IntMax
  {
    if x == IntMax then IntMin else x + 1
  }

  /** `Increment32` is addition of 1 modulo 2^32, kept within the range of `int`. */
  lemma Increment32IsModular(x: Int32, w: Int32)
    ensures (Increment32(x) - (x + 1)) % 0x1_0000_0000 == 0
    ensures (w - (x + 1)) % 0x1_0000_0000 == 0 ==> w == Increment32(x)
  {
  }

  /** The puzzle with the loop's two counters, which `Reachable` keeps within the range of `int`. */
  datatype SearchState = SearchState(sudoku: Sudoku, rep: int, sDone: int)

  /**
   One iteration of the search loop on block `block`, with walk length `s`
   and repetition bound `repAllowed`.
   */
  function Step(st: SearchState, block: Index, s: Int32, repAllowed: Int32): (r: SearchState)
    ensures KeepsGivens(st.sudoku.puzzle, r.sudoku.puzzle)
    ensures Consistent(st.sudoku) ==> Consistent(r.sudoku)
    ensures SameBlockContents(st.sudoku.puzzle, r.sudoku.puzzle)
    ensures OnlyBlockChanged(st.sudoku.puzzle, r.sudoku.puzzle, block)
    ensures st.rep < repAllowed ==> Score(r.sudoku) <= Score(st.sudoku) && r.sDone == st.sDone
    ensures st.rep >= repAllowed && st.sDone <= s ==> r.sDone == if st.sDone == s then 0 else st.sDone + 1
    ensures st.rep >= repAllowed && st.sDone > s ==> r.sudoku == st.sudoku && r.sDone == st.sDone
    ensures 0 <= st.sDone <= s ==> 0 <= r.sDone <= s
  {
    var lastScore := Score(st.sudoku);
    var next :=
      if st.rep < repAllowed then SearchState(Sweep(st.sudoku, block, true), st.rep, st.sDone)
      else if st.sDone <= s then
        SearchState(Sweep(st.sudoku, block, false), st.rep, if st.sDone == s then 0 else st.sDone + 1)
      else st;
    var score := Score(next.sudoku);
    next.(rep := if score == lastScore then Increment32(st.rep) else 0)
  }

  /** Every row, column and block holds each of 1..9 exactly once. */
  predicate IsSolution(g: Grid) {
    && (forall row: Index :: multiset(Row(g, row)) == multiset(Digits))
    && (forall col: Index :: multiset(Column(g, col)) == multiset(Digits))
    && (forall q: Index :: multiset(BlockValues(g, q)) == multiset(Digits))
  }

  /** Every block holds each of 1..9 exactly once, as after generating from valid givens. */
  predicate BlocksArePermutations(g: Grid) {
    forall q: Index :: multiset(BlockValues(g, q)) == multiset(Digits)
  }

  /** Every element of a permutation of 1..9 lies in 1..9. */
  lemma PermutationInRange(vs: seq<int>, k: nat)
    requires multiset(vs) == multiset(Digits) && k < |vs|
    ensures 1 <= vs[k] <= 9
  {
    assert vs[k] in multiset(vs);
    assert vs[k] in Digits;
    DigitsFacts();
  }

  /** When every block is a permutation of 1..9, every cell holds a value of 1..9. */
  lemma CellsInRange(g: Grid, row: Index, col: Index)
    requires BlocksArePermutations(g)
    ensures 1 <= g[row][col].value <= 9
  {
    CellInItsBlock(g, row, col);
    PermutationInRange(BlockValues(g, BlockOf(row, col)), PosOf(row, col));
  }

  /** A duplicate-free row of a grid whose blocks are permutations holds 1..9 once each. */
  lemma RowIsPermutation(g: Grid, row: Index)
    requires BlocksArePermutations(g)
    requires NoDuplicates(Row(g, row))
    ensures multiset(Row(g, row)) == multiset(Digits)
  {
    forall col: Index ensures 1 <= Row(g, row)[col] <= 9 {
      CellsInRange(g, row, col);
    }
    PigeonholeDigits(Row(g, row));
  }

  /** A duplicate-free column of a grid whose blocks are permutations holds 1..9 once each. */
  lemma ColumnIsPermutation(g: Grid, col: Index)
    requires BlocksArePermutations(g)
    requires NoDuplicates(Column(g, col))
    ensures multiset(Column(g, col)) == multiset(Digits)
  {
    forall row: Index ensures 1 <= Column(g, col)[row] <= 9 {
      CellsInRange(g, row, col);
    }
    PigeonholeDigits(Column(g, col));
  }

  /**
   A grid whose blocks are permutations of 1..9 and whose rows and columns
   repeat no value is a solved Sudoku.
   */
  lemma DistinctLinesSolve(g: Grid)
    requires BlocksArePermutations(g)
    requires LinesDistinct(g)
    ensures IsSolution(g)
  {
    forall row: Index ensures multiset(Row(g, row)) == multiset(Digits) {
      RowIsPermutation(g, row);
    }
    forall col: Index ensures multiset(Column(g, col)) == multiset(Digits) {
      ColumnIsPermutation(g, col);
    }
  }

  /**
   What holds of every state the loop reaches from `start`: the givens are
   in place, every block holds what it held, a consistent matrix stays
   consistent, and both counters stay in range. The repetition counter
   stays an `int` because it wraps after 2^31 - 1 equal scores in a row.
   */
  predicate Reachable(start: Sudoku, st: SearchState, s: Int32) {
    && KeepsGivens(start.puzzle, st.sudoku.puzzle)
    && SameBlockContents(start.puzzle, st.sudoku.puzzle)
    && (Consistent(start) ==> Consistent(st.sudoku))
    && IntMin <= st.rep <= IntMax
    && (if s >= 0 then 0 <= st.sDone <= s else st.sDone == 0)
  }

  /** An iteration keeps the loop's invariant. */
  lemma StepKeepsReachable(start: Sudoku, st: SearchState, block: Index, s: Int32, repAllowed: Int32)
    requires Reachable(start, st, s)
    ensures Reachable(start, Step(st, block, s, repAllowed), s)
  {
    var next := Step(st, block, s, repAllowed);
    KeepsGivensTransitive(start.puzzle, st.sudoku.puzzle, next.sudoku.puzzle);
    SameBlockContentsTransitive(start.puzzle, st.sudoku.puzzle, next.sudoku.puzzle);
    StepCountsRepetitions(st, block, s, repAllowed);
  }

  /** A reachable state with score 0 and a consistent start is solved as far as rows and columns go. */
  lemma ReachableAtZero(start: Sudoku, st: SearchState, s: Int32)
    requires Reachable(start, st, s) && Consistent(start) && Score(st.sudoku) == 0
    ensures LinesDistinct(st.sudoku.puzzle)
    ensures BlocksArePermutations(start.puzzle) ==> IsSolution(st.sudoku.puzzle)
  {
    ScoreZeroIffLinesDistinct(st.sudoku.puzzle);
    if BlocksArePermutations(start.puzzle) {
      assert BlocksArePermutations(st.sudoku.puzzle);
      DistinctLinesSolve(st.sudoku.puzzle);
    }
  }

  /**
   The repetition counter of an iteration: reset when the score moved, and
   otherwise one more, wrapping from `int.MaxValue` to `int.MinValue`.
   */
  lemma StepCountsRepetitions(st: SearchState, block: Index, s: Int32, repAllowed: Int32)
    ensures var r := Step(st, block, s, repAllowed);
      && (Score(r.sudoku) != Score(st.sudoku) ==> r.rep == 0)
      && (Score(r.sudoku) == Score(st.sudoku) ==> r.rep == if st.rep == IntMax then IntMin else st.rep + 1)
  {
  }

  /**
   A stalled walk (the walk counter already past `s`) leaves the puzzle
   alone, so the score repeats. At `int.MaxValue` repetitions the counter
   wraps to `int.MinValue`, which is below any other bound, so the next
   iteration is a descent again.
   */
  lemma StalledWalkWraps(st: SearchState, block: Index, s: Int32, repAllowed: Int32)
    requires st.rep == IntMax && st.sDone > s
    ensures Step(st, block, s, repAllowed).sudoku == st.sudoku
    ensures Step(st, block, s, repAllowed).rep == IntMin
    ensures IntMin < repAllowed ==> Step(st, block, s, repAllowed).rep < repAllowed
  {
    StepCountsRepetitions(st, block, s, repAllowed);
  }

  /** Below `int.MaxValue`, one more iteration adds at most one to the repetition counter. */
  lemma StepRepBound(st: SearchState, block: Index, s: Int32, repAllowed: Int32, n: nat)
    requires n < IntMax && 0 <= st.rep <= n
    ensures 0 <= Step(st, block, s, repAllowed).rep <= n + 1
  {
    StepCountsRepetitions(st, block, s, repAllowed);
  }

  /** One iteration of the search loop, as a transition from state to state on a block. */
  function Iteration(s: Int32, repAllowed: Int32): (SearchState, Index) -> SearchState {
    (st: SearchState, block: Index) => Step(st, block, s, repAllowed)
  }

  /**
   The search loop as a function: from block `k` on, one `next` per block of
   `blocks`, stopping at the first state whose stored score is 0.
   */
  function Run(next: (SearchState, Index) -> SearchState, st: SearchState, blocks: seq<Index>, k: nat): SearchState
    requires k <= |blocks|
    decreases |blocks| - k
  {
    if k == |blocks| || Score(st.sudoku) == 0 then st
    else Run(next, next(st, blocks[k]), blocks, k + 1)
  }

  /**
   The number of iterations `Run` performs: at most one per remaining block,
   and fewer only when the run stopped at score 0.
   */
  function RunLength(next: (SearchState, Index) -> SearchState, st: SearchState, blocks: seq<Index>, k: nat): (n: nat)
    requires k <= |blocks|
    ensures n <= |blocks| - k
    decreases |blocks| - k
  {
    if k == |blocks| || Score(st.sudoku) == 0 then 0
    else 1 + RunLength(next, next(st, blocks[k]), blocks, k + 1)
  }

  /** A run that used fewer iterations than blocks stopped at score 0; one that used none is its start. */
  lemma {:induction false} RunStopsAtZero(next: (SearchState, Index) -> SearchState, st: SearchState, blocks: seq<Index>, k: nat)
    requires k <= |blocks|
    ensures RunLength(next, st, blocks, k) < |blocks| - k ==> Score(Run(next, st, blocks, k).sudoku) == 0
    ensures RunLength(next, st, blocks, k) == 0 ==> Run(next, st, blocks, k) == st
    decreases |blocks| - k
  {
    if k < |blocks| && Score(st.sudoku) != 0 {
      RunStopsAtZero(next, next(st, blocks[k]), blocks, k + 1);
    }
  }

  /** A run of iterations that each keep the loop's invariant keeps it too. */
  lemma {:induction false} RunKeepsReachable(next: (SearchState, Index) -> SearchState, start: Sudoku, st: SearchState,
                                             blocks: seq<Index>, k: nat, s: Int32)
    requires k <= |blocks| && Reachable(start, st, s)
    requires forall t: SearchState, block: Index :: Reachable(start, t, s) ==> Reachable(start, next(t, block), s)
    ensures Reachable(start, Run(next, st, blocks, k), s)
    decreases |blocks| - k
  {
    if k < |blocks| && Score(st.sudoku) != 0 {
      RunKeepsReachable(next, start, next(st, blocks[k]), blocks, k + 1, s);
    }
  }

  /**
   When each iteration adds at most one to the repetition counter, the
   counter stays non-negative as long as it cannot have passed `int.MaxValue`.
   */
  lemma {:induction false} RunRepBound(next: (SearchState, Index) -> SearchState, st: SearchState, blocks: seq<Index>, k: nat)
    requires k <= |blocks|
    requires forall t: SearchState, block: Index :: 0 <= t.rep < IntMax ==> 0 <= next(t, block).rep <= t.rep + 1
    requires 0 <= st.rep && st.rep + RunLength(next, st, blocks, k) <= IntMax
    ensures 0 <= Run(next, st, blocks, k).rep <= st.rep + RunLength(next, st, blocks, k)
    decreases |blocks| - k
  {
    if k < |blocks| && Score(st.sudoku) != 0 {
      RunRepBound(next, next(st, blocks[k]), blocks, k + 1);
    }
  }

  /** What a run of the search loop from its initial state promises. */
  lemma RunFromStart(sudoku: Sudoku, blocks: seq<Index>, s: Int32, repAllowed: Int32, final: SearchState, n: nat)
    requires final == Run(Iteration(s, repAllowed), SearchState(sudoku, 0, 0), blocks, 0)
    requires n == RunLength(Iteration(s, repAllowed), SearchState(sudoku, 0, 0), blocks, 0)
    ensures n <= |blocks|
    ensures n < |blocks| ==> Score(final.sudoku) == 0
    ensures Score(sudoku) == 0 ==> final == SearchState(sudoku, 0, 0) && n == 0
    ensures KeepsGivens(sudoku.puzzle, final.sudoku.puzzle)
    ensures SameBlockContents(sudoku.puzzle, final.sudoku.puzzle)
    ensures Consistent(sudoku) ==> Consistent(final.sudoku)
    ensures n <= IntMax ==> 0 <= final.rep <= n
    ensures s >= 0 ==> 0 <= final.sDone <= s
    ensures s < 0 ==> final.sDone == 0
    ensures Consistent(sudoku) && Score(final.sudoku) == 0 ==> LinesDistinct(final.sudoku.puzzle)
    ensures Consistent(sudoku) && BlocksArePermutations(sudoku.puzzle) && Score(final.sudoku) == 0 ==>
      IsSolution(final.sudoku.puzzle)
  {
    var init := SearchState(sudoku, 0, 0);
    var next := Iteration(s, repAllowed);
    RunStopsAtZero(next, init, blocks, 0);
    forall t: SearchState, block: Index | Reachable(sudoku, t, s)
      ensures Reachable(sudoku, next(t, block), s)
    {
      StepKeepsReachable(sudoku, t, block, s, repAllowed);
    }
    RunKeepsReachable(next, sudoku, init, blocks, 0, s);
    if Consistent(sudoku) && Score(final.sudoku) == 0 {
      ReachableAtZero(sudoku, final, s);
    }
    if n <= IntMax {
      forall t: SearchState, block: Index | 0 <= t.rep < IntMax
        ensures 0 <= next(t, block).rep <= t.rep + 1
      {
        StepRepBound(t, block, s, repAllowed, t.rep);
      }
      RunRepBound(next, init, blocks, 0);
    }
  }

  /**
   The loop itself: from `st`, one `next` per block until the stored score
   is 0 or the blocks run out. It computes exactly what `Run` describes.
   */
  method SearchLoop(next: (SearchState, Index) -> SearchState, st: SearchState, blocks: seq<Index>)
    returns (final: SearchState, iterations: nat)
    ensures final == Run(next, st, blocks, 0)
    ensures iterations == RunLength(next, st, blocks, 0)
  {
    final := st;
    iterations := 0;
    while iterations < |blocks| && Score(final.sudoku) != 0
      invariant iterations <= |blocks|
      invariant Run(next, final, blocks, iterations) == Run(next, st, blocks, 0)
      invariant iterations + RunLength(next, final, blocks, iterations) == RunLength(next, st, blocks, 0)
    {
      final := next(final, blocks[iterations]);
      iterations := iterations + 1;
    }
  }

  /**
   The search, driven by the blocks the random source returns. It starts
   with both counters at 0, stops as soon as the stored score is 0 and
   otherwise runs one iteration per element of `blocks`; `iterations` is the
   number of iterations it ran.
   */
  method IteratedLocalSearch(sudoku: Sudoku, s: Int32, repAllowed: Int32, blocks: seq<Index>)
    returns (final: SearchState, iterations: nat)
    ensures final == Run(Iteration(s, repAllowed), SearchState(sudoku, 0, 0), blocks, 0)
    ensures iterations <= |blocks|
    ensures iterations < |blocks| ==> Score(final.sudoku) == 0
    ensures Score(sudoku) == 0 ==> final == SearchState(sudoku, 0, 0) && iterations == 0
    ensures KeepsGivens(sudoku.puzzle, final.sudoku.puzzle)
    ensures SameBlockContents(sudoku.puzzle, final.sudoku.puzzle)
    ensures Consistent(sudoku) ==> Consistent(final.sudoku)
    ensures iterations <= IntMax ==> 0 <= final.rep <= iterations
    ensures s >= 0 ==> 0 <= final.sDone <= s
    ensures s < 0 ==> final.sDone == 0
    ensures Consistent(sudoku) && Score(final.sudoku) == 0 ==> LinesDistinct(final.sudoku.puzzle)
    ensures Consistent(sudoku) && BlocksArePermutations(sudoku.puzzle) && Score(final.sudoku) == 0 ==>
      IsSolution(final.sudoku.puzzle)
  {
    final, iterations := SearchLoop(Iteration(s, repAllowed), SearchState(sudoku, 0, 0), blocks);
    RunFromStart(sudoku, blocks, s, repAllowed, final, iterations);
  }
}
