/**
 The puzzle object: the grid together with its stored evaluation matrix,
 how it is built from its 81 tokens, and the block-local swap with its
 acceptance rule.
 */
module Puzzle {
  import opened Coordinates
  import opened Scoring

  /** The state of one puzzle: the grid and the evaluation matrix kept beside it. */
  datatype Sudoku = Sudoku(puzzle: Grid, evalMatrix: Matrix)

  /** The stored matrix is the evaluation of the current grid. */
  predicate Consistent(s: Sudoku) {
    s.evalMatrix == Evaluate(s.puzzle)
  }

  predicate IsFixed(s: Sudoku, p: Index, i: Index) {
    s.puzzle[RowOf(p, i)][ColOf(p, i)].fixed
  }

  /**
   The constructor. Its body assigns the parameter to itself, so the fields
   keep their default values whatever is passed: every cell (0, not fixed)
   and every score 0.
   */
  function NewSudoku(puzzle: seq<seq<int>>): (s: Sudoku)
    ensures forall row: Index, col: Index :: s.puzzle[row][col] == Cell(0, false)
    ensures forall k: Index :: s.evalMatrix.rows[k] == 0 && s.evalMatrix.cols[k] == 0
  {
    Sudoku(seq(9, _ => seq(9, _ => Cell(0, false))), EvalMatrix(seq(9, _ => 0), seq(9, _ => 0)))
  }

  /** The outcome of parsing: a puzzle, or the out-of-range read of a missing token. */
  datatype ParseResult = Parsed(sudoku: Sudoku) | IndexOutOfRange

  /**
   Builds a puzzle from its tokens, row-major: token `k` goes to row k / 9,
   column k % 9, and is a given exactly when it is non-zero. Fewer than 81
   tokens fail; tokens past the 81st are never read.
   */
  function FromString(tokens: seq<int>): (r: ParseResult)
    ensures r.IndexOutOfRange? <==> |tokens| < 81
    ensures r.Parsed? ==> forall k | 0 <= k < 81 ::
      r.sudoku.puzzle[k / 9][k % 9] == Cell(tokens[k], tokens[k] != 0)
    ensures r.Parsed? ==> r.sudoku.evalMatrix == NewSudoku(seq(9, _ => seq(9, _ => 0))).evalMatrix
  {
    if |tokens| < 81 then IndexOutOfRange
    else
      var sudoku := NewSudoku(seq(9, _ => seq(9, _ => 0)));
      var grid: Grid := seq(9, i requires 0 <= i < 9 =>
        seq(9, j requires 0 <= j < 9 => Cell(tokens[9 * i + j], tokens[9 * i + j] != 0)));
      assert forall k | 0 <= k < 81 :: 9 * (k / 9) + k % 9 == k;
      Parsed(Sudoku(grid, sudoku.evalMatrix))
  }

  /** The grid's values, row-major: the token sequence the grid was read from. */
  function Tokens(g: Grid): (tokens: seq<int>)
    ensures |tokens| == 81
  {
    seq(81, k requires 0 <= k < 81 => g[k / 9][k % 9].value)
  }

  /** Exactly the non-zero cells are givens, as in a freshly read puzzle. */
  predicate GivensAreNonZero(g: Grid) {
    forall row: Index, col: Index :: g[row][col].fixed <==> g[row][col].value != 0
  }

  /** Reading then listing the values gives back the first 81 tokens. */
  lemma FromStringTokensRoundTrip(tokens: seq<int>)
    requires |tokens| >= 81
    ensures Tokens(FromString(tokens).sudoku.puzzle) == tokens[..81]
    ensures GivensAreNonZero(FromString(tokens).sudoku.puzzle)
  {
    var g := FromString(tokens).sudoku.puzzle;
    forall row: Index, col: Index ensures g[row][col] == Cell(tokens[9 * row + col], tokens[9 * row + col] != 0) {
      var k := 9 * row + col;
      assert k / 9 == row && k % 9 == col;
    }
  }

  /** Listing a freshly read grid's values and reading them again gives back the same grid. */
  lemma TokensFromStringRoundTrip(g: Grid)
    requires GivensAreNonZero(g)
    ensures FromString(Tokens(g)).Parsed?
    ensures FromString(Tokens(g)).sudoku.puzzle == g
  {
    var h := FromString(Tokens(g)).sudoku.puzzle;
    forall row: Index, col: Index ensures h[row][col] == g[row][col] {
      var k := 9 * row + col;
      assert k / 9 == row && k % 9 == col;
    }
    assert forall row: Index :: h[row] == g[row];
  }

  /**
   Tries the exchange of the cells at positions `i` and `j` of block `p`.
   Nothing happens when cell j is a given. Otherwise the two whole cells
   (fixed flag included) are exchanged and the matrix is updated for the
   swapped grid; under `eval` the exchange is undone if the updated score
   is strictly worse than the stored one, and is kept otherwise. Only cell
   j is checked: a given at position i is moved if the caller asks.
   */
  function Swap(s: Sudoku, p: Index, i: Index, j: Index, eval: bool): (r: Sudoku)
    ensures IsFixed(s, p, j) ==> r == s
    ensures !IsFixed(s, p, j) && !eval ==>
      r == Sudoku(SwapCells(s.puzzle, p, i, j), Update(SwapCells(s.puzzle, p, i, j), s.evalMatrix, p, i, j))
    ensures !IsFixed(s, p, j) && eval ==>
      (r.puzzle == SwapCells(s.puzzle, p, i, j) || r == s)
    ensures eval ==> GetScore(r.evalMatrix) <= GetScore(s.evalMatrix)
    ensures Consistent(s) ==> Consistent(r)
    ensures SameBlockContents(s.puzzle, r.puzzle)
    ensures forall q: Index | q != p :: BlockCells(r.puzzle, q) == BlockCells(s.puzzle, q)
    ensures !IsFixed(s, p, i) ==> KeepsGivens(s.puzzle, r.puzzle)
  {
    if IsFixed(s, p, j) then s
    else
      var swapped := SwapCells(s.puzzle, p, i, j);
      var update := Update(swapped, s.evalMatrix, p, i, j);
      SwapCellsKeepsBlockContents(s.puzzle, p, i, j);
      assert !IsFixed(s, p, i) ==> KeepsGivens(s.puzzle, swapped) by {
        if !IsFixed(s, p, i) {
          SwapFreeCellsKeepsGivens(s.puzzle, p, i, j);
        }
      }
      assert Consistent(s) ==> update == Evaluate(swapped) by {
        if Consistent(s) {
          UpdateMatchesEvaluate(s.puzzle, s.evalMatrix, p, i, j);
        }
      }
      if GetScore(update) > GetScore(s.evalMatrix) && eval then s
      else Sudoku(swapped, update)
  }

  /**
   Under `eval` a swap is kept exactly when the updated score is no worse
   than the stored one (ties are kept).
   */
  lemma SwapAcceptance(s: Sudoku, p: Index, i: Index, j: Index)
    requires !IsFixed(s, p, j)
    ensures var update := Update(SwapCells(s.puzzle, p, i, j), s.evalMatrix, p, i, j);
      && (GetScore(update) <= GetScore(s.evalMatrix) ==>
            Swap(s, p, i, j, true) == Sudoku(SwapCells(s.puzzle, p, i, j), update))
      && (GetScore(update) > GetScore(s.evalMatrix) ==> Swap(s, p, i, j, true) == s)
  {
  }

  /**
   A committed exchange of two free cells is undone by asking for the same
   exchange again: grid and consistent matrix both come back.
   */
  lemma SwapUndo(s: Sudoku, p: Index, i: Index, j: Index)
    requires Consistent(s) && !IsFixed(s, p, i) && !IsFixed(s, p, j)
    ensures Swap(Swap(s, p, i, j, false), p, i, j, false) == s
  {
    var t := Swap(s, p, i, j, false);
    assert !IsFixed(t, p, j);
    SwapCellsInvolution(s.puzzle, p, i, j);
  }

  /**
   The guard covers cell j only: swapping a given at position i with a free
   cell j moves the given, so the caller must not ask for it.
   */
  lemma SwapCanMoveGiven(s: Sudoku, p: Index, i: Index, j: Index)
    requires IsFixed(s, p, i) && !IsFixed(s, p, j)
    ensures Swap(s, p, i, j, false).puzzle[RowOf(p, j)][ColOf(p, j)] == s.puzzle[RowOf(p, i)][ColOf(p, i)]
    ensures !KeepsGivens(s.puzzle, Swap(s, p, i, j, false).puzzle)
  {
    var r := Swap(s, p, i, j, false);
    assert r.puzzle[RowOf(p, i)][ColOf(p, i)].fixed != s.puzzle[RowOf(p, i)][ColOf(p, i)].fixed;
  }
}
