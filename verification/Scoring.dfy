/**
 The conflict score: per row and per column, the number of values that
 repeat a value seen earlier in that line; the evaluation matrix holding the
 nine row scores and the nine column scores; the full recomputation, the
 incremental update after a swap inside one block, and the total score.
 */
module Scoring {
  import opened Coordinates

  /** The distinct values of a sequence. */
  function Distinct(s: seq<int>): set<int> {
    set x | x in s
  }

  predicate NoDuplicates(s: seq<int>) {
    forall a, b | 0 <= a < b < |s| :: s[a] != s[b]
  }

  /**
   The number of elements of `s` that were already seen earlier in `s`
   (the first occurrence of a value is free, each later one counts once).
   */
  function CountIncorrect(s: seq<int>): (n: nat)
    ensures n == |s| - |Distinct(s)|
    ensures n == 0 <==> NoDuplicates(s)
  {
    if |s| == 0 then 0
    else
      var prefix := s[..|s| - 1];
      var last := s[|s| - 1];
      assert s == prefix + [last];
      SnocFacts(prefix, last);
      CountIncorrect(prefix) + if last in prefix then 1 else 0
  }

  /** How the distinct values and the absence of duplicates change when a value is appended. */
  lemma SnocFacts(prefix: seq<int>, last: int)
    ensures Distinct(prefix + [last]) == Distinct(prefix) + {last}
    ensures last in prefix <==> last in Distinct(prefix)
    ensures NoDuplicates(prefix + [last]) <==> NoDuplicates(prefix) && last !in prefix
  {
    var s := prefix + [last];
    if NoDuplicates(prefix) && last !in prefix {
      forall a, b | 0 <= a < b < |s| ensures s[a] != s[b] {
        if b == |s| - 1 {
          assert s[a] == prefix[a];
        } else {
          assert s[a] == prefix[a] && s[b] == prefix[b];
        }
      }
    }
    if NoDuplicates(s) {
      assert forall a, b | 0 <= a < b < |prefix| :: prefix[a] == s[a] && prefix[b] == s[b];
      forall a | 0 <= a < |prefix| ensures prefix[a] != last {
        assert s[a] == prefix[a] && s[|prefix|] == last;
      }
    }
  }

  /**
   The seen-set loop of `CountIncorrect`: a `seen` set, and a counter bumped
   whenever a value cannot be added because it is already there.
   */
  method CountIncorrectScan(rowCol: seq<int>) returns (incorrectCount: nat)
    ensures incorrectCount == |rowCol| - |Distinct(rowCol)|
    ensures incorrectCount == CountIncorrect(rowCol)
  {
    var seen: set<int> := {};
    incorrectCount := 0;
    var k := 0;
    while k < |rowCol|
      invariant 0 <= k <= |rowCol|
      invariant seen == Distinct(rowCol[..k])
      invariant incorrectCount == k - |seen|
    {
      var value := rowCol[k];
      assert rowCol[..k + 1] == rowCol[..k] + [value];
      assert Distinct(rowCol[..k + 1]) == seen + {value};
      assert value !in seen ==> |seen + {value}| == |seen| + 1;
      assert value in seen ==> seen + {value} == seen;
      if value in seen {
        incorrectCount := incorrectCount + 1;
      }
      seen := seen + {value};
      k := k + 1;
    }
    assert rowCol[..k] == rowCol;
  }

  /** A line of n values has between 0 and n - 1 repeats. */
  lemma CountIncorrectBounds(s: seq<int>)
    requires |s| > 0
    ensures 0 <= CountIncorrect(s) <= |s| - 1
  {
    assert s[0] in Distinct(s);
  }

  /** The count does not depend on the order of the line. */
  lemma CountIncorrectOrderInvariant(s: seq<int>, t: seq<int>)
    requires multiset(s) == multiset(t)
    ensures CountIncorrect(s) == CountIncorrect(t)
  {
    assert |s| == |multiset(s)| == |multiset(t)| == |t|;
    assert forall x :: x in s <==> x in multiset(s);
    assert forall x :: x in t <==> x in multiset(t);
    assert Distinct(s) == Distinct(t);
  }

  function Row(g: Grid, row: Index): (line: seq<int>)
    ensures |line| == 9 && forall col: Index :: line[col] == g[row][col].value
  {
    seq(9, col requires 0 <= col < 9 => g[row][col].value)
  }

  function Column(g: Grid, col: Index): (line: seq<int>)
    ensures |line| == 9 && forall row: Index :: line[row] == g[row][col].value
  {
    seq(9, row requires 0 <= row < 9 => g[row][col].value)
  }

  /** The evaluation matrix: `rows[r]` scores row r, `cols[c]` scores column c. */
  datatype EvalMatrix = EvalMatrix(rows: seq<int>, cols: seq<int>)

  type Matrix = m: EvalMatrix | |m.rows| == 9 && |m.cols| == 9
    witness EvalMatrix(seq(9, _ => 0), seq(9, _ => 0))

  /** The full recomputation of the evaluation matrix from the grid. */
  function Evaluate(g: Grid): (m: Matrix)
    ensures forall row: Index :: m.rows[row] == 9 - |Distinct(Row(g, row))|
    ensures forall col: Index :: m.cols[col] == 9 - |Distinct(Column(g, col))|
    ensures forall row: Index :: m.rows[row] == 0 <==> NoDuplicates(Row(g, row))
    ensures forall col: Index :: m.cols[col] == 0 <==> NoDuplicates(Column(g, col))
  {
    EvalMatrix(
      seq(9, row requires 0 <= row < 9 => CountIncorrect(Row(g, row))),
      seq(9, col requires 0 <= col < 9 => CountIncorrect(Column(g, col))))
  }

  /**
   The incremental update after cells (p, i) and (p, j) of `g` were
   swapped: `m` with the two rows and two columns through those cells
   rescored against `g`, and every other entry left as it is.
   */
  function Update(g: Grid, m: Matrix, p: Index, i: Index, j: Index): (u: Matrix)
    ensures forall row: Index | row != RowOf(p, i) && row != RowOf(p, j) :: u.rows[row] == m.rows[row]
    ensures forall col: Index | col != ColOf(p, i) && col != ColOf(p, j) :: u.cols[col] == m.cols[col]
    ensures u.rows[RowOf(p, i)] == CountIncorrect(Row(g, RowOf(p, i)))
    ensures u.rows[RowOf(p, j)] == CountIncorrect(Row(g, RowOf(p, j)))
    ensures u.cols[ColOf(p, i)] == CountIncorrect(Column(g, ColOf(p, i)))
    ensures u.cols[ColOf(p, j)] == CountIncorrect(Column(g, ColOf(p, j)))
  {
    var rowI, columnI := RowOf(p, i), ColOf(p, i);
    var rowJ, columnJ := RowOf(p, j), ColOf(p, j);
    var rows := m.rows[rowI := CountIncorrect(Row(g, rowI))][rowJ := CountIncorrect(Row(g, rowJ))];
    var cols := m.cols[columnI := CountIncorrect(Column(g, columnI))][columnJ := CountIncorrect(Column(g, columnJ))];
    EvalMatrix(rows, cols)
  }

  function Sum(s: seq<int>): int {
    if |s| == 0 then 0 else Sum(s[..|s| - 1]) + s[|s| - 1]
  }

  /** The total score: the sum of all eighteen entries. */
  function GetScore(m: Matrix): (score: int)
    ensures NonNegative(m) ==> score >= 0
    ensures NonNegative(m) ==> (score == 0 <==> forall k: Index :: m.rows[k] == 0 && m.cols[k] == 0)
  {
    assert NonNegative(m) ==>
      && Sum(m.rows) >= 0 && Sum(m.cols) >= 0
      && (Sum(m.rows) == 0 <==> forall k: Index :: m.rows[k] == 0)
      && (Sum(m.cols) == 0 <==> forall k: Index :: m.cols[k] == 0) by {
      if NonNegative(m) {
        SumZeroIff(m.rows);
        SumZeroIff(m.cols);
      }
    }
    Sum(m.rows) + Sum(m.cols)
  }

  /** Every entry of the matrix is a count, so none is negative. */
  predicate NonNegative(m: Matrix) {
    forall k: Index :: m.rows[k] >= 0 && m.cols[k] >= 0
  }

  /** Row 0 of the 2 x 9 array holds the row scores, row 1 the column scores. */
  function Line(m: Matrix, k: nat): seq<int>
    requires k < 2
  {
    if k == 0 then m.rows else m.cols
  }

  lemma SumSnoc(s: seq<int>, j: nat)
    requires j < |s|
    ensures Sum(s[..j + 1]) == Sum(s[..j]) + s[j]
  {
    assert s[..j + 1][..j] == s[..j];
  }

  /** The double loop of `GetScore`, over the two lines of nine entries. */
  method GetScoreLoop(m: Matrix) returns (sum: int)
    ensures sum == GetScore(m)
  {
    sum := 0;
    for i := 0 to 2
      invariant sum == if i == 0 then 0 else Sum(m.rows) + (if i == 2 then Sum(m.cols) else 0)
    {
      for j := 0 to 9
        invariant sum == (if i == 0 then 0 else Sum(m.rows)) + Sum(Line(m, i)[..j])
      {
        SumSnoc(Line(m, i), j);
        sum := sum + Line(m, i)[j];
      }
      assert Line(m, i)[..9] == Line(m, i);
    }
  }

  /** A sum of non-negative entries is non-negative, and zero exactly when every entry is. */
  lemma {:induction false} SumZeroIff(s: seq<int>)
    requires forall k | 0 <= k < |s| :: s[k] >= 0
    ensures Sum(s) >= 0
    ensures Sum(s) == 0 <==> forall k | 0 <= k < |s| :: s[k] == 0
  {
    if |s| > 0 {
      var prefix := s[..|s| - 1];
      SumZeroIff(prefix);
      assert forall k | 0 <= k < |prefix| :: prefix[k] == s[k];
    }
  }

  /** Every row and every column is free of repeats. */
  predicate LinesDistinct(g: Grid) {
    && (forall row: Index :: NoDuplicates(Row(g, row)))
    && (forall col: Index :: NoDuplicates(Column(g, col)))
  }

  /** The score of a fresh evaluation is zero exactly when no row and no column repeats a value. */
  lemma ScoreZeroIffLinesDistinct(g: Grid)
    ensures GetScore(Evaluate(g)) >= 0
    ensures GetScore(Evaluate(g)) == 0 <==> LinesDistinct(g)
  {
    var m := Evaluate(g);
    SumZeroIff(m.rows);
    SumZeroIff(m.cols);
  }

  /** Two grids that agree off the two swapped cells agree on every other row and column. */
  lemma SwapFrameLines(g: Grid, p: Index, i: Index, j: Index)
    ensures forall row: Index | row != RowOf(p, i) && row != RowOf(p, j)
      :: Row(SwapCells(g, p, i, j), row) == Row(g, row)
    ensures forall col: Index | col != ColOf(p, i) && col != ColOf(p, j)
      :: Column(SwapCells(g, p, i, j), col) == Column(g, col)
  {
    var h := SwapCells(g, p, i, j);
    forall row: Index | row != RowOf(p, i) && row != RowOf(p, j)
      ensures Row(h, row) == Row(g, row)
    {
      assert forall col: Index :: Row(h, row)[col] == Row(g, row)[col];
    }
    forall col: Index | col != ColOf(p, i) && col != ColOf(p, j)
      ensures Column(h, col) == Column(g, col)
    {
      assert forall row: Index :: Column(h, col)[row] == Column(g, col)[row];
    }
  }

  /**
   Delta-update correctness: when the stored matrix was the evaluation of
   the grid before the swap, the update computed on the swapped grid is the
   evaluation of the swapped grid.
   */
  lemma UpdateMatchesEvaluate(g: Grid, m: Matrix, p: Index, i: Index, j: Index)
    requires m == Evaluate(g)
    ensures Update(SwapCells(g, p, i, j), m, p, i, j) == Evaluate(SwapCells(g, p, i, j))
  {
    var h := SwapCells(g, p, i, j);
    SwapFrameLines(g, p, i, j);
    UpdateRowsMatch(g, h, m, p, i, j);
    UpdateColsMatch(g, h, m, p, i, j);
  }

  lemma UpdateRowsMatch(g: Grid, h: Grid, m: Matrix, p: Index, i: Index, j: Index)
    requires m == Evaluate(g)
    requires forall row: Index | row != RowOf(p, i) && row != RowOf(p, j) :: Row(h, row) == Row(g, row)
    ensures Update(h, m, p, i, j).rows == Evaluate(h).rows
  {
    var u, e := Update(h, m, p, i, j), Evaluate(h);
    forall row: Index ensures u.rows[row] == e.rows[row] {
      if row != RowOf(p, i) && row != RowOf(p, j) {
        assert Row(h, row) == Row(g, row);
      }
    }
  }

  lemma UpdateColsMatch(g: Grid, h: Grid, m: Matrix, p: Index, i: Index, j: Index)
    requires m == Evaluate(g)
    requires forall col: Index | col != ColOf(p, i) && col != ColOf(p, j) :: Column(h, col) == Column(g, col)
    ensures Update(h, m, p, i, j).cols == Evaluate(h).cols
  {
    var u, e := Update(h, m, p, i, j), Evaluate(h);
    forall col: Index ensures u.cols[col] == e.cols[col] {
      if col != ColOf(p, i) && col != ColOf(p, j) {
        assert Column(h, col) == Column(g, col);
      }
    }
  }

  /** The values a solved line holds: 1..9. */
  const Digits: seq<int> := [1, 2, 3, 4, 5, 6, 7, 8, 9]

  /** A duplicate-free sequence holds each of its values exactly once. */
  lemma {:induction false} DistinctCounts(s: seq<int>)
    requires NoDuplicates(s)
    ensures forall x :: multiset(s)[x] == if x in s then 1 else 0
  {
    if |s| > 0 {
      var t := s[1..];
      assert s == [s[0]] + t;
      assert NoDuplicates(t) by {
        forall a, b | 0 <= a < b < |t| ensures t[a] != t[b] {
          assert t[a] == s[a + 1] && t[b] == s[b + 1];
        }
      }
      DistinctCounts(t);
      assert s[0] !in t by {
        forall b | 0 <= b < |t| ensures t[b] != s[0] {
          assert t[b] == s[b + 1];
        }
      }
    }
  }

  lemma DigitsFacts()
    ensures NoDuplicates(Digits)
    ensures forall x :: x in Digits <==> 1 <= x <= 9
    ensures forall x :: multiset(Digits)[x] == if 1 <= x <= 9 then 1 else 0
  {
    DigitsMembership();
    DistinctCounts(Digits);
  }

  lemma DigitsMembership()
    ensures NoDuplicates(Digits)
    ensures forall x :: x in Digits <==> 1 <= x <= 9
  {
    assert forall k | 0 <= k < 9 :: Digits[k] == k + 1;
    forall x | 1 <= x <= 9 ensures x in Digits {
      assert Digits[x - 1] == x;
    }
  }

  /** Nine distinct values drawn from 1..9 are 1..9 in some order. */
  lemma PigeonholeDigits(s: seq<int>)
    requires |s| == 9 && NoDuplicates(s)
    requires forall k | 0 <= k < |s| :: 1 <= s[k] <= 9
    ensures multiset(s) == multiset(Digits)
  {
    DigitsFacts();
    var A, B := Distinct(s), Distinct(Digits);
    var n, d := CountIncorrect(s), CountIncorrect(Digits);
    assert |A| == 9 && |B| == 9;
    assert A <= B;
    assert |B - A| == 0;
    assert A == B;
    DistinctCounts(s);
    forall x ensures multiset(s)[x] == multiset(Digits)[x] {
      assert x in s <==> x in A;
      assert x in Digits <==> x in B;
    }
  }
}
