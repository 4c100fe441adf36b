/**
 Block initialisation: each block's free cells receive, in an order picked
 by the random source, the values 1..9 not taken by the block's givens;
 then the evaluation matrix is computed from scratch.

 The random source is a parameter: `choices[9 * b + i]` is what the
 generator returned for free cell i of block b, reduced modulo the number
 of values still available. Any sequence of generator results is
 described by some `choices`, and the results below hold for all of them.
 */
module BlockInit {
  import opened Coordinates
  import opened Scoring
  import opened Puzzle

  /** Removal of the first occurrence of `x`, if there is one. */
  function RemoveFirst(s: seq<int>, x: int): (r: seq<int>)
    ensures multiset(r) == multiset(s) - multiset{x}
    ensures |r| == if x in s then |s| - 1 else |s|
  {
    if |s| == 0 then []
    else if s[0] == x then
      assert s == [x] + s[1..];
      s[1..]
    else
      assert s == [s[0]] + s[1..];
      [s[0]] + RemoveFirst(s[1..], x)
  }

  /** Removal of the element at index `k`. */
  function RemoveAt(s: seq<int>, k: nat): (r: seq<int>)
    requires k < |s|
    ensures |r| == |s| - 1
    ensures multiset(r) == multiset(s) - multiset{s[k]}
    ensures forall v | v in r :: v in s
  {
    assert s == s[..k] + [s[k]] + s[k + 1..];
    s[..k] + s[k + 1..]
  }

  /** The values of the given cells, in position order. */
  function FixedValues(cells: seq<Cell>): seq<int> {
    if |cells| == 0 then []
    else (if cells[0].fixed then [cells[0].value] else []) + FixedValues(cells[1..])
  }

  /** The values of the free cells, in position order. */
  function FreeValues(cells: seq<Cell>): seq<int> {
    if |cells| == 0 then []
    else (if cells[0].fixed then [] else [cells[0].value]) + FreeValues(cells[1..])
  }

  /** Every cell is either given or free. */
  lemma {:induction false} SplitValues(cells: seq<Cell>)
    ensures |FixedValues(cells)| + |FreeValues(cells)| == |cells|
    ensures multiset(Values(cells)) == multiset(FixedValues(cells)) + multiset(FreeValues(cells))
  {
    if |cells| > 0 {
      var c, rest := cells[0], cells[1..];
      SplitValues(rest);
      assert Values(cells) == [c.value] + Values(rest);
      if c.fixed {
        assert FixedValues(cells) == [c.value] + FixedValues(rest);
        assert FreeValues(cells) == FreeValues(rest);
      } else {
        assert FixedValues(cells) == FixedValues(rest);
        assert FreeValues(cells) == [c.value] + FreeValues(rest);
      }
    }
  }

  /** `available` with each given value removed in turn. */
  function RemoveGivens(available: seq<int>, cells: seq<Cell>): (r: seq<int>)
    ensures multiset(r) == multiset(available) - multiset(FixedValues(cells))
    ensures |r| >= |available| - |FixedValues(cells)|
    decreases |cells|
  {
    if |cells| == 0 then available
    else
      var next := if cells[0].fixed then RemoveFirst(available, cells[0].value) else available;
      var r := RemoveGivens(next, cells[1..]);
      assert multiset(FixedValues(cells)) ==
        (if cells[0].fixed then multiset{cells[0].value} else multiset{}) + multiset(FixedValues(cells[1..]));
      MultisetDifferenceTwice(multiset(available),
        if cells[0].fixed then multiset{cells[0].value} else multiset{},
        multiset(FixedValues(cells[1..])));
      r
  }

  lemma MultisetDifferenceTwice(a: multiset<int>, b: multiset<int>, c: multiset<int>)
    ensures a - b - c == a - (b + c)
  {
    forall x ensures (a - b - c)[x] == (a - (b + c))[x] {
    }
  }

  /** The values 1..9 not taken by the block's givens. */
  function Available(cells: seq<Cell>): (available: seq<int>)
    ensures multiset(available) == multiset(Digits) - multiset(FixedValues(cells))
  {
    RemoveGivens(Digits, cells)
  }

  /**
   Fills the free cells from `available`: the free cell at position k takes
   the value at index `choices[k] % |available|` of what is left, which is
   then removed. Givens are left as they are.
   */
  function Fill(cells: seq<Cell>, available: seq<int>, choices: seq<nat>): (r: seq<Cell>)
    requires |choices| >= |cells|
    requires |available| >= |FreeValues(cells)|
    ensures |r| == |cells|
    ensures forall k | 0 <= k < |cells| :: r[k].fixed == cells[k].fixed
    ensures forall k | 0 <= k < |cells| :: cells[k].fixed ==> r[k] == cells[k]
    ensures forall k | 0 <= k < |cells| :: !cells[k].fixed ==> r[k].value in available
  {
    if |cells| == 0 then []
    else if cells[0].fixed then
      var rest := Fill(cells[1..], available, choices[1..]);
      var r := [cells[0]] + rest;
      assert r[1..] == rest;
      r
    else
      var k := Pick(choices[0], |available|);
      var rest := Fill(cells[1..], RemoveAt(available, k), choices[1..]);
      var r := [Cell(available[k], false)] + rest;
      assert r[1..] == rest;
      r
  }

  /** Filling leaves the givens' values, in order, as they were. */
  lemma {:induction false} FillKeepsFixedValues(cells: seq<Cell>, available: seq<int>, choices: seq<nat>)
    requires |choices| >= |cells|
    requires |available| >= |FreeValues(cells)|
    ensures FixedValues(Fill(cells, available, choices)) == FixedValues(cells)
  {
    var r := Fill(cells, available, choices);
    if |cells| > 0 {
      if cells[0].fixed {
        FillKeepsFixedValues(cells[1..], available, choices[1..]);
        assert r[1..] == Fill(cells[1..], available, choices[1..]);
      } else {
        var k := Pick(choices[0], |available|);
        FillKeepsFixedValues(cells[1..], RemoveAt(available, k), choices[1..]);
        assert r[1..] == Fill(cells[1..], RemoveAt(available, k), choices[1..]);
      }
    }
  }

  /**
   When there are exactly as many values as free cells, the free cells
   receive every value exactly once.
   */
  lemma {:induction false} FillUsesAllAvailable(cells: seq<Cell>, available: seq<int>, choices: seq<nat>)
    requires |choices| >= |cells|
    requires |available| == |FreeValues(cells)|
    ensures multiset(FreeValues(Fill(cells, available, choices))) == multiset(available)
  {
    var r := Fill(cells, available, choices);
    if |cells| > 0 {
      if cells[0].fixed {
        FillUsesAllAvailable(cells[1..], available, choices[1..]);
        assert r[1..] == Fill(cells[1..], available, choices[1..]);
      } else {
        var k := Pick(choices[0], |available|);
        var rest := Fill(cells[1..], RemoveAt(available, k), choices[1..]);
        FillUsesAllAvailable(cells[1..], RemoveAt(available, k), choices[1..]);
        assert r == [Cell(available[k], false)] + rest;
        assert r[1..] == rest;
        assert FreeValues(r) == [available[k]] + FreeValues(rest);
        assert multiset(available) == multiset(RemoveAt(available, k)) + multiset{available[k]};
      }
    }
  }

  /** The index the random source picks among `n` candidates. */
  function Pick(c: nat, n: nat): (k: nat)
    requires n > 0
    ensures k < n
  {
    c % n
  }

  /** The nine choices used for block `b`. */
  function BlockChoices(choices: seq<nat>, b: Index): (r: seq<nat>)
    requires |choices| >= 81
    ensures |r| == 9
  {
    choices[9 * b .. 9 * b + 9]
  }

  /** The values still available always cover the block's free cells. */
  lemma AvailableCoversFreeCells(cells: seq<Cell>)
    requires |cells| == 9
    ensures |Available(cells)| >= |FreeValues(cells)|
  {
    SplitValues(cells);
  }

  /** Block `b`'s cells after its free cells were filled. */
  function FillBlock(cells: seq<Cell>, choices: seq<nat>): (r: seq<Cell>)
    requires |cells| == 9 && |choices| >= 9
    ensures |r| == 9
    ensures forall k | 0 <= k < 9 :: r[k].fixed == cells[k].fixed
    ensures forall k | 0 <= k < 9 :: cells[k].fixed ==> r[k] == cells[k]
    ensures forall k | 0 <= k < 9 :: !cells[k].fixed ==> 1 <= r[k].value <= 9
  {
    AvailableCoversFreeCells(cells);
    var r := Fill(cells, Available(cells), choices);
    assert forall v :: v in Available(cells) ==> 1 <= v <= 9 by {
      DigitsFacts();
      forall v | v in Available(cells) ensures 1 <= v <= 9 {
        assert v in multiset(Available(cells));
        assert v in multiset(Digits);
      }
    }
    r
  }

  /** The block's givens are distinct values in 1..9. */
  predicate ValidGivens(cells: seq<Cell>) {
    var givens := FixedValues(cells);
    NoDuplicates(givens) && forall k | 0 <= k < |givens| :: 1 <= givens[k] <= 9
  }

  /** Distinct givens drawn from 1..9 are a sub-multiset of 1..9. */
  lemma GivensWithinDigits(givens: seq<int>)
    requires NoDuplicates(givens)
    requires forall k | 0 <= k < |givens| :: 1 <= givens[k] <= 9
    ensures multiset(givens) <= multiset(Digits)
  {
    DigitsFacts();
    DistinctCounts(givens);
    forall x ensures multiset(givens)[x] <= multiset(Digits)[x] {
      if x in givens {
        var k :| 0 <= k < |givens| && givens[k] == x;
      }
    }
  }

  lemma SubMultisetDifference(a: multiset<int>, b: multiset<int>)
    requires b <= a
    ensures (a - b) + b == a
    ensures |a - b| == |a| - |b|
  {
    forall x ensures ((a - b) + b)[x] == a[x] {
    }
  }

  /** With valid givens there are exactly as many values left as free cells. */
  lemma AvailableMatchesFreeCells(cells: seq<Cell>)
    requires |cells| == 9
    requires ValidGivens(cells)
    ensures |Available(cells)| == |FreeValues(cells)|
    ensures multiset(Available(cells)) + multiset(FixedValues(cells)) == multiset(Digits)
  {
    var F := multiset(FixedValues(cells));
    var D := multiset(Digits);
    GivensWithinDigits(FixedValues(cells));
    SubMultisetDifference(D, F);
    SplitValues(cells);
    assert |Available(cells)| == |multiset(Available(cells))|;
  }

  /** With valid givens the free cells of a filled block receive exactly the available values. */
  lemma FillBlockFreeValues(cells: seq<Cell>, choices: seq<nat>)
    requires |cells| == 9 && |choices| >= 9
    requires ValidGivens(cells)
    ensures multiset(FreeValues(FillBlock(cells, choices))) == multiset(Available(cells))
  {
    AvailableMatchesFreeCells(cells);
    FillUsesAllAvailable(cells, Available(cells), choices);
  }

  /** With valid givens, a filled block holds each of 1..9 exactly once. */
  lemma FillBlockIsPermutation(cells: seq<Cell>, choices: seq<nat>)
    requires |cells| == 9 && |choices| >= 9
    requires ValidGivens(cells)
    ensures multiset(Values(FillBlock(cells, choices))) == multiset(Digits)
  {
    var r := FillBlock(cells, choices);
    FillBlockFreeValues(cells, choices);
    AvailableMatchesFreeCells(cells);
    FillKeepsFixedValues(cells, Available(cells), choices);
    SplitValues(r);
    var fixedPart, freePart := multiset(FixedValues(r)), multiset(FreeValues(r));
    assert fixedPart == multiset(FixedValues(cells));
    MultisetAddCommutes(multiset(Available(cells)), fixedPart);
    assert fixedPart + freePart == multiset(Digits);
  }

  lemma MultisetAddCommutes(a: multiset<int>, b: multiset<int>)
    ensures a + b == b + a
  {
  }

  /**
   The grid with every block filled. Each block is filled from its own
   cells and its own nine choices, and the blocks do not overlap, so
   filling them in turn, block 0 first, gives this grid.
   */
  function GenerateGrid(g: Grid, choices: seq<nat>): (h: Grid)
    requires |choices| >= 81
    ensures forall q: Index :: BlockCells(h, q) == FillBlock(BlockCells(g, q), BlockChoices(choices, q))
  {
    var bs := seq(9, q requires 0 <= q < 9 => FillBlock(BlockCells(g, q), BlockChoices(choices, q)));
    var h := FromBlocks(bs);
    forall q: Index ensures BlockCells(h, q) == FillBlock(BlockCells(g, q), BlockChoices(choices, q)) {
      assert BlockCells(h, q) == bs[q];
    }
    h
  }

  /** Filling the blocks keeps the givens and puts a value of 1..9 in every free cell. */
  lemma GenerateGridKeepsGivens(g: Grid, choices: seq<nat>)
    requires |choices| >= 81
    ensures KeepsGivens(g, GenerateGrid(g, choices))
    ensures forall row: Index, col: Index :: !GenerateGrid(g, choices)[row][col].fixed ==>
      1 <= GenerateGrid(g, choices)[row][col].value <= 9
  {
    var h := GenerateGrid(g, choices);
    forall q: Index, k: Index
      ensures BlockCells(h, q)[k].fixed == BlockCells(g, q)[k].fixed
      ensures BlockCells(g, q)[k].fixed ==> BlockCells(h, q)[k] == BlockCells(g, q)[k]
      ensures !BlockCells(h, q)[k].fixed ==> 1 <= BlockCells(h, q)[k].value <= 9
    {
      assert BlockCells(h, q) == FillBlock(BlockCells(g, q), BlockChoices(choices, q));
    }
    KeepsGivensBlockwise(g, h);
    forall row: Index, col: Index ensures !h[row][col].fixed ==> 1 <= h[row][col].value <= 9 {
      CellInItsBlock(h, row, col);
    }
  }

  /** With valid givens everywhere, filling the blocks leaves each holding 1..9 once. */
  lemma GenerateGridArePermutations(g: Grid, choices: seq<nat>)
    requires |choices| >= 81
    requires forall q: Index :: ValidGivens(BlockCells(g, q))
    ensures forall q: Index :: multiset(BlockValues(GenerateGrid(g, choices), q)) == multiset(Digits)
  {
    var h := GenerateGrid(g, choices);
    forall q: Index ensures multiset(BlockValues(h, q)) == multiset(Digits) {
      assert BlockCells(h, q) == FillBlock(BlockCells(g, q), BlockChoices(choices, q));
      FillBlockIsPermutation(BlockCells(g, q), BlockChoices(choices, q));
    }
  }

  /**
   Fills every block and computes the matrix from scratch. Givens keep their
   place and value, every free cell gets a value in 1..9, and when each
   block's givens are distinct values in 1..9 every block ends up holding
   1..9 exactly once.
   */
  function Generate(s: Sudoku, choices: seq<nat>): (r: Sudoku)
    requires |choices| >= 81
    ensures Consistent(r)
    ensures KeepsGivens(s.puzzle, r.puzzle)
    ensures forall row: Index, col: Index :: !r.puzzle[row][col].fixed ==> 1 <= r.puzzle[row][col].value <= 9
    ensures (forall q: Index :: ValidGivens(BlockCells(s.puzzle, q))) ==>
      forall q: Index :: multiset(BlockValues(r.puzzle, q)) == multiset(Digits)
  {
    var g := GenerateGrid(s.puzzle, choices);
    GenerateGridKeepsGivens(s.puzzle, choices);
    assert (forall q: Index :: ValidGivens(BlockCells(s.puzzle, q))) ==>
      forall q: Index :: multiset(BlockValues(g, q)) == multiset(Digits) by {
      if forall q: Index :: ValidGivens(BlockCells(s.puzzle, q)) {
        GenerateGridArePermutations(s.puzzle, choices);
      }
    }
    Sudoku(g, Evaluate(g))
  }
}
