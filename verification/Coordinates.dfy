/**
 The 9x9 grid of (value, fixed) cells and the block coordinate system every
 other part of the engine uses: block `p` and in-block position `i`, both
 numbered row-major, name the cell at row `p / 3 * 3 + i / 3` and column
 `p % 3 * 3 + i % 3`.
 */
module Coordinates {

  /** An index into a row, a column, a block or the list of blocks. */
  type Index = x: int | 0 <= x < 9

  /** A cell of the puzzle: its current value and whether it was given. */
  datatype Cell = Cell(value: int, fixed: bool)

  predicate IsGrid(g: seq<seq<Cell>>) {
    |g| == 9 && forall r | 0 <= r < 9 :: |g[r]| == 9
  }

  /** The puzzle, indexed `g[row][col]`. */
  type Grid = g: seq<seq<Cell>> | IsGrid(g)
    witness seq(9, _ => seq(9, _ => Cell(0, false)))

  /** Row of the cell at position `i` of block `p`. */
  function RowOf(p: Index, i: Index): Index {
    p / 3 * 3 + i / 3
  }

  /** Column of the cell at position `i` of block `p`. */
  function ColOf(p: Index, i: Index): Index {
    p % 3 * 3 + i % 3
  }

  /** The block holding the cell at (row, col). */
  function BlockOf(row: Index, col: Index): Index {
    row / 3 * 3 + col / 3
  }

  /** The position of the cell at (row, col) inside its block. */
  function PosOf(row: Index, col: Index): Index {
    row % 3 * 3 + col % 3
  }

  /** (BlockOf, PosOf) is a left inverse of (RowOf, ColOf). */
  lemma BlockCoordinatesRoundTrip(p: Index, i: Index)
    ensures BlockOf(RowOf(p, i), ColOf(p, i)) == p
    ensures PosOf(RowOf(p, i), ColOf(p, i)) == i
  {
    var a, b := p / 3, p % 3;
    var c, d := i / 3, i % 3;
    assert p == 3 * a + b && i == 3 * c + d;
    assert RowOf(p, i) == 3 * a + c && ColOf(p, i) == 3 * b + d;
    assert (3 * a + c) / 3 == a && (3 * a + c) % 3 == c;
    assert (3 * b + d) / 3 == b && (3 * b + d) % 3 == d;
  }

  /** (RowOf, ColOf) is a left inverse of (BlockOf, PosOf). */
  lemma GridCoordinatesRoundTrip(row: Index, col: Index)
    ensures RowOf(BlockOf(row, col), PosOf(row, col)) == row
    ensures ColOf(BlockOf(row, col), PosOf(row, col)) == col
  {
    var a, c := row / 3, row % 3;
    var b, d := col / 3, col % 3;
    assert row == 3 * a + c && col == 3 * b + d;
    assert BlockOf(row, col) == 3 * a + b && PosOf(row, col) == 3 * c + d;
    assert (3 * a + b) / 3 == a && (3 * a + b) % 3 == b;
    assert (3 * c + d) / 3 == c && (3 * c + d) % 3 == d;
  }

  /**
   The block coordinate map is a bijection of [0,9) x [0,9) onto itself,
   and the nine positions of one block all fall in that block.
   */
  lemma CoordinatesBijective()
    ensures forall p: Index, i: Index ::
      BlockOf(RowOf(p, i), ColOf(p, i)) == p && PosOf(RowOf(p, i), ColOf(p, i)) == i
    ensures forall row: Index, col: Index ::
      RowOf(BlockOf(row, col), PosOf(row, col)) == row && ColOf(BlockOf(row, col), PosOf(row, col)) == col
    ensures forall p: Index, i: Index, q: Index, j: Index ::
      RowOf(p, i) == RowOf(q, j) && ColOf(p, i) == ColOf(q, j) ==> p == q && i == j
  {
    forall p: Index, i: Index
      ensures BlockOf(RowOf(p, i), ColOf(p, i)) == p && PosOf(RowOf(p, i), ColOf(p, i)) == i
    {
      BlockCoordinatesRoundTrip(p, i);
    }
    forall row: Index, col: Index
      ensures RowOf(BlockOf(row, col), PosOf(row, col)) == row && ColOf(BlockOf(row, col), PosOf(row, col)) == col
    {
      GridCoordinatesRoundTrip(row, col);
    }
  }

  /** The nine cells of block `p`, in position order. */
  function BlockCells(g: Grid, p: Index): (cells: seq<Cell>)
    ensures |cells| == 9
    ensures forall i: Index :: cells[i] == g[RowOf(p, i)][ColOf(p, i)]
  {
    seq(9, i requires 0 <= i < 9 => g[RowOf(p, i)][ColOf(p, i)])
  }

  /** The values of a list of cells. */
  function Values(cells: seq<Cell>): (vs: seq<int>)
    ensures |vs| == |cells|
    ensures forall k | 0 <= k < |cells| :: vs[k] == cells[k].value
  {
    seq(|cells|, k requires 0 <= k < |cells| => cells[k].value)
  }

  /** The values of block `p`, in position order. */
  function BlockValues(g: Grid, p: Index): seq<int> {
    Values(BlockCells(g, p))
  }

  /** `g` with block `p` replaced by `cells` (position `i` of the block gets `cells[i]`). */
  function WithBlock(g: Grid, p: Index, cells: seq<Cell>): (h: Grid)
    requires |cells| == 9
    ensures BlockCells(h, p) == cells
    ensures forall q: Index | q != p :: BlockCells(h, q) == BlockCells(g, q)
  {
    var h: Grid := seq(9, row requires 0 <= row < 9 =>
      seq(9, col requires 0 <= col < 9 =>
        if BlockOf(row, col) == p then cells[PosOf(row, col)] else g[row][col]));
    CoordinatesBijective();
    assert BlockCells(h, p) == cells;
    h
  }

  /**
   The two cells at positions `i` and `j` of block `p` exchanged, whole
   cells (value and fixed flag) included.
   */
  function SwapCells(g: Grid, p: Index, i: Index, j: Index): (h: Grid)
    ensures h[RowOf(p, i)][ColOf(p, i)] == g[RowOf(p, j)][ColOf(p, j)]
    ensures h[RowOf(p, j)][ColOf(p, j)] == g[RowOf(p, i)][ColOf(p, i)]
    ensures forall row: Index, col: Index
      | !(row == RowOf(p, i) && col == ColOf(p, i)) && !(row == RowOf(p, j) && col == ColOf(p, j))
      :: h[row][col] == g[row][col]
    ensures forall q: Index | q != p :: BlockCells(h, q) == BlockCells(g, q)
  {
    var cells := BlockCells(g, p);
    var h := WithBlock(g, p, cells[i := cells[j]][j := cells[i]]);
    CoordinatesBijective();
    assert BlockCells(h, p)[i] == h[RowOf(p, i)][ColOf(p, i)];
    assert BlockCells(h, p)[j] == h[RowOf(p, j)][ColOf(p, j)];
    forall row: Index, col: Index
      | !(row == RowOf(p, i) && col == ColOf(p, i)) && !(row == RowOf(p, j) && col == ColOf(p, j))
      ensures h[row][col] == g[row][col]
    {
      if BlockOf(row, col) == p {
        var k := PosOf(row, col);
        assert RowOf(p, k) == row && ColOf(p, k) == col;
        assert k != i && k != j;
        assert h[row][col] == BlockCells(h, p)[k];
      }
    }
    h
  }

  /** Exchanging the same two cells twice gives the grid back. */
  lemma SwapCellsInvolution(g: Grid, p: Index, i: Index, j: Index)
    ensures SwapCells(SwapCells(g, p, i, j), p, i, j) == g
  {
    var h := SwapCells(g, p, i, j);
    var k := SwapCells(h, p, i, j);
    forall row: Index, col: Index ensures k[row][col] == g[row][col] {
    }
    assert forall row: Index :: k[row] == g[row];
  }

  /**
   `h` keeps every given of `g`: every cell fixed in `g` is unchanged in `h`,
   and the set of fixed positions is the same in both.
   */
  predicate KeepsGivens(g: Grid, h: Grid) {
    forall row: Index, col: Index ::
      && h[row][col].fixed == g[row][col].fixed
      && (g[row][col].fixed ==> h[row][col] == g[row][col])
  }

  /** Every block of `h` holds the same values as in `g`, counted with multiplicity. */
  predicate SameBlockContents(g: Grid, h: Grid) {
    forall q: Index :: multiset(BlockValues(h, q)) == multiset(BlockValues(g, q))
  }

  lemma KeepsGivensTransitive(g: Grid, h: Grid, k: Grid)
    requires KeepsGivens(g, h) && KeepsGivens(h, k)
    ensures KeepsGivens(g, k)
  {
  }

  /** Exchanging two whole cells of one block does not change any block's contents. */
  lemma SwapCellsKeepsBlockContents(g: Grid, p: Index, i: Index, j: Index)
    ensures SameBlockContents(g, SwapCells(g, p, i, j))
  {
    var h := SwapCells(g, p, i, j);
    var cells := BlockCells(g, p);
    var vs := BlockValues(g, p);
    CoordinatesBijective();
    assert BlockCells(h, p) == cells[i := cells[j]][j := cells[i]] by {
      forall k: Index ensures BlockCells(h, p)[k] == cells[i := cells[j]][j := cells[i]][k] {
        if k != i && k != j {
          assert !(RowOf(p, k) == RowOf(p, i) && ColOf(p, k) == ColOf(p, i));
          assert !(RowOf(p, k) == RowOf(p, j) && ColOf(p, k) == ColOf(p, j));
        }
      }
    }
    assert BlockValues(h, p) == vs[i := vs[j]][j := vs[i]];
    SwapKeepsMultiset(vs, i, j);
  }

  lemma SwapKeepsMultiset<T>(s: seq<T>, i: nat, j: nat)
    requires i < |s| && j < |s|
    ensures multiset(s[i := s[j]][j := s[i]]) == multiset(s)
  {
    var t := s[i := s[j]];
    assert multiset(t) == multiset(s) - multiset{s[i]} + multiset{s[j]};
    assert multiset(t[j := s[i]]) == multiset(t) - multiset{t[j]} + multiset{s[i]};
  }

  /** Exchanging two free cells keeps every given where it is. */
  lemma SwapFreeCellsKeepsGivens(g: Grid, p: Index, i: Index, j: Index)
    requires !g[RowOf(p, i)][ColOf(p, i)].fixed && !g[RowOf(p, j)][ColOf(p, j)].fixed
    ensures KeepsGivens(g, SwapCells(g, p, i, j))
  {
    var h := SwapCells(g, p, i, j);
    forall row: Index, col: Index
      ensures h[row][col].fixed == g[row][col].fixed
      ensures g[row][col].fixed ==> h[row][col] == g[row][col]
    {
      if row == RowOf(p, i) && col == ColOf(p, i) {
      } else if row == RowOf(p, j) && col == ColOf(p, j) {
      }
    }
  }

  /** The cell at (row, col) is the cell at position PosOf of block BlockOf. */
  lemma CellInItsBlock(g: Grid, row: Index, col: Index)
    ensures g[row][col] == BlockCells(g, BlockOf(row, col))[PosOf(row, col)]
  {
    GridCoordinatesRoundTrip(row, col);
  }

  /**
   `h` keeps the givens of `g` when it does so position by position inside
   every block.
   */
  lemma KeepsGivensBlockwise(g: Grid, h: Grid)
    requires forall q: Index, k: Index ::
      && BlockCells(h, q)[k].fixed == BlockCells(g, q)[k].fixed
      && (BlockCells(g, q)[k].fixed ==> BlockCells(h, q)[k] == BlockCells(g, q)[k])
    ensures KeepsGivens(g, h)
  {
    forall row: Index, col: Index
      ensures h[row][col].fixed == g[row][col].fixed
      ensures g[row][col].fixed ==> h[row][col] == g[row][col]
    {
      CellInItsBlock(h, row, col);
      CellInItsBlock(g, row, col);
    }
  }

  /** Nine lists of nine cells: a grid written block by block. */
  predicate IsBlockList(bs: seq<seq<Cell>>) {
    |bs| == 9 && forall q | 0 <= q < 9 :: |bs[q]| == 9
  }

  /** The nine blocks of a grid. */
  function Blocks(g: Grid): (bs: seq<seq<Cell>>)
    ensures IsBlockList(bs)
    ensures forall q: Index :: bs[q] == BlockCells(g, q)
  {
    seq(9, q requires 0 <= q < 9 => BlockCells(g, q))
  }

  /** The grid whose block `q` is `bs[q]`. */
  function FromBlocks(bs: seq<seq<Cell>>): (g: Grid)
    requires IsBlockList(bs)
    ensures forall q: Index :: BlockCells(g, q) == bs[q]
  {
    var g: Grid := seq(9, row requires 0 <= row < 9 =>
      seq(9, col requires 0 <= col < 9 => bs[BlockOf(row, col)][PosOf(row, col)]));
    forall q: Index ensures BlockCells(g, q) == bs[q] {
      forall i: Index ensures BlockCells(g, q)[i] == bs[q][i] {
        BlockCoordinatesRoundTrip(q, i);
      }
    }
    g
  }

  /** Splitting a grid into blocks and joining them again gives the grid back. */
  lemma BlocksRoundTrip(g: Grid)
    ensures FromBlocks(Blocks(g)) == g
  {
    var h := FromBlocks(Blocks(g));
    forall row: Index, col: Index ensures h[row][col] == g[row][col] {
      CellInItsBlock(h, row, col);
      CellInItsBlock(g, row, col);
    }
    assert forall row: Index :: h[row] == g[row];
  }
}
