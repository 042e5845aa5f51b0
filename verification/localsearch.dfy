/**
 * The local search applied by the LSGA solver to every individual: three
 * passes, each trying every swap of two non-clue cells of one column (the
 * column sweep) and then every swap of two non-clue cells of one box (the
 * box sweep). A swap is undone when the two cells' conflict counts add up
 * to more afterwards than before.
 *
 * The conflict total of the board (see module Conflicts) never rises:
 * each kept swap changes it by twice the change of the two cells' counts.
 * The fitness is a different measure and is not controlled by the search.
 */
module LocalSearch {
  import opened Counting
  import opened Board
  import opened Conflicts

  /** A cell of the board. */
  datatype Cell = Cell(row: Index, col: Index)

  /** The board with the values of two cells exchanged. */
  function SwapCells(g: Grid, p: Cell, q: Cell): (g': Grid)
    requires IsBoard(g)
    ensures IsBoard(g')
  {
    Swap(g, p.row, p.col, q.row, q.col)
  }

  /** The two cells' conflict counts, added. */
  function PairConflicts(g: Grid, p: Cell, q: Cell): int
    requires IsBoard(g)
  {
    CountCellConflicts(g, p.row, p.col) + CountCellConflicts(g, q.row, q.col)
  }

  /** An exchange leaves every other cell alone. */
  lemma SwapElsewhere(g: Grid, p: Cell, q: Cell)
    requires IsBoard(g)
    ensures forall r: Index, c: Index :: Cell(r, c) != p && Cell(r, c) != q ==> SwapCells(g, p, q)[r][c] == g[r][c]
  {
  }

  /** Exchanging a cell with itself changes nothing. */
  lemma SwapSelf(g: Grid, p: Cell)
    requires IsBoard(g)
    ensures SwapCells(g, p, p) == g
  {
    var g' := SwapCells(g, p, p);
    forall r | 0 <= r < 9
      ensures g'[r] == g[r]
    {
      assert forall c :: 0 <= c < 9 ==> g'[r][c] == g[r][c];
    }
  }

  /** Any exchange, of two cells or of a cell with itself, moves the total by twice the pair's change. */
  lemma SwapCellsDelta(g: Grid, p: Cell, q: Cell)
    requires IsBoard(g)
    ensures TotalConflicts(SwapCells(g, p, q)) - TotalConflicts(g) ==
      2 * (PairConflicts(SwapCells(g, p, q), p, q) - PairConflicts(g, p, q))
  {
    if p == q {
      SwapSelf(g, p);
    } else {
      SwapConflictDelta(g, p.row, p.col, q.row, q.col);
    }
  }

  /**
   * One trial swap: kept unless the two cells' conflicts add up to more
   * afterwards. Their conflicts never rise, and neither does the board's
   * conflict total.
   */
  function TrySwap(g: Grid, p: Cell, q: Cell): (g': Grid)
    requires IsBoard(g)
    ensures IsBoard(g')
    ensures g' == g || g' == SwapCells(g, p, q)
    ensures PairConflicts(SwapCells(g, p, q), p, q) <= PairConflicts(g, p, q) ==> g' == SwapCells(g, p, q)
    ensures PairConflicts(SwapCells(g, p, q), p, q) > PairConflicts(g, p, q) ==> g' == g
    ensures forall r: Index, c: Index :: Cell(r, c) != p && Cell(r, c) != q ==> g'[r][c] == g[r][c]
    ensures PairConflicts(g', p, q) <= PairConflicts(g, p, q)
    ensures TotalConflicts(g') <= TotalConflicts(g)
  {
    var s := SwapCells(g, p, q);
    SwapCellsDelta(g, p, q);
    SwapElsewhere(g, p, q);
    if PairConflicts(s, p, q) > PairConflicts(g, p, q) then g else s
  }

  /** The trial swaps of a sweep, in order. */
  function RunSwaps(g: Grid, pairs: seq<(Cell, Cell)>): (g': Grid)
    requires IsBoard(g)
    ensures IsBoard(g')
    ensures TotalConflicts(g') <= TotalConflicts(g)
    decreases |pairs|
  {
    if |pairs| == 0 then g
    else RunSwaps(TrySwap(g, pairs[0].0, pairs[0].1), pairs[1..])
  }

  // ---------------------------------------------------------------------
  // The candidate swaps.

  /** Every pair (cells[i], cells[j]) with i < j, ordered by i and then by j. */
  function PairsOf(cells: seq<Cell>): (pairs: seq<(Cell, Cell)>)
    ensures forall k :: 0 <= k < |pairs| ==> pairs[k].0 in cells && pairs[k].1 in cells
    decreases |cells|
  {
    if |cells| == 0 then []
    else
      var rest := cells[1..];
      assert forall x :: x in rest ==> x in cells;
      seq(|rest|, k requires 0 <= k < |rest| => (cells[0], rest[k])) + PairsOf(rest)
  }

  /** n cells give n * (n - 1) / 2 pairs. */
  lemma {:induction false} PairsOfCount(cells: seq<Cell>)
    ensures 2 * |PairsOf(cells)| == |cells| * (|cells| - 1)
    decreases |cells|
  {
    if |cells| > 0 {
      var n := |cells| - 1;
      PairsOfCount(cells[1..]);
      assert |PairsOf(cells)| == n + |PairsOf(cells[1..])|;
      assert (n + 1) * n == n * (n - 1) + 2 * n;
    }
  }

  /** Every pair of positions i < j of the list is tried. */
  lemma {:induction false} PairsOfComplete(cells: seq<Cell>, i: int, j: int)
    requires 0 <= i < j < |cells|
    ensures (cells[i], cells[j]) in PairsOf(cells)
    decreases |cells|
  {
    var rest := cells[1..];
    var front := seq(|rest|, k requires 0 <= k < |rest| => (cells[0], rest[k]));
    assert PairsOf(cells) == front + PairsOf(rest);
    if i == 0 {
      assert front[j - 1] == (cells[i], cells[j]);
    } else {
      PairsOfComplete(rest, i - 1, j - 1);
    }
  }

  /** The cells of the list that are empty in the puzzle, in list order. */
  function FreeCells(original: Grid, cells: seq<Cell>): (free: seq<Cell>)
    requires IsBoard(original)
    ensures forall x :: x in free <==> x in cells && original[x.row][x.col] == 0
    decreases |cells|
  {
    if |cells| == 0 then []
    else
      var x := cells[0];
      var rest := FreeCells(original, cells[1..]);
      assert forall y :: y in cells <==> y == x || y in cells[1..];
      if original[x.row][x.col] == 0 then [x] + rest else rest
  }

  /** The cells of column c, top to bottom. */
  function ColumnCells(c: Index): (cells: seq<Cell>)
    ensures |cells| == 9
    ensures forall x :: x in cells <==> x.col == c
  {
    var cells := seq(9, r requires 0 <= r < 9 => Cell(r, c));
    assert forall x: Cell :: x.col == c ==> cells[x.row] == x;
    cells
  }

  /** The cells of box k, row by row. */
  function BoxCells(k: Index): (cells: seq<Cell>)
    ensures |cells| == 9
    ensures forall x :: x in cells <==> BoxOf(x.row, x.col) == k
  {
    BoxToCellAll(k);
    var cells := seq(9, i requires 0 <= i < 9 => Cell(BoxRow(k, i), BoxCol(k, i)));
    forall i | 0 <= i < 9
      ensures BoxOf(cells[i].row, cells[i].col) == k
    {
      BoxToCell(k, i);
    }
    forall x: Cell | BoxOf(x.row, x.col) == k
      ensures x in cells
    {
      CellToBox(x.row, x.col);
      assert cells[PosOf(x.row, x.col)] == x;
    }
    cells
  }

  /** The nine columns, left to right. */
  function ColumnUnits(): (units: seq<seq<Cell>>)
    ensures |units| == 9
    ensures forall u :: 0 <= u < 9 ==> units[u] == ColumnCells(u)
  {
    seq(9, c requires 0 <= c < 9 => ColumnCells(c))
  }

  /** The nine boxes, row by row. */
  function BoxUnits(): (units: seq<seq<Cell>>)
    ensures |units| == 9
    ensures forall u :: 0 <= u < 9 ==> units[u] == BoxCells(u)
  {
    seq(9, k requires 0 <= k < 9 => BoxCells(k))
  }

  /** The swaps a sweep tries: unit by unit, every pair of the unit's empty puzzle cells. */
  function SweepPairs(original: Grid, units: seq<seq<Cell>>): (pairs: seq<(Cell, Cell)>)
    requires IsBoard(original)
    ensures forall k :: 0 <= k < |pairs| ==>
      original[pairs[k].0.row][pairs[k].0.col] == 0 && original[pairs[k].1.row][pairs[k].1.col] == 0
    ensures forall k :: 0 <= k < |pairs| ==>
      exists u :: 0 <= u < |units| && pairs[k].0 in units[u] && pairs[k].1 in units[u]
    decreases |units|
  {
    if |units| == 0 then []
    else
      var here := PairsOf(FreeCells(original, units[0]));
      var rest := SweepPairs(original, units[1..]);
      assert forall k :: 0 <= k < |here| ==> here[k].0 in units[0] && here[k].1 in units[0];
      forall k | 0 <= k < |rest|
        ensures exists u :: 0 <= u < |units| && rest[k].0 in units[u] && rest[k].1 in units[u]
      {
        var u :| 0 <= u < |units[1..]| && rest[k].0 in units[1..][u] && rest[k].1 in units[1..][u];
        assert units[1..][u] == units[u + 1];
      }
      here + rest
  }

  // ---------------------------------------------------------------------
  // The search.

  /** One pass: the column sweep, then the box sweep. */
  function LocalSearchPass(g: Grid, original: Grid): (g': Grid)
    requires IsBoard(g) && IsBoard(original)
    ensures IsBoard(g')
    ensures TotalConflicts(g') <= TotalConflicts(g)
  {
    RunSwaps(RunSwaps(g, SweepPairs(original, ColumnUnits())), SweepPairs(original, BoxUnits()))
  }

  /**
   * Three passes of column and box sweeps. Clue cells keep their values and
   * the board's conflict total does not rise.
   */
  function ApplyLocalSearch(g: Grid, original: Grid): (g': Grid)
    requires IsBoard(g) && IsBoard(original)
    ensures IsBoard(g')
    ensures TotalConflicts(g') <= TotalConflicts(g)
    ensures UnchangedAtClues(original, g, g')
  {
    var g1 := LocalSearchPass(g, original);
    var g2 := LocalSearchPass(g1, original);
    var g3 := LocalSearchPass(g2, original);
    PassKeepsClues(g, original);
    PassKeepsClues(g1, original);
    PassKeepsClues(g2, original);
    UnchangedAtCluesTrans(original, g, g1, g2);
    UnchangedAtCluesTrans(original, g, g2, g3);
    g3
  }

  /** g' holds g's values at every clue cell of original. */
  predicate UnchangedAtClues(original: Grid, g: Grid, g': Grid)
    requires IsBoard(original) && IsBoard(g) && IsBoard(g')
  {
    forall r, c :: 0 <= r < 9 && 0 <= c < 9 && original[r][c] != 0 ==> g'[r][c] == g[r][c]
  }

  lemma UnchangedAtCluesTrans(original: Grid, g1: Grid, g2: Grid, g3: Grid)
    requires IsBoard(original) && IsBoard(g1) && IsBoard(g2) && IsBoard(g3)
    requires UnchangedAtClues(original, g1, g2) && UnchangedAtClues(original, g2, g3)
    ensures UnchangedAtClues(original, g1, g3)
  {
  }

  // ---------------------------------------------------------------------
  // What the sweeps keep.

  /** Every swap of the list exchanges two empty puzzle cells. */
  predicate FreePairs(original: Grid, pairs: seq<(Cell, Cell)>)
    requires IsBoard(original)
  {
    forall k :: 0 <= k < |pairs| ==>
      original[pairs[k].0.row][pairs[k].0.col] == 0 && original[pairs[k].1.row][pairs[k].1.col] == 0
  }

  /** Swaps of empty puzzle cells leave every clue cell as it was. */
  lemma {:induction false} RunSwapsKeepsClues(g: Grid, original: Grid, pairs: seq<(Cell, Cell)>)
    requires IsBoard(g) && IsBoard(original) && FreePairs(original, pairs)
    ensures forall r, c :: 0 <= r < 9 && 0 <= c < 9 && original[r][c] != 0 ==> RunSwaps(g, pairs)[r][c] == g[r][c]
    decreases |pairs|
  {
    if |pairs| > 0 {
      var g1 := TrySwap(g, pairs[0].0, pairs[0].1);
      TrySwapKeepsClues(g, original, pairs[0].0, pairs[0].1);
      FreePairsTail(original, pairs);
      RunSwapsKeepsClues(g1, original, pairs[1..]);
    }
  }

  lemma FreePairsTail(original: Grid, pairs: seq<(Cell, Cell)>)
    requires IsBoard(original) && |pairs| > 0 && FreePairs(original, pairs)
    ensures FreePairs(original, pairs[1..])
  {
    assert forall k :: 0 <= k < |pairs[1..]| ==> pairs[1..][k] == pairs[k + 1];
  }

  /** A trial swap of two empty puzzle cells leaves every clue cell as it was. */
  lemma TrySwapKeepsClues(g: Grid, original: Grid, p: Cell, q: Cell)
    requires IsBoard(g) && IsBoard(original)
    requires original[p.row][p.col] == 0 && original[q.row][q.col] == 0
    ensures forall r, c :: 0 <= r < 9 && 0 <= c < 9 && original[r][c] != 0 ==> TrySwap(g, p, q)[r][c] == g[r][c]
  {
    assert forall r: Index, c: Index :: original[r][c] != 0 ==> Cell(r, c) != p && Cell(r, c) != q;
  }

  /** One pass of sweeps leaves every clue cell as it was. */
  lemma PassKeepsClues(g: Grid, original: Grid)
    requires IsBoard(g) && IsBoard(original)
    ensures UnchangedAtClues(original, g, LocalSearchPass(g, original))
  {
    var cols := SweepPairs(original, ColumnUnits());
    RunSwapsKeepsClues(g, original, cols);
    RunSwapsKeepsClues(RunSwaps(g, cols), original, SweepPairs(original, BoxUnits()));
  }

  /** Every swap of the list stays inside one column. */
  predicate InColumns(pairs: seq<(Cell, Cell)>)
  {
    forall k :: 0 <= k < |pairs| ==> pairs[k].0.col == pairs[k].1.col
  }

  /** Every swap of the list stays inside one box. */
  predicate InBoxes(pairs: seq<(Cell, Cell)>)
  {
    forall k :: 0 <= k < |pairs| ==> BoxOf(pairs[k].0.row, pairs[k].0.col) == BoxOf(pairs[k].1.row, pairs[k].1.col)
  }

  /** The column sweep only swaps within a column. */
  lemma ColumnSweepShape(original: Grid)
    requires IsBoard(original)
    ensures InColumns(SweepPairs(original, ColumnUnits()))
  {
    var units, pairs := ColumnUnits(), SweepPairs(original, ColumnUnits());
    forall k | 0 <= k < |pairs|
      ensures pairs[k].0.col == pairs[k].1.col
    {
      var u :| 0 <= u < |units| && pairs[k].0 in units[u] && pairs[k].1 in units[u];
      assert units[u] == ColumnCells(u);
    }
  }

  /** The box sweep only swaps within a box. */
  lemma BoxSweepShape(original: Grid)
    requires IsBoard(original)
    ensures InBoxes(SweepPairs(original, BoxUnits()))
  {
    var units, pairs := BoxUnits(), SweepPairs(original, BoxUnits());
    forall k | 0 <= k < |pairs|
      ensures BoxOf(pairs[k].0.row, pairs[k].0.col) == BoxOf(pairs[k].1.row, pairs[k].1.col)
    {
      var u :| 0 <= u < |units| && pairs[k].0 in units[u] && pairs[k].1 in units[u];
      assert units[u] == BoxCells(u);
    }
  }

  lemma InColumnsTail(pairs: seq<(Cell, Cell)>)
    requires |pairs| > 0 && InColumns(pairs)
    ensures InColumns(pairs[1..])
  {
    assert forall k :: 0 <= k < |pairs[1..]| ==> pairs[1..][k] == pairs[k + 1];
  }

  lemma InBoxesTail(pairs: seq<(Cell, Cell)>)
    requires |pairs| > 0 && InBoxes(pairs)
    ensures InBoxes(pairs[1..])
  {
    assert forall k :: 0 <= k < |pairs[1..]| ==> pairs[1..][k] == pairs[k + 1];
  }

  /** A swap inside column c keeps the values of every column. */
  lemma SwapInColumn(g: Grid, p: Cell, q: Cell)
    requires IsBoard(g) && p.col == q.col
    ensures forall c :: 0 <= c < 9 ==> multiset(Column(SwapCells(g, p, q), c)) == multiset(Column(g, c))
  {
    var c := p.col;
    var g1 := Set(g, p.row, c, g[q.row][c]);
    SetUnits(g, p.row, c, g[q.row][c]);
    SetUnits(g1, q.row, c, g[p.row][c]);
    var col: seq<int> := Column(g, c);
    if p.row != q.row {
      MultisetSwap(col, p.row, q.row);
    } else {
      assert col[p.row := col[q.row]][q.row := col[p.row]] == col;
    }
  }

  /** A swap inside one box keeps the values of every box. */
  lemma SwapInBox(g: Grid, p: Cell, q: Cell)
    requires IsBoard(g) && BoxOf(p.row, p.col) == BoxOf(q.row, q.col)
    ensures forall k :: 0 <= k < 9 ==> multiset(Box(SwapCells(g, p, q), k)) == multiset(Box(g, k))
  {
    hide Set, Box, BoxRow, BoxCol, Column;
    var g1 := Set(g, p.row, p.col, g[q.row][q.col]);
    SetUnits(g, p.row, p.col, g[q.row][q.col]);
    SetUnits(g1, q.row, q.col, g[p.row][p.col]);
    BoxCell(g, p.row, p.col);
    BoxCell(g, q.row, q.col);
    CellToBox(p.row, p.col);
    CellToBox(q.row, q.col);
    var box: seq<int> := Box(g, BoxOf(p.row, p.col));
    var i, j := PosOf(p.row, p.col), PosOf(q.row, q.col);
    if p != q {
      MultisetSwap(box, i, j);
    } else {
      assert box[i := box[j]][j := box[i]] == box;
    }
  }

  lemma TrySwapColumns(g: Grid, p: Cell, q: Cell)
    requires IsBoard(g) && p.col == q.col
    ensures forall c :: 0 <= c < 9 ==> multiset(Column(TrySwap(g, p, q), c)) == multiset(Column(g, c))
  {
    SwapInColumn(g, p, q);
  }

  lemma TrySwapBoxes(g: Grid, p: Cell, q: Cell)
    requires IsBoard(g) && BoxOf(p.row, p.col) == BoxOf(q.row, q.col)
    ensures forall k :: 0 <= k < 9 ==> multiset(Box(TrySwap(g, p, q), k)) == multiset(Box(g, k))
  {
    SwapInBox(g, p, q);
  }

  /** The column sweep keeps the values of every column. */
  lemma {:induction false} RunSwapsColumns(g: Grid, pairs: seq<(Cell, Cell)>)
    requires IsBoard(g) && InColumns(pairs)
    ensures forall c :: 0 <= c < 9 ==> multiset(Column(RunSwaps(g, pairs), c)) == multiset(Column(g, c))
    decreases |pairs|
  {
    if |pairs| > 0 {
      var g1 := TrySwap(g, pairs[0].0, pairs[0].1);
      TrySwapColumns(g, pairs[0].0, pairs[0].1);
      InColumnsTail(pairs);
      RunSwapsColumns(g1, pairs[1..]);
    }
  }

  /** The box sweep keeps the values of every box. */
  lemma {:induction false} RunSwapsBoxes(g: Grid, pairs: seq<(Cell, Cell)>)
    requires IsBoard(g) && InBoxes(pairs)
    ensures forall k :: 0 <= k < 9 ==> multiset(Box(RunSwaps(g, pairs), k)) == multiset(Box(g, k))
    decreases |pairs|
  {
    if |pairs| > 0 {
      var g1 := TrySwap(g, pairs[0].0, pairs[0].1);
      TrySwapBoxes(g, pairs[0].0, pairs[0].1);
      InBoxesTail(pairs);
      RunSwapsBoxes(g1, pairs[1..]);
    }
  }

  /**
   * Within a pass, the column sweep keeps every column's values and the box
   * sweep that follows keeps every box's values.
   */
  lemma SweepsKeepUnits(g: Grid, original: Grid)
    requires IsBoard(g) && IsBoard(original)
    ensures var g1 := RunSwaps(g, SweepPairs(original, ColumnUnits()));
      forall c :: 0 <= c < 9 ==> multiset(Column(g1, c)) == multiset(Column(g, c))
    ensures var g1 := RunSwaps(g, SweepPairs(original, ColumnUnits()));
      forall k :: 0 <= k < 9 ==> multiset(Box(LocalSearchPass(g, original), k)) == multiset(Box(g1, k))
  {
    ColumnSweepShape(original);
    BoxSweepShape(original);
    RunSwapsColumns(g, SweepPairs(original, ColumnUnits()));
    RunSwapsBoxes(RunSwaps(g, SweepPairs(original, ColumnUnits())), SweepPairs(original, BoxUnits()));
  }
}
