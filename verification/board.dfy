/**
 * The 9x9 Sudoku board and its geometry: rows, columns, 3x3 boxes,
 * single-cell writes and swaps, the placement check, and the predicates
 * that say a board is consistent, complete or keeps a puzzle's clues.
 *
 * Boards are immutable values, so a copy of a board is the board itself.
 */
module Board {
  import opened Sums
  import opened Counting

  /** A grid of rows of cells; 0 marks an empty cell. */
  type Grid = seq<seq<int>>

  /** Nine rows of nine cells. */
  predicate IsBoard(b: Grid)
  {
    |b| == 9 && forall r :: 0 <= r < 9 ==> |b[r]| == 9
  }

  /** A row, column, box or position number. */
  type Index = i: int | 0 <= i < 9

  predicate IsDigit(v: int)
  {
    1 <= v <= 9
  }

  /** Every cell is empty or holds a digit. */
  predicate IsPuzzle(b: Grid)
  {
    IsBoard(b) && forall r, c :: 0 <= r < 9 && 0 <= c < 9 ==> 0 <= b[r][c] <= 9
  }

  // ---------------------------------------------------------------------
  // Box geometry. Boxes are numbered 0..8 row-major (box k starts at row
  // 3 * (k / 3), column 3 * (k % 3)); inside a box the cells are numbered
  // 0..8 row-major as well.

  function BoxOf(r: int, c: int): int
  {
    (r / 3) * 3 + c / 3
  }

  function PosOf(r: int, c: int): int
  {
    (r % 3) * 3 + c % 3
  }

  function BoxRow(k: int, i: int): int
  {
    (k / 3) * 3 + i / 3
  }

  function BoxCol(k: int, i: int): int
  {
    (k % 3) * 3 + i % 3
  }

  lemma CellToBox(r: int, c: int)
    requires 0 <= r < 9 && 0 <= c < 9
    ensures 0 <= BoxOf(r, c) < 9 && 0 <= PosOf(r, c) < 9
    ensures BoxRow(BoxOf(r, c), PosOf(r, c)) == r && BoxCol(BoxOf(r, c), PosOf(r, c)) == c
  {
  }

  lemma BoxToCell(k: int, i: int)
    requires 0 <= k < 9 && 0 <= i < 9
    ensures 0 <= BoxRow(k, i) < 9 && 0 <= BoxCol(k, i) < 9
    ensures BoxOf(BoxRow(k, i), BoxCol(k, i)) == k && PosOf(BoxRow(k, i), BoxCol(k, i)) == i
  {
  }

  // ---------------------------------------------------------------------
  // Units.

  function Column(b: Grid, c: int): (col: seq<int>)
    requires IsBoard(b) && 0 <= c < 9
    ensures |col| == 9
  {
    seq(9, r requires 0 <= r < 9 => b[r][c])
  }

  function Box(b: Grid, k: int): (box: seq<int>)
    requires IsBoard(b) && 0 <= k < 9
    ensures |box| == 9
  {
    seq(9, i requires 0 <= i < 9 => b[(k / 3) * 3 + i / 3][(k % 3) * 3 + i % 3])
  }

  /** Entry i of box k is the cell at (BoxRow(k, i), BoxCol(k, i)). */
  lemma BoxEntry(b: Grid, k: int, i: int)
    requires IsBoard(b) && 0 <= k < 9 && 0 <= i < 9
    ensures 0 <= BoxRow(k, i) < 9 && 0 <= BoxCol(k, i) < 9
    ensures Box(b, k)[i] == b[BoxRow(k, i)][BoxCol(k, i)]
  {
    BoxToCellAll(k);
  }

  lemma BoxToCellAll(k: int)
    requires 0 <= k < 9
    ensures forall i :: 0 <= i < 9 ==> 0 <= BoxRow(k, i) < 9 && 0 <= BoxCol(k, i) < 9
  {
  }

  /** The nine columns, as a sequence of units. */
  function Columns(b: Grid): (cols: seq<seq<int>>)
    requires IsBoard(b)
    ensures |cols| == 9
  {
    seq(9, c requires 0 <= c < 9 => Column(b, c))
  }

  /** The nine boxes, as a sequence of units. */
  function Boxes(b: Grid): (boxes: seq<seq<int>>)
    requires IsBoard(b)
    ensures |boxes| == 9
  {
    seq(9, k requires 0 <= k < 9 => Box(b, k))
  }

  /** The value of cell (r, c) as seen from its box. */
  lemma BoxCell(b: Grid, r: int, c: int)
    requires IsBoard(b) && 0 <= r < 9 && 0 <= c < 9
    ensures 0 <= BoxOf(r, c) < 9 && 0 <= PosOf(r, c) < 9
    ensures Box(b, BoxOf(r, c))[PosOf(r, c)] == b[r][c]
  {
    CellToBox(r, c);
  }

  // ---------------------------------------------------------------------
  // Writes.

  /** The board with cell (r, c) set to v. */
  function Set(b: Grid, r: int, c: int, v: int): (b': Grid)
    requires IsBoard(b) && 0 <= r < 9 && 0 <= c < 9
    ensures IsBoard(b')
    ensures forall r', c' :: 0 <= r' < 9 && 0 <= c' < 9 ==>
      b'[r'][c'] == if r' == r && c' == c then v else b[r'][c']
  {
    b[r := b[r][c := v]]
  }

  /** How a single write shows in the row, column and box of the written cell, and in no other unit. */
  lemma SetUnits(b: Grid, r: int, c: int, v: int)
    requires IsBoard(b) && 0 <= r < 9 && 0 <= c < 9
    ensures 0 <= BoxOf(r, c) < 9 && 0 <= PosOf(r, c) < 9
    ensures Set(b, r, c, v)[r] == b[r][c := v]
    ensures Column(Set(b, r, c, v), c) == Column(b, c)[r := v]
    ensures Box(Set(b, r, c, v), BoxOf(r, c)) == Box(b, BoxOf(r, c))[PosOf(r, c) := v]
    ensures forall r' :: 0 <= r' < 9 && r' != r ==> Set(b, r, c, v)[r'] == b[r']
    ensures forall c' :: 0 <= c' < 9 && c' != c ==> Column(Set(b, r, c, v), c') == Column(b, c')
    ensures forall k :: 0 <= k < 9 && k != BoxOf(r, c) ==> Box(Set(b, r, c, v), k) == Box(b, k)
  {
    CellToBox(r, c);
    SetBoxes(b, r, c, v);
  }

  /** The box part of SetUnits. */
  lemma SetBoxes(b: Grid, r: int, c: int, v: int)
    requires IsBoard(b) && 0 <= r < 9 && 0 <= c < 9
    ensures 0 <= BoxOf(r, c) < 9 && 0 <= PosOf(r, c) < 9
    ensures Box(Set(b, r, c, v), BoxOf(r, c)) == Box(b, BoxOf(r, c))[PosOf(r, c) := v]
    ensures forall k :: 0 <= k < 9 && k != BoxOf(r, c) ==> Box(Set(b, r, c, v), k) == Box(b, k)
  {
    hide Column;
    var b' := Set(b, r, c, v);
    var k, p := BoxOf(r, c), PosOf(r, c);
    CellToBox(r, c);
    forall i | 0 <= i < 9
      ensures Box(b', k)[i] == Box(b, k)[p := v][i]
    {
      BoxToCell(k, i);
      BoxEntry(b, k, i);
      BoxEntry(b', k, i);
    }
    forall k' | 0 <= k' < 9 && k' != k
      ensures Box(b', k') == Box(b, k')
    {
      forall i | 0 <= i < 9
        ensures Box(b', k')[i] == Box(b, k')[i]
      {
        BoxToCell(k', i);
        BoxEntry(b, k', i);
        BoxEntry(b', k', i);
      }
    }
  }

  /** The board with the values of cells (r1, c1) and (r2, c2) exchanged. */
  function Swap(b: Grid, r1: int, c1: int, r2: int, c2: int): (b': Grid)
    requires IsBoard(b) && 0 <= r1 < 9 && 0 <= c1 < 9 && 0 <= r2 < 9 && 0 <= c2 < 9
    ensures IsBoard(b')
    ensures forall r, c :: 0 <= r < 9 && 0 <= c < 9 ==>
      b'[r][c] == if r == r2 && c == c2 then b[r1][c1]
                  else if r == r1 && c == c1 then b[r2][c2]
                  else b[r][c]
  {
    Set(Set(b, r1, c1, b[r2][c2]), r2, c2, b[r1][c1])
  }

  // ---------------------------------------------------------------------
  // Validity.

  /** No nonzero value occurs at two positions of s. */
  predicate NoRepeat(s: seq<int>)
  {
    forall i, j :: 0 <= i < |s| && 0 <= j < |s| && i != j && s[i] != 0 ==> s[i] != s[j]
  }

  /** No row, column or box holds a nonzero value twice. */
  predicate Consistent(b: Grid)
  {
    && IsBoard(b)
    && (forall r :: 0 <= r < 9 ==> NoRepeat(b[r]))
    && (forall c :: 0 <= c < 9 ==> NoRepeat(Column(b, c)))
    && (forall k :: 0 <= k < 9 ==> NoRepeat(Box(b, k)))
  }

  /** Every cell holds a digit. */
  predicate IsComplete(b: Grid)
  {
    IsBoard(b) && forall r, c :: 0 <= r < 9 && 0 <= c < 9 ==> IsDigit(b[r][c])
  }

  /** A solved Sudoku. */
  predicate IsSolution(b: Grid)
  {
    Consistent(b) && IsComplete(b)
  }

  /** Every clue (nonzero cell) of the puzzle holds the same value in b. */
  predicate KeepsClues(puzzle: Grid, b: Grid)
  {
    && IsBoard(puzzle) && IsBoard(b)
    && forall r, c :: 0 <= r < 9 && 0 <= c < 9 && puzzle[r][c] != 0 ==> b[r][c] == puzzle[r][c]
  }

  /**
   * The placement check: num is absent from row `row`, from column `col`
   * and from the box containing (row, col). The ensures clause states it cell
   * by cell, with the box scanned from (floor(row/3)*3, floor(col/3)*3).
   */
  function IsValidPlacement(b: Grid, row: int, col: int, num: int): (ok: bool)
    requires IsBoard(b) && 0 <= row < 9 && 0 <= col < 9
    ensures ok <==>
      && (forall c :: 0 <= c < 9 ==> b[row][c] != num)
      && (forall r :: 0 <= r < 9 ==> b[r][col] != num)
      && (forall r, c :: (row / 3) * 3 <= r < (row / 3) * 3 + 3 && (col / 3) * 3 <= c < (col / 3) * 3 + 3 ==>
            b[r][c] != num)
  {
    BoxMembers(b, row, col, num);
    assert forall r :: 0 <= r < 9 ==> Column(b, col)[r] == b[r][col];
    num !in b[row] && num !in Column(b, col) && num !in Box(b, BoxOf(row, col))
  }

  /** The box of (row, col) holds exactly the cells of the 3x3 block around it. */
  lemma BoxMembers(b: Grid, row: int, col: int, num: int)
    requires IsBoard(b) && 0 <= row < 9 && 0 <= col < 9
    ensures num !in Box(b, BoxOf(row, col)) <==>
      forall r, c :: (row / 3) * 3 <= r < (row / 3) * 3 + 3 && (col / 3) * 3 <= c < (col / 3) * 3 + 3 ==>
        b[r][c] != num
  {
    var k := BoxOf(row, col);
    if num in Box(b, k) {
      var i :| 0 <= i < 9 && Box(b, k)[i] == num;
      BoxBlock(row, col, i);
      BoxEntry(b, k, i);
    } else {
      forall r, c | (row / 3) * 3 <= r < (row / 3) * 3 + 3 && (col / 3) * 3 <= c < (col / 3) * 3 + 3
        ensures b[r][c] != num
      {
        SameBox(row, col, r, c);
        BoxCell(b, r, c);
      }
    }
  }

  /** The cells of box BoxOf(row, col) lie in the 3x3 block around (row, col). */
  lemma BoxBlock(row: int, col: int, i: int)
    requires 0 <= row < 9 && 0 <= col < 9 && 0 <= i < 9
    ensures (row / 3) * 3 <= BoxRow(BoxOf(row, col), i) < (row / 3) * 3 + 3
    ensures (col / 3) * 3 <= BoxCol(BoxOf(row, col), i) < (col / 3) * 3 + 3
  {
  }

  /** A cell of the 3x3 block around (row, col) lies in the same box. */
  lemma SameBox(row: int, col: int, r: int, c: int)
    requires 0 <= row < 9 && 0 <= col < 9
    requires (row / 3) * 3 <= r < (row / 3) * 3 + 3 && (col / 3) * 3 <= c < (col / 3) * 3 + 3
    ensures 0 <= r < 9 && 0 <= c < 9 && BoxOf(r, c) == BoxOf(row, col)
  {
  }

  // ---------------------------------------------------------------------
  // Counting empty cells.

  /** Per row: the number of empty cells. */
  function RowZeros(b: Grid): int -> int
  {
    r => if 0 <= r < |b| then Occurrences(b[r], 0) else 0
  }

  /** The number of empty cells of the board. */
  function ZeroCount(b: Grid): (n: int)
    requires IsBoard(b)
    ensures 0 <= n <= 81
  {
    forall r | 0 <= r < 9
      ensures 0 <= RowZeros(b)(r) <= 9
    {
    }
    SumBounds9(RowZeros(b));
    Sum(9, RowZeros(b))
  }

  lemma SumBounds9(f: int -> int)
    requires forall r :: 0 <= r < 9 ==> 0 <= f(r) <= 9
    ensures 0 <= Sum(9, f) <= 81
  {
    Unfold9(f);
  }

  /** The number of nonzero (clue) cells. */
  function ClueCount(b: Grid): (n: int)
    requires IsBoard(b)
    ensures 0 <= n <= 81
  {
    81 - ZeroCount(b)
  }

  /** Writing v into cell (r, c) changes the number of empty cells accordingly. */
  lemma ZeroCountSet(b: Grid, r: int, c: int, v: int)
    requires IsBoard(b) && 0 <= r < 9 && 0 <= c < 9
    ensures ZeroCount(Set(b, r, c, v)) ==
      ZeroCount(b) - (if b[r][c] == 0 then 1 else 0) + (if v == 0 then 1 else 0)
  {
    var b' := Set(b, r, c, v);
    OccurrencesUpdate(b[r], b'[r], c, 0);
    SumUpdate(9, RowZeros(b), RowZeros(b'), r);
  }

  /** A board with no empty cell whose values are digits or blanks is complete. */
  lemma NoZerosComplete(b: Grid)
    requires IsPuzzle(b) && ZeroCount(b) == 0
    ensures IsComplete(b)
  {
    RowZerosNonNeg(b);
    SumNonNegZero(9, RowZeros(b));
    forall r | 0 <= r < 9
      ensures forall c :: 0 <= c < 9 ==> b[r][c] != 0
    {
      assert RowZeros(b)(r) == 0;
      NoOccurrence(b[r], 0);
    }
  }

  lemma RowZerosNonNeg(b: Grid)
    ensures forall r :: 0 <= RowZeros(b)(r)
  {
  }

  /** Every cell is nonzero. */
  predicate IsFilled(b: Grid)
  {
    IsBoard(b) && forall r, c :: 0 <= r < 9 && 0 <= c < 9 ==> b[r][c] != 0
  }

  /** A board with every cell nonzero has no empty cell. */
  lemma FilledNoZeros(b: Grid)
    requires IsFilled(b)
    ensures ZeroCount(b) == 0
  {
    forall r | 0 <= r < 9
      ensures RowZeros(b)(r) == 0
    {
      assert 0 !in b[r];
    }
    SumZero(9, RowZeros(b));
  }
}
