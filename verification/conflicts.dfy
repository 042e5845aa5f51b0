/**
 * The per-cell conflict counter used by the local search, and the board-wide
 * conflict measure it controls.
 *
 * `TotalConflicts(b)` adds, over the 27 units (rows, columns, boxes), the
 * number of ordered pairs of distinct cells of the unit holding equal values.
 * The main result, `SwapConflictDelta`, says that exchanging two cells changes
 * this total by exactly twice the change of the two cells' own conflict
 * counts. Hence a swap that the local search keeps (its two counts did not
 * get worse) never raises the total.
 */
module Conflicts {
  import opened Sums
  import opened Counting
  import opened Board

  /** Conflicts of cell (r, c) within its row. */
  function RowConflicts(b: Grid, r: int, c: int): int
    requires IsBoard(b) && 0 <= r < 9 && 0 <= c < 9
  {
    CountOthers(b[r], b[r][c], c)
  }

  /** Conflicts of cell (r, c) within its column. */
  function ColumnConflicts(b: Grid, r: int, c: int): int
    requires IsBoard(b) && 0 <= r < 9 && 0 <= c < 9
  {
    CountOthers(Column(b, c), b[r][c], r)
  }

  /** Conflicts of cell (r, c) within its box. */
  function BoxConflicts(b: Grid, r: int, c: int): int
    requires IsBoard(b) && 0 <= r < 9 && 0 <= c < 9
  {
    CellToBox(r, c);
    CountOthers(Box(b, BoxOf(r, c)), b[r][c], PosOf(r, c))
  }

  /**
   * The number of other cells sharing a row, a column or a box with (r, c)
   * and holding its value, a cell being counted once per unit it shares.
   * For a nonzero value, no conflict means the value could be placed there
   * afresh: it passes the placement check on the board with the cell cleared.
   */
  function CountCellConflicts(b: Grid, r: int, c: int): (n: int)
    requires IsBoard(b) && 0 <= r < 9 && 0 <= c < 9
    ensures 0 <= n <= 24
    ensures b[r][c] != 0 ==> (n == 0 <==> IsValidPlacement(Set(b, r, c, 0), r, c, b[r][c]))
  {
    CellToBox(r, c);
    BoxCell(b, r, c);
    CountOthersBound(b[r], c);
    CountOthersBound(Column(b, c), r);
    CountOthersBound(Box(b, BoxOf(r, c)), PosOf(r, c));
    ClearedCell(b, r, c);
    RowConflicts(b, r, c) + ColumnConflicts(b, r, c) + BoxConflicts(b, r, c)
  }

  /** Clearing a cell holding v: v is absent from a unit exactly when the unit had no other v. */
  lemma ClearedUnit(s: seq<int>, t: seq<int>, i: int, v: int)
    requires |s| == |t| && 0 <= i < |s| && v != 0 && t == s[i := 0]
    ensures 0 <= CountOthers(s, v, i)
    ensures v !in t <==> CountOthers(s, v, i) == 0
  {
    CountOthersZero(s, v, i);
    assert forall k :: 0 <= k < |s| && k != i ==> t[k] == s[k];
  }

  lemma ClearedCell(b: Grid, r: int, c: int)
    requires IsBoard(b) && 0 <= r < 9 && 0 <= c < 9
    ensures b[r][c] != 0 ==> (IsValidPlacement(Set(b, r, c, 0), r, c, b[r][c]) <==>
      RowConflicts(b, r, c) == 0 && ColumnConflicts(b, r, c) == 0 && BoxConflicts(b, r, c) == 0)
  {
    var v := b[r][c];
    if v == 0 {
      return;
    }
    SetUnits(b, r, c, 0);
    BoxCell(b, r, c);
    ClearedUnit(b[r], Set(b, r, c, 0)[r], c, v);
    ClearedUnit(Column(b, c), Column(Set(b, r, c, 0), c), r, v);
    ClearedUnit(Box(b, BoxOf(r, c)), Box(Set(b, r, c, 0), BoxOf(r, c)), PosOf(r, c), v);
  }

  // ---------------------------------------------------------------------
  // The board-wide measure.

  /** At unit u: its number of ordered equal pairs. */
  function PairsPerUnit(family: seq<seq<int>>): int -> int
  {
    u => if 0 <= u < |family| then UnitPairs(family[u]) else 0
  }

  /** Ordered equal pairs, added over a family of units. */
  function FamilyTotal(family: seq<seq<int>>): int
  {
    Sum(|family|, PairsPerUnit(family))
  }

  /** Ordered pairs of distinct cells sharing a value, counted once per shared unit. */
  function TotalConflicts(b: Grid): int
    requires IsBoard(b)
  {
    FamilyTotal(b) + FamilyTotal(Columns(b)) + FamilyTotal(Boxes(b))
  }

  /** A position's count of equal others in its own unit. */
  function Others(family: seq<seq<int>>, u: int, i: int): int
    requires 0 <= u < |family| && 0 <= i < |family[u]|
  {
    CountOthers(family[u], family[u][i], i)
  }

  /** 9 units of 9 positions. */
  predicate IsFamily(family: seq<seq<int>>)
  {
    |family| == 9 && forall u :: 0 <= u < 9 ==> |family[u]| == 9
  }

  /**
   * g is f with the entries at positions (up, ip) and (uq, iq) exchanged.
   */
  predicate SwappedFamily(f: seq<seq<int>>, g: seq<seq<int>>, up: int, ip: int, uq: int, iq: int)
  {
    && IsFamily(f) && IsFamily(g)
    && 0 <= up < 9 && 0 <= ip < 9 && 0 <= uq < 9 && 0 <= iq < 9
    && (up != uq || ip != iq)
    && g[up][ip] == f[uq][iq] && g[uq][iq] == f[up][ip]
    && forall u, i :: 0 <= u < 9 && 0 <= i < 9 && (u != up || i != ip) && (u != uq || i != iq) ==>
         g[u][i] == f[u][i]
  }

  /**
   * Exchanging two entries of a family changes its total by twice the change
   * of the two positions' own counts.
   */
  lemma FamilyDelta(f: seq<seq<int>>, g: seq<seq<int>>, up: int, ip: int, uq: int, iq: int)
    requires SwappedFamily(f, g, up, ip, uq, iq)
    ensures FamilyTotal(g) - FamilyTotal(f) ==
      2 * ((Others(g, up, ip) + Others(g, uq, iq)) - (Others(f, up, ip) + Others(f, uq, iq)))
  {
    UntouchedUnits(f, g, up, ip, uq, iq);
    if up == uq {
      SameUnitDelta(f, g, up, ip, iq);
    } else {
      TwoUnitsDelta(f, g, up, ip, uq, iq);
    }
  }

  /** Units holding neither swapped position are unchanged. */
  lemma UntouchedUnits(f: seq<seq<int>>, g: seq<seq<int>>, up: int, ip: int, uq: int, iq: int)
    requires SwappedFamily(f, g, up, ip, uq, iq)
    ensures forall u :: 0 <= u < 9 && u != up && u != uq ==> PairsPerUnit(g)(u) == PairsPerUnit(f)(u)
  {
    forall u | 0 <= u < 9 && u != up && u != uq
      ensures g[u] == f[u]
    {
      assert forall i :: 0 <= i < 9 ==> g[u][i] == f[u][i];
    }
  }

  lemma SameUnitDelta(f: seq<seq<int>>, g: seq<seq<int>>, u: int, ip: int, iq: int)
    requires SwappedFamily(f, g, u, ip, u, iq)
    requires forall u' :: 0 <= u' < 9 && u' != u ==> PairsPerUnit(g)(u') == PairsPerUnit(f)(u')
    ensures FamilyTotal(g) == FamilyTotal(f)
    ensures Others(g, u, ip) + Others(g, u, iq) == Others(f, u, ip) + Others(f, u, iq)
  {
    assert forall i :: 0 <= i < 9 && i != ip && i != iq ==> g[u][i] == f[u][i];
    UnitPairsSwap(f[u], g[u], ip, iq);
    SumUpdate(|f|, PairsPerUnit(f), PairsPerUnit(g), u);
  }

  lemma TwoUnitsDelta(f: seq<seq<int>>, g: seq<seq<int>>, up: int, ip: int, uq: int, iq: int)
    requires |f| == |g| && 0 <= up < |f| && 0 <= uq < |f| && up != uq
    requires |f[up]| == |g[up]| && 0 <= ip < |f[up]|
    requires forall i :: 0 <= i < |f[up]| && i != ip ==> g[up][i] == f[up][i]
    requires |f[uq]| == |g[uq]| && 0 <= iq < |f[uq]|
    requires forall i :: 0 <= i < |f[uq]| && i != iq ==> g[uq][i] == f[uq][i]
    requires forall u :: 0 <= u < |f| && u != up && u != uq ==> PairsPerUnit(g)(u) == PairsPerUnit(f)(u)
    ensures FamilyTotal(g) - FamilyTotal(f) ==
      2 * ((Others(g, up, ip) + Others(g, uq, iq)) - (Others(f, up, ip) + Others(f, uq, iq)))
  {
    UnitPairsSingleChange(f[up], g[up], ip);
    UnitPairsSingleChange(f[uq], g[uq], iq);
    var d := Minus(PairsPerUnit(g), PairsPerUnit(f));
    SumTwoPoints(|f|, d, up, uq);
    SumSub(|f|, PairsPerUnit(g), PairsPerUnit(f), d);
  }

  /** The rows, columns and boxes of a swapped board are swapped families. */
  lemma RowsDelta(b: Grid, r1: int, c1: int, r2: int, c2: int)
    requires IsBoard(b) && 0 <= r1 < 9 && 0 <= c1 < 9 && 0 <= r2 < 9 && 0 <= c2 < 9
    requires r1 != r2 || c1 != c2
    ensures var b' := Swap(b, r1, c1, r2, c2);
      FamilyTotal(b') - FamilyTotal(b) ==
      2 * ((Others(b', r1, c1) + Others(b', r2, c2)) - (Others(b, r1, c1) + Others(b, r2, c2)))
  {
    hide Sum, FamilyTotal, Others, CountOthers, UnitPairs;
    var b' := Swap(b, r1, c1, r2, c2);
    assert SwappedFamily(b, b', r1, c1, r2, c2);
    FamilyDelta(b, b', r1, c1, r2, c2);
  }

  lemma ColumnsDelta(b: Grid, r1: int, c1: int, r2: int, c2: int)
    requires IsBoard(b) && 0 <= r1 < 9 && 0 <= c1 < 9 && 0 <= r2 < 9 && 0 <= c2 < 9
    requires r1 != r2 || c1 != c2
    ensures var cs, cs' := Columns(b), Columns(Swap(b, r1, c1, r2, c2));
      FamilyTotal(cs') - FamilyTotal(cs) ==
      2 * ((Others(cs', c1, r1) + Others(cs', c2, r2)) - (Others(cs, c1, r1) + Others(cs, c2, r2)))
  {
    hide Sum, FamilyTotal, Others, CountOthers, UnitPairs;
    var cs, cs' := Columns(b), Columns(Swap(b, r1, c1, r2, c2));
    assert SwappedFamily(cs, cs', c1, r1, c2, r2);
    FamilyDelta(cs, cs', c1, r1, c2, r2);
  }

  lemma BoxesDelta(b: Grid, r1: int, c1: int, r2: int, c2: int)
    requires IsBoard(b) && 0 <= r1 < 9 && 0 <= c1 < 9 && 0 <= r2 < 9 && 0 <= c2 < 9
    requires r1 != r2 || c1 != c2
    ensures 0 <= BoxOf(r1, c1) < 9 && 0 <= PosOf(r1, c1) < 9 && 0 <= BoxOf(r2, c2) < 9 && 0 <= PosOf(r2, c2) < 9
    ensures var bs, bs' := Boxes(b), Boxes(Swap(b, r1, c1, r2, c2));
      var k1, p1, k2, p2 := BoxOf(r1, c1), PosOf(r1, c1), BoxOf(r2, c2), PosOf(r2, c2);
      FamilyTotal(bs') - FamilyTotal(bs) ==
      2 * ((Others(bs', k1, p1) + Others(bs', k2, p2)) - (Others(bs, k1, p1) + Others(bs, k2, p2)))
  {
    hide Set, Sum, FamilyTotal, Others, CountOthers, UnitPairs, Box, BoxOf, PosOf, BoxRow, BoxCol;
    CellToBox(r1, c1);
    CellToBox(r2, c2);
    var k1, p1, k2, p2 := BoxOf(r1, c1), PosOf(r1, c1), BoxOf(r2, c2), PosOf(r2, c2);
    SwapBoxes(b, r1, c1, r2, c2);
    FamilyDelta(Boxes(b), Boxes(Swap(b, r1, c1, r2, c2)), k1, p1, k2, p2);
  }

  /** Cells (r1, c1) and (r2, c2) sit at distinct box positions, and only those change. */
  lemma SwapBoxes(b: Grid, r1: int, c1: int, r2: int, c2: int)
    requires IsBoard(b) && 0 <= r1 < 9 && 0 <= c1 < 9 && 0 <= r2 < 9 && 0 <= c2 < 9
    requires r1 != r2 || c1 != c2
    ensures 0 <= BoxOf(r1, c1) < 9 && 0 <= PosOf(r1, c1) < 9 && 0 <= BoxOf(r2, c2) < 9 && 0 <= PosOf(r2, c2) < 9
    ensures SwappedFamily(Boxes(b), Boxes(Swap(b, r1, c1, r2, c2)),
                          BoxOf(r1, c1), PosOf(r1, c1), BoxOf(r2, c2), PosOf(r2, c2))
  {
    hide Set, BoxOf, PosOf, BoxRow, BoxCol;
    var b' := Swap(b, r1, c1, r2, c2);
    CellToBox(r1, c1);
    CellToBox(r2, c2);
    var k1, p1, k2, p2 := BoxOf(r1, c1), PosOf(r1, c1), BoxOf(r2, c2), PosOf(r2, c2);
    BoxCell(b, r1, c1);
    BoxCell(b, r2, c2);
    BoxCell(b', r1, c1);
    BoxCell(b', r2, c2);
    forall k, i | 0 <= k < 9 && 0 <= i < 9 && (k != k1 || i != p1) && (k != k2 || i != p2)
      ensures Boxes(b')[k][i] == Boxes(b)[k][i]
    {
      BoxToCell(k, i);
      BoxEntry(b, k, i);
      BoxEntry(b', k, i);
    }
  }

  /** The conflict counts of a cell are its row, column and box positions' counts. */
  lemma CellOthers(b: Grid, r: int, c: int)
    requires IsBoard(b) && 0 <= r < 9 && 0 <= c < 9
    ensures 0 <= BoxOf(r, c) < 9 && 0 <= PosOf(r, c) < 9
    ensures CountCellConflicts(b, r, c) ==
      Others(b, r, c) + Others(Columns(b), c, r) + Others(Boxes(b), BoxOf(r, c), PosOf(r, c))
  {
    BoxCell(b, r, c);
  }

  /**
   * Exchanging two distinct cells changes the total by exactly twice the
   * change of the two cells' conflict counts.
   */
  lemma SwapConflictDelta(b: Grid, r1: int, c1: int, r2: int, c2: int)
    requires IsBoard(b) && 0 <= r1 < 9 && 0 <= c1 < 9 && 0 <= r2 < 9 && 0 <= c2 < 9
    requires r1 != r2 || c1 != c2
    ensures TotalConflicts(Swap(b, r1, c1, r2, c2)) - TotalConflicts(b) ==
      2 * ((CountCellConflicts(Swap(b, r1, c1, r2, c2), r1, c1) + CountCellConflicts(Swap(b, r1, c1, r2, c2), r2, c2))
         - (CountCellConflicts(b, r1, c1) + CountCellConflicts(b, r2, c2)))
  {
    var b' := Swap(b, r1, c1, r2, c2);
    RowsDelta(b, r1, c1, r2, c2);
    ColumnsDelta(b, r1, c1, r2, c2);
    BoxesDelta(b, r1, c1, r2, c2);
    CellOthers(b, r1, c1);
    CellOthers(b, r2, c2);
    CellOthers(b', r1, c1);
    CellOthers(b', r2, c2);
  }

  // ---------------------------------------------------------------------
  // The total as a sum over cells.

  /** Each cell's conflict count, as a 9 x 9 table (zero off the board). */
  function CellCounts(b: Grid): int -> int -> int
    requires IsBoard(b)
  {
    r => c => if 0 <= r < 9 && 0 <= c < 9 then CountCellConflicts(b, r, c) else 0
  }

  /** The per-cell conflict counts of a family, indexed by unit then position. */
  function UnitTable(family: seq<seq<int>>): int -> int -> int
  {
    u => i => if 0 <= u < |family| && 0 <= i < |family[u]| then Others(family, u, i) else 0
  }

  /** A table indexed by box and position, read by row and column instead. */
  function BoxView(h: int -> int -> int): int -> int -> int
  {
    r => c => h(BoxOf(r, c))(PosOf(r, c))
  }

  /**
   * The board-wide measure is the sum of every cell's own conflict count:
   * the total of the measure the local search judges swaps by.
   */
  lemma TotalIsCellSum(b: Grid)
    requires IsBoard(b)
    ensures TotalConflicts(b) == Sum2(9, 9, CellCounts(b))
  {
    var rows := UnitTable(b);
    var cols := Transpose(UnitTable(Columns(b)));
    var boxes := BoxView(UnitTable(Boxes(b)));
    assert TotalConflicts(b) == FamilyTotal(b) + FamilyTotal(Columns(b)) + FamilyTotal(Boxes(b));
    BoardFamilies(b);
    FamilyAsTable(b);
    FamilyAsTable(Columns(b));
    FamilyAsTable(Boxes(b));
    hide TotalConflicts, FamilyTotal, CellCounts, UnitTable, Columns, Boxes, Plus2, Transpose, BoxView, Sum2, Sum, RowSums;
    CellSumSplit(b);
    Sum2Plus(9, 9, rows, cols);
    SumExchange(9, 9, UnitTable(Columns(b)));
    BoxReindex(UnitTable(Boxes(b)));
    assert FamilyTotal(Columns(b)) == Sum2(9, 9, cols);
    assert FamilyTotal(Boxes(b)) == Sum2(9, 9, boxes);
    assert Sum2(9, 9, CellCounts(b)) == Sum2(9, 9, rows) + Sum2(9, 9, cols) + Sum2(9, 9, boxes);
  }

  /** The cell sum splits into its row, column and box shares. */
  lemma CellSumSplit(b: Grid)
    requires IsBoard(b)
    ensures Sum2(9, 9, CellCounts(b)) ==
      Sum2(9, 9, Plus2(UnitTable(b), Transpose(UnitTable(Columns(b))))) + Sum2(9, 9, BoxView(UnitTable(Boxes(b))))
  {
    var rowsCols := Plus2(UnitTable(b), Transpose(UnitTable(Columns(b))));
    var boxes := BoxView(UnitTable(Boxes(b)));
    hide CellCounts, UnitTable, Columns, Boxes, Plus2, Transpose, BoxView;
    forall r, c | 0 <= r < 9 && 0 <= c < 9
      ensures CellCounts(b)(r)(c) == rowsCols(r)(c) + boxes(r)(c)
    {
      CellSplit(b, r, c);
    }
    Sum2Add(9, 9, rowsCols, boxes, CellCounts(b));
  }

  /** A cell's count is its share of its row, its column and its box. */
  lemma CellSplit(b: Grid, r: int, c: int)
    requires IsBoard(b) && 0 <= r < 9 && 0 <= c < 9
    ensures CellCounts(b)(r)(c) ==
      Plus2(UnitTable(b), Transpose(UnitTable(Columns(b))))(r)(c) + BoxView(UnitTable(Boxes(b)))(r)(c)
  {
    CellOthers(b, r, c);
  }

  /** Rows, columns and boxes are each nine units of nine positions. */
  lemma BoardFamilies(b: Grid)
    requires IsBoard(b)
    ensures IsFamily(b) && IsFamily(Columns(b)) && IsFamily(Boxes(b))
  {
    assert forall c :: 0 <= c < 9 ==> |Columns(b)[c]| == |Column(b, c)|;
    assert forall k :: 0 <= k < 9 ==> |Boxes(b)[k]| == |Box(b, k)|;
  }

  /** A family's total is the double sum of its per-position counts. */
  lemma FamilyAsTable(family: seq<seq<int>>)
    requires IsFamily(family)
    ensures FamilyTotal(family) == Sum2(9, 9, UnitTable(family))
  {
    forall u | 0 <= u < 9
      ensures RowSums(9, UnitTable(family))(u) == PairsPerUnit(family)(u)
    {
      SumExt(9, UnitTable(family)(u), PairCounts(family[u]));
    }
    SumExt(9, RowSums(9, UnitTable(family)), PairsPerUnit(family));
  }

  /** Reading a 9 x 9 table by row and column or by box and position gives the same sum. */
  lemma BoxReindex(h: int -> int -> int)
    ensures Sum2(9, 9, BoxView(h)) == Sum2(9, 9, h)
  {
    hide Sum2, Sum, RowSums, BoxView;
    Sum2Rows9(BoxView(h));
    Sum2Rows9(h);
    BandReindex(h, 0, 1, 2);
    BandReindex(h, 3, 4, 5);
    BandReindex(h, 6, 7, 8);
  }

  /** Rows r, r1, r2 of a band hold exactly the cells of the band's boxes r, r1, r2. */
  lemma BandReindex(h: int -> int -> int, r: int, r1: int, r2: int)
    requires r == 0 || r == 3 || r == 6
    requires r1 == r + 1 && r2 == r + 2
    ensures RowSums(9, BoxView(h))(r) + RowSums(9, BoxView(h))(r1) + RowSums(9, BoxView(h))(r2)
         == RowSums(9, h)(r) + RowSums(9, h)(r1) + RowSums(9, h)(r2)
  {
    var g := BoxView(h);
    RowSumsAt(g, r);
    RowSumsAt(g, r1);
    RowSumsAt(g, r2);
    hide Sum, RowSums, BoxView, Triple;
    ViewRow(h, r, r, r1, r2, 0);
    ViewRow(h, r1, r, r1, r2, 3);
    ViewRow(h, r2, r, r1, r2, 6);
    TableRow(h, r);
    TableRow(h, r1);
    TableRow(h, r2);
  }

  /** Three consecutive entries of line k of a table. */
  function Triple(h: int -> int -> int, k: int, i: int): int
  {
    h(k)(i) + h(k)(i + 1) + h(k)(i + 2)
  }

  /** Row r, read through the boxes, is one row of each of the three boxes in its band. */
  lemma ViewRow(h: int -> int -> int, r: int, k: int, k1: int, k2: int, i: int)
    requires 0 <= r < 9 && k == 3 * (r / 3) && k1 == k + 1 && k2 == k + 2 && i == 3 * (r % 3)
    ensures Sum(9, BoxView(h)(r)) == Triple(h, k, i) + Triple(h, k1, i) + Triple(h, k2, i)
  {
    ViewEntry(h, r, 0, k, i); ViewEntry(h, r, 1, k, i + 1); ViewEntry(h, r, 2, k, i + 2);
    ViewEntry(h, r, 3, k1, i); ViewEntry(h, r, 4, k1, i + 1); ViewEntry(h, r, 5, k1, i + 2);
    ViewEntry(h, r, 6, k2, i); ViewEntry(h, r, 7, k2, i + 1); ViewEntry(h, r, 8, k2, i + 2);
    Unfold9(BoxView(h)(r));
    hide Sum, BoxView, BoxOf, PosOf;
  }

  lemma ViewEntry(h: int -> int -> int, r: int, c: int, k: int, i: int)
    requires BoxOf(r, c) == k && PosOf(r, c) == i
    ensures BoxView(h)(r)(c) == h(k)(i)
  {
  }

  /** A line's sum, in three triples. */
  lemma TableRow(h: int -> int -> int, k: int)
    ensures RowSums(9, h)(k) == Triple(h, k, 0) + Triple(h, k, 3) + Triple(h, k, 6)
  {
    Unfold9(h(k));
  }

  /** No two positions of a unit hold the same value; zeros count as values here. */
  predicate AllDistinct(s: seq<int>)
  {
    forall i, j :: 0 <= i < |s| && 0 <= j < |s| && i != j ==> s[i] != s[j]
  }

  /**
   * The measure is never negative, and it is zero exactly on boards none of
   * whose rows, columns or boxes holds a value twice.
   */
  lemma TotalConflictsZero(b: Grid)
    requires IsBoard(b)
    ensures 0 <= TotalConflicts(b)
    ensures TotalConflicts(b) == 0 <==>
      (forall r :: 0 <= r < 9 ==> AllDistinct(b[r])) &&
      (forall c :: 0 <= c < 9 ==> AllDistinct(Column(b, c))) &&
      (forall k :: 0 <= k < 9 ==> AllDistinct(Box(b, k)))
  {
    assert TotalConflicts(b) == FamilyTotal(b) + FamilyTotal(Columns(b)) + FamilyTotal(Boxes(b));
    FamilyZero(b);
    ColumnsZero(b);
    BoxesZero(b);
  }

  lemma ColumnsZero(b: Grid)
    requires IsBoard(b)
    ensures 0 <= FamilyTotal(Columns(b))
    ensures FamilyTotal(Columns(b)) == 0 <==> forall c :: 0 <= c < 9 ==> AllDistinct(Column(b, c))
  {
    var cols := Columns(b);
    assert forall c :: 0 <= c < 9 ==> cols[c] == Column(b, c);
    hide FamilyTotal, AllDistinct, Columns, Column;
    FamilyZero(cols);
  }

  lemma BoxesZero(b: Grid)
    requires IsBoard(b)
    ensures 0 <= FamilyTotal(Boxes(b))
    ensures FamilyTotal(Boxes(b)) == 0 <==> forall k :: 0 <= k < 9 ==> AllDistinct(Box(b, k))
  {
    var boxes := Boxes(b);
    assert forall k :: 0 <= k < 9 ==> boxes[k] == Box(b, k);
    hide FamilyTotal, AllDistinct, Boxes, Box;
    FamilyZero(boxes);
  }

  lemma FamilyZero(family: seq<seq<int>>)
    ensures 0 <= FamilyTotal(family)
    ensures FamilyTotal(family) == 0 <==> forall u :: 0 <= u < |family| ==> AllDistinct(family[u])
  {
    forall u | 0 <= u < |family|
      ensures 0 <= PairsPerUnit(family)(u)
      ensures PairsPerUnit(family)(u) == 0 <==> AllDistinct(family[u])
    {
      UnitPairsZero(family[u]);
    }
    SumNonNegZero(|family|, PairsPerUnit(family));
  }

  /** A unit's pair count is zero exactly when its entries are pairwise distinct. */
  lemma UnitPairsZero(s: seq<int>)
    ensures 0 <= UnitPairs(s)
    ensures UnitPairs(s) == 0 <==> AllDistinct(s)
  {
    forall k | 0 <= k < |s|
      ensures 0 <= PairCounts(s)(k)
      ensures PairCounts(s)(k) == 0 <==> forall j :: 0 <= j < |s| && j != k ==> s[j] != s[k]
    {
      CountOthersZero(s, s[k], k);
    }
    SumNonNegZero(|s|, PairCounts(s));
  }
}
