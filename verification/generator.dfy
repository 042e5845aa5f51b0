/**
 * The puzzle generator: seed the three diagonal boxes with shuffled digits,
 * complete the board by backtracking, then clear randomly drawn filled cells
 * until the difficulty's number of clues is left.
 *
 * The shuffles and the drawn cells are inputs. The clearing loop of the
 * generator runs until enough cells are cleared; here it consumes a finite
 * sequence of draws and gives `None` if they run out first.
 */
module Generator {
  import opened Sums
  import opened Counting
  import opened Board
  import opened Options

  datatype Difficulty = Easy | Medium | Hard | Evil

  /** Clues left in a generated puzzle of each difficulty. */
  function CluesCount(d: Difficulty): (n: nat)
    ensures 20 <= n <= 40
  {
    match d
    case Easy => 40
    case Medium => 30
    case Hard => 20
    case Evil => 22
  }

  /** Nine distinct digits: a shuffle of 1..9. */
  predicate IsDigitPerm(p: seq<int>)
  {
    |p| == 9 && (forall i :: 0 <= i < 9 ==> IsDigit(p[i])) && NoRepeat(p)
  }

  predicate AreSeeds(perms: seq<seq<int>>)
  {
    |perms| == 3 && forall d :: 0 <= d < 3 ==> IsDigitPerm(perms[d])
  }

  // ---------------------------------------------------------------------
  // Seeding.

  /**
   * The empty board with box 4 * d (the d-th box on the diagonal) filled,
   * row by row, from the shuffle perms[d].
   */
  function SeedDiagonal(perms: seq<seq<int>>): (b: Grid)
    requires AreSeeds(perms)
    ensures IsPuzzle(b)
  {
    seq(9, r requires 0 <= r < 9 =>
      seq(9, c requires 0 <= c < 9 => if r / 3 == c / 3 then perms[r / 3][PosOf(r, c)] else 0))
  }

  /** Box k of the seeded board: its shuffle on the diagonal, empty elsewhere. */
  lemma SeedBox(perms: seq<seq<int>>, k: int, i: int)
    requires AreSeeds(perms) && 0 <= k < 9 && 0 <= i < 9
    ensures Box(SeedDiagonal(perms), k)[i] == if k / 3 == k % 3 then perms[k / 3][i] else 0
  {
    BoxToCell(k, i);
    var r, c := BoxRow(k, i), BoxCol(k, i);
    SeedCell(perms, r, c);
    assert r / 3 == k / 3 && c / 3 == k % 3;
  }

  /** Within a row or column of the seeded board, the nonzero cells come from one shuffle at distinct places. */
  lemma SeedRowsColumns(perms: seq<seq<int>>)
    requires AreSeeds(perms)
    ensures forall r :: 0 <= r < 9 ==> NoRepeat(SeedDiagonal(perms)[r])
    ensures forall c :: 0 <= c < 9 ==> NoRepeat(Column(SeedDiagonal(perms), c))
  {
    var b := SeedDiagonal(perms);
    forall r, i, j | 0 <= r < 9 && 0 <= i < 9 && 0 <= j < 9 && i != j && b[r][i] != 0
      ensures b[r][i] != b[r][j]
    {
      SeedCell(perms, r, i);
      SeedCell(perms, r, j);
    }
    forall c, i, j | 0 <= c < 9 && 0 <= i < 9 && 0 <= j < 9 && i != j && Column(b, c)[i] != 0
      ensures Column(b, c)[i] != Column(b, c)[j]
    {
      SeedCell(perms, i, c);
      SeedCell(perms, j, c);
    }
  }

  /** Cell (r, c) of the seeded board. */
  lemma SeedCell(perms: seq<seq<int>>, r: int, c: int)
    requires AreSeeds(perms) && 0 <= r < 9 && 0 <= c < 9
    ensures SeedDiagonal(perms)[r][c] == if r / 3 == c / 3 then perms[r / 3][PosOf(r, c)] else 0
  {
  }

  /** The seeded board repeats no value in any row, column or box. */
  lemma SeedConsistent(perms: seq<seq<int>>)
    requires AreSeeds(perms)
    ensures Consistent(SeedDiagonal(perms))
  {
    var b := SeedDiagonal(perms);
    SeedRowsColumns(perms);
    forall k | 0 <= k < 9
      ensures NoRepeat(Box(b, k))
    {
      forall i | 0 <= i < 9
        ensures Box(b, k)[i] == if k / 3 == k % 3 then perms[k / 3][i] else 0
      {
        SeedBox(perms, k, i);
      }
    }
  }

  /** The seeded board has 27 clues: three boxes of nine. */
  lemma SeedClues(perms: seq<seq<int>>)
    requires AreSeeds(perms)
    ensures ClueCount(SeedDiagonal(perms)) == 27
  {
    var b := SeedDiagonal(perms);
    forall r | 0 <= r < 9
      ensures RowZeros(b)(r) == 6
    {
      SeedRowZeros(perms, r);
    }
    Unfold9(RowZeros(b));
  }

  lemma SeedRowZeros(perms: seq<seq<int>>, r: int)
    requires AreSeeds(perms) && 0 <= r < 9
    ensures Occurrences(SeedDiagonal(perms)[r], 0) == 6
  {
    var row := SeedDiagonal(perms)[r];
    var f := Indicator(row, 0);
    forall c | 0 <= c < 9
      ensures f(c) == if r / 3 == c / 3 then 0 else 1
    {
      SeedCell(perms, r, c);
    }
    Unfold9(f);
  }

  // ---------------------------------------------------------------------
  // Backtracking completion.

  /** No cell numbered from i up to, but not including, j is empty (cell number 9 * r + c is (r, c)). */
  predicate EmptyFreeBetween(b: Grid, i: int, j: int)
    requires IsBoard(b)
  {
    forall r, c :: 0 <= r < 9 && 0 <= c < 9 && i <= 9 * r + c < j ==> b[r][c] != 0
  }

  /** The first empty cell at or after cell number i in row-major order. */
  function FirstEmptyFrom(b: Grid, i: nat): (p: Option<(int, int)>)
    requires IsBoard(b) && i <= 81
    ensures p.Some? ==> 0 <= p.value.0 < 9 && 0 <= p.value.1 < 9 && b[p.value.0][p.value.1] == 0
    decreases 81 - i
  {
    if i == 81 then None
    else if b[i / 9][i % 9] == 0 then Some((i / 9, i % 9))
    else
      FirstEmptyFrom(b, i + 1)
  }

  /** Cell number 9 * r + c is the cell (r, c). */
  lemma CellNumber(r: int, c: int)
    requires 0 <= r < 9 && 0 <= c < 9
    ensures (9 * r + c) / 9 == r && (9 * r + c) % 9 == c
  {
  }

  /**
   * The scan from cell number i finds no empty cell exactly when none is
   * left from i on, and otherwise the first one from i on.
   */
  lemma {:induction false} FirstEmptyFromSpec(b: Grid, i: nat)
    requires IsBoard(b) && i <= 81
    ensures FirstEmptyFrom(b, i).None? ==> EmptyFreeBetween(b, i, 81)
    ensures FirstEmptyFrom(b, i).Some? ==>
      var (r, c) := FirstEmptyFrom(b, i).value;
      i <= 9 * r + c && EmptyFreeBetween(b, i, 9 * r + c)
    decreases 81 - i
  {
    if i < 81 && b[i / 9][i % 9] != 0 {
      FirstEmptyFromSpec(b, i + 1);
      forall r, c | 0 <= r < 9 && 0 <= c < 9 && 9 * r + c == i
        ensures b[r][c] != 0
      {
        CellNumber(r, c);
      }
    }
  }

  /** The first empty cell in row-major order, if any. */
  function FirstEmpty(b: Grid): (p: Option<(int, int)>)
    requires IsBoard(b)
    ensures p.Some? ==> 0 <= p.value.0 < 9 && 0 <= p.value.1 < 9 && b[p.value.0][p.value.1] == 0
  {
    FirstEmptyFrom(b, 0)
  }

  /** No empty cell is found exactly on a filled board, and one found has no empty cell before it. */
  lemma FirstEmptySpec(b: Grid)
    requires IsBoard(b)
    ensures FirstEmpty(b).None? <==> IsFilled(b)
    ensures FirstEmpty(b).Some? ==>
      var (r, c) := FirstEmpty(b).value;
      forall r', c' :: 0 <= r' < 9 && 0 <= c' < 9 && 9 * r' + c' < 9 * r + c ==> b[r'][c'] != 0
  {
    FirstEmptyFromSpec(b, 0);
  }

  /**
   * s completes b: s has no empty cell, keeps every clue of b, and is
   * consistent, and within digits, whenever b is.
   */
  predicate Completes(b: Grid, s: Grid)
  {
    && IsFilled(s) && KeepsClues(b, s)
    && (Consistent(b) ==> Consistent(s))
    && (IsPuzzle(b) ==> IsPuzzle(s))
  }

  /**
   * Fill the empty cells of b: take the first empty cell and try the digits
   * 1..9 in order, each one that passes the placement check followed by a
   * recursive fill; `None` when every digit fails. A board without empty
   * cells is returned as it is.
   */
  function Solve(b: Grid): (res: Option<Grid>)
    requires IsBoard(b)
    ensures res.Some? ==> Completes(b, res.value)
    decreases ZeroCount(b), 10
  {
    FirstEmptySpec(b);
    match FirstEmpty(b)
    case None => Some(b)
    case Some((r, c)) => TryValues(b, r, c, 1)
  }

  /** Try the digits num..9 at the empty cell (r, c). */
  function TryValues(b: Grid, r: int, c: int, num: int): (res: Option<Grid>)
    requires IsBoard(b) && 0 <= r < 9 && 0 <= c < 9 && b[r][c] == 0 && 1 <= num <= 10
    ensures res.Some? ==> Completes(b, res.value)
    decreases ZeroCount(b), 10 - num
  {
    if num > 9 then None
    else
      ZeroCountSet(b, r, c, num);
      if IsValidPlacement(b, r, c, num) then
        match Solve(Set(b, r, c, num))
        case Some(s) =>
          CompletesPlaced(b, r, c, num, s);
          Some(s)
        case None => TryValues(b, r, c, num + 1)
      else TryValues(b, r, c, num + 1)
  }

  /** Completing the board after a checked placement completes the board before it. */
  lemma CompletesPlaced(b: Grid, r: int, c: int, num: int, s: Grid)
    requires IsBoard(b) && 0 <= r < 9 && 0 <= c < 9 && b[r][c] == 0 && IsDigit(num)
    requires IsValidPlacement(b, r, c, num) && Completes(Set(b, r, c, num), s)
    ensures Completes(b, s)
  {
    PlaceKeepsConsistent(b, r, c, num);
  }

  /** Writing a value that passes the placement check keeps a board consistent. */
  lemma PlaceKeepsConsistent(b: Grid, r: int, c: int, num: int)
    requires IsBoard(b) && 0 <= r < 9 && 0 <= c < 9 && IsValidPlacement(b, r, c, num)
    ensures Consistent(b) ==> Consistent(Set(b, r, c, num))
  {
    if Consistent(b) {
      var b' := Set(b, r, c, num);
      SetUnits(b, r, c, num);
      NoRepeatPlace(b[r], c, num);
      NoRepeatPlace(Column(b, c), r, num);
      NoRepeatPlace(Box(b, BoxOf(r, c)), PosOf(r, c), num);
      assert forall r' :: 0 <= r' < 9 ==> NoRepeat(b'[r']);
      assert forall c' :: 0 <= c' < 9 ==> NoRepeat(Column(b', c'));
      assert forall k :: 0 <= k < 9 ==> NoRepeat(Box(b', k));
    }
  }

  /** Writing a value absent from a unit keeps it free of repeats. */
  lemma NoRepeatPlace(s: seq<int>, i: int, v: int)
    requires NoRepeat(s) && v !in s && 0 <= i < |s|
    ensures NoRepeat(s[i := v])
  {
  }

  /**
   * Completeness of the backtracking: whenever some solution keeps the
   * nonzero cells of b, the search finds a completion.
   */
  lemma SolveComplete(b: Grid, s: Grid)
    requires IsBoard(b) && IsSolution(s) && KeepsClues(b, s)
    ensures Solve(b).Some?
    decreases ZeroCount(b), 10
  {
    match FirstEmpty(b)
    case None =>
    case Some((r, c)) =>
      TryValuesComplete(b, r, c, 1, s);
  }

  lemma TryValuesComplete(b: Grid, r: int, c: int, num: int, s: Grid)
    requires IsBoard(b) && 0 <= r < 9 && 0 <= c < 9 && b[r][c] == 0
    requires IsSolution(s) && KeepsClues(b, s) && 1 <= num <= s[r][c]
    ensures TryValues(b, r, c, num).Some?
    decreases ZeroCount(b), 10 - num
  {
    ZeroCountSet(b, r, c, num);
    TryValuesStep(b, r, c, num);
    if num == s[r][c] {
      SolutionValueFits(b, r, c, s);
      SetKeepsClues(b, r, c, s);
      SolveComplete(Set(b, r, c, num), s);
    } else if IsValidPlacement(b, r, c, num) && Solve(Set(b, r, c, num)).Some? {
    } else {
      TryValuesComplete(b, r, c, num + 1, s);
    }
  }

  /** One step of the digit loop: keep the first fill found, or move on to the next digit. */
  lemma TryValuesStep(b: Grid, r: int, c: int, num: int)
    requires IsBoard(b) && 0 <= r < 9 && 0 <= c < 9 && b[r][c] == 0 && 1 <= num <= 9
    ensures ZeroCount(Set(b, r, c, num)) < ZeroCount(b)
    ensures TryValues(b, r, c, num) ==
      if IsValidPlacement(b, r, c, num) && Solve(Set(b, r, c, num)).Some? then Solve(Set(b, r, c, num))
      else TryValues(b, r, c, num + 1)
  {
    ZeroCountSet(b, r, c, num);
  }

  /** Writing the solution's own value into b keeps b's clues those of the solution. */
  lemma SetKeepsClues(b: Grid, r: int, c: int, s: Grid)
    requires IsBoard(b) && 0 <= r < 9 && 0 <= c < 9 && KeepsClues(b, s)
    ensures KeepsClues(Set(b, r, c, s[r][c]), s)
  {
  }

  /** The value a solution gives to an empty cell passes the placement check. */
  lemma SolutionValueFits(b: Grid, r: int, c: int, s: Grid)
    requires IsBoard(b) && 0 <= r < 9 && 0 <= c < 9 && b[r][c] == 0
    requires IsSolution(s) && KeepsClues(b, s)
    ensures IsValidPlacement(b, r, c, s[r][c])
  {
    var v := s[r][c];
    CellToBox(r, c);
    BoxCell(s, r, c);
    BoxCell(b, r, c);
    UnitValueFits(b[r], s[r], c);
    assert forall i :: 0 <= i < 9 && Column(b, c)[i] != 0 ==> Column(b, c)[i] == Column(s, c)[i];
    UnitValueFits(Column(b, c), Column(s, c), r);
    BoxKeepsClues(b, s, BoxOf(r, c));
    UnitValueFits(Box(b, BoxOf(r, c)), Box(s, BoxOf(r, c)), PosOf(r, c));
  }

  /** A unit that agrees with a repeat-free unit of digits wherever it is nonzero lacks the value at its empty place. */
  lemma UnitValueFits(u: seq<int>, full: seq<int>, i: int)
    requires |u| == |full| && 0 <= i < |u| && u[i] == 0 && full[i] != 0
    requires NoRepeat(full) && forall j :: 0 <= j < |u| && u[j] != 0 ==> u[j] == full[j]
    ensures full[i] !in u
  {
  }

  lemma BoxKeepsClues(b: Grid, s: Grid, k: int)
    requires KeepsClues(b, s) && 0 <= k < 9
    ensures forall i :: 0 <= i < 9 && Box(b, k)[i] != 0 ==> Box(b, k)[i] == Box(s, k)[i]
  {
    BoxToCellAll(k);
  }

  /** With a consistent seed, the backtracking succeeds exactly when some solution keeps the seed. */
  lemma SolveExactly(b: Grid)
    requires IsPuzzle(b) && Consistent(b)
    ensures Solve(b).Some? <==> exists s :: IsSolution(s) && KeepsClues(b, s)
    ensures Solve(b).Some? ==> IsSolution(Solve(b).value)
  {
    if Solve(b).Some? {
      var s := Solve(b).value;
      assert IsComplete(s);
    }
    if exists s :: IsSolution(s) && KeepsClues(b, s) {
      var s :| IsSolution(s) && KeepsClues(b, s);
      SolveComplete(b, s);
    }
  }

  // ---------------------------------------------------------------------
  // Puncturing.

  /**
   * Clear drawn cells until toRemove cells have been cleared; a drawn cell
   * that is already empty is skipped. `None` if the draws run out first.
   */
  function Puncture(b: Grid, draws: seq<(Index, Index)>, toRemove: nat): (res: Option<Grid>)
    requires IsBoard(b)
    ensures res.Some? ==> KeepsClues(res.value, b) && ClueCount(res.value) == ClueCount(b) - toRemove
    decreases |draws|
  {
    if toRemove == 0 then Some(b)
    else if |draws| == 0 then None
    else
      var r, c := draws[0].0, draws[0].1;
      if b[r][c] != 0 then
        var b' := Set(b, r, c, 0);
        ZeroCountSet(b, r, c, 0);
        var res := Puncture(b', draws[1..], toRemove - 1);
        if res.Some? then
          ClearKeepsClues(b, r, c, res.value);
          res
        else
          res
      else Puncture(b, draws[1..], toRemove)
  }

  /** A board whose clues come from b with one cell cleared has its clues from b. */
  lemma ClearKeepsClues(b: Grid, r: int, c: int, p: Grid)
    requires IsBoard(b) && 0 <= r < 9 && 0 <= c < 9 && KeepsClues(p, Set(b, r, c, 0))
    ensures KeepsClues(p, b)
  {
  }

  /**
   * The generator. A puzzle it returns has exactly the difficulty's number
   * of clues, and the completed board it was cut from is a solution of it.
   */
  function GenerateSudokuPuzzle(d: Difficulty, perms: seq<seq<int>>, draws: seq<(Index, Index)>): (res: Option<Grid>)
    requires AreSeeds(perms)
    ensures res.Some? ==>
      && IsPuzzle(res.value) && ClueCount(res.value) == CluesCount(d)
      && Solve(SeedDiagonal(perms)).Some?
      && IsSolution(Solve(SeedDiagonal(perms)).value)
      && KeepsClues(res.value, Solve(SeedDiagonal(perms)).value)
  {
    var seed := SeedDiagonal(perms);
    var solved := if Solve(seed).Some? then Solve(seed).value else seed;
    var res := Puncture(solved, draws, 81 - CluesCount(d));
    GeneratedPuzzle(d, perms, solved, res);
    res
  }

  lemma GeneratedPuzzle(d: Difficulty, perms: seq<seq<int>>, solved: Grid, res: Option<Grid>)
    requires AreSeeds(perms)
    requires solved == if Solve(SeedDiagonal(perms)).Some? then Solve(SeedDiagonal(perms)).value else SeedDiagonal(perms)
    requires res.Some? ==> KeepsClues(res.value, solved) && ClueCount(res.value) == ClueCount(solved) - (81 - CluesCount(d))
    ensures res.Some? ==>
      && IsPuzzle(res.value) && ClueCount(res.value) == CluesCount(d)
      && Solve(SeedDiagonal(perms)).Some?
      && IsSolution(Solve(SeedDiagonal(perms)).value)
      && KeepsClues(res.value, Solve(SeedDiagonal(perms)).value)
  {
    hide Box, Column, NoRepeat, TryValues, Occurrences, Solve, SeedDiagonal, Consistent, IsSolution;
    var seed := SeedDiagonal(perms);
    if res.Some? {
      SeedClues(perms);
      assert Solve(seed).Some?;
      SeedConsistent(perms);
      SolveExactly(seed);
      FilledNoZeros(solved);
    }
  }
}
