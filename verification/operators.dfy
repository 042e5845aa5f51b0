/**
 * The genetic operators shared by the two solvers: building a random
 * individual from the puzzle, the row-level crossover of two parents and
 * the same-row swap mutation. The random choices of the source are inputs
 * here: the shuffled list of missing digits of each row, the per-row coin
 * flips of the crossover, and the draws of each mutation attempt.
 */
module Operators {
  import opened Sums
  import opened Counting
  import opened Board

  // ---------------------------------------------------------------------
  // The digits a row is missing.

  /** 1 where the digit i + 1 does not occur in row. */
  function Absent(row: seq<int>): int -> int
  {
    i => if i + 1 in row then 0 else 1
  }

  /** 1 where the digit i + 1 occurs in row. */
  function Present(row: seq<int>): int -> int
  {
    i => if i + 1 in row then 1 else 0
  }

  /** The digits 1..n that do not occur in row, in ascending order. */
  function MissingUpTo(row: seq<int>, n: nat): (m: seq<int>)
    ensures forall k :: 0 <= k < |m| ==> 1 <= m[k] <= n
  {
    if n == 0 then []
    else
      var m := MissingUpTo(row, n - 1);
      if n in row then m else m + [n]
  }

  /** One entry per digit 1..n absent from row. */
  lemma {:induction false} MissingUpToLength(row: seq<int>, n: nat)
    ensures |MissingUpTo(row, n)| == Sum(n, Absent(row))
  {
    if n > 0 {
      MissingUpToLength(row, n - 1);
    }
  }

  /** Each digit 1..n absent from row occurs exactly once, and nothing else occurs. */
  lemma {:induction false} MissingUpToCounts(row: seq<int>, n: nat)
    ensures forall x {:trigger multiset(MissingUpTo(row, n))[x]} ::
      multiset(MissingUpTo(row, n))[x] == if 1 <= x <= n && x !in row then 1 else 0
  {
    if n > 0 {
      MissingUpToCounts(row, n - 1);
      var m := MissingUpTo(row, n - 1);
      assert forall k :: 0 <= k < |m| ==> m[k] in multiset(m);
    }
  }

  predicate Ascending(s: seq<int>)
  {
    forall i, j :: 0 <= i < j < |s| ==> s[i] < s[j]
  }

  /** The missing digits come in strictly ascending order. */
  lemma {:induction false} MissingUpToSorted(row: seq<int>, n: nat)
    ensures Ascending(MissingUpTo(row, n))
  {
    if n > 0 {
      MissingUpToSorted(row, n - 1);
      var m := MissingUpTo(row, n - 1);
      if n !in row {
        var t := m + [n];
        forall i, j | 0 <= i < j < |t|
          ensures t[i] < t[j]
        {
          assert t[i] == m[i];
          if j < |m| {
            assert t[j] == m[j];
          }
        }
      }
    }
  }

  /** The digits 1..9 absent from a row: the candidate list of the source before its shuffle. */
  function Missing(row: seq<int>): seq<int>
  {
    MissingUpTo(row, 9)
  }

  /** The nine digits. */
  function Digits(): (d: seq<int>)
    ensures |d| == 9 && forall k :: 0 <= k < 9 ==> d[k] == k + 1
  {
    seq(9, k => k + 1)
  }

  /** s holds each digit exactly once: a completed row of a valid individual. */
  predicate PermOfDigits(s: seq<int>)
  {
    multiset(s) == multiset(Digits())
  }

  lemma DigitsMultiset()
    ensures forall x {:trigger multiset(Digits())[x]} :: multiset(Digits())[x] == if IsDigit(x) then 1 else 0
  {
    hide Digits;
    var d := Digits();
    assert NoRepeat(d);
    forall x
      ensures multiset(d)[x] == if IsDigit(x) then 1 else 0
    {
      OccurrencesMultiset(d, x);
      if x != 0 {
        OccurrencesNoRepeat(d, x);
        if IsDigit(x) {
          assert d[x - 1] == x;
        }
      } else {
        assert 0 !in d;
      }
    }
  }

  /** A permutation of the digits has nine cells, each a digit, none repeated. */
  lemma PermOfDigitsValid(s: seq<int>)
    requires PermOfDigits(s)
    ensures |s| == 9 && NoRepeat(s)
    ensures forall c :: 0 <= c < |s| ==> IsDigit(s[c])
  {
    DigitsMultiset();
    assert |s| == |multiset(s)| == |multiset(Digits())|;
    forall c | 0 <= c < |s|
      ensures IsDigit(s[c])
    {
      assert s[c] in multiset(s);
    }
    forall i, j | 0 <= i < |s| && 0 <= j < |s| && i != j && s[i] != 0
      ensures s[i] != s[j]
    {
      if s[i] == s[j] {
        OccurrencesTwo(s, i, j);
        OccurrencesMultiset(s, s[i]);
        assert false;
      }
    }
  }

  // ---------------------------------------------------------------------
  // Counting the missing digits against the empty cells.

  /** DigitTable(row)(i)(c) is 1 when cell c of row holds the digit i + 1. */
  function DigitTable(row: seq<int>): int -> int -> int
  {
    i => Indicator(row, i + 1)
  }

  /** 1 at the cells of row holding a digit. */
  function DigitCells(row: seq<int>): int -> int
  {
    c => if 0 <= c < |row| && IsDigit(row[c]) then 1 else 0
  }

  /** A row whose nonzero cells hold distinct digits. */
  predicate DistinctClues(row: seq<int>)
  {
    NoRepeat(row) && forall c :: 0 <= c < |row| ==> 0 <= row[c] <= 9
  }

  /** 1 at the nonzero cells of row. */
  function ClueCells(row: seq<int>): int -> int
  {
    c => if 0 <= c < |row| && row[c] != 0 then 1 else 0
  }

  /** The digits present in a row number at most the row's cells that hold digits. */
  lemma PresentDigits(row: seq<int>)
    ensures Sum(9, Present(row)) <= Sum(|row|, DigitCells(row))
    ensures NoRepeat(row) ==> Sum(9, Present(row)) == Sum(|row|, DigitCells(row))
  {
    PresentBound(row);
    DigitTableTotal(row);
  }

  /** A digit is present at most as often as it occurs, and exactly so in a row without repeats. */
  lemma PresentBound(row: seq<int>)
    ensures Sum(9, Present(row)) <= Sum2(9, |row|, DigitTable(row))
    ensures NoRepeat(row) ==> Sum(9, Present(row)) == Sum2(9, |row|, DigitTable(row))
  {
    hide Sum;
    var t := DigitTable(row);
    forall i | 0 <= i < 9
      ensures Present(row)(i) <= RowSums(|row|, t)(i)
      ensures NoRepeat(row) ==> Present(row)(i) == RowSums(|row|, t)(i)
    {
      assert RowSums(|row|, t)(i) == Occurrences(row, i + 1);
      if NoRepeat(row) {
        OccurrencesNoRepeat(row, i + 1);
      }
    }
    SumLe(9, Present(row), RowSums(|row|, t));
    if NoRepeat(row) {
      SumExt(9, Present(row), RowSums(|row|, t));
    }
  }

  /** Counted cell by cell, the digit table holds one entry per cell holding a digit. */
  lemma DigitTableTotal(row: seq<int>)
    ensures Sum2(9, |row|, DigitTable(row)) == Sum(|row|, DigitCells(row))
  {
    SumExchange(9, |row|, DigitTable(row));
    DigitColumns(row);
  }

  lemma DigitColumns(row: seq<int>)
    ensures Sum(|row|, RowSums(9, Transpose(DigitTable(row)))) == Sum(|row|, DigitCells(row))
  {
    var t := DigitTable(row);
    forall c | 0 <= c < |row|
      ensures RowSums(9, Transpose(t))(c) == DigitCells(row)(c)
    {
      DigitColumn(row, c);
    }
    SumExt(|row|, RowSums(9, Transpose(t)), DigitCells(row));
  }

  /** Cell c of row holds one digit or none. */
  lemma DigitColumn(row: seq<int>, c: int)
    requires 0 <= c < |row|
    ensures Sum(9, Transpose(DigitTable(row))(c)) == DigitCells(row)(c)
  {
    var col := Transpose(DigitTable(row))(c);
    forall i | 0 <= i < 9
      ensures col(i) == if row[c] == i + 1 then 1 else 0
    {
      assert col(i) == Indicator(row, i + 1)(c);
    }
    if IsDigit(row[c]) {
      SumOnePoint(9, col, row[c] - 1);
    } else {
      SumZero(9, col);
    }
  }

  /**
   * A row of nine cells misses at least as many digits as it has empty
   * cells, and exactly as many when its clues are distinct digits.
   */
  lemma MissingCoversBlanks(row: seq<int>)
    requires |row| == 9
    ensures |Missing(row)| >= Occurrences(row, 0)
    ensures DistinctClues(row) ==> |Missing(row)| == Occurrences(row, 0)
  {
    hide Sum, MissingUpTo;
    MissingUpToLength(row, 9);
    SumAdd(9, Absent(row), Present(row), One());
    SumOne(9);
    PresentDigits(row);
    SumLe(9, DigitCells(row), ClueCells(row));
    SumAdd(9, ClueCells(row), Indicator(row, 0), One());
    if DistinctClues(row) {
      DigitCluesOnly(row);
    }
  }

  /** When every value is 0..9, the nonzero cells are exactly the digit cells. */
  lemma DigitCluesOnly(row: seq<int>)
    requires forall c :: 0 <= c < |row| ==> 0 <= row[c] <= 9
    ensures Sum(|row|, DigitCells(row)) == Sum(|row|, ClueCells(row))
  {
    forall c | 0 <= c < |row|
      ensures DigitCells(row)(c) == ClueCells(row)(c)
    {
    }
    SumExt(|row|, DigitCells(row), ClueCells(row));
  }

  // ---------------------------------------------------------------------
  // Filling a row.

  /**
   * Left to right, each empty cell takes the next number of nums while any
   * is left; every other cell keeps its value.
   */
  function Fill(row: seq<int>, nums: seq<int>): (f: seq<int>)
    ensures |f| == |row|
    decreases |row|
  {
    if |row| == 0 then []
    else if row[0] == 0 && |nums| > 0 then [nums[0]] + Fill(row[1..], nums[1..])
    else [row[0]] + Fill(row[1..], nums)
  }

  /** Only empty cells are written, and only with numbers of nums. */
  lemma {:induction false} FillWrites(row: seq<int>, nums: seq<int>)
    ensures forall c :: 0 <= c < |row| && row[c] != 0 ==> Fill(row, nums)[c] == row[c]
    ensures forall c :: 0 <= c < |row| && Fill(row, nums)[c] != row[c] ==> row[c] == 0 && Fill(row, nums)[c] in nums
    decreases |row|
  {
    if |row| > 0 {
      var f := Fill(row, nums);
      if row[0] == 0 && |nums| > 0 {
        FillWrites(row[1..], nums[1..]);
        assert forall c :: 1 <= c < |row| ==> f[c] == Fill(row[1..], nums[1..])[c - 1] && row[c] == row[1..][c - 1];
      } else {
        FillWrites(row[1..], nums);
        assert forall c :: 1 <= c < |row| ==> f[c] == Fill(row[1..], nums)[c - 1] && row[c] == row[1..][c - 1];
      }
    }
  }

  /** With enough nonzero numbers for the empty cells, no empty cell remains. */
  lemma {:induction false} FillNoZeros(row: seq<int>, nums: seq<int>)
    requires 0 !in nums && |nums| >= multiset(row)[0]
    ensures 0 !in Fill(row, nums)
    decreases |row|
  {
    if |row| > 0 {
      assert row == [row[0]] + row[1..];
      if row[0] == 0 && |nums| > 0 {
        assert nums == [nums[0]] + nums[1..];
        FillNoZeros(row[1..], nums[1..]);
      } else {
        FillNoZeros(row[1..], nums);
      }
    }
  }

  /**
   * With exactly as many numbers as empty cells, the filled row holds the
   * row's nonzero values together with all of nums.
   */
  lemma {:induction false} FillMultiset(row: seq<int>, nums: seq<int>)
    requires |nums| == multiset(row)[0]
    ensures multiset(Fill(row, nums)) == multiset(row)[0 := 0] + multiset(nums)
    decreases |row|
  {
    if |row| == 0 {
    } else {
      var rest := row[1..];
      assert row == [row[0]] + rest;
      if row[0] == 0 {
        assert nums == [nums[0]] + nums[1..];
        FillMultiset(rest, nums[1..]);
        assert multiset(row)[0 := 0] == multiset(rest)[0 := 0];
      } else {
        FillMultiset(rest, nums);
        assert multiset(row)[0 := 0] == multiset{row[0]} + multiset(rest)[0 := 0];
      }
    }
  }

  /**
   * A row of nine cells filled with a shuffle of its missing digits: clues
   * stay, every empty cell gets a digit absent from the row, and a row whose
   * clues are distinct digits becomes a permutation of the digits.
   */
  lemma FillRow(row: seq<int>, nums: seq<int>)
    requires |row| == 9 && multiset(nums) == multiset(Missing(row))
    ensures |Fill(row, nums)| == 9
    ensures forall c :: 0 <= c < 9 && row[c] != 0 ==> Fill(row, nums)[c] == row[c]
    ensures forall c :: 0 <= c < 9 && row[c] == 0 ==> IsDigit(Fill(row, nums)[c]) && Fill(row, nums)[c] !in row
    ensures DistinctClues(row) ==> PermOfDigits(Fill(row, nums))
  {
    var f := Fill(row, nums);
    assert |nums| == |multiset(nums)| == |Missing(row)|;
    assert multiset(nums)[0] == 0;
    MissingCoversBlanks(row);
    OccurrencesMultiset(row, 0);
    FillWrites(row, nums);
    FillNoZeros(row, nums);
    MissingUpToCounts(row, 9);
    forall c | 0 <= c < 9 && row[c] == 0
      ensures IsDigit(f[c]) && f[c] !in row
    {
      assert f[c] != 0;
      assert multiset(nums)[f[c]] > 0;
    }
    if DistinctClues(row) {
      FilledPerm(row, nums);
    }
  }

  /** Filling a row whose clues are distinct digits with its missing digits gives a permutation. */
  lemma FilledPerm(row: seq<int>, nums: seq<int>)
    requires |row| == 9 && DistinctClues(row) && multiset(nums) == multiset(Missing(row))
    ensures PermOfDigits(Fill(row, nums))
  {
    hide Fill, MissingUpTo, Digits;
    MissingCoversBlanks(row);
    OccurrencesMultiset(row, 0);
    assert |nums| == |multiset(nums)| == |Missing(row)|;
    FillMultiset(row, nums);
    CluesAndMissing(row, nums);
  }

  /** The clues of a row whose clues are distinct digits, together with its missing digits, are the nine digits. */
  lemma CluesAndMissing(row: seq<int>, nums: seq<int>)
    requires DistinctClues(row) && multiset(nums) == multiset(Missing(row))
    ensures multiset(row)[0 := 0] + multiset(nums) == multiset(Digits())
  {
    hide Fill, MissingUpTo, Digits, DistinctClues;
    var m := multiset(row)[0 := 0] + multiset(nums);
    DigitsMultiset();
    forall x
      ensures m[x] == multiset(Digits())[x]
    {
      FilledCount(row, nums, x);
    }
  }

  /** Each digit occurs once among the clues and the missing digits together, and nothing else occurs. */
  lemma FilledCount(row: seq<int>, nums: seq<int>, x: int)
    requires DistinctClues(row) && multiset(nums) == multiset(Missing(row))
    ensures (multiset(row)[0 := 0] + multiset(nums))[x] == if IsDigit(x) then 1 else 0
  {
    MissingUpToCounts(row, 9);
    if x != 0 {
      OccurrencesNoRepeat(row, x);
      OccurrencesMultiset(row, x);
    }
  }

  // ---------------------------------------------------------------------
  // Individuals.

  /** Each row of the puzzle filled with its own shuffle of the digits it is missing. */
  predicate AreShuffles(original: Grid, shuffles: seq<seq<int>>)
    requires IsBoard(original)
  {
    |shuffles| == 9 && forall r :: 0 <= r < 9 ==> multiset(shuffles[r]) == multiset(Missing(original[r]))
  }

  /**
   * A random individual: every row of the puzzle with its empty cells filled
   * from a shuffle of the digits the row is missing. Clues are kept.
   */
  function CreateIndividual(original: Grid, shuffles: seq<seq<int>>): (g: Grid)
    requires IsBoard(original) && AreShuffles(original, shuffles)
    ensures IsBoard(g) && KeepsClues(original, g)
  {
    forall r | 0 <= r < 9
      ensures |Fill(original[r], shuffles[r])| == 9
      ensures forall c :: 0 <= c < 9 && original[r][c] != 0 ==> Fill(original[r], shuffles[r])[c] == original[r][c]
    {
      FillRow(original[r], shuffles[r]);
    }
    seq(9, r requires 0 <= r < 9 => Fill(original[r], shuffles[r]))
  }

  /** No empty cell is left: each one holds a digit its row of the puzzle is missing. */
  lemma CreateIndividualFills(original: Grid, shuffles: seq<seq<int>>)
    requires IsBoard(original) && AreShuffles(original, shuffles)
    ensures var g := CreateIndividual(original, shuffles);
      && IsFilled(g)
      && forall r, c :: 0 <= r < 9 && 0 <= c < 9 && original[r][c] == 0 ==> IsDigit(g[r][c]) && g[r][c] !in original[r]
  {
    var g := CreateIndividual(original, shuffles);
    forall r | 0 <= r < 9
      ensures g[r] == Fill(original[r], shuffles[r])
      ensures forall c :: 0 <= c < 9 && original[r][c] == 0 ==> IsDigit(g[r][c]) && g[r][c] !in original[r]
    {
      FillRow(original[r], shuffles[r]);
    }
  }

  /** Every row whose clues are distinct digits becomes a permutation of the digits. */
  lemma CreateIndividualPerms(original: Grid, shuffles: seq<seq<int>>)
    requires IsBoard(original) && AreShuffles(original, shuffles)
    ensures forall r :: 0 <= r < 9 && DistinctClues(original[r]) ==> PermOfDigits(CreateIndividual(original, shuffles)[r])
  {
    var g := CreateIndividual(original, shuffles);
    forall r | 0 <= r < 9
      ensures g[r] == Fill(original[r], shuffles[r])
      ensures DistinctClues(original[r]) ==> PermOfDigits(g[r])
    {
      FillRow(original[r], shuffles[r]);
    }
  }

  /** Every row of b is a permutation of the digits. */
  predicate RowsArePerms(b: Grid)
  {
    |b| == 9 && forall r :: 0 <= r < 9 ==> PermOfDigits(b[r])
  }

  /** When every row's clues are distinct digits, a new individual's rows are permutations of the digits. */
  lemma CreateIndividualRows(original: Grid, shuffles: seq<seq<int>>)
    requires IsBoard(original) && AreShuffles(original, shuffles)
    ensures (forall r :: 0 <= r < 9 ==> DistinctClues(original[r])) ==> RowsArePerms(CreateIndividual(original, shuffles))
  {
    hide PermOfDigits, DistinctClues, KeepsClues;
    CreateIndividualPerms(original, shuffles);
  }

  /** A board whose rows are permutations of the digits is full of digits and has no repeated row value. */
  lemma RowsArePermsValid(b: Grid)
    requires RowsArePerms(b)
    ensures IsComplete(b) && forall r :: 0 <= r < 9 ==> NoRepeat(b[r])
  {
    forall r | 0 <= r < 9
      ensures |b[r]| == 9 && NoRepeat(b[r]) && forall c :: 0 <= c < 9 ==> IsDigit(b[r][c])
    {
      PermOfDigitsValid(b[r]);
    }
  }

  // ---------------------------------------------------------------------
  // Crossover.

  /**
   * Row-level crossover: the child takes row r from the second parent when
   * takeSecond[r] is set (the source's per-row coin flip) and from the
   * first parent otherwise.
   */
  function Crossover(p1: Grid, p2: Grid, takeSecond: seq<bool>): (child: Grid)
    requires IsBoard(p1) && IsBoard(p2) && |takeSecond| == 9
    ensures IsBoard(child)
    ensures forall r :: 0 <= r < 9 ==> child[r] == p1[r] || child[r] == p2[r]
    ensures (forall r :: 0 <= r < 9 ==> !takeSecond[r]) ==> child == p1
  {
    seq(9, r requires 0 <= r < 9 => if takeSecond[r] then p2[r] else p1[r])
  }

  /** A child keeps the puzzle's clues when both parents do. */
  lemma CrossoverKeepsClues(original: Grid, p1: Grid, p2: Grid, takeSecond: seq<bool>)
    requires IsBoard(p1) && IsBoard(p2) && |takeSecond| == 9
    requires KeepsClues(original, p1) && KeepsClues(original, p2)
    ensures KeepsClues(original, Crossover(p1, p2, takeSecond))
  {
    var child := Crossover(p1, p2, takeSecond);
    forall r, c | 0 <= r < 9 && 0 <= c < 9 && original[r][c] != 0
      ensures child[r][c] == original[r][c]
    {
      assert child[r] == p1[r] || child[r] == p2[r];
    }
  }

  /** Each row of a child holds the same values as that row of one parent. */
  lemma CrossoverRows(p1: Grid, p2: Grid, takeSecond: seq<bool>)
    requires IsBoard(p1) && IsBoard(p2) && |takeSecond| == 9
    ensures forall r :: 0 <= r < 9 ==>
      var row := multiset(Crossover(p1, p2, takeSecond)[r]);
      row == multiset(p1[r]) || row == multiset(p2[r])
    ensures RowsArePerms(p1) && RowsArePerms(p2) ==> RowsArePerms(Crossover(p1, p2, takeSecond))
  {
  }

  // ---------------------------------------------------------------------
  // Mutation.

  /**
   * One mutation attempt: whether it fires (the source's probability test)
   * and the row and two columns it draws.
   */
  datatype SwapDraw = SwapDraw(fires: bool, row: Index, col1: Index, col2: Index)

  /** Swapping two cells of one row keeps that row's values. */
  lemma SwapInRow(g: Grid, r: int, c1: int, c2: int)
    requires IsBoard(g) && 0 <= r < 9 && 0 <= c1 < 9 && 0 <= c2 < 9
    ensures multiset(Swap(g, r, c1, r, c2)[r]) == multiset(g[r])
    ensures forall r' :: 0 <= r' < 9 && r' != r ==> Swap(g, r, c1, r, c2)[r'] == g[r']
  {
    var g1 := Set(g, r, c1, g[r][c2]);
    SetUnits(g, r, c1, g[r][c2]);
    SetUnits(g1, r, c2, g[r][c1]);
    var s: seq<int> := g[r];
    if c1 != c2 {
      MultisetSwap(s, c1, c2);
    } else {
      assert s[c1 := s[c2]][c2 := s[c1]] == s;
    }
  }

  /**
   * One mutation attempt on a child: when it fires and both drawn cells of
   * the drawn row are empty in the puzzle, their values are swapped;
   * otherwise the child is unchanged.
   */
  function Mutate(g: Grid, original: Grid, d: SwapDraw): (g': Grid)
    requires IsBoard(g) && IsBoard(original)
    ensures IsBoard(g')
    ensures g' != g ==> d.fires && original[d.row][d.col1] == 0 && original[d.row][d.col2] == 0
    ensures forall r :: 0 <= r < 9 && r != d.row ==> g'[r] == g[r]
    ensures forall r :: 0 <= r < 9 ==> multiset(g'[r]) == multiset(g[r])
    ensures forall r, c :: 0 <= r < 9 && 0 <= c < 9 && original[r][c] != 0 ==> g'[r][c] == g[r][c]
  {
    if d.fires && original[d.row][d.col1] == 0 && original[d.row][d.col2] == 0 then
      SwapInRow(g, d.row, d.col1, d.col2);
      Swap(g, d.row, d.col1, d.row, d.col2)
    else
      g
  }

  /** The mutation attempts of one child, applied in order. */
  function MutateAll(g: Grid, original: Grid, draws: seq<SwapDraw>): (g': Grid)
    requires IsBoard(g) && IsBoard(original)
    ensures IsBoard(g')
    ensures forall r :: 0 <= r < 9 ==> multiset(g'[r]) == multiset(g[r])
    ensures forall r, c :: 0 <= r < 9 && 0 <= c < 9 && original[r][c] != 0 ==> g'[r][c] == g[r][c]
    ensures (forall k :: 0 <= k < |draws| ==> !draws[k].fires) ==> g' == g
    decreases |draws|
  {
    if |draws| == 0 then g
    else MutateAll(Mutate(g, original, draws[0]), original, draws[1..])
  }

  /** Mutation keeps the clues and keeps every row a permutation of the digits. */
  lemma MutateAllKeeps(g: Grid, original: Grid, draws: seq<SwapDraw>)
    requires IsBoard(g) && IsBoard(original)
    ensures KeepsClues(original, g) ==> KeepsClues(original, MutateAll(g, original, draws))
    ensures RowsArePerms(g) ==> RowsArePerms(MutateAll(g, original, draws))
  {
  }
}
