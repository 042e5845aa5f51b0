/**
 * The fitness of a board: the number of repeated nonzero values met while
 * scanning each column and each 3x3 box with a set of values already seen.
 * Rows are not scanned; the solvers keep every row a permutation of the
 * digits by construction.
 */
module Fitness {
  import opened Board

  /**
   * Scanning s from the front with the values already seen: a nonzero value
   * that was seen before is a repeat; otherwise it joins the seen set.
   */
  function DupsFrom(s: seq<int>, seen: set<int>): (n: nat)
    decreases |s|
  {
    if |s| == 0 then 0
    else if s[0] == 0 then DupsFrom(s[1..], seen)
    else if s[0] in seen then 1 + DupsFrom(s[1..], seen)
    else DupsFrom(s[1..], seen + {s[0]})
  }

  /** Repeats found by one scan of a unit that starts with an empty seen set. */
  function Dups(s: seq<int>): nat
  {
    DupsFrom(s, {})
  }

  /** The number of nonzero entries of s. */
  function NonZeroCount(s: seq<int>): nat
    decreases |s|
  {
    if |s| == 0 then 0 else (if s[0] != 0 then 1 else 0) + NonZeroCount(s[1..])
  }

  /** The distinct nonzero values of s. */
  function Values(s: seq<int>): set<int>
  {
    set i | 0 <= i < |s| && s[i] != 0 :: s[i]
  }

  lemma ValuesCons(s: seq<int>)
    requires |s| > 0
    ensures Values(s) == Values(s[1..]) + (if s[0] != 0 then {s[0]} else {})
  {
    forall x | x in Values(s)
      ensures x in Values(s[1..]) + (if s[0] != 0 then {s[0]} else {})
    {
      var i :| 0 <= i < |s| && s[i] != 0 && s[i] == x;
      if i > 0 {
        assert s[1..][i - 1] == x;
      }
    }
    forall x | x in Values(s[1..])
      ensures x in Values(s)
    {
      var i :| 0 <= i < |s[1..]| && s[1..][i] != 0 && s[1..][i] == x;
      assert s[i + 1] == x;
    }
  }

  /** How the new distinct values of s change when its first entry is taken off. */
  lemma UnseenCons(s: seq<int>, seen: set<int>)
    requires |s| > 0
    ensures s[0] == 0 || s[0] in seen ==> Values(s) - seen == Values(s[1..]) - seen
    ensures s[0] != 0 && s[0] !in seen ==> |Values(s) - seen| == |Values(s[1..]) - (seen + {s[0]})| + 1
  {
    hide Values;
    var x := s[0];
    ValuesCons(s);
    if x != 0 && x !in seen {
      var unseen := Values(s[1..]) - (seen + {x});
      assert Values(s) - seen == unseen + {x};
    }
  }

  /**
   * The scan counts every nonzero entry whose value was seen already, either
   * before the scan or earlier in it: the nonzero entries less the new
   * distinct values.
   */
  lemma {:induction false} DupsFromCount(s: seq<int>, seen: set<int>)
    ensures DupsFrom(s, seen) == NonZeroCount(s) - |Values(s) - seen|
    decreases |s|
  {
    if |s| > 0 {
      hide Values;
      var x, rest := s[0], s[1..];
      UnseenCons(s, seen);
      if x == 0 || x in seen {
        DupsFromCount(rest, seen);
      } else {
        DupsFromCount(rest, seen + {x});
      }
    } else {
      assert Values(s) == {};
    }
  }

  /** A unit's repeats are its nonzero entries less its distinct nonzero values. */
  lemma DupsCount(s: seq<int>)
    ensures Dups(s) == NonZeroCount(s) - |Values(s)|
  {
    DupsFromCount(s, {});
    assert Values(s) - {} == Values(s);
  }

  /** No entry of s holds a nonzero value of seen. */
  predicate AvoidsSeen(s: seq<int>, seen: set<int>)
  {
    forall i :: 0 <= i < |s| && s[i] != 0 ==> s[i] !in seen
  }

  lemma {:induction false} DupsFromZero(s: seq<int>, seen: set<int>)
    ensures DupsFrom(s, seen) == 0 <==> NoRepeat(s) && AvoidsSeen(s, seen)
    decreases |s|
  {
    if |s| > 0 {
      var x, rest := s[0], s[1..];
      assert forall i :: 1 <= i < |s| ==> s[i] == rest[i - 1];
      if x == 0 {
        DupsFromZero(rest, seen);
        assert NoRepeat(s) <==> NoRepeat(rest);
      } else if x in seen {
        assert !AvoidsSeen(s, seen);
      } else {
        DupsFromZero(rest, seen + {x});
        assert NoRepeat(s) && AvoidsSeen(s, seen) <==> NoRepeat(rest) && AvoidsSeen(rest, seen + {x}) by {
          if NoRepeat(s) && AvoidsSeen(s, seen) {
            forall i | 0 <= i < |rest| && rest[i] != 0
              ensures rest[i] !in seen + {x}
            {
              assert s[i + 1] != s[0];
            }
          }
          if NoRepeat(rest) && AvoidsSeen(rest, seen + {x}) {
            forall i, j | 0 <= i < |s| && 0 <= j < |s| && i != j && s[i] != 0
              ensures s[i] != s[j]
            {
              if i > 0 && j > 0 {
                assert rest[i - 1] != rest[j - 1];
              }
            }
          }
        }
      }
    }
  }

  /** A scan finds no repeat exactly when the unit repeats no nonzero value. */
  lemma DupsZero(s: seq<int>)
    ensures Dups(s) == 0 <==> NoRepeat(s)
  {
    DupsFromZero(s, {});
  }

  /** The repeats found over a family of units, one scan per unit. */
  function FamilyDups(family: seq<seq<int>>): (n: nat)
    decreases |family|
  {
    if |family| == 0 then 0 else Dups(family[0]) + FamilyDups(family[1..])
  }

  /** A family's scans find no repeat exactly when no unit of it repeats a nonzero value. */
  lemma {:induction false} FamilyDupsZero(family: seq<seq<int>>)
    ensures FamilyDups(family) == 0 <==> forall u :: 0 <= u < |family| ==> NoRepeat(family[u])
    decreases |family|
  {
    if |family| > 0 {
      FamilyDupsZero(family[1..]);
      DupsZero(family[0]);
      assert forall u :: 1 <= u < |family| ==> family[1..][u - 1] == family[u];
    }
  }

  /** The fitness of a board: column repeats plus box repeats. */
  function CalculateFitness(b: Grid): (n: int)
    requires IsBoard(b)
    ensures 0 <= n
  {
    FamilyDups(Columns(b)) + FamilyDups(Boxes(b))
  }

  /** The fitness is zero exactly when no column and no box repeats a nonzero value. */
  lemma FitnessZero(b: Grid)
    requires IsBoard(b)
    ensures CalculateFitness(b) == 0 <==>
      (forall c :: 0 <= c < 9 ==> NoRepeat(Column(b, c))) && (forall k :: 0 <= k < 9 ==> NoRepeat(Box(b, k)))
  {
    ColumnsRepeatFree(b);
    BoxesRepeatFree(b);
  }

  lemma ColumnsRepeatFree(b: Grid)
    requires IsBoard(b)
    ensures FamilyDups(Columns(b)) == 0 <==> forall c :: 0 <= c < 9 ==> NoRepeat(Column(b, c))
  {
    hide FamilyDups;
    FamilyDupsZero(Columns(b));
    assert forall c :: 0 <= c < 9 ==> Columns(b)[c] == Column(b, c);
  }

  lemma BoxesRepeatFree(b: Grid)
    requires IsBoard(b)
    ensures FamilyDups(Boxes(b)) == 0 <==> forall k :: 0 <= k < 9 ==> NoRepeat(Box(b, k))
  {
    hide FamilyDups;
    FamilyDupsZero(Boxes(b));
    assert forall k :: 0 <= k < 9 ==> Boxes(b)[k] == Box(b, k);
  }

  /** A board whose rows repeat nothing has fitness zero exactly when it is consistent. */
  lemma FitnessZeroConsistent(b: Grid)
    requires IsBoard(b) && forall r :: 0 <= r < 9 ==> NoRepeat(b[r])
    ensures CalculateFitness(b) == 0 <==> Consistent(b)
  {
    FitnessZero(b);
  }

  /** A solved board has fitness zero. */
  lemma SolutionFitness(b: Grid)
    requires IsSolution(b)
    ensures CalculateFitness(b) == 0
  {
    FitnessZero(b);
  }

  /** The fitness does not look at rows: a board with a repeated row value can score zero. */
  lemma FitnessIgnoresRows()
    ensures var b := RowClash();
      IsBoard(b) && CalculateFitness(b) == 0 && !NoRepeat(b[0])
  {
    var b := RowClash();
    RowClashColumns();
    RowClashBoxes();
    FitnessZero(b);
    assert b[0][0] == b[0][3] == 1;
  }

  lemma RowClashColumns()
    ensures forall c :: 0 <= c < 9 ==> NoRepeat(Column(RowClash(), c))
  {
    var b := RowClash();
    forall c | 0 <= c < 9
      ensures NoRepeat(Column(b, c))
    {
      assert forall r :: 1 <= r < 9 ==> Column(b, c)[r] == 0;
    }
  }

  lemma RowClashBoxes()
    ensures forall k :: 0 <= k < 9 ==> NoRepeat(Box(RowClash(), k))
  {
    forall k | 0 <= k < 9
      ensures NoRepeat(Box(RowClash(), k))
    {
      RowClashBox(k);
    }
  }

  lemma RowClashBox(k: Index)
    ensures NoRepeat(Box(RowClash(), k))
  {
    var b := RowClash();
    forall i | 0 <= i < 9 && Box(b, k)[i] != 0
      ensures BoxRow(k, i) == 0 && (BoxCol(k, i) == 0 || BoxCol(k, i) == 3)
    {
    }
    forall i, j | 0 <= i < 9 && 0 <= j < 9 && i != j && Box(b, k)[i] != 0
      ensures Box(b, k)[i] != Box(b, k)[j]
    {
      BoxToCell(k, i);
      BoxToCell(k, j);
    }
  }

  /** An empty board except for the value 1 at (0, 0) and at (0, 3). */
  function RowClash(): (b: Grid)
    ensures IsBoard(b)
  {
    var empty := seq(9, _ => 0);
    var first := empty[0 := 1][3 := 1];
    [first] + seq(8, _ => empty)
  }
}
