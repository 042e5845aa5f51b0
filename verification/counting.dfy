/**
 * Counting equal values inside one unit (a row, a column or a 3x3 box,
 * each seen as a sequence of nine cells).
 *
 * `CountOthers(s, v, skip)` is what each of the three scans of the
 * per-cell conflict counter computes for its unit; `UnitPairs(s)` adds
 * that count up over every position of the unit, i.e. it is the number of
 * ordered pairs of distinct positions holding equal values.
 */
module Counting {
  import opened Sums

  /** 1 at the positions of s that hold v. */
  function Indicator(s: seq<int>, v: int): int -> int
  {
    k => if 0 <= k < |s| && s[k] == v then 1 else 0
  }

  /** How many positions of s hold v. */
  function Occurrences(s: seq<int>, v: int): (n: int)
    ensures 0 <= n <= |s|
    ensures n == 0 <==> v !in s
  {
    SumOfIndicators(|s|, Indicator(s, v));
    SumNonNegZero(|s|, Indicator(s, v));
    assert forall k :: 0 <= k < |s| && s[k] == v ==> Indicator(s, v)(k) == 1;
    Sum(|s|, Indicator(s, v))
  }

  /** 1 at the positions of s other than skip that hold v. */
  function OthersIndicator(s: seq<int>, v: int, skip: int): int -> int
  {
    k => if 0 <= k < |s| && k != skip && s[k] == v then 1 else 0
  }

  /**
   * How many positions of s other than skip hold v: what one scan of the
   * per-cell conflict counter adds for one unit.
   */
  function CountOthers(s: seq<int>, v: int, skip: int): int
  {
    Sum(|s|, OthersIndicator(s, v, skip))
  }

  /** Excluding one position removes exactly that position's contribution. */
  lemma CountOthersOccurrences(s: seq<int>, v: int, skip: int)
    requires 0 <= skip < |s|
    ensures CountOthers(s, v, skip) == Occurrences(s, v) - (if s[skip] == v then 1 else 0)
  {
    SumUpdate(|s|, Indicator(s, v), OthersIndicator(s, v, skip), skip);
  }

  /** CountOthers is zero exactly when no position other than skip holds v. */
  lemma CountOthersZero(s: seq<int>, v: int, skip: int)
    ensures 0 <= CountOthers(s, v, skip)
    ensures CountOthers(s, v, skip) == 0 <==> forall k :: 0 <= k < |s| && k != skip ==> s[k] != v
  {
    var f := OthersIndicator(s, v, skip);
    SumNonNegZero(|s|, f);
    if CountOthers(s, v, skip) == 0 {
      forall k | 0 <= k < |s| && k != skip
        ensures s[k] != v
      {
        assert f(k) == 0;
      }
    }
  }

  /** A position's count of equal others is at most the number of other positions. */
  lemma CountOthersBound(s: seq<int>, skip: int)
    requires 0 <= skip < |s|
    ensures 0 <= CountOthers(s, s[skip], skip) < |s|
  {
    CountOthersOccurrences(s, s[skip], skip);
  }

  /** No occurrence of v: every position holds something else. */
  lemma NoOccurrence(s: seq<int>, v: int)
    requires Occurrences(s, v) == 0
    ensures forall k :: 0 <= k < |s| ==> s[k] != v
  {
  }

  /** Occurrences agrees with the multiplicity in the multiset of s. */
  lemma {:induction false} OccurrencesMultiset(s: seq<int>, v: int)
    ensures Occurrences(s, v) == multiset(s)[v]
    decreases |s|
  {
    if |s| > 0 {
      var n := |s|;
      var init := s[..n - 1];
      OccurrencesMultiset(init, v);
      SumExt(n - 1, Indicator(s, v), Indicator(init, v));
      assert s == init + [s[n - 1]];
    }
  }

  /** In a unit that repeats no nonzero value, a nonzero value occurs at most once. */
  lemma OccurrencesNoRepeat(s: seq<int>, v: int)
    requires v != 0
    requires forall i, j :: 0 <= i < |s| && 0 <= j < |s| && i != j && s[i] != 0 ==> s[i] != s[j]
    ensures Occurrences(s, v) == if v in s then 1 else 0
  {
    if v in s {
      var k :| 0 <= k < |s| && s[k] == v;
      CountOthersZero(s, v, k);
      CountOthersOccurrences(s, v, k);
    }
  }

  /** Two positions holding v make it occur at least twice. */
  lemma OccurrencesTwo(s: seq<int>, i: int, j: int)
    requires 0 <= i < |s| && 0 <= j < |s| && i != j && s[i] == s[j]
    ensures Occurrences(s, s[i]) >= 2
  {
    CountOthersZero(s, s[i], i);
    CountOthersOccurrences(s, s[i], i);
  }

  /** Changing position i moves one occurrence from the old value to the new one. */
  lemma OccurrencesUpdate(s: seq<int>, t: seq<int>, i: int, v: int)
    requires |s| == |t| && 0 <= i < |s|
    requires forall k :: 0 <= k < |s| && k != i ==> s[k] == t[k]
    ensures Occurrences(t, v) == Occurrences(s, v) - (if s[i] == v then 1 else 0) + (if t[i] == v then 1 else 0)
  {
    SumUpdate(|s|, Indicator(s, v), Indicator(t, v), i);
  }

  /** Swapping two positions leaves every count unchanged. */
  lemma OccurrencesSwap(s: seq<int>, t: seq<int>, i: int, j: int, v: int)
    requires |s| == |t| && 0 <= i < |s| && 0 <= j < |s| && i != j
    requires t[i] == s[j] && t[j] == s[i]
    requires forall k :: 0 <= k < |s| && k != i && k != j ==> s[k] == t[k]
    ensures Occurrences(t, v) == Occurrences(s, v)
  {
    SumSwapTwo(|s|, Indicator(s, v), Indicator(t, v), i, j);
  }

  /** At position k: the number of positions of u holding the value s[k]. */
  function OccurrencesOf(u: seq<int>, s: seq<int>): int -> int
  {
    k => if 0 <= k < |s| then Occurrences(u, s[k]) else 0
  }

  /** At position k: the number of other positions of s holding s[k]. */
  function PairCounts(s: seq<int>): int -> int
  {
    k => if 0 <= k < |s| then CountOthers(s, s[k], k) else 0
  }

  /** The number of ordered pairs of distinct positions of s holding equal values. */
  function UnitPairs(s: seq<int>): int
  {
    Sum(|s|, PairCounts(s))
  }

  /** UnitPairs is the sum, over positions, of that position's value count, less one per position. */
  lemma UnitPairsByOccurrences(s: seq<int>)
    ensures UnitPairs(s) == Sum(|s|, OccurrencesOf(s, s)) - |s|
  {
    forall k | 0 <= k < |s|
      ensures PairCounts(s)(k) == OccurrencesOf(s, s)(k) - One()(k)
    {
      CountOthersOccurrences(s, s[k], k);
    }
    SumSub(|s|, OccurrencesOf(s, s), One(), PairCounts(s));
    SumOne(|s|);
  }

  /**
   * Changing the value at one position changes the unit's pair count by
   * twice the change of that position's own count of equal others.
   */
  lemma UnitPairsSingleChange(s: seq<int>, t: seq<int>, i: int)
    requires |s| == |t| && 0 <= i < |s|
    requires forall k :: 0 <= k < |s| && k != i ==> s[k] == t[k]
    ensures UnitPairs(t) - UnitPairs(s) == 2 * (CountOthers(t, t[i], i) - CountOthers(s, s[i], i))
  {
    var n, a, x := |s|, s[i], t[i];
    UnitPairsByOccurrences(s);
    UnitPairsByOccurrences(t);
    // Step A: only position i reads a different value.
    SumUpdate(n, OccurrencesOf(t, s), OccurrencesOf(t, t), i);
    // Step B: every count in t differs from the count in s by the moved occurrence.
    var lessA := Minus(OccurrencesOf(s, s), Indicator(s, a));
    forall k | 0 <= k < n
      ensures OccurrencesOf(t, s)(k) == lessA(k) + Indicator(s, x)(k)
    {
      OccurrencesUpdate(s, t, i, s[k]);
    }
    SumSub(n, OccurrencesOf(s, s), Indicator(s, a), lessA);
    SumAdd(n, lessA, Indicator(s, x), OccurrencesOf(t, s));
    OccurrencesUpdate(s, t, i, a);
    OccurrencesUpdate(s, t, i, x);
    CountOthersOccurrences(s, a, i);
    CountOthersOccurrences(t, x, i);
  }

  /**
   * Swapping the values at two positions of a unit leaves its pair count
   * unchanged, and the two positions' counts of equal others keep their sum.
   */
  lemma UnitPairsSwap(s: seq<int>, t: seq<int>, i: int, j: int)
    requires |s| == |t| && 0 <= i < |s| && 0 <= j < |s| && i != j
    requires t[i] == s[j] && t[j] == s[i]
    requires forall k :: 0 <= k < |s| && k != i && k != j ==> s[k] == t[k]
    ensures UnitPairs(t) == UnitPairs(s)
    ensures CountOthers(t, t[i], i) + CountOthers(t, t[j], j) == CountOthers(s, s[i], i) + CountOthers(s, s[j], j)
  {
    hide Sum, Occurrences, CountOthers;
    var n := |s|;
    UnitPairsByOccurrences(s);
    UnitPairsByOccurrences(t);
    forall k | 0 <= k < n
      ensures OccurrencesOf(t, t)(k) == OccurrencesOf(s, t)(k)
    {
      OccurrencesSwap(s, t, i, j, t[k]);
    }
    SumExt(n, OccurrencesOf(t, t), OccurrencesOf(s, t));
    SumSwapTwo(n, OccurrencesOf(s, s), OccurrencesOf(s, t), i, j);
    OccurrencesSwap(s, t, i, j, s[i]);
    OccurrencesSwap(s, t, i, j, s[j]);
    CountOthersOccurrences(s, s[i], i);
    CountOthersOccurrences(s, s[j], j);
    CountOthersOccurrences(t, t[i], i);
    CountOthersOccurrences(t, t[j], j);
  }

  /** Exchanging two entries of a sequence keeps its values. */
  lemma MultisetSwap(s: seq<int>, i: int, j: int)
    requires 0 <= i < |s| && 0 <= j < |s| && i != j
    ensures multiset(s[i := s[j]][j := s[i]]) == multiset(s)
  {
    var t: seq<int> := s[i := s[j]];
    assert multiset(t) == multiset(s) - multiset{s[i]} + multiset{s[j]};
    assert multiset(t[j := s[i]]) == multiset(t) - multiset{t[j]} + multiset{s[i]};
  }
}
