/**
 * Finite sums of integer-valued functions over 0 .. n-1.
 *
 * Every counting loop of the Sudoku core (conflict counters, fitness,
 * clue counting) is a sum of 0/1 indicators; this module holds the
 * reasoning about such sums once, so the other modules can state their
 * counts as `Sum`s and rewrite them.
 */
module Sums {

  /** f(0) + f(1) + ... + f(n-1). */
  function Sum(n: nat, f: int -> int): int
    decreases n
  {
    if n == 0 then 0 else Sum(n - 1, f) + f(n - 1)
  }

  /** Sums of pointwise-equal functions are equal. */
  lemma {:induction false} SumExt(n: nat, f: int -> int, g: int -> int)
    requires forall i :: 0 <= i < n ==> f(i) == g(i)
    ensures Sum(n, f) == Sum(n, g)
  {
    if n > 0 {
      SumExt(n - 1, f, g);
    }
  }

  /** Changing one term changes the sum by exactly the difference of that term. */
  lemma {:induction false} SumUpdate(n: nat, f: int -> int, g: int -> int, k: int)
    requires 0 <= k < n
    requires forall i :: 0 <= i < n && i != k ==> f(i) == g(i)
    ensures Sum(n, g) == Sum(n, f) - f(k) + g(k)
  {
    if k == n - 1 {
      SumExt(n - 1, f, g);
    } else {
      SumUpdate(n - 1, f, g, k);
    }
  }

  /** Sum is additive. */
  lemma {:induction false} SumAdd(n: nat, f: int -> int, g: int -> int, h: int -> int)
    requires forall i :: 0 <= i < n ==> h(i) == f(i) + g(i)
    ensures Sum(n, h) == Sum(n, f) + Sum(n, g)
  {
    if n > 0 {
      SumAdd(n - 1, f, g, h);
    }
  }

  /** Sum is subtractive. */
  lemma {:induction false} SumSub(n: nat, f: int -> int, g: int -> int, h: int -> int)
    requires forall i :: 0 <= i < n ==> h(i) == f(i) - g(i)
    ensures Sum(n, h) == Sum(n, f) - Sum(n, g)
  {
    if n > 0 {
      SumSub(n - 1, f, g, h);
    }
  }

  /** A sum whose terms vanish outside two positions is the sum of those terms. */
  lemma {:induction false} SumTwoPoints(n: nat, f: int -> int, k1: int, k2: int)
    requires 0 <= k1 < n && 0 <= k2 < n && k1 != k2
    requires forall i :: 0 <= i < n && i != k1 && i != k2 ==> f(i) == 0
    ensures Sum(n, f) == f(k1) + f(k2)
  {
    if n - 1 == k1 || n - 1 == k2 {
      var k := if n - 1 == k1 then k2 else k1;
      SumOnePoint(n - 1, f, k);
    } else {
      SumTwoPoints(n - 1, f, k1, k2);
    }
  }

  /** A sum whose terms vanish outside one position is that term. */
  lemma {:induction false} SumOnePoint(n: nat, f: int -> int, k: int)
    requires 0 <= k < n
    requires forall i :: 0 <= i < n && i != k ==> f(i) == 0
    ensures Sum(n, f) == f(k)
  {
    if n - 1 == k {
      SumZero(n - 1, f);
    } else {
      SumOnePoint(n - 1, f, k);
    }
  }

  /** A sum of zeros is zero. */
  lemma {:induction false} SumZero(n: nat, f: int -> int)
    requires forall i :: 0 <= i < n ==> f(i) == 0
    ensures Sum(n, f) == 0
  {
    if n > 0 {
      SumZero(n - 1, f);
    }
  }

  /** A sum of terms in [0, 1] lies in [0, n]. */
  lemma {:induction false} SumOfIndicators(n: nat, f: int -> int)
    requires forall i :: 0 <= i < n ==> 0 <= f(i) <= 1
    ensures 0 <= Sum(n, f) <= n
  {
    if n > 0 {
      SumOfIndicators(n - 1, f);
    }
  }

  /** Sum is monotone in its terms. */
  lemma {:induction false} SumLe(n: nat, f: int -> int, g: int -> int)
    requires forall i :: 0 <= i < n ==> f(i) <= g(i)
    ensures Sum(n, f) <= Sum(n, g)
  {
    if n > 0 {
      SumLe(n - 1, f, g);
    }
  }

  /** A sum of non-negative terms is zero exactly when every term is zero. */
  lemma {:induction false} SumNonNegZero(n: nat, f: int -> int)
    requires forall i :: 0 <= i < n ==> 0 <= f(i)
    ensures 0 <= Sum(n, f)
    ensures Sum(n, f) == 0 <==> forall i :: 0 <= i < n ==> f(i) == 0
  {
    if n > 0 {
      SumNonNegZero(n - 1, f);
    }
  }

  /** Swapping two terms leaves the sum unchanged. */
  lemma SumSwapTwo(n: nat, f: int -> int, g: int -> int, i: int, j: int)
    requires 0 <= i < n && 0 <= j < n && i != j
    requires g(i) == f(j) && g(j) == f(i)
    requires forall k :: 0 <= k < n && k != i && k != j ==> f(k) == g(k)
    ensures Sum(n, g) == Sum(n, f)
  {
    var mid := Patch(f, i, g(i));
    SumUpdate(n, f, mid, i);
    SumUpdate(n, mid, g, j);
  }

  /** f with the term at k replaced by x. */
  function Patch(f: int -> int, k: int, x: int): int -> int
  {
    i => if i == k then x else f(i)
  }

  /** The pointwise difference of f and g. */
  function Minus(f: int -> int, g: int -> int): int -> int
  {
    i => f(i) - g(i)
  }

  /** The constant function 1. */
  function One(): int -> int
  {
    i => 1
  }

  /** Summing ones counts the terms. */
  lemma {:induction false} SumOne(n: nat)
    ensures Sum(n, One()) == n
  {
    if n > 0 {
      SumOne(n - 1);
    }
  }

  /** The nine terms of a nine-term sum, written out. */
  lemma Unfold9(f: int -> int)
    ensures Sum(9, f) == f(0) + f(1) + f(2) + f(3) + f(4) + f(5) + f(6) + f(7) + f(8)
  {
    assert Sum(9, f) == Sum(8, f) + f(8);
    assert Sum(8, f) == Sum(7, f) + f(7);
    assert Sum(7, f) == Sum(6, f) + f(6);
    assert Sum(6, f) == Sum(5, f) + f(5);
    assert Sum(5, f) == Sum(4, f) + f(4);
    assert Sum(4, f) == Sum(3, f) + f(3);
    assert Sum(3, f) == Sum(2, f) + f(2);
    assert Sum(2, f) == Sum(1, f) + f(1);
    assert Sum(1, f) == Sum(0, f) + f(0);
  }

  /**
   * Double sums. A two-index family of terms is a curried function
   * `h(r)(c)`; lambdas are built only inside the named functions below, so
   * that every mention of "row r's sum" or "column c's sum" is the same term.
   */
  function Sum2(n: nat, m: nat, h: int -> int -> int): int
  {
    Sum(n, RowSums(m, h))
  }

  /** RowSums(m, h)(r) == h(r)(0) + ... + h(r)(m-1). */
  function RowSums(m: nat, h: int -> int -> int): int -> int
  {
    r => Sum(m, h(r))
  }

  /** The same family indexed column first. */
  function Transpose(h: int -> int -> int): int -> int -> int
  {
    c => r => h(r)(c)
  }

  /** The order of a double sum can be exchanged. */
  lemma {:induction false} SumExchange(n: nat, m: nat, h: int -> int -> int)
    ensures Sum2(n, m, h) == Sum2(m, n, Transpose(h))
  {
    if n == 0 {
      forall c | 0 <= c < m
        ensures RowSums(0, Transpose(h))(c) == 0
      {
        assert RowSums(0, Transpose(h))(c) == Sum(0, Transpose(h)(c));
      }
      SumZero(m, RowSums(0, Transpose(h)));
    } else {
      SumExchange(n - 1, m, h);
      forall c | 0 <= c < m
        ensures RowSums(n, Transpose(h))(c) == RowSums(n - 1, Transpose(h))(c) + h(n - 1)(c)
      {
        assert Transpose(h)(c)(n - 1) == h(n - 1)(c);
      }
      SumAdd(m, RowSums(n - 1, Transpose(h)), h(n - 1), RowSums(n, Transpose(h)));
    }
  }

  /** The pointwise sum of two tables. */
  function Plus2(h1: int -> int -> int, h2: int -> int -> int): int -> int -> int
  {
    r => c => h1(r)(c) + h2(r)(c)
  }

  /** A double sum of a pointwise sum is the sum of the double sums. */
  lemma Sum2Add(n: nat, m: nat, h1: int -> int -> int, h2: int -> int -> int, h: int -> int -> int)
    requires forall r, c :: 0 <= r < n && 0 <= c < m ==> h(r)(c) == h1(r)(c) + h2(r)(c)
    ensures Sum2(n, m, h) == Sum2(n, m, h1) + Sum2(n, m, h2)
  {
    forall r | 0 <= r < n
      ensures RowSums(m, h)(r) == RowSums(m, h1)(r) + RowSums(m, h2)(r)
    {
      SumAdd(m, h1(r), h2(r), h(r));
    }
    SumAdd(n, RowSums(m, h1), RowSums(m, h2), RowSums(m, h));
  }

  lemma Sum2Plus(n: nat, m: nat, h1: int -> int -> int, h2: int -> int -> int)
    ensures Sum2(n, m, Plus2(h1, h2)) == Sum2(n, m, h1) + Sum2(n, m, h2)
  {
    Sum2Add(n, m, h1, h2, Plus2(h1, h2));
  }

  /** A 9 x 9 double sum is the sum of its nine row sums. */
  lemma Sum2Rows9(h: int -> int -> int)
    ensures Sum2(9, 9, h) == RowSums(9, h)(0) + RowSums(9, h)(1) + RowSums(9, h)(2) + RowSums(9, h)(3)
      + RowSums(9, h)(4) + RowSums(9, h)(5) + RowSums(9, h)(6) + RowSums(9, h)(7) + RowSums(9, h)(8)
  {
    Unfold9(RowSums(9, h));
  }

  /** Entry r of the row sums is the sum of row r. */
  lemma RowSumsAt(h: int -> int -> int, r: int)
    ensures RowSums(9, h)(r) == Sum(9, h(r))
  {
  }
}
