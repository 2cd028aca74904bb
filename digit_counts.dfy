/**
 * N(S), the number of ordered tuples of digits with a given digit sum, defined by recursion on the
 * number of digits, and its closed form by inclusion-exclusion. Everything here holds for every
 * base b (digits 0 .. b - 1); the counter of beautiful numbers uses b = 13 and six digits.
 */
module DigitCounts {
  import opened Sums
  import opened Binomials

  ghost function Pow(b: int, e: nat): int
  {
    if e == 0 then 1 else b * Pow(b, e - 1)
  }

  lemma {:induction false} PowPositive(b: int, e: nat)
    requires b > 0
    ensures Pow(b, e) > 0
  {
    if e > 0 {
      PowPositive(b, e - 1);
    }
  }

  /** b^(e1 + e2) == b^e1 * b^e2. */
  lemma {:induction false} PowAdd(b: int, e1: nat, e2: nat)
    ensures Pow(b, e1 + e2) == Pow(b, e1) * Pow(b, e2)
    decreases e1
  {
    if e1 > 0 {
      PowAdd(b, e1 - 1, e2);
      assert b * (Pow(b, e1 - 1) * Pow(b, e2)) == (b * Pow(b, e1 - 1)) * Pow(b, e2);
    }
  }

  /** b^(2h + 1) == b * b^h * b^h: a word of 2h + 1 digits is two halves and a middle digit. */
  lemma PowSquare(b: int, h: nat)
    ensures Pow(b, 2 * h + 1) == (b * Pow(b, h)) * Pow(b, h)
  {
    PowAdd(b, h, h);
    assert Pow(b, 2 * h + 1) == b * Pow(b, h + h);
    assert b * (Pow(b, h) * Pow(b, h)) == (b * Pow(b, h)) * Pow(b, h);
  }

  /**
   * The number of ordered d-tuples of digits in 0 .. b - 1 whose sum is s:
   * the first digit x takes each of its b values and the other d - 1 digits sum to s - x.
   * (Only d decreases; s is part of the measure so that a count with a fixed number of digits
   * is not unfolded for an unknown sum.)
   */
  ghost function Count(b: nat, d: nat, s: int): int
    decreases d, s
  {
    if d == 0 then (if s == 0 then 1 else 0)
    else Sum(0, b, x => Count(b, d - 1, s - x))
  }

  lemma {:induction false} CountNonneg(b: nat, d: nat, s: int)
    ensures Count(b, d, s) >= 0
  {
    if d > 0 {
      var e := d - 1;
      var f := x => Count(b, e, s - x);
      forall x | 0 <= x < b
        ensures f(x) >= 0
      {
        CountNonneg(b, e, s - x);
      }
      SumNonneg(0, b, f);
    }
  }

  /** No tuple of d digits sums below 0 or above (b - 1) * d. */
  lemma {:induction false} CountOutside(b: nat, d: nat, s: int)
    requires b >= 1
    requires s < 0 || s > (b - 1) * d
    ensures Count(b, d, s) == 0
  {
    if d > 0 {
      var e := d - 1;
      var f := x => Count(b, e, s - x);
      assert (b - 1) * d == (b - 1) * e + (b - 1);
      forall x | 0 <= x < b
        ensures f(x) == 0
      {
        CountOutside(b, e, s - x);
      }
      SumZero(0, b, f);
    }
  }

  /** Replacing every digit x by b - 1 - x maps the tuples with sum s onto those with sum (b - 1) * d - s. */
  lemma {:induction false} CountSymmetric(b: nat, d: nat, s: int)
    requires b >= 1
    ensures Count(b, d, s) == Count(b, d, (b - 1) * d - s)
  {
    if d > 0 {
      var e := d - 1;
      var m := (b - 1) * d;
      assert m == (b - 1) * e + (b - 1);
      var f := x => Count(b, e, s - x);
      var g := x => Count(b, e, m - s - x);
      forall x | 0 <= x < b
        ensures g(x) == f(b - 1 - x)
      {
        CountSymmetric(b, e, m - s - x);
      }
      SumReflect(0, b, f, g);
    }
  }

  /** Only the all-zero tuple sums to 0. */
  lemma {:induction false} CountOfZero(b: nat, d: nat)
    requires b >= 1
    ensures Count(b, d, 0) == 1
  {
    if d > 0 {
      var e := d - 1;
      var f := x => Count(b, e, 0 - x);
      forall x | 0 <= x < b && x != 0
        ensures f(x) == 0
      {
        CountOutside(b, e, -x);
      }
      CountOfZero(b, e);
      SumPoint(0, b, 0, f);
    }
  }

  /** Only the tuple whose d digits are all b - 1 sums to (b - 1) * d. */
  lemma CountOfMax(b: nat, d: nat)
    requires b >= 1
    ensures Count(b, d, (b - 1) * d) == 1
  {
    CountOfZero(b, d);
    CountSymmetric(b, d, 0);
  }

  /**
   * Every d-tuple is counted exactly once across the sums: summed over any range of sums that
   * covers 0 .. (b - 1) * d, the counts add up to b^d.
   */
  lemma {:induction false} CountTotal(b: nat, d: nat, lo: int, hi: int)
    requires b >= 1
    requires lo <= 0 && (b - 1) * d < hi
    ensures Sum(lo, hi, s => Count(b, d, s)) == Pow(b, d)
    decreases d, 1
  {
    if d == 0 {
      var f := s => Count(b, 0, s);
      SumPoint(lo, hi, 0, f);
    } else {
      var e := d - 1;
      CountByFirstDigit(b, e, lo, hi);
      var column := x => Sum(lo, hi, s => Count(b, e, s - x));
      forall x | 0 <= x < b
        ensures column(x) == Pow(b, e)
      {
        ColumnTotal(b, e, lo, hi, x);
      }
      SumConst(0, b, Pow(b, e), column);
    }
  }

  /** Summing the (e + 1)-digit counts over a range of sums, grouped by the first digit x. */
  lemma CountByFirstDigit(b: nat, e: nat, lo: int, hi: int)
    ensures Sum(lo, hi, s => Count(b, e + 1, s)) == Sum(0, b, x => Sum(lo, hi, s => Count(b, e, s - x)))
  {
    var F := (s, x) => Count(b, e, s - x);
    assert forall s, x :: F(s, x) == Count(b, e, s - x);
    SumSwap(lo, hi, 0, b, F);
    RowsOfFirstDigit(b, e, lo, hi, F);
    ColumnsOfFirstDigit(b, e, lo, hi, F);
  }

  lemma RowsOfFirstDigit(b: nat, e: nat, lo: int, hi: int, F: (int, int) -> int)
    requires forall s, x :: F(s, x) == Count(b, e, s - x)
    ensures Sum(lo, hi, s => Sum(0, b, x => F(s, x))) == Sum(lo, hi, s => Count(b, e + 1, s))
  {
    var rows := s => Sum(0, b, x => F(s, x));
    var counts := s => Count(b, e + 1, s);
    forall s | lo <= s < hi
      ensures rows(s) == counts(s)
    {
      SumExt(0, b, x => F(s, x), x => Count(b, e, s - x));
    }
    SumExt(lo, hi, rows, counts);
  }

  lemma ColumnsOfFirstDigit(b: nat, e: nat, lo: int, hi: int, F: (int, int) -> int)
    requires forall s, x :: F(s, x) == Count(b, e, s - x)
    ensures Sum(0, b, x => Sum(lo, hi, s => F(s, x))) == Sum(0, b, x => Sum(lo, hi, s => Count(b, e, s - x)))
  {
    var cols := x => Sum(lo, hi, s => F(s, x));
    var shifted := x => Sum(lo, hi, s => Count(b, e, s - x));
    forall x | 0 <= x < b
      ensures cols(x) == shifted(x)
    {
      SumExt(lo, hi, s => F(s, x), s => Count(b, e, s - x));
    }
    SumExt(0, b, cols, shifted);
  }

  /** The (e + 1)-tuples whose first digit is x, counted over all sums. */
  lemma {:induction false} ColumnTotal(b: nat, e: nat, lo: int, hi: int, x: int)
    requires b >= 1 && 0 <= x < b
    requires lo <= 0 && (b - 1) * (e + 1) < hi
    ensures Sum(lo, hi, s => Count(b, e, s - x)) == Pow(b, e)
    decreases e, 2
  {
    assert (b - 1) * (e + 1) == (b - 1) * e + (b - 1);
    SumShift(lo, hi, -x, s => Count(b, e, s), s => Count(b, e, s - x));
    CountTotal(b, e, lo - x, hi - x);
  }

  /** Each count is at most the number b^d of all d-tuples. */
  lemma CountAtMost(b: nat, d: nat, s: int)
    requires b >= 1
    ensures Count(b, d, s) <= Pow(b, d)
  {
    var m := (b - 1) * d;
    if 0 <= s <= m {
      var f := t => Count(b, d, t);
      forall t | 0 <= t < m + 1
        ensures f(t) >= 0
      {
        CountNonneg(b, d, t);
      }
      SumTermBound(0, m + 1, s, f);
      CountTotal(b, d, 0, m + 1);
    } else {
      CountOutside(b, d, s);
      PowPositive(b, d);
    }
  }

  /** t tabulates N(s) for every possible digit sum s = 0 .. (b - 1) * d. */
  ghost predicate IsCountTable(b: nat, d: nat, t: seq<int>)
  {
    |t| == (b - 1) * d + 1 && forall s :: 0 <= s < |t| ==> t[s] == Count(b, d, s)
  }

  /**
   * What such a table holds, read off the counting meaning of N: one way to reach 0 and one to
   * reach the largest sum, N(s) == N((b - 1) * d - s) (replace every digit x by b - 1 - x), each
   * entry between 0 and b^d, and the entries adding up to b^d, the number of all d-tuples.
   */
  lemma CountTableShape(b: nat, d: nat, t: seq<int>)
    requires b >= 1 && IsCountTable(b, d, t)
    ensures t[0] == 1 && t[|t| - 1] == 1
    ensures forall s :: 0 <= s < |t| ==> t[s] == t[|t| - 1 - s]
    ensures forall s :: 0 <= s < |t| ==> 0 <= t[s] <= Pow(b, d)
    ensures Sum(0, |t|, s => if 0 <= s < |t| then t[s] else 0) == Pow(b, d)
  {
    CountOfZero(b, d);
    CountOfMax(b, d);
    forall s | 0 <= s < |t|
      ensures t[s] == t[|t| - 1 - s]
      ensures 0 <= t[s] <= Pow(b, d)
    {
      CountSymmetric(b, d, s);
      CountNonneg(b, d, s);
      CountAtMost(b, d, s);
    }
    SumExt(0, |t|, s => if 0 <= s < |t| then t[s] else 0, s => Count(b, d, s));
    CountTotal(b, d, 0, |t|);
  }

  /** The k-th term of the inclusion-exclusion sum for d digits in base b and sum s. */
  ghost function IETerm(b: nat, d: nat, s: int, k: int): int
  {
    Sign(k) * Choose(d, k) * Choose(s - b * k + d - 1, d - 1)
  }

  /**
   * Inclusion-exclusion over the d constraints "digit i is at least b":
   * the sum over k = 0 .. d of (-1)^k C(d, k) C(s - b k + d - 1, d - 1).
   */
  ghost function InclusionExclusion(b: nat, d: nat, s: int): int
  {
    Sum(0, d + 1, k => IETerm(b, d, s, k))
  }

  /**
   * The inclusion-exclusion identity: for every base b, every d >= 1 and every integer s, the
   * closed form counts exactly the d-tuples of digits summing to s.
   */
  lemma {:induction false} InclusionExclusionCounts(b: nat, d: nat, s: int)
    requires b >= 1 && d >= 1
    ensures InclusionExclusion(b, d, s) == Count(b, d, s)
  {
    if d == 1 {
      InclusionExclusionOneDigit(b, s);
    } else {
      var e := d - 1;
      var f := x => Count(b, e, s - x);
      var g := x => InclusionExclusion(b, e, s - x);
      forall x | 0 <= x < b
        ensures f(x) == g(x)
      {
        InclusionExclusionCounts(b, e, s - x);
      }
      SumExt(0, b, f, g);
      InclusionExclusionStep(b, e, s);
    }
  }

  /** One digit: the closed form is C(s, 0) - C(s - b, 0), which is 1 exactly on 0 .. b - 1. */
  lemma InclusionExclusionOneDigit(b: nat, s: int)
    requires b >= 1
    ensures InclusionExclusion(b, 1, s) == Count(b, 1, s)
  {
    assert InclusionExclusion(b, 1, s) == IETerm(b, 1, s, 0) + IETerm(b, 1, s, 1);
    var f := x => Count(b, 0, s - x);
    if 0 <= s < b {
      SumPoint(0, b, s, f);
    } else {
      SumZero(0, b, f);
    }
  }

  /**
   * Adding one digit to the d-digit closed form gives the (d + 1)-digit closed form:
   * summing over the new digit telescopes each C(., d - 1) into a difference of C(., d)
   * (the hockey stick), and re-indexing that difference is Pascal's rule on C(d + 1, k).
   */
  lemma InclusionExclusionStep(b: nat, d: nat, s: int)
    requires b >= 1 && d >= 1
    ensures Sum(0, b, x => InclusionExclusion(b, d, s - x)) == InclusionExclusion(b, d + 1, s)
  {
    ExchangeDigitAndTerm(b, d, s);
    var column := k => Sum(0, b, x => IETerm(b, d, s - x, k));
    var telescoped := k => Upper(b, d, s, k) - Lower(b, d, s, k);
    forall k | 0 <= k < d + 1
      ensures column(k) == telescoped(k)
    {
      HockeyColumn(b, d, s, k);
    }
    SumExt(0, d + 1, column, telescoped);
    Recombine(b, d, s);
  }

  /** Exchanges the sum over the new digit x with the sum over the inclusion-exclusion index k. */
  lemma ExchangeDigitAndTerm(b: nat, d: nat, s: int)
    ensures Sum(0, b, x => InclusionExclusion(b, d, s - x))
         == Sum(0, d + 1, k => Sum(0, b, x => IETerm(b, d, s - x, k)))
  {
    var F := (x, k) => IETerm(b, d, s - x, k);
    SumSwap(0, b, 0, d + 1, F);
    RowsOfDigit(b, d, s, F);
    ColumnsOfTerm(b, d, s, F);
  }

  lemma RowsOfDigit(b: nat, d: nat, s: int, F: (int, int) -> int)
    requires forall x, k :: F(x, k) == IETerm(b, d, s - x, k)
    ensures Sum(0, b, x => Sum(0, d + 1, k => F(x, k))) == Sum(0, b, x => InclusionExclusion(b, d, s - x))
  {
    var rows := x => Sum(0, d + 1, k => F(x, k));
    var ie := x => InclusionExclusion(b, d, s - x);
    forall x | 0 <= x < b
      ensures rows(x) == ie(x)
    {
      SumExt(0, d + 1, k => F(x, k), k => IETerm(b, d, s - x, k));
    }
    SumExt(0, b, rows, ie);
  }

  lemma ColumnsOfTerm(b: nat, d: nat, s: int, F: (int, int) -> int)
    requires forall x, k :: F(x, k) == IETerm(b, d, s - x, k)
    ensures Sum(0, d + 1, k => Sum(0, b, x => F(x, k))) == Sum(0, d + 1, k => Sum(0, b, x => IETerm(b, d, s - x, k)))
  {
    var cols := k => Sum(0, b, x => F(x, k));
    var cols2 := k => Sum(0, b, x => IETerm(b, d, s - x, k));
    forall k | 0 <= k < d + 1
      ensures cols(k) == cols2(k)
    {
      SumExt(0, b, x => F(x, k), x => IETerm(b, d, s - x, k));
    }
    SumExt(0, d + 1, cols, cols2);
  }

  /** Sign(k) C(d, k) C(s - b k + d, d): the first half of a telescoped column. */
  ghost function Upper(b: nat, d: nat, s: int, k: int): int
  {
    Sign(k) * Choose(d, k) * Choose(s - b * k + d, d)
  }

  /** Sign(k) C(d, k) C(s - b (k + 1) + d, d): the second half of a telescoped column. */
  ghost function Lower(b: nat, d: nat, s: int, k: int): int
  {
    Sign(k) * Choose(d, k) * Choose(s - b * (k + 1) + d, d)
  }

  /**
   * Shifting the subtracted halves of the telescoped columns by one and adding a zero term to
   * each side leaves, column by column, Pascal's rule C(d, k) + C(d, k - 1) == C(d + 1, k).
   */
  lemma Recombine(b: nat, d: nat, s: int)
    requires d >= 1
    ensures Sum(0, d + 1, k => Upper(b, d, s, k) - Lower(b, d, s, k)) == InclusionExclusion(b, d + 1, s)
  {
    var A := k => Upper(b, d, s, k);
    var B := k => Lower(b, d, s, k);
    SumSub(0, d + 1, A, B, k => Upper(b, d, s, k) - Lower(b, d, s, k));
    UpperExtended(b, d, s);
    LowerShifted(b, d, s);
    RecombinedColumns(b, d, s);
  }

  /** The upper halves gain a zero term at k = d + 1, where C(d, k) vanishes. */
  lemma UpperExtended(b: nat, d: nat, s: int)
    ensures Sum(0, d + 1, k => Upper(b, d, s, k)) == Sum(0, d + 2, k => Upper(b, d, s, k))
  {
    assert Choose(d, d + 1) == 0;
    SumLast(0, d + 2, k => Upper(b, d, s, k));
  }

  /** The lower halves, re-indexed from k to k + 1, gain a zero term at k = 0, where C(d, -1) vanishes. */
  lemma LowerShifted(b: nat, d: nat, s: int)
    ensures Sum(0, d + 1, k => Lower(b, d, s, k)) == Sum(0, d + 2, k => Lower(b, d, s, k - 1))
  {
    var B := k => Lower(b, d, s, k);
    var B1 := k => Lower(b, d, s, k - 1);
    SumShift(1, d + 2, -1, B, B1);
    assert Choose(d, -1) == 0;
    assert B1(0) == 0;
  }

  /** Column by column, the upper half of k minus the lower half of k - 1 is the (d + 1)-digit term. */
  lemma RecombinedColumns(b: nat, d: nat, s: int)
    requires d >= 1
    ensures Sum(0, d + 2, k => Upper(b, d, s, k)) - Sum(0, d + 2, k => Lower(b, d, s, k - 1))
         == InclusionExclusion(b, d + 1, s)
  {
    var next := k => IETerm(b, d + 1, s, k);
    forall k | 0 <= k < d + 2
      ensures Upper(b, d, s, k) - Lower(b, d, s, k - 1) == next(k)
    {
      RecombineColumn(b, d, s, k);
    }
    SumSub(0, d + 2, k => Upper(b, d, s, k), k => Lower(b, d, s, k - 1), next);
  }

  lemma RecombineColumn(b: nat, d: nat, s: int, k: int)
    requires d >= 1
    ensures Upper(b, d, s, k) - Lower(b, d, s, k - 1) == IETerm(b, d + 1, s, k)
  {
    var f := Choose(s - b * k + d, d);
    assert s - b * (k - 1 + 1) + d == s - b * k + (d + 1) - 1;
    SignStep(k - 1);
    Pascal(d + 1, k);
    PascalColumn(Sign(k), Choose(d, k), Choose(d, k - 1), Choose(d + 1, k), f);
  }

  /** Column k of the exchanged double sum, summed over the new digit by the hockey stick. */
  lemma HockeyColumn(b: nat, d: nat, s: int, k: int)
    requires b >= 1 && d >= 1
    ensures Sum(0, b, x => IETerm(b, d, s - x, k)) == Upper(b, d, s, k) - Lower(b, d, s, k)
  {
    var n := s - b * k + d - 1;
    HockeyStick(n, d - 1, b);
    ScaledColumn(b, d, s, k);
    TelescopedColumn(b, d, s, k, Sign(k) * Choose(d, k), Choose(n + 1, d), Choose(n + 1 - b, d));
  }

  /** Every term of column k carries the same factor Sign(k) C(d, k). */
  lemma ScaledColumn(b: nat, d: nat, s: int, k: int)
    ensures Sum(0, b, x => IETerm(b, d, s - x, k))
         == Sign(k) * Choose(d, k) * Sum(0, b, x => Choose((s - b * k + d - 1) - x, d - 1))
  {
    var n := s - b * k + d - 1;
    var c := Sign(k) * Choose(d, k);
    var g := x => IETerm(b, d, s - x, k);
    var h := x => Choose(n - x, d - 1);
    forall x | 0 <= x < b
      ensures g(x) == c * h(x)
    {
      ShiftedTerm(b, d, s, k, x);
    }
    SumScale(0, b, c, h, g);
  }

  lemma TelescopedColumn(b: nat, d: nat, s: int, k: int, c: int, p: int, q: int)
    requires c == Sign(k) * Choose(d, k)
    requires p == Choose(s - b * k + d, d) && q == Choose(s - b * (k + 1) + d, d)
    ensures c * (p - q) == Upper(b, d, s, k) - Lower(b, d, s, k)
  {
    ScaleDifference(c, p, q);
  }

  /** Lowering the sum by x moves the argument of the last binomial of a term down by x. */
  lemma ShiftedTerm(b: nat, d: nat, s: int, k: int, x: int)
    ensures IETerm(b, d, s - x, k) == Sign(k) * Choose(d, k) * Choose((s - b * k + d - 1) - x, d - 1)
  {
    assert (s - x) - b * k + d - 1 == (s - b * k + d - 1) - x;
  }

  lemma ScaleDifference(c: int, p: int, q: int)
    ensures c * (p - q) == c * p - c * q
  {
  }

  lemma PascalColumn(sg: int, a: int, a1: int, c: int, f: int)
    requires c == a + a1
    ensures sg * a * f - (-sg) * a1 * f == sg * c * f
  {
  }
}
