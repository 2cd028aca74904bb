/** Finite sums over integer ranges, the arithmetic every count in this project is built from. */
module Sums {

  /** f(lo) + f(lo + 1) + ... + f(hi - 1); zero when the range is empty. */
  ghost function Sum(lo: int, hi: int, f: int -> int): int
    decreases hi - lo
  {
    if lo >= hi then 0 else f(lo) + Sum(lo + 1, hi, f)
  }

  /** Sums of functions that agree on the range are equal. */
  lemma {:induction false} SumExt(lo: int, hi: int, f: int -> int, g: int -> int)
    requires forall x :: lo <= x < hi ==> f(x) == g(x)
    ensures Sum(lo, hi, f) == Sum(lo, hi, g)
    decreases hi - lo
  {
    if lo < hi {
      SumExt(lo + 1, hi, f, g);
    }
  }

  /** The last term can be split off as well as the first. */
  lemma {:induction false} SumLast(lo: int, hi: int, f: int -> int)
    requires lo < hi
    ensures Sum(lo, hi, f) == Sum(lo, hi - 1, f) + f(hi - 1)
    decreases hi - lo
  {
    if lo + 1 < hi {
      SumLast(lo + 1, hi, f);
    }
  }

  /** A sum over [lo, hi) is the sum over [lo, mid) plus the sum over [mid, hi). */
  lemma {:induction false} SumSplit(lo: int, mid: int, hi: int, f: int -> int)
    requires lo <= mid <= hi
    ensures Sum(lo, hi, f) == Sum(lo, mid, f) + Sum(mid, hi, f)
    decreases mid - lo
  {
    if lo < mid {
      SumSplit(lo + 1, mid, hi, f);
    }
  }

  /** A sum of zeros is zero. */
  lemma {:induction false} SumZero(lo: int, hi: int, f: int -> int)
    requires forall x :: lo <= x < hi ==> f(x) == 0
    ensures Sum(lo, hi, f) == 0
    decreases hi - lo
  {
    if lo < hi {
      SumZero(lo + 1, hi, f);
    }
  }

  /** A sum of a constant c over n points is n * c. */
  lemma {:induction false} SumConst(lo: int, hi: int, c: int, f: int -> int)
    requires lo <= hi
    requires forall x :: lo <= x < hi ==> f(x) == c
    ensures Sum(lo, hi, f) == (hi - lo) * c
    decreases hi - lo
  {
    if lo < hi {
      SumConst(lo + 1, hi, c, f);
    }
  }

  /** When only the term at a can be non-zero, the sum is that term. */
  lemma SumPoint(lo: int, hi: int, a: int, f: int -> int)
    requires lo <= a < hi
    requires forall x :: lo <= x < hi && x != a ==> f(x) == 0
    ensures Sum(lo, hi, f) == f(a)
  {
    SumSplit(lo, a, hi, f);
    SumZero(lo, a, f);
    SumZero(a + 1, hi, f);
  }

  /** Termwise addition: if h == f + g on the range, Sum h == Sum f + Sum g. */
  lemma {:induction false} SumAdd(lo: int, hi: int, f: int -> int, g: int -> int, h: int -> int)
    requires forall x :: lo <= x < hi ==> h(x) == f(x) + g(x)
    ensures Sum(lo, hi, h) == Sum(lo, hi, f) + Sum(lo, hi, g)
    decreases hi - lo
  {
    if lo < hi {
      SumAdd(lo + 1, hi, f, g, h);
    }
  }

  /** Termwise subtraction: if h == f - g on the range, Sum h == Sum f - Sum g. */
  lemma {:induction false} SumSub(lo: int, hi: int, f: int -> int, g: int -> int, h: int -> int)
    requires forall x :: lo <= x < hi ==> h(x) == f(x) - g(x)
    ensures Sum(lo, hi, h) == Sum(lo, hi, f) - Sum(lo, hi, g)
    decreases hi - lo
  {
    if lo < hi {
      SumSub(lo + 1, hi, f, g, h);
    }
  }

  /** A constant factor moves out of a sum. */
  lemma {:induction false} SumScale(lo: int, hi: int, c: int, f: int -> int, h: int -> int)
    requires forall x :: lo <= x < hi ==> h(x) == c * f(x)
    ensures Sum(lo, hi, h) == c * Sum(lo, hi, f)
    decreases hi - lo
  {
    if lo < hi {
      SumScale(lo + 1, hi, c, f, h);
      calc {
        Sum(lo, hi, h);
        h(lo) + Sum(lo + 1, hi, h);
        c * f(lo) + c * Sum(lo + 1, hi, f);
        { assert c * f(lo) + c * Sum(lo + 1, hi, f) == c * (f(lo) + Sum(lo + 1, hi, f)); }
        c * Sum(lo, hi, f);
      }
    }
  }

  /** Renaming the summation variable x to x + t moves the range by t. */
  lemma {:induction false} SumShift(lo: int, hi: int, t: int, f: int -> int, g: int -> int)
    requires forall x :: lo <= x < hi ==> g(x) == f(x + t)
    ensures Sum(lo, hi, g) == Sum(lo + t, hi + t, f)
    decreases hi - lo
  {
    if lo < hi {
      SumShift(lo + 1, hi, t, f, g);
    }
  }

  /** Summing in reverse order, x to lo + hi - 1 - x, does not change the sum. */
  lemma {:induction false} SumReflect(lo: int, hi: int, f: int -> int, g: int -> int)
    requires forall x :: lo <= x < hi ==> g(x) == f(lo + hi - 1 - x)
    ensures Sum(lo, hi, g) == Sum(lo, hi, f)
    decreases hi - lo
  {
    if lo < hi {
      // g on [lo + 1, hi) is the reflection of f on [lo, hi - 1), shifted by one
      var f1 := (y: int) => f(y - 1);
      SumReflect(lo + 1, hi, f1, g);
      SumShift(lo + 1, hi, -1, f, f1);
      SumLast(lo, hi, f);
    }
  }

  /** The order of a double sum over a rectangle can be exchanged. */
  lemma {:induction false} SumSwap(a: int, b: int, c: int, d: int, F: (int, int) -> int)
    ensures Sum(a, b, x => Sum(c, d, y => F(x, y))) == Sum(c, d, y => Sum(a, b, x => F(x, y)))
    decreases b - a
  {
    if a < b {
      var rows := x => Sum(c, d, y => F(x, y));
      var cols := y => Sum(a, b, x => F(x, y));
      var rest := y => Sum(a + 1, b, x => F(x, y));
      SumSwap(a + 1, b, c, d, F);
      SumExt(a + 1, b, rows, x => Sum(c, d, y => F(x, y)));
      SumExt(c, d, rest, y => Sum(a + 1, b, x => F(x, y)));
      SumAdd(c, d, y => F(a, y), rest, cols);
      calc {
        Sum(a, b, rows);
        rows(a) + Sum(a + 1, b, rows);
        Sum(c, d, cols);
      }
      assert Sum(a, b, rows) == Sum(a, b, x => Sum(c, d, y => F(x, y)));
      assert Sum(c, d, cols) == Sum(c, d, y => Sum(a, b, x => F(x, y)));
    } else {
      SumZero(c, d, y => Sum(a, b, x => F(x, y)));
    }
  }

  /** A sum of non-negative terms is non-negative. */
  lemma {:induction false} SumNonneg(lo: int, hi: int, f: int -> int)
    requires forall x :: lo <= x < hi ==> f(x) >= 0
    ensures Sum(lo, hi, f) >= 0
    decreases hi - lo
  {
    if lo < hi {
      SumNonneg(lo + 1, hi, f);
    }
  }

  /** Sums are monotone in their terms. */
  lemma {:induction false} SumMono(lo: int, hi: int, f: int -> int, g: int -> int)
    requires forall x :: lo <= x < hi ==> f(x) <= g(x)
    ensures Sum(lo, hi, f) <= Sum(lo, hi, g)
    decreases hi - lo
  {
    if lo < hi {
      SumMono(lo + 1, hi, f, g);
    }
  }

  /** A sum of non-negative terms is at least each of its terms. */
  lemma SumTermBound(lo: int, hi: int, a: int, f: int -> int)
    requires lo <= a < hi
    requires forall x :: lo <= x < hi ==> f(x) >= 0
    ensures f(a) <= Sum(lo, hi, f)
  {
    SumSplit(lo, a, hi, f);
    SumNonneg(lo, a, f);
    SumNonneg(a + 1, hi, f);
  }

  /** A sum of n terms each at most m in absolute value is at most n * m in absolute value. */
  lemma {:induction false} SumAbsBound(lo: int, hi: int, m: int, f: int -> int)
    requires lo <= hi
    requires forall x :: lo <= x < hi ==> -m <= f(x) <= m
    ensures -(hi - lo) * m <= Sum(lo, hi, f) <= (hi - lo) * m
    decreases hi - lo
  {
    if lo < hi {
      SumAbsBound(lo + 1, hi, m, f);
    }
  }

  /** Products of non-negative numbers are monotone in both factors. */
  lemma MulMono(a: int, b: int, a1: int, b1: int)
    requires 0 <= a <= a1 && 0 <= b <= b1
    ensures 0 <= a * b <= a1 * b1
  {
    assert a * b <= a1 * b;
    assert a1 * b <= a1 * b1;
  }
}
