/**
 * What the counter counts, stated without any formula: a word of 2h + 1 digits in base b is
 * balanced when its first h digits and its last h digits have the same digit sum (the middle
 * digit is free). The beautiful numbers are the balanced words with b = 13 and h = 6, i.e.
 * 13-digit base-13 numbers with leading zeros allowed: CountBalanced(13, 6).
 *
 * The count is defined by enumerating every word digit by digit, and is then shown to equal
 * the left / middle / right decomposition: the sum over S of b * N(S) * N(S).
 */
module BeautifulSpec {
  import opened Sums
  import opened DigitCounts

  /** The sum of the digits of w. */
  ghost function DigitSum(w: seq<int>): int
  {
    if |w| == 0 then 0 else DigitSum(w[..|w| - 1]) + w[|w| - 1]
  }

  /** Every entry of w is a digit of base b. */
  ghost predicate ValidDigits(b: nat, w: seq<int>)
  {
    forall i :: 0 <= i < |w| ==> 0 <= w[i] < b
  }

  /** w has 2h + 1 base-b digits, and its first h digits sum to the same as its last h digits. */
  ghost predicate IsBalanced(b: nat, h: nat, w: seq<int>)
  {
    |w| == 2 * h + 1 && ValidDigits(b, w) && DigitSum(w[..h]) == DigitSum(w[h + 1..])
  }

  /**
   * The number of ways to append n more base-b digits to p so that the result is balanced:
   * every digit x in 0 .. b - 1 is tried in turn.
   */
  ghost function Completions(b: nat, h: nat, p: seq<int>, n: nat): int
    decreases n, p
  {
    if n == 0 then (if IsBalanced(b, h, p) then 1 else 0)
    else Sum(0, b, x => Completions(b, h, p + [x], n - 1))
  }

  /** The number of balanced words of 2h + 1 digits in base b, by enumeration. */
  ghost function CountBalanced(b: nat, h: nat): int
  {
    Completions(b, h, [], 2 * h + 1)
  }

  /** The number of ways to choose the middle digit and a right half with digit sum s. */
  ghost function MiddleAndRight(b: nat, h: nat, s: int): int
  {
    b * Count(b, h, s)
  }

  lemma DigitSumAppend(w: seq<int>, x: int)
    ensures DigitSum(w + [x]) == DigitSum(w) + x
  {
    assert (w + [x])[..|w|] == w;
  }

  /** A word of valid digits has a digit sum between 0 and (b - 1) times its length. */
  lemma {:induction false} DigitSumBounds(b: nat, w: seq<int>)
    requires b >= 1 && ValidDigits(b, w)
    ensures 0 <= DigitSum(w) <= (b - 1) * |w|
  {
    if |w| > 0 {
      var v := w[..|w| - 1];
      assert ValidDigits(b, v) by {
        forall i | 0 <= i < |v|
          ensures 0 <= v[i] < b
        {
          assert v[i] == w[i];
        }
      }
      DigitSumBounds(b, v);
      assert (b - 1) * |w| == (b - 1) * |v| + (b - 1);
    }
  }

  /** n copies of the digit c have digit sum c * n. */
  lemma {:induction false} DigitSumRepeated(c: int, n: nat)
    ensures DigitSum(seq(n, _ => c)) == c * n
  {
    if n > 0 {
      var w := seq(n, _ => c);
      assert w[..n - 1] == seq(n - 1, _ => c);
      DigitSumRepeated(c, n - 1);
    }
  }

  lemma ValidAppend(b: nat, p: seq<int>, x: int)
    requires ValidDigits(b, p) && 0 <= x < b
    ensures ValidDigits(b, p + [x])
  {
    var q := p + [x];
    forall i | 0 <= i < |q|
      ensures 0 <= q[i] < b
    {
      if i < |p| {
        assert q[i] == p[i];
      }
    }
  }

  /**
   * Once the left half and the middle digit are fixed, the remaining n digits of the right
   * half must make up the difference between the left half's sum and what the right half
   * already has: exactly N_n(difference) completions.
   */
  lemma {:induction false} RightHalf(b: nat, h: nat, p: seq<int>, n: nat)
    requires ValidDigits(b, p)
    requires h + 1 <= |p| && |p| + n == 2 * h + 1
    ensures Completions(b, h, p, n) == Count(b, n, DigitSum(p[..h]) - DigitSum(p[h + 1..]))
    decreases n, 1
  {
    if n > 0 {
      var diff := DigitSum(p[..h]) - DigitSum(p[h + 1..]);
      var f := x => Completions(b, h, p + [x], n - 1);
      var g := x => Count(b, n - 1, diff - x);
      forall x | 0 <= x < b
        ensures f(x) == g(x)
      {
        RightDigit(b, h, p, n, x);
      }
      SumExt(0, b, f, g);
    }
  }

  /** Appending the right-half digit x lowers the difference still to make up by x. */
  lemma {:induction false} RightDigit(b: nat, h: nat, p: seq<int>, n: nat, x: int)
    requires ValidDigits(b, p) && 0 <= x < b
    requires h + 1 <= |p| && |p| + n == 2 * h + 1 && n >= 1
    ensures Completions(b, h, p + [x], n - 1) == Count(b, n - 1, DigitSum(p[..h]) - DigitSum(p[h + 1..]) - x)
    decreases n, 0
  {
    var q := p + [x];
    assert q[..h] == p[..h];
    assert q[h + 1..] == p[h + 1..] + [x];
    DigitSumAppend(p[h + 1..], x);
    ValidAppend(b, p, x);
    RightHalf(b, h, q, n - 1);
  }

  /** With the left half p fixed, the middle digit is free and the right half must match DigitSum(p). */
  lemma Middle(b: nat, h: nat, p: seq<int>)
    requires ValidDigits(b, p) && |p| == h
    ensures Completions(b, h, p, h + 1) == MiddleAndRight(b, h, DigitSum(p))
  {
    var f := x => Completions(b, h, p + [x], h);
    forall x | 0 <= x < b
      ensures f(x) == Count(b, h, DigitSum(p))
    {
      var q := p + [x];
      assert q[..h] == p;
      assert q[h + 1..] == [];
      ValidAppend(b, p, x);
      RightHalf(b, h, q, h);
    }
    SumConst(0, b, Count(b, h, DigitSum(p)), f);
  }

  /**
   * With m digits of the left half still to choose after p, the completions are counted by the
   * left half's final sum S: N_m(S - DigitSum(p)) ways to finish it, times b * N_h(S) ways to
   * choose the middle digit and the right half.
   */
  lemma {:induction false} LeftHalf(b: nat, h: nat, p: seq<int>, m: nat)
    requires b >= 1 && ValidDigits(b, p) && |p| + m == h
    ensures Completions(b, h, p, m + h + 1)
         == Sum(0, (b - 1) * h + 1, s => MiddleAndRight(b, h, s) * Count(b, m, s - DigitSum(p)))
    decreases m, 3
  {
    if m == 0 {
      LeftHalfChosen(b, h, p, m);
    } else {
      LeftHalfNextDigit(b, h, p, m);
    }
  }

  /** The next digit x of the left half: sum over x first, then exchange the two sums. */
  lemma {:induction false} LeftHalfNextDigit(b: nat, h: nat, p: seq<int>, m: nat)
    requires b >= 1 && ValidDigits(b, p) && m >= 1 && |p| + m == h
    ensures Completions(b, h, p, m + h + 1)
         == Sum(0, (b - 1) * h + 1, s => MiddleAndRight(b, h, s) * Count(b, m, s - DigitSum(p)))
    decreases m, 2
  {
    var F := (x, s) => MiddleAndRight(b, h, s) * Count(b, m - 1, s - DigitSum(p) - x);
    LeftRows(b, h, p, m, F);
    SumSwap(0, b, 0, (b - 1) * h + 1, F);
    LeftColumns(b, h, DigitSum(p), m, F);
  }

  /** The left half is complete: only its own digit sum S = DigitSum(p) contributes. */
  lemma LeftHalfChosen(b: nat, h: nat, p: seq<int>, m: nat)
    requires b >= 1 && ValidDigits(b, p) && m == 0 && |p| == h
    ensures Completions(b, h, p, m + h + 1)
         == Sum(0, (b - 1) * h + 1, s => MiddleAndRight(b, h, s) * Count(b, m, s - DigitSum(p)))
  {
    Middle(b, h, p);
    DigitSumBounds(b, p);
    var t := DigitSum(p);
    var f := s => MiddleAndRight(b, h, s) * Count(b, m, s - DigitSum(p));
    forall s | 0 <= s < (b - 1) * h + 1 && s != t
      ensures f(s) == 0
    {
      assert Count(b, m, s - t) == 0;
    }
    assert f(t) == MiddleAndRight(b, h, t);
    SumPoint(0, (b - 1) * h + 1, t, f);
  }

  /** Each choice x of the next left digit leaves the completions of p + [x], counted by LeftHalf. */
  lemma {:induction false} LeftRows(b: nat, h: nat, p: seq<int>, m: nat, F: (int, int) -> int)
    requires b >= 1 && ValidDigits(b, p) && m >= 1 && |p| + m == h
    requires F == ((x, s) => MiddleAndRight(b, h, s) * Count(b, m - 1, s - DigitSum(p) - x))
    ensures Completions(b, h, p, m + h + 1) == Sum(0, b, x => Sum(0, (b - 1) * h + 1, s => F(x, s)))
    decreases m, 1
  {
    var f := x => Completions(b, h, p + [x], m - 1 + h + 1);
    var rows := x => Sum(0, (b - 1) * h + 1, s => F(x, s));
    forall x | 0 <= x < b
      ensures f(x) == rows(x)
    {
      LeftRow(b, h, p, m, F, x);
    }
    SumExt(0, b, f, rows);
  }

  /** The row of the digit x: LeftHalf for p + [x], whose digit sum is DigitSum(p) + x. */
  lemma {:induction false} LeftRow(b: nat, h: nat, p: seq<int>, m: nat, F: (int, int) -> int, x: int)
    requires b >= 1 && ValidDigits(b, p) && m >= 1 && |p| + m == h && 0 <= x < b
    requires F == ((x, s) => MiddleAndRight(b, h, s) * Count(b, m - 1, s - DigitSum(p) - x))
    ensures Completions(b, h, p + [x], m - 1 + h + 1) == Sum(0, (b - 1) * h + 1, s => F(x, s))
    decreases m, 0
  {
    var top := (b - 1) * h + 1;
    DigitSumAppend(p, x);
    ValidAppend(b, p, x);
    LeftHalf(b, h, p + [x], m - 1);
    var g := s => MiddleAndRight(b, h, s) * Count(b, m - 1, s - DigitSum(p + [x]));
    forall s | 0 <= s < top
      ensures g(s) == F(x, s)
    {
      assert s - DigitSum(p + [x]) == s - DigitSum(p) - x;
    }
    SumExt(0, top, g, s => F(x, s));
  }

  /** Summing the new digit x out of each column leaves one more digit of the left half to count. */
  lemma LeftColumns(b: nat, h: nat, t: int, m: nat, F: (int, int) -> int)
    requires m >= 1
    requires F == ((x, s) => MiddleAndRight(b, h, s) * Count(b, m - 1, s - t - x))
    ensures Sum(0, (b - 1) * h + 1, s => Sum(0, b, x => F(x, s)))
         == Sum(0, (b - 1) * h + 1, s => MiddleAndRight(b, h, s) * Count(b, m, s - t))
  {
    var cols := s => Sum(0, b, x => F(x, s));
    var target := s => MiddleAndRight(b, h, s) * Count(b, m, s - t);
    forall s | 0 <= s < (b - 1) * h + 1
      ensures cols(s) == target(s)
    {
      LeftColumn(b, h, t, m, F, s);
    }
    SumExt(0, (b - 1) * h + 1, cols, target);
  }

  /** One column: the factor for the middle digit and right half comes out of the sum over x. */
  lemma LeftColumn(b: nat, h: nat, t: int, m: nat, F: (int, int) -> int, s: int)
    requires m >= 1
    requires F == ((x, s) => MiddleAndRight(b, h, s) * Count(b, m - 1, s - t - x))
    ensures Sum(0, b, x => F(x, s)) == MiddleAndRight(b, h, s) * Count(b, m, s - t)
  {
    var c := MiddleAndRight(b, h, s);
    var digits := x => Count(b, m - 1, (s - t) - x);
    forall x | 0 <= x < b
      ensures F(x, s) == c * digits(x)
    {
    }
    SumScale(0, b, c, digits, x => F(x, s));
    assert Sum(0, b, digits) == Count(b, m, s - t);
  }

  /**
   * The counter's running total once the digit sums 0 .. n - 1 are done: the sum of
   * b * N(S) * N(S), where N(S) counts the halves of h digits with digit sum S.
   */
  ghost function Aggregate(b: nat, h: nat, n: int): int
  {
    Sum(0, n, s => b * Count(b, h, s) * Count(b, h, s))
  }

  /**
   * The decomposition the counter relies on: a balanced word is a left half with some digit
   * sum S, any middle digit, and a right half with digit sum S, so the number of balanced
   * words is the sum over S = 0 .. (b - 1) h of b * N(S) * N(S).
   */
  lemma CountBalancedDecomposition(b: nat, h: nat)
    requires b >= 1
    ensures CountBalanced(b, h) == Aggregate(b, h, (b - 1) * h + 1)
  {
    var top := (b - 1) * h + 1;
    LeftHalf(b, h, [], h);
    assert DigitSum([]) == 0;
    var f := s => MiddleAndRight(b, h, s) * Count(b, h, s - 0);
    var g := s => b * Count(b, h, s) * Count(b, h, s);
    assert forall s :: f(s) == g(s);
    SumExt(0, top, f, g);
  }

  /** Adding the digit sum n to the running total adds b * N(n) * N(n). */
  lemma AggregateLast(b: nat, h: nat, n: int)
    requires n >= 0
    ensures Aggregate(b, h, n + 1) == Aggregate(b, h, n) + b * Count(b, h, n) * Count(b, h, n)
  {
    SumLast(0, n + 1, s => b * Count(b, h, s) * Count(b, h, s));
  }

  /**
   * Every running total lies between 0 and b^(2h + 1), the number of all words of 2h + 1
   * digits: each term b * N(S) * N(S) is at most b * b^h * N(S), and the N(S) add up to b^h.
   */
  lemma AggregateBound(b: nat, h: nat, n: int)
    requires b >= 1 && 0 <= n <= (b - 1) * h + 1
    ensures 0 <= Aggregate(b, h, n) <= Pow(b, 2 * h + 1)
  {
    var top := (b - 1) * h + 1;
    var p := Pow(b, h);
    var f := s => b * Count(b, h, s) * Count(b, h, s);
    var g := s => Count(b, h, s);
    var u := s => (b * p) * Count(b, h, s);
    forall s | 0 <= s < top
      ensures 0 <= g(s) && 0 <= f(s) <= u(s)
    {
      CountNonneg(b, h, s);
      CountAtMost(b, h, s);
      SquareTermBound(b, Count(b, h, s), p);
    }
    SumNonneg(0, n, f);
    SumMono(0, n, f, u);
    SumScale(0, n, b * p, g, u);
    SumSplit(0, n, top, g);
    SumNonneg(0, n, g);
    SumNonneg(n, top, g);
    CountTotal(b, h, 0, top);
    PowPositive(b, h);
    MulMono(b * p, Sum(0, n, g), b * p, p);
    PowSquare(b, h);
  }

  lemma SquareTermBound(b: nat, c: int, top: int)
    requires 0 <= c <= top
    ensures 0 <= b * c * c <= (b * top) * c
  {
    MulMono(c, c, top, c);
    MulMono(b, c * c, b, top * c);
  }
}
