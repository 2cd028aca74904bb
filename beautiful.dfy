/**
 * The counter of beautiful numbers: 13-digit base-13 numbers (leading zeros allowed) whose
 * first six digits and last six digits have the same digit sum.
 *
 * N(S), the number of six-digit halves with digit sum S, is computed by inclusion-exclusion with
 * an early exit, tabulated for S = 0 .. 72, and the count is the sum of 13 * N(S) * N(S).
 * Integers are mathematical; that every intermediate value fits the 64-bit integers of the
 * implementation is proved alongside.
 */
module BeautifulNumbers {
  import opened Sums
  import opened Binomials
  import opened DigitCounts
  import opened BeautifulSpec

  /** Digits in each half of a beautiful number. */
  const Digits: nat := 6
  /** The base; digits run over 0 .. Base - 1. */
  const Base: nat := 13
  /** The largest digit sum of a half: six digits equal to 12. */
  const MaxSum: nat := (Base - 1) * Digits

  /**
   * MaxSum is 72, the digit sum of six digits equal to 12, and no six-digit half has a larger
   * or a negative digit sum: the table of N(S) needs the entries 0 .. MaxSum.
   */
  lemma HalfSumRange(w: seq<int>)
    requires |w| == Digits && ValidDigits(Base, w)
    ensures MaxSum == 72
    ensures 0 <= DigitSum(w) <= MaxSum
    ensures ValidDigits(Base, seq(Digits, _ => Base - 1)) && DigitSum(seq(Digits, _ => Base - 1)) == MaxSum
  {
    DigitSumBounds(Base, w);
    DigitSumRepeated(Base - 1, Digits);
  }

  /** C(6, k) for k = 0 .. 6. */
  const Binom6: seq<int> := [1, 6, 15, 20, 15, 6, 1]

  const Int64Max: int := 0x7fff_ffff_ffff_ffff

  /** x is representable as a signed 64-bit integer. */
  ghost predicate InInt64(x: int)
  {
    -Int64Max - 1 <= x <= Int64Max
  }

  /** The table of C(6, k) holds the binomial coefficients it stands for. */
  lemma Binom6IsChoose(k: int)
    requires 0 <= k <= Digits
    ensures |Binom6| == Digits + 1
    ensures Binom6[k] == Choose(Digits, k)
  {
    if k == 0 {
    } else if k == 1 {
    } else if k == 2 {
    } else if k == 3 {
    } else if k == 4 {
    } else if k == 5 {
    } else {
    }
  }

  /** n (n - 1) (n - 2) (n - 3) (n - 4) is 5! times C(n, 5), for every n >= 5. */
  lemma Binomial5ClosedForm(n: int)
    requires n >= 5
    ensures n * (n - 1) * (n - 2) * (n - 3) * (n - 4) == 120 * Choose(n, 5)
  {
    ChooseFalling(n, 5);
    assert Factorial(5) == 120;
    assert Falling(n, 5) == n * ((n - 1) * ((n - 2) * ((n - 3) * ((n - 4) * 1))));
  }

  /** C(n, 5), zero below 5, by the closed form with a division by 5! = 120. */
  function Binomial5(n: int): (r: int)
    ensures r == Choose(n, 5)
  {
    if n < 5 then 0
    else
      Binomial5ClosedForm(n);
      (n * (n - 1) * (n - 2) * (n - 3) * (n - 4)) / 120
  }

  /** The division by 120 in Binomial5 is exact: no remainder is discarded. */
  lemma Binomial5ExactDivision(n: int)
    requires n >= 5
    ensures (n * (n - 1) * (n - 2) * (n - 3) * (n - 4)) % 120 == 0
    ensures Binomial5(n) * 120 == n * (n - 1) * (n - 2) * (n - 3) * (n - 4)
  {
    Binomial5ClosedForm(n);
  }

  /** Below 5 there is no 5-element subset; the first values are C(5, 5), C(6, 5) and C(7, 5). */
  lemma Binomial5Values(n: int)
    ensures n < 5 ==> Binomial5(n) == 0
    ensures Binomial5(5) == 1 && Binomial5(6) == 6 && Binomial5(7) == 21
  {
  }

  /** The k-th inclusion-exclusion term for six base-13 digits with sum s. */
  ghost function WaysTerm(sum: int, k: int): int
  {
    IETerm(Base, Digits, sum, k)
  }

  /** The term the loop of WaysForSum adds at step k is the inclusion-exclusion term. */
  lemma LoopTerm(sum: int, k: int)
    requires 0 <= k <= Digits
    ensures Sign(k) * Binom6[k] * Binomial5(sum - Base * k + 5) == WaysTerm(sum, k)
  {
    Binom6IsChoose(k);
  }

  /**
   * The seven terms as the loop evaluates them, sign * C(6, k) * C(sum - 13 k + 5, 5), add up
   * to the number of six-digit base-13 halves with digit sum `sum`, for every integer sum.
   */
  lemma AllTerms(sum: int)
    ensures Sum(0, Digits + 1, k => if 0 <= k <= Digits then Sign(k) * Binom6[k] * Binomial5(sum - Base * k + 5) else 0)
         == Count(Base, Digits, sum)
    ensures Sum(0, Digits + 1, k => WaysTerm(sum, k)) == Count(Base, Digits, sum)
  {
    var code := k => if 0 <= k <= Digits then Sign(k) * Binom6[k] * Binomial5(sum - Base * k + 5) else 0;
    forall k | 0 <= k < Digits + 1
      ensures code(k) == WaysTerm(sum, k)
    {
      LoopTerm(sum, k);
    }
    SumExt(0, Digits + 1, code, k => WaysTerm(sum, k));
    SumExt(0, Digits + 1, k => WaysTerm(sum, k), k => IETerm(Base, Digits, sum, k));
    InclusionExclusionCounts(Base, Digits, sum);
  }

  /**
   * Once sum - 13 k + 5 < 5, every later term has a smaller binomial argument and vanishes, so
   * stopping at k gives the same value as evaluating all seven terms.
   */
  lemma EarlyExit(sum: int, k: int)
    requires 0 <= k <= Digits
    requires sum - Base * k + 5 < 5
    ensures Sum(0, k, j => WaysTerm(sum, j)) == Sum(0, Digits + 1, j => WaysTerm(sum, j))
  {
    var f := j => WaysTerm(sum, j);
    forall j | k <= j < Digits + 1
      ensures f(j) == 0
    {
      assert sum - Base * j + Digits - 1 < Digits - 1;
    }
    SumZero(k, Digits + 1, f);
    SumSplit(0, k, Digits + 1, f);
  }

  /** The 64-bit bound on every value WaysForSum computes for 0 <= sum <= MaxSum. */
  const TermBound: int := 20 * 77 * 77 * 77 * 77 * 77

  /** For arguments up to 77, the product of five consecutive factors is at most 77^5. */
  lemma ProductBound(m: int)
    requires 5 <= m <= 77
    ensures 0 <= m * (m - 1) * (m - 2) * (m - 3) * (m - 4) <= 77 * 77 * 77 * 77 * 77
  {
    MulMono(m, m - 1, 77, 77);
    MulMono(m * (m - 1), m - 2, 77 * 77, 77);
    MulMono(m * (m - 1) * (m - 2), m - 3, 77 * 77 * 77, 77);
    MulMono(m * (m - 1) * (m - 2) * (m - 3), m - 4, 77 * 77 * 77 * 77, 77);
  }

  /** Each inclusion-exclusion term for a digit sum in 0 .. 72 is at most TermBound in absolute value. */
  lemma WaysTermBound(sum: int, k: int)
    requires 0 <= sum <= MaxSum && 0 <= k <= Digits
    ensures -TermBound <= WaysTerm(sum, k) <= TermBound
  {
    LoopTerm(sum, k);
    Binomial5Bound(sum - Base * k + 5);
    Binom6IsChoose(k);
    assert 0 <= Binom6[k] <= 20;
    MulMono(Binom6[k], Binomial5(sum - Base * k + 5), 20, 77 * 77 * 77 * 77 * 77);
    SignedBound(Sign(k), Binom6[k], Binomial5(sum - Base * k + 5), TermBound);
  }

  /** For arguments up to 77, C(n, 5) stays below 77^5. */
  lemma Binomial5Bound(n: int)
    requires n <= 77
    ensures 0 <= Binomial5(n) <= 77 * 77 * 77 * 77 * 77
  {
    if n >= 5 {
      ProductBound(n);
      Binomial5ExactDivision(n);
    }
  }

  lemma SignedBound(sg: int, a: int, c: int, m: int)
    requires sg == 1 || sg == -1
    requires 0 <= a * c <= m
    ensures -m <= sg * a * c <= m
  {
    assert sg * a * c == sg * (a * c);
  }

  /** Every partial sum the loop of WaysForSum forms, for 0 <= sum <= 72, fits in 64 bits. */
  lemma PartialSumsFit(sum: int, k: int)
    requires 0 <= sum <= MaxSum && 0 <= k <= Digits + 1
    ensures InInt64(Sum(0, k, j => WaysTerm(sum, j)))
  {
    var f := j => WaysTerm(sum, j);
    forall j | 0 <= j < k
      ensures -TermBound <= f(j) <= TermBound
    {
      WaysTermBound(sum, j);
    }
    SumAbsBound(0, k, TermBound, f);
    MulMono(k, TermBound, 7, TermBound);
  }

  /**
   * N(sum) by inclusion-exclusion over the six constraints "digit i is at least 13", with the
   * sign alternating and the loop stopping as soon as the binomial argument drops below 5.
   * The result is the number of six-digit base-13 halves with digit sum `sum`, for every sum.
   */
  method WaysForSum(sum: int) returns (result: int)
    ensures result == Count(Base, Digits, sum)
    ensures 0 <= sum <= MaxSum ==> InInt64(result)
  {
    AllTerms(sum);
    result := 0;
    var sign := 1;
    for k := 0 to Digits + 1
      invariant sign == Sign(k)
      invariant result == Sum(0, k, j => WaysTerm(sum, j))
      invariant 0 <= sum <= MaxSum ==> InInt64(result)
    {
      var arg := sum - Base * k + 5;
      if arg < 5 {
        EarlyExit(sum, k);
        break;
      }
      LoopTerm(sum, k);
      var term := sign * Binom6[k] * Binomial5(arg);
      assert term == WaysTerm(sum, k);
      SumLast(0, k + 1, j => WaysTerm(sum, j));
      SignStep(k);
      result := result + term;
      if 0 <= sum <= MaxSum {
        PartialSumsFit(sum, k + 1);
      }
      sign := -sign;
    }
  }

  /** Fills a fresh, zero-initialised table with N(s) for every s = 0 .. 72. */
  method BuildWaysLookupTable() returns (table: array<int>)
    ensures fresh(table)
    ensures IsCountTable(Base, Digits, table[..])
  {
    table := new int[MaxSum + 1](_ => 0);
    for s := 0 to MaxSum + 1
      invariant forall j :: 0 <= j < s ==> table[j] == Count(Base, Digits, j)
    {
      table[s] := WaysForSum(s);
    }
  }

  /**
   * The number of beautiful numbers, from the table ways of N(s): the sum of 13 * N(s) * N(s)
   * over s = 0 .. 72. It is the number of balanced 13-digit base-13 words, and every partial
   * total fits in 64 bits. The table is only read.
   */
  method CountBeautifulNumbers(ways: array<int>) returns (total: int)
    requires IsCountTable(Base, Digits, ways[..])
    ensures total == CountBalanced(Base, Digits)
    ensures InInt64(total)
  {
    total := 0;
    for s := 0 to MaxSum + 1
      invariant total == Aggregate(Base, Digits, s)
      invariant InInt64(total)
    {
      var n := ways[s];
      assert n == Count(Base, Digits, s) by {
        assert ways[..][s] == ways[s];
      }
      AggregateStep(s, n, total);
      total := total + Base * n * n;
    }
    AggregateIsBeautifulCount();
  }

  /** The lookup table is built once and the count is taken from it. */
  method BeautifulNumbersFromTable() returns (total: int)
    ensures total == CountBalanced(Base, Digits)
    ensures InInt64(total)
  {
    var ways := BuildWaysLookupTable();
    total := CountBeautifulNumbers(ways);
  }

  /**
   * One step of the counter's loop: adding 13 * N(s) * N(s) extends the running total by the
   * digit sum s, and both the product and the new total fit in 64 bits.
   */
  lemma AggregateStep(s: nat, n: int, total: int)
    requires s <= MaxSum && n == Count(Base, Digits, s) && total == Aggregate(Base, Digits, s)
    ensures total + Base * n * n == Aggregate(Base, Digits, s + 1)
    ensures InInt64(Base * n * n) && InInt64(total + Base * n * n)
  {
    AggregateLast(Base, Digits, s);
    CountNonneg(Base, Digits, s);
    WeightNonneg(Base, n);
    AggregateBound(Base, Digits, s);
    AggregateBound(Base, Digits, s + 1);
    PowValues();
    PartsFit(total, Base * n * n, Aggregate(Base, Digits, s + 1));
  }

  /** Two non-negative parts of a 64-bit total are 64-bit values themselves. */
  lemma PartsFit(a: int, w: int, t: int)
    requires 0 <= a && 0 <= w && a + w == t && InInt64(t)
    ensures InInt64(w) && InInt64(a + w)
  {
  }

  lemma WeightNonneg(b: nat, n: int)
    requires n >= 0
    ensures b * n * n >= 0
  {
    MulMono(b, n, b, n);
    MulMono(b * n, n, b * n, n);
  }

  /**
   * The counter's total over every digit sum 0 .. 72 is the number of beautiful numbers: a left
   * half with digit sum S, any of the 13 middle digits and a right half with digit sum S.
   */
  lemma AggregateIsBeautifulCount()
    ensures Aggregate(Base, Digits, MaxSum + 1) == CountBalanced(Base, Digits)
  {
    CountBalancedDecomposition(Base, Digits);
  }

  /** 13^6 and 13^13 written out; 13^13 is below 2^63. */
  lemma PowValues()
    ensures Pow(Base, Digits) == 4826809
    ensures Pow(Base, 2 * Digits + 1) == 302875106592253
  {
  }
}
