# Beautiful numbers in base 13

A model of the counter of "beautiful" numbers in `src/beautiful.hpp`. A beautiful number is a
13-digit base-13 number, leading zeros allowed, whose first six digits and last six digits have
the same digit sum. The middle digit is free.

The counter works in three steps:

- `binomial_n_5` computes C(n, 5) with the closed form n(n-1)(n-2)(n-3)(n-4)/120.
- `ways_for_sum` computes N(S), the number of six-digit base-13 halves with digit sum S, by
  inclusion-exclusion. The sign alternates and the loop stops early once the binomial argument
  drops below 5.
- `build_ways_lookup_table` fills `kWays` with N(S) for S = 0 .. 72, and
  `count_beautiful_numbers` sums 13 * N(S) * N(S) over the table.

The project has five modules:

- `Sums` (`sums.dfy`): finite sums `Sum(lo, hi, f)` and their algebra.
- `Binomials` (`binomials.dfy`): binomial coefficients defined by Pascal's rule, their
  falling-factorial closed form, and the hockey-stick identity.
- `DigitCounts` (`digit_counts.dfy`): `Count(b, d, s)`, the number of d-tuples of base-b digits
  with sum s, defined digit by digit. It also proves symmetry, the endpoints and the total b^d
  for every b >= 1, and the inclusion-exclusion formula for every b >= 1 and d >= 1.
- `BeautifulSpec` (`beautiful_spec.dfy`): what is counted, with no formula. `CountBalanced(b, h)`
  enumerates every word of 2h + 1 base-b digits and counts those whose first h digits and last
  h digits have equal sums. This module proves that the enumeration equals the sum over S of
  b * N(S) * N(S).
- `BeautifulNumbers` (`beautiful.dfy`): the C++ functions themselves. The three loops (in
  `ways_for_sum`, `build_ways_lookup_table` and `count_beautiful_numbers`) are methods with loop
  invariants, the lookup table is an `array<int>`, and the constants are
  those of the source.

Integers are mathematical. The int64 range of the source is modelled by the predicate
`InInt64`. For every digit sum 0 .. 72, the model proves that every partial sum, every term and
every running total the loops form lies in that range.

## Model

| member | source | states |
|---|---|---|
| BeautifulNumbers.HalfSumRange | src/beautiful.hpp:51-53 | the constants Digits = 6, Base = 13 and MaxSum = (Base - 1) * Digits = 72: every six-digit base-13 half has digit sum in 0 .. MaxSum, and six digits 12 reach MaxSum |
| BeautifulNumbers.Binomial5 | src/beautiful.hpp:55-64 | the result is C(n, 5) as defined by Pascal's rule, for every integer n; it is 0 below 5 |
| BeautifulNumbers.Binomial5ClosedForm | src/beautiful.hpp:62-63 | for n >= 5 the five-factor product n(n-1)(n-2)(n-3)(n-4) equals 120 * C(n, 5) |
| BeautifulNumbers.Binomial5ExactDivision | src/beautiful.hpp:63 | the division by 120 leaves no remainder, and multiplying the result by 120 gives the product back |
| BeautifulNumbers.Binomial5Values | src/beautiful.hpp:58-60 | C(n, 5) is 0 for every n < 5; C(5, 5) = 1, C(6, 5) = 6, C(7, 5) = 21 |
| BeautifulNumbers.ProductBound | src/beautiful.hpp:62-63 | for arguments 5 .. 77 the product m (m-1) (m-2) (m-3) (m-4) that is divided by 120 lies in 0 .. 77^5, so it fits in int64 |
| BeautifulNumbers.Binomial5Bound | src/beautiful.hpp:62-63 | for arguments up to 77 (the largest the counter uses) the result lies in 0 .. 77^5 |
| BeautifulNumbers.Binom6IsChoose | src/beautiful.hpp:66-67 | the table has seven entries, and entry k is C(6, k) |
| BeautifulNumbers.LoopTerm | src/beautiful.hpp:84-85 | the term added at step k, sign * C(6, k) * C(S - 13k + 5, 5), is the k-th inclusion-exclusion term (-1)^k C(6, k) C(S - 13k + 5, 5) |
| BeautifulNumbers.AllTerms | src/beautiful.hpp:32-39 | for every integer S, the seven terms the code evaluates, sign * C(6, k) * C(S - 13k + 5, 5) for k = 0 .. 6, add up to N(S), the number of six-digit base-13 halves with digit sum S |
| BeautifulNumbers.EarlyExit | src/beautiful.hpp:79-82 | once S - 13k + 5 < 5, the partial sum of the first k terms equals the sum of all seven terms |
| BeautifulNumbers.WaysTermBound | src/beautiful.hpp:84-85 | for 0 <= S <= 72 every term is bounded by 20 * 77^5 in absolute value |
| BeautifulNumbers.PartialSumsFit | src/beautiful.hpp:72-89 | for 0 <= S <= 72 every partial sum of the terms fits in int64 |
| BeautifulNumbers.WaysForSum | src/beautiful.hpp:69-92 | for every integer S (negative and above 72 included) the result is the number of six-digit base-13 halves with digit sum S, and it fits in int64 for 0 <= S <= 72; the loop keeps sign = (-1)^k and result = the sum of the first k terms |
| BeautifulNumbers.BuildWaysLookupTable | src/beautiful.hpp:94-103 | the table is new, has 73 entries, and entry S is N(S) for every S = 0 .. 72 |
| BeautifulNumbers.CountBeautifulNumbers | src/beautiful.hpp:107-116 | from any table of N(S), the total is the number of balanced 13-digit base-13 words, and it fits in int64; that every running total and every product 13 * N(S) * N(S) fits in int64 is the loop invariant and the ensures of AggregateStep |
| BeautifulNumbers.BeautifulNumbersFromTable | src/beautiful.hpp:105-116 | building the table once and counting from it yields the number of beautiful numbers, within int64 |
| BeautifulNumbers.AggregateStep | src/beautiful.hpp:111-113 | one loop step extends the running total from the digit sums below s to those up to s, and both the product and the new total fit in int64 |
| BeautifulNumbers.AggregateIsBeautifulCount | src/beautiful.hpp:15-26 | the sum of 13 * N(S) * N(S) over S = 0 .. 72 is the number of beautiful numbers; the sum starts at S = 0 |
| BeautifulSpec.CountBalancedDecomposition | src/beautiful.hpp:15-19 | for every base b >= 1 and half length h, the enumerated count of balanced words equals the sum over S of N(S) left halves, b middle digits and N(S) right halves |
| BeautifulSpec.RightHalf | src/beautiful.hpp:19 | with the left half and the middle digit fixed, the number of ways to finish the right half is N of the digit sum still missing |
| BeautifulSpec.Middle | src/beautiful.hpp:18-19 | with the left half fixed, the middle digit is any of b values and the right half must match the left half's sum: b * N(S) completions |
| BeautifulSpec.LeftHalf | src/beautiful.hpp:15-19 | with m left-half digits still to choose, the completions split by the left half's final sum S into N_m(S - current sum) * b * N(S) |
| BeautifulSpec.AggregateBound | src/beautiful.hpp:109-113 | every prefix of the sum of b * N(S) * N(S) lies between 0 and b^(2h+1), which is 13^13 < 2^63 for the counter |
| BeautifulSpec.DigitSumBounds | src/beautiful.hpp:10-11 | a word of base-b digits has digit sum between 0 and (b - 1) times its length, so S runs over 0 .. 72 |
| DigitCounts.InclusionExclusionCounts | src/beautiful.hpp:29-43 | for every base b >= 1 and number of digits d >= 1, the alternating sum of (-1)^k C(d, k) C(S - bk + d - 1, d - 1) over k = 0 .. d is the number of d-digit words with digit sum S |
| DigitCounts.CountNonneg | src/beautiful.hpp:12-13 | N(S) is never negative |
| DigitCounts.CountOutside | src/beautiful.hpp:10-11 | N(S) is 0 for S < 0 and S > (b - 1) d |
| DigitCounts.CountSymmetric | src/beautiful.hpp:10-13 | N(S) = N((b - 1) d - S), e.g. N(S) = N(72 - S) for the counter |
| DigitCounts.CountOfZero | src/beautiful.hpp:11 | only the all-zero word has digit sum 0 |
| DigitCounts.CountOfMax | src/beautiful.hpp:11 | only the all-(b - 1) word has the maximal digit sum |
| DigitCounts.CountTotal | src/beautiful.hpp:10-13 | summing N(S) over every digit sum gives b^d, the number of all d-digit words |
| DigitCounts.CountAtMost | src/beautiful.hpp:12-13 | N(S) is at most b^d |
| DigitCounts.CountTableShape | src/beautiful.hpp:94-105 | a table of N(S) for S = 0 .. (b - 1) d starts and ends with 1, is symmetric, has entries in 0 .. b^d and sums to b^d |
| Binomials.ChooseFalling | src/beautiful.hpp:44-46 | k! C(n, k) equals n (n - 1) ... (n - k + 1), the closed form of C(n, k) for natural n |
| Binomials.HockeyStick | src/beautiful.hpp:41-43 | C(n, r) + ... + C(n - m + 1, r) = C(n + 1, r + 1) - C(n + 1 - m, r + 1): the step that shifts a digit constraint x >= 13 to x' = x - 13 >= 0 |

## Left out

- The C++ int and int64 overflow semantics are not modelled. Integers are unbounded. The model proves that no overflow can happen for the inputs the counter uses (sums 0 .. 72, binomial arguments up to 77). `Binomial5` and `WaysForSum` for other, very large arguments, where the C++ products would overflow, are modelled on mathematical integers.
- `constexpr`, `consteval`, `[[nodiscard]]`, `[[unlikely]]` and `noexcept` are compile-time and attribute matters with no counterpart.
- `kWays`, a compile-time global table, is modelled as an `array<int>` that `BuildWaysLookupTable` returns and `CountBeautifulNumbers` takes as a parameter. `BeautifulNumbersFromTable` connects the two once.
- The comment at line 25 loops over S = 1..72, but the code starts at S = 0. The model follows the code, and the S = 0 term (the all-zero halves, 13 numbers) is needed for the total to equal the number of beautiful numbers.
- The comment at line 30 names the digit constraint "0 < x < 13", but the code's unconstrained count C(S + 5, 5) admits the digit 0. The model follows the code: digits run over 0 .. 12.
- The numeric value of the total is not computed in the model. It is characterised as the number of balanced 13-digit base-13 words.
- The program that calls `count_beautiful_numbers` and prints its result is not part of this model.
