/** Binomial coefficients over all integers, with the convention C(n, k) = 0 when n < k or k < 0. */
module Binomials {
  import opened Sums

  /** C(n, k), the number of k-element subsets of an n-element set, defined by Pascal's rule. */
  ghost function Choose(n: int, k: int): nat
    decreases n, k
  {
    if k < 0 || n < k then 0
    else if k == 0 then 1
    else Choose(n - 1, k - 1) + Choose(n - 1, k)
  }

  /** (-1)^k */
  ghost function Sign(k: int): int
  {
    if k % 2 == 0 then 1 else -1
  }

  /** n (n - 1) ... (n - k + 1), k factors. */
  ghost function Falling(n: int, k: nat): int
    decreases k
  {
    if k == 0 then 1 else n * Falling(n - 1, k - 1)
  }

  ghost function Factorial(k: nat): nat
  {
    if k == 0 then 1 else k * Factorial(k - 1)
  }

  /** Pascal's rule holds for every pair (n, k) except (0, 0), negative n included. */
  lemma Pascal(n: int, k: int)
    requires n != 0 || k != 0
    ensures Choose(n, k) == Choose(n - 1, k) + Choose(n - 1, k - 1)
  {
  }

  /** Sign flips from each k to the next. */
  lemma SignStep(k: int)
    ensures Sign(k + 1) == -Sign(k)
  {
  }

  /** The last factor of a falling factorial can be split off as well as the first. */
  lemma {:induction false} FallingLast(n: int, k: nat)
    requires k >= 1
    ensures Falling(n, k) == Falling(n, k - 1) * (n - k + 1)
    decreases k
  {
    if k > 1 {
      FallingLast(n - 1, k - 1);
      calc {
        Falling(n, k);
        n * Falling(n - 1, k - 1);
        n * (Falling(n - 1, k - 2) * (n - k + 1));
        (n * Falling(n - 1, k - 2)) * (n - k + 1);
        Falling(n, k - 1) * (n - k + 1);
      }
    }
  }

  /** k! C(n, k) == n (n - 1) ... (n - k + 1) for every natural n: the closed form of C(n, k). */
  lemma {:induction false} ChooseFalling(n: nat, k: nat)
    ensures Factorial(k) * Choose(n, k) == Falling(n, k)
    decreases n
  {
    if k == 0 {
    } else if n == 0 {
      assert Falling(0, k) == 0 * Falling(-1, k - 1);
    } else {
      ChooseFalling(n - 1, k - 1);
      ChooseFalling(n - 1, k);
      FallingLast(n - 1, k);
      Pascal(n, k);
      PascalStepAlgebra(k, n, Factorial(k - 1), Choose(n - 1, k - 1), Choose(n - 1, k), Falling(n - 1, k - 1));
    }
  }

  /** The arithmetic of one step of ChooseFalling, kept apart from the recursive definitions. */
  lemma PascalStepAlgebra(k: int, n: int, fk: int, a: int, b: int, f: int)
    requires fk * a == f
    requires (k * fk) * b == f * (n - k)
    ensures (k * fk) * (a + b) == n * f
  {
    calc {
      (k * fk) * (a + b);
      (k * fk) * a + (k * fk) * b;
      { assert (k * fk) * a == k * (fk * a); }
      k * f + f * (n - k);
      n * f;
    }
  }

  /**
   * The hockey-stick identity, over all integers n:
   * C(n, r) + C(n - 1, r) + ... + C(n - m + 1, r) == C(n + 1, r + 1) - C(n + 1 - m, r + 1).
   */
  lemma {:induction false} HockeyStick(n: int, r: nat, m: nat)
    ensures Sum(0, m, x => Choose(n - x, r)) == Choose(n + 1, r + 1) - Choose(n + 1 - m, r + 1)
  {
    if m > 0 {
      HockeyStick(n, r, m - 1);
      SumLast(0, m, x => Choose(n - x, r));
      Pascal(n + 1 - (m - 1), r + 1);
    }
  }
}
