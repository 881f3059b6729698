/** Recursive numeric functions: binary exponentiation and the two recursive sums. */
module Recursion {
  import opened Common

  /**
   * Binary exponentiation (`power`): an even exponent squares the power for
   * half the exponent, an odd one peels off one factor.
   */
  function Power(base: int, exponent: nat): (r: int)
    ensures base >= 0 ==> r >= 0
    ensures exponent % 2 == 0 ==> r >= 0
    decreases exponent
  {
    if exponent == 0 then 1
    else if exponent % 2 == 0 then
      var half := Power(base, exponent / 2);
      assert half * half == (if half < 0 then -half else half) * (if half < 0 then -half else half);
      half * half
    else base * Power(base, exponent - 1)
  }

  /** Exponents add under multiplication. */
  lemma {:induction false} PowAdd(base: int, m: nat, n: nat)
    ensures Pow(base, m + n) == Pow(base, m) * Pow(base, n)
    decreases m
  {
    if m > 0 {
      PowAdd(base, m - 1, n);
      assert Pow(base, m + n) == base * Pow(base, m - 1 + n);
    }
  }

  /** Binary exponentiation computes `base^exponent` for every natural exponent. */
  lemma {:induction false} PowerIsPow(base: int, exponent: nat)
    ensures Power(base, exponent) == Pow(base, exponent)
    decreases exponent
  {
    if exponent > 0 {
      if exponent % 2 == 0 {
        PowerIsPow(base, exponent / 2);
        PowAdd(base, exponent / 2, exponent / 2);
      } else {
        PowerIsPow(base, exponent - 1);
      }
    }
  }

  /** `n + (n - 1) + ... + 1`, and 0 for `n <= 0` (`recursiveSum`). */
  function RecursiveSum(n: int): (r: int)
    ensures r >= 0
    ensures n > 0 ==> r >= n
    decreases n
  {
    if n <= 0 then 0 else n + RecursiveSum(n - 1)
  }

  /** The accumulator-passing form of the same sum (`tailRecursiveSum`). */
  function TailRecursiveSum(n: int, accumulator: int): (r: int)
    ensures r >= accumulator
    ensures n > 0 ==> r >= accumulator + n
    decreases n
  {
    if n <= 0 then accumulator else TailRecursiveSum(n - 1, accumulator + n)
  }

  /** The tail-recursive sum adds the plain recursive sum onto its accumulator. */
  lemma {:induction false} TailSumIsRecursiveSum(n: int, accumulator: int)
    ensures TailRecursiveSum(n, accumulator) == accumulator + RecursiveSum(n)
    decreases n
  {
    if n > 0 {
      TailSumIsRecursiveSum(n - 1, accumulator + n);
    }
  }

  /** Both sums agree with Gauss's formula `n(n+1)/2` for `n >= 0` and are 0 below. */
  lemma {:induction false} SumFormula(n: int)
    ensures n >= 0 ==> 2 * RecursiveSum(n) == n * (n + 1)
    ensures n < 0 ==> RecursiveSum(n) == 0
    ensures TailRecursiveSum(n, 0) == RecursiveSum(n)
    decreases n
  {
    if n > 0 {
      SumFormula(n - 1);
    }
    TailSumIsRecursiveSum(n, 0);
  }
}
