/** Products of primes, factorials and multi-factorials, and the prime gap assumption for all limits. */
module PrimeProducts {
  import opened Arithmetic
  import opened Primes

  ghost predicate ShortGaps() {
    forall limit :: ShortGapsBelow(limit)
  }

  /** Product of the primes from lo to hi. */
  ghost function PrimeProduct(lo: int, hi: int): int
    decreases hi
  {
    if hi < 2 then 1
    else (if IsPrime(hi) && lo <= hi then hi else 1) * PrimeProduct(lo, hi - 1)
  }

  lemma TwoIsPrime()
    ensures IsPrime(2) && forall lo :: PrimeProduct(lo, 1) == 1
  {
  }

  lemma {:induction false} NoPrimesBetween(lo: int, a: int, b: int)
    requires a <= b && forall q :: IsPrime(q) && a < q ==> b < q
    ensures PrimeProduct(lo, a) == PrimeProduct(lo, b)
    decreases b - a
  {
    if a < b {
      NoPrimesBetween(lo, a, b - 1);
    }
  }

  lemma {:induction false} PrimeProductPositive(lo: int, hi: int)
    ensures PrimeProduct(lo, hi) > 0
    decreases hi
  {
    if hi >= 2 {
      PrimeProductPositive(lo, hi - 1);
      ProductSize(PrimeProduct(lo, hi - 1), hi);
    }
  }

  lemma {:induction false} FactorTwo(m: int, n: int)
    requires m < 3 && n >= 2
    ensures PrimeProduct(m, n) == 2 * PrimeProduct(3, n)
    decreases n
  {
    if n == 2 {
      TwoIsPrime();
    } else {
      FactorTwo(m, n - 1);
      var f := if IsPrime(n) then n else 1;
      assert f * (2 * PrimeProduct(3, n - 1)) == 2 * (f * PrimeProduct(3, n - 1));
    }
  }

  lemma SmallBound(m: int, n: int)
    ensures n < 2 ==> PrimeProduct(m, n) == 1
  {
  }

  /** n#m is the product of the primes from m to n exactly when m is at least 3 or there is no prime up to n. */
  lemma ReducedPrimorialMeetsItsName(n: int, m: int)
    ensures PrimeProduct(if m < 3 then 3 else m, n) == PrimeProduct(m, n) <==> m >= 3 || n < 2
  {
    if m < 3 && n >= 2 {
      FactorTwo(m, n);
      PrimeProductPositive(3, n);
    }
  }

  /** The product n * (n - d) * (n - 2d) * ... down to the last term above 1. */
  ghost function MultiFactorial(n: int, d: int): int
    requires d >= 1
    decreases n
  {
    if n <= 1 then 1 else n * MultiFactorial(n - d, d)
  }

  function Factorial(n: nat): int {
    if n == 0 then 1 else n * Factorial(n - 1)
  }

  /** Step one is the ordinary factorial. */
  lemma {:induction false} StepOneIsFactorial(n: nat)
    ensures MultiFactorial(n, 1) == Factorial(n)
  {
    if n > 1 {
      StepOneIsFactorial(n - 1);
    }
  }
}
