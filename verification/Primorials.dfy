/** The loops over successive primes in source/eval.c, on top of the sieve. */
module Primorials {
  import opened Arithmetic
  import opened Primes
  import opened PrimeProducts
  import opened Sieve

  /** The first k results of the sieve are the first k odd primes. */
  method OddPrimesInOrder(k: nat) returns (ps: seq<int>)
    requires ShortGaps()
    ensures |ps| == k && FirstOddPrimes(ps)
  {
    hide ShortGapsBelow, IsPrime, FirstOddPrimes, IsNextOddPrime;
    ps := [];
    EmptyTable();
    var s := new PrimeSieve();
    while |ps| < k
      invariant |ps| <= k && FirstOddPrimes(ps)
      invariant fresh(s) && fresh(s.primes) && fresh(s.moduli) && fresh(s.sieve) && s.Valid()
      invariant s.Last() == if |ps| == 0 then -2 else ps[|ps| - 1]
      decreases k - |ps|
    {
      ghost var last := s.Last();
      var p := s.GetPrime();
      FromStart(last, p);
      ExtendFirstOddPrimes(ps, p);
      ps := ps + [p];
    }
  }

  lemma EmptyTable()
    ensures FirstOddPrimes([])
  {
  }

  /** Before the first call the last prime counts as -2; the prime 2 is not among the odd ones. */
  lemma FromStart(last: int, p: int)
    requires IsNextOddPrime(last, p)
    ensures last == -2 ==> IsNextOddPrime(2, p)
  {
    SmallOddPrimes();
  }

  /** No prime lies between a prime already seen and the one the sieve gives next. */
  lemma NextPrimeAfter(p: int, last: int, next: int)
    requires IsPrime(p) && (p == last || (p == 2 && last == -2)) && IsNextOddPrime(last, next)
    ensures IsPrime(next) && p < next && forall q :: IsPrime(q) && p < q ==> next <= q
  {
    SmallOddPrimes();
    forall q | IsPrime(q) && p < q
      ensures next <= q
    {
      OddAboveTwo(q);
      assert IsOddPrime(q);
    }
  }

  lemma OddAboveTwo(q: int)
    requires IsPrime(q) && q > 2
    ensures q % 2 == 1
  {
    assert q % 2 == 0 <==> Divides(2, q);
  }

  ghost predicate NextPrime(p: int, next: int) {
    IsPrime(next) && p < next && forall q :: IsPrime(q) && p < q ==> next <= q
  }

  /** The state of the loops "for (p = 2; ...; p = getprime ())". */
  ghost predicate AtPrime(s: PrimeSieve, p: int)
    reads s, s.primes, s.moduli, s.sieve
  {
    s.Valid() && IsPrime(p) && (p == s.Last() || (p == 2 && s.Last() == -2)) && s.Horizon() <= 7 * p
  }

  method StartAtTwo() returns (s: PrimeSieve, p: int)
    ensures fresh(s) && fresh(s.primes) && fresh(s.moduli) && fresh(s.sieve)
    ensures p == 2 && IsPrime(p) && AtPrime(s, p)
  {
    s := new PrimeSieve();
    p := 2;
    TwoIsPrime();
  }

  method StepPrime(s: PrimeSieve, p: int) returns (next: int)
    requires AtPrime(s, p) && ShortGapsBelow(7 * p)
    modifies s, s.primes, s.moduli, s.sieve
    ensures AtPrime(s, next) && NextPrime(p, next)
    ensures (s.primes == old(s.primes) && s.moduli == old(s.moduli)) || (fresh(s.primes) && fresh(s.moduli))
    ensures s.sieve == old(s.sieve) || fresh(s.sieve)
  {
    ghost var last := s.Last();
    ShortGapsMonotone(s.Horizon(), 7 * p);
    hide ShortGapsBelow, IsPrime, IsNextOddPrime;
    next := s.GetPrime();
    NextPrimeAfter(p, last, next);
  }

  /** Primorial: the product of all primes up to n (source form n#). */
  method Primorial(n: int) returns (r: int)
    requires ShortGapsBelow(7 * n)
    ensures r == PrimeProduct(2, n)
  {
    r := 1;
    TwoIsPrime();
    SmallBound(2, n);
    var s, p := StartAtTwo();
    hide ShortGapsBelow, IsPrime, NextPrime, AtPrime, PrimeProduct;
    while p <= n
      invariant fresh(s) && fresh(s.primes) && fresh(s.moduli) && fresh(s.sieve) && AtPrime(s, p)
      invariant IsPrime(p) && r == PrimeProduct(2, p - 1)
      invariant p > n ==> r == PrimeProduct(2, n)
      decreases n - p
    {
      ghost var q, before := p, r;
      r := r * p;
      ShortGapsMonotone(7 * p, 7 * n);
      p := StepPrime(s, p);
      AdvanceProduct(2, q, p, n, before);
    }
  }

  /** Multiplying by q and moving on to the next prime moves the bound of the product on. */
  lemma AdvanceProduct(lo: int, q: int, next: int, n: int, r: int)
    requires r == PrimeProduct(lo, q - 1) && IsPrime(q) && NextPrime(q, next)
    ensures IsPrime(next) && q < next
    ensures PrimeProduct(lo, next - 1) == if lo <= q then r * q else r
    ensures q <= n < next ==> PrimeProduct(lo, n) == PrimeProduct(lo, next - 1)
  {
    hide Divides, IsPrime, PrimeProduct;
    NoPrimesBetween(lo, q, next - 1);
    PrimeProductStep(lo, q, r);
    if q <= n < next {
      NoPrimesBetween(lo, q, n);
    }
  }

  lemma PrimeProductStep(lo: int, q: int, r: int)
    requires IsPrime(q) && r == PrimeProduct(lo, q - 1)
    ensures PrimeProduct(lo, q) == if lo <= q then r * q else r
  {
    assert q >= 2;
    hide Divides, IsPrime;
  }

  /** Reduced primorial (source form n#m): the sieve starts at 3, so the prime 2 never takes part. */
  method ReducedPrimorial(n: int, start: int) returns (r: int)
    requires ShortGapsBelow(7 * n)
    ensures r == PrimeProduct(if start < 3 then 3 else start, n)
  {
    ghost var lo := if start < 3 then 3 else start;
    r := 1;
    TwoIsPrime();
    SmallBound(lo, n);
    ShortGapsTrivial();
    var s, two := StartAtTwo();
    hide ShortGapsBelow, IsPrime, NextPrime, AtPrime, PrimeProduct;
    var p := StepPrime(s, two);
    AdvanceProduct(lo, 2, p, n, 1);
    while p <= n
      invariant fresh(s) && fresh(s.primes) && fresh(s.moduli) && fresh(s.sieve) && AtPrime(s, p)
      invariant IsPrime(p) && r == PrimeProduct(lo, p - 1)
      invariant p > n >= 2 ==> r == PrimeProduct(lo, n)
      invariant n < 2 ==> r == 1
      decreases n - p
    {
      ghost var q, before := p, r;
      if p >= start {
        r := r * p;
      }
      ShortGapsMonotone(7 * p, 7 * n);
      p := StepPrime(s, p);
      AdvanceProduct(lo, q, p, n, before);
    }
  }

  /** Windows from 11 on, of at least four odd numbers, end at 19 or later. */
  lemma ShortGapsTrivial()
    ensures ShortGapsBelow(14)
  {
    forall x, len
      ensures 11 <= x <= len * len && 0 <= len && x + 2 * len <= 14 ==> WindowHasPrime(x, len)
    {
      NoWindowBefore(x, len);
    }
  }

  lemma NoWindowBefore(x: int, len: int)
    ensures 11 <= x <= len * len && 0 <= len ==> x + 2 * len > 14
  {
    if 0 <= len <= 3 {
      SquareMonotone(len, len, 3);
    }
  }
}
