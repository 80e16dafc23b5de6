/** Primes, tables of the first odd primes, and the prime gap assumption of the sieve. */
module Primes {
  import opened Arithmetic

  ghost predicate IsPrime(n: int) {
    2 <= n && forall d :: 2 <= d < n ==> !Divides(d, n)
  }

  ghost predicate IsOddPrime(n: int) {
    IsPrime(n) && n % 2 == 1
  }

  /** The least divisor above 1 is prime, and it is at most the square root of a composite number. */
  lemma LeastDivisor(n: int) returns (q: int)
    requires n >= 2
    ensures 2 <= q <= n && Divides(q, n) && IsPrime(q)
    ensures forall e :: 2 <= e < q ==> !Divides(e, n)
    ensures !IsPrime(n) ==> q * q <= n
  {
    q := 2;
    DividesIntro(n, 1, n);
    while !Divides(q, n)
      invariant 2 <= q <= n
      invariant forall e :: 2 <= e < q ==> !Divides(e, n)
      decreases n - q
    {
      q := q + 1;
    }
    forall e | 2 <= e < q && Divides(e, q)
      ensures false
    {
      DividesTransitive(e, q, n);
    }
    DivisorBound(q, n);
    if !IsPrime(n) {
      LeastDivisorSquare(n, q);
    }
  }

  lemma LeastDivisorSquare(n: int, q: int)
    requires 2 <= q <= n && Divides(q, n) && !IsPrime(n)
    requires forall e :: 2 <= e < q ==> !Divides(e, n)
    ensures q * q <= n
  {
    var d :| 2 <= d < n && Divides(d, n);
    var k := DividesElim(q, n);
    DivisorBound(q, n);
    assert k != 1;
    assert n == q * k;
    DividesIntro(k, q, n);
    assert q <= k;
    SquareMonotone(q, q, k);
  }

  lemma SquareMonotone(x: int, y: int, z: int)
    requires 0 <= x && y <= z
    ensures y * x <= z * x
  {
  }

  lemma OddPrimeAtLeastThree(n: int)
    requires IsOddPrime(n)
    ensures n >= 3
  {
  }

  /** Primality of an odd number can be decided by the odd primes up to its square root. */
  lemma TrialDivision(n: int, bound: int)
    requires n >= 3 && n % 2 == 1 && bound >= 0 && n < bound * bound
    requires forall q :: IsOddPrime(q) && q < bound && q < n ==> !Divides(q, n)
    ensures IsPrime(n)
  {
    if !IsPrime(n) {
      var q := LeastDivisor(n);
      if q % 2 == 0 {
        DividesTransitive(2, q, n);
      }
      ProperSquare(q, bound, n);
    }
  }

  lemma ProperSquare(q: int, bound: int, n: int)
    requires 2 <= q && 0 <= bound && q * q <= n < bound * bound
    ensures q < bound && q < n
  {
    ProductSize(q, q);
    if q >= bound {
      SquareMonotone(q, bound, q);
      SquareMonotone(bound, bound, q);
    }
  }

  // ---------------------------------------------------------------- tables of the first odd primes

  ghost predicate Increasing(s: seq<int>) {
    forall i, j :: 0 <= i < j < |s| ==> s[i] < s[j]
  }

  /** The table holds exactly the first |s| odd primes, in order. */
  ghost predicate FirstOddPrimes(s: seq<int>) {
    && Increasing(s)
    && (forall i :: 0 <= i < |s| ==> IsOddPrime(s[i]))
    && (forall q :: IsOddPrime(q) && |s| > 0 && q <= s[|s| - 1] ==> q in s)
  }

  /** p is the odd prime that follows prev. */
  ghost predicate IsNextOddPrime(prev: int, p: int) {
    && IsOddPrime(p)
    && prev < p
    && forall q :: IsOddPrime(q) && prev < q ==> p <= q
  }

  lemma ExtendFirstOddPrimes(s: seq<int>, p: int)
    requires FirstOddPrimes(s)
    requires IsNextOddPrime(if |s| == 0 then 2 else s[|s| - 1], p)
    ensures FirstOddPrimes(s + [p])
  {
    var t := s + [p];
    forall q | IsOddPrime(q) && q <= p
      ensures q in t
    {
      if q == p {
        assert t[|s|] == p;
      } else if |s| > 0 && q <= s[|s| - 1] {
        var i :| 0 <= i < |s| && s[i] == q;
        assert t[i] == q;
      } else {
        OddPrimeAtLeastThree(q);
      }
    }
  }

  /** There is only one table of each length, so the predicate names the k-th odd prime. */
  lemma {:induction false} FirstOddPrimesUnique(s: seq<int>, t: seq<int>)
    requires FirstOddPrimes(s) && FirstOddPrimes(t) && |s| <= |t|
    ensures forall i :: 0 <= i < |s| ==> s[i] == t[i]
  {
    if |s| > 0 {
      var k := |s| - 1;
      FirstOddPrimesPrefix(s, k);
      FirstOddPrimesUnique(s[..k], t);
      forall i | 0 <= i < k
        ensures s[i] == t[i]
      {
        assert s[..k][i] == t[i];
      }
      NextEntryNotSmaller(s, t, k);
      NextEntryNotSmaller(t, s, k);
    }
  }

  lemma NextEntryNotSmaller(s: seq<int>, t: seq<int>, k: nat)
    requires FirstOddPrimes(s) && FirstOddPrimes(t) && k < |s| && k < |t|
    requires forall i :: 0 <= i < k ==> s[i] == t[i]
    ensures s[k] >= t[k]
  {
    if s[k] <= t[|t| - 1] {
      var i :| 0 <= i < |t| && t[i] == s[k];
    }
  }

  lemma FirstOddPrimesPrefix(s: seq<int>, k: nat)
    requires FirstOddPrimes(s) && k <= |s|
    ensures FirstOddPrimes(s[..k])
  {
    var t := s[..k];
    if k > 0 {
      forall q | IsOddPrime(q) && q <= t[k - 1]
        ensures q in t
      {
        var i :| 0 <= i < |s| && s[i] == q;
        assert i < k;
        assert t[i] == q;
      }
    }
  }

  /** The i-th odd prime is at least 2i+3; from the fourth on, 9 has been passed over. */
  lemma {:induction false} TableLowerBound(s: seq<int>, i: nat)
    requires FirstOddPrimes(s) && i < |s|
    ensures s[i] >= 2 * i + 3
    ensures i >= 3 ==> s[i] >= 2 * i + 5
  {
    if i == 0 {
      OddPrimeAtLeastThree(s[0]);
    } else {
      TableLowerBound(s, i - 1);
      assert s[i] >= s[i - 1] + 2;
      DividesIntro(3, 3, 9);
      assert !IsPrime(9);
    }
  }

  ghost predicate NoneDivides(ps: seq<int>, v: int) {
    forall j :: 0 <= j < |ps| ==> !Divides(ps[j], v)
  }

  /** Over a window above the table and below the square of its last entry, surviving the table means prime. */
  lemma SurvivorsArePrimes(ps: seq<int>, v: int)
    requires FirstOddPrimes(ps) && |ps| > 0 && v % 2 == 1
    requires ps[|ps| - 1] < v < ps[|ps| - 1] * ps[|ps| - 1]
    ensures NoneDivides(ps, v) <==> IsPrime(v)
  {
    if NoneDivides(ps, v) {
      OddPrimeAtLeastThree(ps[|ps| - 1]);
      forall q | IsOddPrime(q) && q < ps[|ps| - 1] && q < v
        ensures !Divides(q, v)
      {
        assert q in ps;
      }
      TrialDivision(v, ps[|ps| - 1]);
    }
    if IsPrime(v) {
      forall j | 0 <= j < |ps|
        ensures !Divides(ps[j], v)
      {
        assert ps[j] <= ps[|ps| - 1];
        OddPrimeAtLeastThree(ps[j]);
      }
    }
  }

  // ---------------------------------------------------------------- the gap assumption

  ghost predicate WindowHasPrime(x: int, len: int) {
    exists p :: x <= p < x + 2 * len && IsOddPrime(p)
  }

  /** No prime gap of length 2*sqrt(x) around x, for windows that end at most at limit. */
  ghost predicate ShortGapsBelow(limit: int) {
    forall x, len :: x % 2 == 1 && 11 <= x <= len * len && 0 <= len && x + 2 * len <= limit ==> WindowHasPrime(x, len)
  }

  lemma ShortGapsMonotone(small: int, large: int)
    requires ShortGapsBelow(large) && small <= large
    ensures ShortGapsBelow(small)
  {
  }

  /** Consecutive windows of growing length give as many odd primes as there are windows. */
  lemma {:induction false} WindowPrimes(x: int, len: nat, n: nat) returns (w: seq<int>)
    requires x % 2 == 1 && 11 <= x <= len * len
    requires ShortGapsBelow((len + n) * (len + n))
    ensures |w| == n && Increasing(w)
    ensures forall j :: 0 <= j < n ==> x <= w[j] < (len + n) * (len + n) && IsOddPrime(w[j])
    decreases n
  {
    if n == 0 {
      w := [];
    } else {
      WindowStep(x, len, n);
      assert WindowHasPrime(x, len);
      var p :| x <= p < x + 2 * len && IsOddPrime(p);
      var rest := WindowPrimes(x + 2 * len, len + 1, n - 1);
      w := [p] + rest;
    }
  }

  lemma WindowStep(x: int, len: nat, n: nat)
    requires x <= len * len && n >= 1
    ensures x + 2 * len < (len + 1) * (len + 1) <= (len + n) * (len + n)
  {
    assert (len + 1) * (len + 1) == len * len + 2 * len + 1;
    assert (len + n) * (len + n) - (len + 1) * (len + 1) == (n - 1) * (2 * len + n + 1);
  }
}
