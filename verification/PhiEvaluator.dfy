/** eval_Phi of source/eval.c: the factor loop, the subset loop over bit masks, and the one division. */
module PhiEvaluator {
  import opened PhiValues
  import opened Arithmetic
  import opened Primes
  import opened Sieve
  import opened Bezout
  import opened CyclotomicValues
  import opened Primorials

  function Pow2(k: nat): (r: nat)
    ensures r > 0
  {
    if k == 0 then 1 else 2 * Pow2(k - 1)
  }

  // ---------------------------------------------------------------- collecting the prime factors

  /** The part of b whose primes are at least p, once the smaller ones have been divided out. */
  ghost predicate Reduced(b: nat, rest: nat, p: nat, qs: seq<nat>) {
    && rest > 0
    && (forall i, j :: 0 <= i < j < |qs| ==> qs[i] < qs[j])
    && (forall i :: 0 <= i < |qs| ==> IsPrime(qs[i]) && Divides(qs[i], b) && qs[i] < p)
    && (forall r: nat :: IsPrime(r) && r < p && Divides(r, b) ==> r in qs)
    && (forall r: nat :: IsPrime(r) ==> (Divides(r, rest) <==> r >= p && Divides(r, b)))
  }

  lemma ReducedStart(b: nat)
    requires b > 0
    ensures Reduced(b, b, 2, [])
  {
  }

  /** A prime that does not divide what is left is passed over. */
  lemma ReducedSkips(b: nat, rest: nat, p: nat, qs: seq<nat>)
    requires Reduced(b, rest, p, qs) && !Divides(p, rest) && IsPrime(p)
    ensures Reduced(b, rest, p + 1, qs)
  {
    hide Divides, IsPrime;
  }

  /** A prime that divides what is left is recorded, once. */
  lemma ReducedTakes(b: nat, rest: nat, p: nat, qs: seq<nat>, rest': nat)
    requires Reduced(b, rest, p, qs) && Divides(p, rest) && IsPrime(p) && rest' > 0
    requires forall r: nat :: IsPrime(r) ==> (Divides(r, rest') <==> r != p && Divides(r, rest))
    ensures Reduced(b, rest', p + 1, qs + [p])
  {
    hide Divides, IsPrime;
    assert forall r :: r in qs ==> r in qs + [p];
    assert (qs + [p])[|qs|] == p;
  }

  lemma ReducedMovesOn(b: nat, rest: nat, p: nat, qs: seq<nat>, next: nat)
    requires Reduced(b, rest, p + 1, qs) && NextPrime(p, next)
    ensures Reduced(b, rest, next, qs)
  {
    hide Divides, IsPrime;
  }

  /** When the trial prime has passed what is left, nothing is left and the list is complete. */
  lemma ReducedDone(b: nat, rest: nat, p: nat, qs: seq<nat>)
    requires Reduced(b, rest, p, qs) && p > rest
    ensures rest == 1 && AllPrimeDivisors(qs, b)
    ensures forall i, j :: 0 <= i < j < |qs| ==> qs[i] < qs[j]
  {
    if rest > 1 {
      var q := LeastDivisor(rest);
    }
    forall r: nat | IsPrime(r) && Divides(r, b)
      ensures r in qs
    {
      if Divides(r, rest) {
        DivisorBound(r, rest);
      }
    }
  }

  lemma RemoveOnce(rest: nat, p: nat, r: nat)
    requires IsPrime(p) && IsPrime(r) && rest > 0 && Divides(p, rest)
    ensures 2 * (rest / p) <= rest && rest / p > 0 && rest == (rest / p) * p
    ensures r != p ==> (Divides(r, rest / p) <==> Divides(r, rest))
  {
    DivisorBound(p, rest);
    ProductSize(p, rest / p);
    if r != p {
      PrimeDoesNotDivideOther(r, p);
      if Divides(r, rest) {
        assert rest == p * (rest / p);
        EuclidLemma(r, p, rest / p);
      }
      if Divides(r, rest / p) {
        DividesProduct(r, rest / p, p);
      }
    }
  }

  /** Divides a prime out completely; every other prime keeps dividing or not dividing. */
  method RemoveFactor(rest: nat, p: nat) returns (rest': nat)
    requires IsPrime(p) && rest > 0 && Divides(p, rest)
    ensures 0 < rest' && 2 * rest' <= rest
    ensures forall r: nat :: IsPrime(r) ==> (Divides(r, rest') <==> r != p && Divides(r, rest))
  {
    assert p >= 2;
    hide Divides, IsPrime;
    rest' := rest / p;
    forall r: nat | IsPrime(r)
      ensures 2 * rest' <= rest && rest' > 0 && (r != p ==> (Divides(r, rest') <==> Divides(r, rest)))
    {
      RemoveOnce(rest, p, r);
    }
    RemoveOnce(rest, p, p);
    while rest' % p == 0
      invariant 0 < rest' && 2 * rest' <= rest
      invariant forall r: nat :: IsPrime(r) && r != p ==> (Divides(r, rest') <==> Divides(r, rest))
      decreases rest'
    {
      ghost var before := rest';
      RemainderZero(p, rest');
      RemoveOnce(rest', p, p);
      rest' := rest' / p;
      forall r: nat | IsPrime(r) && r != p
        ensures Divides(r, rest') <==> Divides(r, rest)
      {
        RemoveOnce(before, p, r);
      }
    }
    RemainderZero(p, rest');
  }

  lemma RemainderZero(p: nat, n: nat)
    requires IsPrime(p)
    ensures Divides(p, n) <==> n % p == 0
  {
  }

  lemma {:induction false} Pow2Positive(k: nat)
    ensures Pow2(k) > 0 && (k >= 31 ==> Pow2(k) >= INT_LIMIT)
  {
    Pow2At31();
    if k > 0 {
      Pow2Positive(k - 1);
    }
  }

  lemma FourMore(k: nat)
    ensures Pow2(k + 4) == 16 * Pow2(k)
  {
    assert Pow2(k + 2) == 4 * Pow2(k);
  }

  lemma Pow2At31()
    ensures Pow2(31) == INT_LIMIT
  {
    assert Pow2(3) == 8;
    FourMore(3);
    FourMore(7);
    FourMore(11);
    FourMore(15);
    FourMore(19);
    FourMore(23);
    FourMore(27);
  }

  /** Every recorded prime has at least halved what is left of b. */
  ghost predicate Room(count: nat, rest: nat, b: nat) {
    Pow2(count) * rest <= b
  }

  /** The number of distinct prime factors of an int stays far below the 200 entries of the array. */
  lemma CountBound(count: nat, rest: nat, b: nat)
    requires Pow2(count) * rest <= b < INT_LIMIT && rest >= 1
    ensures count < 31
  {
    Pow2Positive(count);
    ProductSize(rest, Pow2(count));
  }

  lemma DoubleCount(count: nat, before: nat, rest: nat, b: nat)
    requires count > 0 && Room(count - 1, before, b) && b < INT_LIMIT && 2 * rest <= before && rest >= 1
    ensures Room(count, rest, b) && count < 31
  {
    Pow2Positive(count - 1);
    SquareMonotone(Pow2(count - 1), 2 * rest, before);
    assert Pow2(count) * rest == Pow2(count - 1) * (2 * rest);
    CountBound(count, rest, b);
  }

  lemma NextPrimeGrows(p: int, next: int)
    requires NextPrime(p, next)
    ensures p < next && IsPrime(next)
  {
  }

  /** One pass of the factor loop: a prime that divides what is left is recorded and divided out. */
  method RecordFactor(ghost b: nat, factors: array<nat>, count: nat, rest: nat, p: nat)
    returns (count': nat, rest': nat)
    requires count < 31 < factors.Length && IsPrime(p) && p >= 2 && rest > 0
    requires Reduced(b, rest, p, factors[..count]) && Room(count, rest, b) && b < INT_LIMIT
    modifies factors
    ensures count' < 31 && 0 < rest' <= rest
    ensures Reduced(b, rest', p + 1, factors[..count']) && Room(count', rest', b)
  {
    hide Divides, IsPrime, Reduced, Room;
    ghost var qs := factors[..count];
    RemainderZero(p, rest);
    if rest % p == 0 {
      factors[count] := p;
      count' := count + 1;
      rest' := RemoveFactor(rest, p);
      ReducedTakes(b, rest, p, qs, rest');
      DoubleCount(count', rest, rest', b);
      assert factors[..count'] == qs + [p];
    } else {
      count', rest' := count, rest;
      ReducedSkips(b, rest, p, qs);
    }
  }

  /**
   * The distinct primes that divide b, in ascending order; the bound of the loop shrinks as primes are
   * divided out.
   */
  method CollectPrimeFactors(b: nat) returns (factors: array<nat>, count: nat)
    requires 2 <= b < INT_LIMIT && ShortGapsBelow(7 * b)
    ensures fresh(factors) && factors.Length == 200 && count < 31
    ensures AllPrimeDivisors(factors[..count], b)
    ensures forall i, j :: 0 <= i < j < count ==> factors[i] < factors[j]
  {
    factors := new nat[200];
    count := FactorLoop(b, factors);
    AscendingArray(factors, count);
  }

  /** The loop over successive primes, up to a bound that shrinks as they are divided out. */
  method FactorLoop(b: nat, factors: array<nat>) returns (count: nat)
    requires 2 <= b < INT_LIMIT && ShortGapsBelow(7 * b) && factors.Length == 200
    modifies factors
    ensures count < 31 && AllPrimeDivisors(factors[..count], b)
    ensures forall i, j :: 0 <= i < j < count ==> factors[..count][i] < factors[..count][j]
  {
    count := 0;
    var rest := b;
    ReducedStart(b);
    assert factors[..0] == [] && Room(0, rest, b);
    var s, p := StartAtTwo();
    hide Divides, IsPrime, AtPrime, NextPrime, Reduced, ShortGapsBelow, AllPrimeDivisors, Room;
    hide PrimeSieve.Valid, PrimeSieve.Last, PrimeSieve.Horizon;
    while p <= rest
      invariant count < 31
      invariant fresh(s) && fresh(s.primes) && fresh(s.moduli) && fresh(s.sieve) && AtPrime(s, p)
      invariant p >= 2 && IsPrime(p) && Reduced(b, rest, p, factors[..count]) && 0 < rest <= b
      invariant Room(count, rest, b)
      decreases rest, rest - p
    {
      count, rest := RecordFactor(b, factors, count, rest, p);
      p := MoveOn(s, p, b, rest, factors[..count]);
    }
    ReducedDone(b, rest, p, factors[..count]);
  }

  /** The next prime; no prime between the two divides what is left. */
  method MoveOn(s: PrimeSieve, p: nat, ghost b: nat, ghost rest: nat, ghost qs: seq<nat>) returns (next: nat)
    requires AtPrime(s, p) && p >= 2 && p <= b && IsPrime(p) && Reduced(b, rest, p + 1, qs) && ShortGapsBelow(7 * b)
    modifies s, s.primes, s.moduli, s.sieve
    ensures AtPrime(s, next) && next > p && IsPrime(next) && Reduced(b, rest, next, qs)
    ensures (s.primes == old(s.primes) && s.moduli == old(s.moduli)) || (fresh(s.primes) && fresh(s.moduli))
    ensures s.sieve == old(s.sieve) || fresh(s.sieve)
  {
    hide Divides, IsPrime, AtPrime, NextPrime, Reduced, ShortGapsBelow;
    ShortGapsMonotone(7 * p, 7 * b);
    var following := StepPrime(s, p);
    NextPrimeGrows(p, following);
    next := following;
    ReducedMovesOn(b, rest, p, qs, next);
  }

  lemma AscendingArray(factors: array<nat>, count: nat)
    requires count <= factors.Length
    requires forall i, j :: 0 <= i < j < count ==> factors[..count][i] < factors[..count][j]
    ensures forall i, j :: 0 <= i < j < count ==> factors[i] < factors[j]
  {
    forall i, j | 0 <= i < j < count
      ensures factors[i] < factors[j]
    {
      assert factors[..count][i] == factors[i] && factors[..count][j] == factors[j];
    }
  }

  // ---------------------------------------------------------------- bit masks and subsets

  predicate Bit(w: nat, j: nat) {
    (w / Pow2(j)) % 2 == 1
  }

  /** b divided by the primes of qs that the mask w chooses. */
  ghost function Power(b: nat, qs: seq<nat>, w: nat): nat
    decreases |qs|
  {
    if |qs| == 0 then b
    else if Bit(w, |qs| - 1) then Shrink(Power(b, Front(qs), w), Last(qs))
    else Power(b, Front(qs), w)
  }

  /** Does w choose an odd number of the first k primes? */
  ghost predicate OddSize(k: nat, w: nat) {
    k > 0 && (OddSize(k - 1, w) <==> !Bit(w, k - 1))
  }

  /** Product of the terms of the even masks below w. */
  ghost function EvenUpTo(f: nat -> int, b: nat, qs: seq<nat>, w: nat): int {
    if w == 0 then 1
    else EvenUpTo(f, b, qs, w - 1) * (if OddSize(|qs|, w - 1) then 1 else f(Power(b, qs, w - 1)))
  }

  /** Product of the terms of the odd masks below w. */
  ghost function OddUpTo(f: nat -> int, b: nat, qs: seq<nat>, w: nat): int {
    if w == 0 then 1
    else OddUpTo(f, b, qs, w - 1) * (if OddSize(|qs|, w - 1) then f(Power(b, qs, w - 1)) else 1)
  }

  lemma DivideSum(d: nat, c: nat, u: nat)
    requires d > 0
    ensures (d * c + u) / d == c + u / d
  {
    assert u == (u / d) * d + u % d;
    var n := d * c + u;
    assert n == (n / d) * d + n % d;
    assert (n / d - c - u / d) * d == u % d - n % d;
    ProductSize(n / d - c - u / d, d);
  }

  lemma {:induction false} Pow2Splits(j: nat, k: nat)
    requires j < k
    ensures Pow2(k) == Pow2(j) * (2 * Pow2(k - j - 1))
    decreases k
  {
    if j == k - 1 {
      assert Pow2(0) == 1;
    } else {
      Pow2Splits(j, k - 1);
    }
  }

  lemma TopQuotient(d: nat, u: nat)
    requires d > 0
    ensures u < d ==> (d + u) / d == 1 && u / d == 0
  {
    DivideSum(d, 1, u);
    if u < d {
      SmallQuotient(u, d);
    }
  }

  lemma EvenQuotient(d: nat, x: nat, u: nat)
    requires d > 0
    ensures ((d * (2 * x) + u) / d) % 2 == (u / d) % 2
  {
    DivideSum(d, 2 * x, u);
  }

  /** Adding 2^k sets bit k and leaves the lower bits alone. */
  lemma BitOfSum(k: nat, u: nat, j: nat)
    requires j <= k && u <= Pow2(k)
    ensures j < k ==> (Bit(Pow2(k) + u, j) <==> Bit(u, j))
    ensures j == k && u < Pow2(k) ==> Bit(Pow2(k) + u, j) && !Bit(u, j)
  {
    if j < k {
      Pow2Splits(j, k);
      EvenQuotient(Pow2(j), Pow2(k - j - 1), u);
      hide Pow2;
    } else {
      TopQuotient(Pow2(k), u);
      hide Pow2;
    }
  }

  lemma {:induction false} LowMask(b: nat, qs: seq<nat>, k: nat, u: nat)
    requires |qs| <= k && u <= Pow2(k)
    ensures Power(b, qs, Pow2(k) + u) == Power(b, qs, u)
    ensures OddSize(|qs|, Pow2(k) + u) <==> OddSize(|qs|, u)
    decreases |qs|
  {
    if |qs| > 0 {
      LowMask(b, Front(qs), k, u);
      BitOfSum(k, u, |qs| - 1);
      hide Bit, Pow2;
    }
  }

  lemma ShrinkTwice(m: nat, a: nat, b: nat)
    requires a > 0 && b > 0
    ensures Shrink(Shrink(m, a), b) == Shrink(m, a * b)
  {
    hide Shrink;
    var q, s := Shrink(m, a), Shrink(Shrink(m, a), b);
    ShrinkRemainder(m, a);
    ShrinkRemainder(q, b);
    ProductSize(a, b);
    NestedQuotient(m, a, b, q, m - q * a, s, q - s * b);
  }

  lemma ShrinkRemainder(m: nat, a: nat)
    requires a > 0
    ensures 0 <= m - Shrink(m, a) * a < a
  {
    assert m == (m / a) * a + m % a;
  }

  lemma NestedQuotient(m: nat, a: nat, b: nat, q: nat, r: nat, s: nat, t: nat)
    requires r < a && t < b && m == q * a + r && q == s * b + t && a * b > 0
    ensures Shrink(m, a * b) == s
  {
    Regroup(q, a, r, s, b, t);
    DivideSum(a * b, s, t * a + r);
    SmallQuotient(t * a + r, a * b);
  }

  lemma Regroup(q: nat, a: nat, r: nat, s: nat, b: nat, t: nat)
    requires r < a && t < b && q == s * b + t
    ensures q * a + r == (a * b) * s + (t * a + r)
    ensures 0 <= t * a + r < a * b
  {
    assert (s * b + t) * a == (a * b) * s + t * a;
    SquareMonotone(a, t + 1, b);
  }

  lemma SmallQuotient(x: nat, d: nat)
    requires x < d
    ensures x / d == 0
  {
  }

  lemma ShrinksCommute(m: nat, a: nat, b: nat)
    ensures Shrink(Shrink(m, a), b) == Shrink(Shrink(m, b), a)
  {
    if a > 0 && b > 0 {
      hide Shrink;
      ShrinkTwice(m, a, b);
      ShrinkTwice(m, b, a);
      assert a * b == b * a;
    }
  }

  lemma {:induction false} PowerOfShrunk(b: nat, q: nat, qs: seq<nat>, w: nat)
    ensures Shrink(Power(b, qs, w), q) == Power(Shrink(b, q), qs, w)
    decreases |qs|
  {
    if |qs| > 0 {
      PowerOfShrunk(b, q, Front(qs), w);
      ShrinksCommute(Power(b, Front(qs), w), Last(qs), q);
      hide Bit, Shrink;
    }
  }

  /** The successive divisions of the exponent are exact. */
  ghost function Chosen(qs: seq<nat>, w: nat): nat
    decreases |qs|
  {
    if |qs| == 0 then 1
    else Chosen(Front(qs), w) * (if Bit(w, |qs| - 1) then Last(qs) else 1)
  }

  lemma {:induction false} PowerIsExact(b: nat, qs: seq<nat>, w: nat)
    requires PrimeDivisors(qs, b) && b > 0
    ensures Power(b, qs, w) > 0 && Power(b, qs, w) * Chosen(qs, w) == b
    decreases |qs|
  {
    if |qs| > 0 {
      PrimeDivisorsFront(qs, b);
      PowerIsExact(b, Front(qs), w);
      PowerIsExact(Shrink(b, Last(qs)), Front(qs), w);
      PowerOfShrunk(b, Last(qs), Front(qs), w);
      hide Bit, Shrink, PrimeDivisors;
      if Bit(w, |qs| - 1) {
        Reassociate(Power(b, qs, w), Chosen(Front(qs), w), Last(qs));
      }
    }
  }

  lemma Reassociate(x: int, y: int, z: int)
    ensures (x * y) * z == x * (y * z)
  {
  }

  lemma {:induction false} MasksBelow(f: nat -> int, b: nat, qs: seq<nat>, w: nat)
    requires |qs| > 0 && w <= Pow2(|qs| - 1)
    ensures EvenUpTo(f, b, qs, w) == EvenUpTo(f, b, Front(qs), w)
    ensures OddUpTo(f, b, qs, w) == OddUpTo(f, b, Front(qs), w)
  {
    if w > 0 {
      MasksBelow(f, b, qs, w - 1);
      BitOfSum(|qs| - 1, w - 1, |qs| - 1);
      hide Bit, Pow2;
    }
  }

  /** A mask that chooses the last prime, against the same mask without it. */
  lemma HighMask(b: nat, qs: seq<nat>, v: nat)
    requires |qs| > 0 && v < Pow2(|qs| - 1)
    ensures
      var w := Pow2(|qs| - 1) + v;
      && Power(b, qs, w) == Power(Shrink(b, Last(qs)), Front(qs), v)
      && (OddSize(|qs|, w) <==> !OddSize(|qs| - 1, v))
  {
    var k := |qs| - 1;
    BitOfSum(k, v, k);
    LowMask(b, Front(qs), k, v);
    PowerOfShrunk(b, Last(qs), Front(qs), v);
    hide Bit, Pow2, Shrink;
  }

  lemma {:induction false} MasksAbove(f: nat -> int, b: nat, qs: seq<nat>, u: nat)
    requires |qs| > 0 && u <= Pow2(|qs| - 1)
    ensures
      var half, b', front := Pow2(|qs| - 1), Shrink(b, Last(qs)), Front(qs);
      && EvenUpTo(f, b, qs, half + u) == EvenUpTo(f, b, qs, half) * OddUpTo(f, b', front, u)
      && OddUpTo(f, b, qs, half + u) == OddUpTo(f, b, qs, half) * EvenUpTo(f, b', front, u)
  {
    if u > 0 {
      var k, v := |qs| - 1, u - 1;
      MasksAbove(f, b, qs, v);
      HighMask(b, qs, v);
      hide Bit, Pow2, Shrink, Power, OddSize;
      var half, b', front := Pow2(k), Shrink(b, Last(qs)), Front(qs);
      var x := f(Power(b', front, v));
      Reassociate(EvenUpTo(f, b, qs, half), OddUpTo(f, b', front, v), if OddSize(k, v) then x else 1);
      Reassociate(OddUpTo(f, b, qs, half), EvenUpTo(f, b', front, v), if OddSize(k, v) then 1 else x);
    }
  }

  /** The loop over all masks multiplies up the two Moebius products. */
  lemma {:induction false} MasksGiveMoebiusProducts(f: nat -> int, b: nat, qs: seq<nat>)
    ensures EvenUpTo(f, b, qs, Pow2(|qs|)) == Even(f, b, qs)
    ensures OddUpTo(f, b, qs, Pow2(|qs|)) == Odd(f, b, qs)
    decreases |qs|
  {
    if |qs| > 0 {
      var half := Pow2(|qs| - 1);
      MasksGiveMoebiusProducts(f, b, Front(qs));
      MasksGiveMoebiusProducts(f, Shrink(b, Last(qs)), Front(qs));
      MasksBelow(f, b, qs, half);
      MasksAbove(f, b, qs, half);
      assert Pow2(|qs|) == half + half;
    } else {
      assert Pow2(0) == 1;
      assert EvenUpTo(f, b, qs, 0) == 1 && OddUpTo(f, b, qs, 0) == 1;
    }
  }

  // ---------------------------------------------------------------- the evaluation of Phi(b, n)

  /** Exponent and number of chosen primes for one mask. */
  method Term(factors: array<nat>, count: nat, b: nat, w: nat) returns (power: nat, moebius: nat)
    requires count <= factors.Length && PrimeDivisors(factors[..count], b) && b > 0
    ensures power == Power(b, factors[..count], w)
    ensures IsOdd(moebius) <==> OddSize(count, w)
  {
    hide PrimeDivisors;
    ghost var qs := factors[..count];
    power, moebius := b, 0;
    var index, mask := 0, 1;
    TermStarts(b, qs, w);
    assert !IsOdd(0);
    hide Pow2, Power, PowerUpTo, OddSize, Bit, Shrink, MaskBit, IsOdd;
    while index < count
      invariant 0 <= index <= count && mask == Pow2(index)
      invariant power == PowerUpTo(b, qs, index, w)
      invariant IsOdd(moebius) <==> OddSize(index, w)
    {
      NextParity(moebius);
      TermStep(b, qs, index, w, mask);
      if MaskBit(w, mask) {
        moebius := moebius + 1;
        power := Shrink(power, factors[index]);
      }
      mask := mask * 2;
      index := index + 1;
    }
    WholePrefix(b, qs, w);
  }

  predicate IsOdd(n: nat) {
    n % 2 == 1
  }

  lemma NextParity(n: nat)
    ensures IsOdd(n + 1) <==> !IsOdd(n)
  {
  }

  /** The exponent after the first i primes. */
  ghost function PowerUpTo(b: nat, qs: seq<nat>, i: nat, w: nat): nat
    requires i <= |qs|
  {
    Power(b, qs[..i], w)
  }

  lemma WholePrefix(b: nat, qs: seq<nat>, w: nat)
    ensures PowerUpTo(b, qs, |qs|, w) == Power(b, qs, w)
  {
    assert qs[..|qs|] == qs;
  }

  /** Does w have the bit that mask has? */
  predicate MaskBit(w: nat, mask: nat) {
    mask > 0 && (w / mask) % 2 == 1
  }

  lemma TermStarts(b: nat, qs: seq<nat>, w: nat)
    ensures Pow2(0) == 1 && PowerUpTo(b, qs, 0, w) == b && !OddSize(0, w)
  {
  }

  /** What one prime adds to exponent and parity. */
  lemma TermStep(b: nat, qs: seq<nat>, i: nat, w: nat, mask: nat)
    requires i < |qs| && mask == Pow2(i)
    ensures mask > 0 && mask * 2 == Pow2(i + 1)
    ensures
      var chosen := MaskBit(w, mask);
      && PowerUpTo(b, qs, i + 1, w)
         == (if chosen then Shrink(PowerUpTo(b, qs, i, w), qs[i]) else PowerUpTo(b, qs, i, w))
      && (OddSize(i + 1, w) <==> (OddSize(i, w) <==> !chosen))
  {
    FrontOfPrefix(qs, i);
    Pow2Step(i);
    assert MaskBit(w, mask) <==> Bit(w, i);
    hide Shrink, Bit, Pow2, MaskBit;
  }

  lemma Pow2Step(k: nat)
    ensures Pow2(k + 1) == Pow2(k) * 2
  {
  }

  lemma FrontOfPrefix(qs: seq<nat>, i: nat)
    requires i < |qs|
    ensures Front(qs[..i + 1]) == qs[..i] && Last(qs[..i + 1]) == qs[i]
  {
  }

  /** The products over the even and over the odd sets of primes. */
  method MoebiusProducts(factors: array<nat>, count: nat, b: nat, n: int) returns (num: int, den: int)
    requires count <= factors.Length && PrimeDivisors(factors[..count], b) && b > 0
    ensures num == Even(PowerMinusOne(n), b, factors[..count])
    ensures den == Odd(PowerMinusOne(n), b, factors[..count])
  {
    ghost var qs, f := factors[..count], PowerMinusOne(n);
    num, den := 1, 1;
    var w := 0;
    MasksGiveMoebiusProducts(f, b, qs);
    while w < Pow2(count)
      invariant 0 <= w <= Pow2(count)
      invariant num == EvenUpTo(f, b, qs, w) && den == OddUpTo(f, b, qs, w)
    {
      hide Pow2, PrimeDivisors, OddSize, Power;
      var power, moebius := Term(factors, count, b, w);
      var t := Pow(n, power) - 1;
      assert t == f(power);
      if IsOdd(moebius) {
        den := den * t;
      } else {
        num := num * t;
      }
      w := w + 1;
    }
  }

  /** mpz_divexact: defined only when the division is exact. */
  method DivideExactly(x: int, d: int, ghost q: int) returns (r: int)
    requires d != 0 && x == q * d
    ensures r == q
  {
    r := x / d;
    ExactQuotient(q, d);
  }

  method EvalPhi(b: int, n: int, probablePrime: int -> bool) returns (r: PhiResult)
    requires ShortGapsBelow(7 * INT_LIMIT)
    ensures r == Phi(b, n, probablePrime)
  {
    if n == 1 {
      return PhiValue(if probablePrime(b) then b else 1);
    }
    if n == -1 || b == 0 {
      return PhiRejected;
    }
    if b == 1 {
      return PhiValue(n - 1);
    }
    if WORD - INT_LIMIT <= b < WORD {
      return PhiOverflow;
    }
    if b < 0 || b >= INT_LIMIT {
      return PhiRejected;
    }
    ShortGapsMonotone(7 * b, 7 * INT_LIMIT);
    hide ShortGapsBelow;
    var factors, count := CollectPrimeFactors(b);
    var num, den := MoebiusProducts(factors, count, b, n);
    MoebiusQuotientIsCyclotomic(n, b, factors[..count]);
    var q := DivideExactly(num, den, Cyclotomic(n, b));
    r := PhiValue(q);
  }
}
