/**
 * The mathematics behind eval_Phi (source/eval.c): Moebius products over the prime divisors of b, why the
 * division of the two products is exact, and that it gives the value of the b-th cyclotomic polynomial.
 */
module CyclotomicValues {
  import opened Arithmetic
  import opened Primes
  import opened Bezout

  function Pow(x: int, n: nat): int {
    if n == 0 then 1 else x * Pow(x, n - 1)
  }

  // ---------------------------------------------------------------- lists of primes

  /** Distinct primes, each dividing m. */
  ghost predicate PrimeDivisors(qs: seq<nat>, m: nat) {
    && (forall i :: 0 <= i < |qs| ==> IsPrime(qs[i]) && Divides(qs[i], m))
    && (forall i, j :: 0 <= i < j < |qs| ==> qs[i] != qs[j])
  }

  /** No prime of qs divides a. */
  ghost predicate Avoids(qs: seq<nat>, a: nat) {
    forall i :: 0 <= i < |qs| ==> !Divides(qs[i], a)
  }

  function Shrink(m: nat, q: nat): nat {
    if q == 0 then 0 else m / q
  }

  function Front(qs: seq<nat>): seq<nat>
    requires |qs| > 0
  {
    qs[..|qs| - 1]
  }

  function Last(qs: seq<nat>): nat
    requires |qs| > 0
  {
    qs[|qs| - 1]
  }

  lemma ShrinkDivides(m: nat, q: nat)
    requires Divides(q, m) && m > 0
    ensures Shrink(m, q) > 0 && Shrink(m, q) * q == m && (q > 1 ==> Shrink(m, q) < m)
  {
    DivisorBound(q, m);
    ProductSize(q, Shrink(m, q));
  }

  lemma ShrinkOfProduct(m: nat, q: nat, a: nat)
    requires q > 0 && m > 0 && Divides(q, m)
    ensures Divides(q, m * a) && Shrink(m * a, q) == Shrink(m, q) * a
  {
    ShrinkDivides(m, q);
    assert m * a == (Shrink(m, q) * a) * q;
    DividesIntro(q, Shrink(m, q) * a, m * a);
  }

  lemma PrimeDoesNotDivideOther(p: nat, q: nat)
    requires IsPrime(p) && IsPrime(q) && p != q
    ensures !Divides(p, q)
  {
    if Divides(p, q) {
      DivisorBound(p, q);
    }
  }

  lemma PrimeDoesNotDivideProduct(p: nat, a: nat, b: nat)
    requires IsPrime(p) && !Divides(p, a) && !Divides(p, b)
    ensures !Divides(p, a * b)
  {
    if Divides(p, a * b) {
      EuclidLemma(p, a, b);
    }
  }

  /** Dividing by the last prime of the list leaves the others as divisors. */
  lemma PrimeDivisorsFront(qs: seq<nat>, m: nat)
    requires |qs| > 0 && PrimeDivisors(qs, m) && m > 0
    ensures PrimeDivisors(Front(qs), m) && PrimeDivisors(Front(qs), Shrink(m, Last(qs)))
    ensures Avoids(Front(qs), Last(qs)) && Avoids(Front(qs), 1)
    ensures Shrink(m, Last(qs)) > 0 && Shrink(m, Last(qs)) * Last(qs) == m && Shrink(m, Last(qs)) < m
  {
    var q := Last(qs);
    ShrinkDivides(m, q);
    forall i | 0 <= i < |qs| - 1
      ensures Divides(qs[i], Shrink(m, q)) && !Divides(qs[i], q) && !Divides(qs[i], 1)
    {
      PrimeDoesNotDivideOther(qs[i], q);
      EuclidLemma(qs[i], q, Shrink(m, q));
    }
  }

  lemma PrimeDivisorsProduct(qs: seq<nat>, m: nat, a: nat)
    requires PrimeDivisors(qs, m)
    ensures PrimeDivisors(qs, m * a)
  {
    forall i | 0 <= i < |qs|
      ensures Divides(qs[i], m * a)
    {
      DividesProduct(qs[i], m, a);
    }
  }

  lemma AvoidsProduct(qs: seq<nat>, m: nat, a: nat, b: nat)
    requires PrimeDivisors(qs, m) && Avoids(qs, a) && Avoids(qs, b)
    ensures Avoids(qs, a * b)
  {
    forall i | 0 <= i < |qs|
      ensures !Divides(qs[i], a * b)
    {
      PrimeDoesNotDivideProduct(qs[i], a, b);
    }
  }

  // ---------------------------------------------------------------- strong divisibility

  /** f takes greatest common divisors of indices to greatest common divisors of values. */
  ghost predicate StrongDivisibility(f: nat -> int) {
    && (forall m: nat :: m > 0 ==> f(m) != 0)
    && (forall g: nat, a: nat, b: nat :: g > 0 && a > 0 && b > 0 && Coprime(a, b) ==> IsGcd(f(g * a), f(g * b), f(g)))
  }

  lemma {:induction false} PowSum(x: int, a: nat, b: nat)
    ensures Pow(x, a + b) == Pow(x, a) * Pow(x, b)
  {
    if a > 0 {
      PowSum(x, a - 1, b);
      assert x * (Pow(x, a - 1) * Pow(x, b)) == (x * Pow(x, a - 1)) * Pow(x, b);
    }
  }

  lemma {:induction false} PowProduct(x: int, g: nat, a: nat)
    ensures Pow(x, g * a) == Pow(Pow(x, g), a)
  {
    if a > 0 {
      PowProduct(x, g, a - 1);
      assert g * a == g + g * (a - 1);
      PowSum(x, g, g * (a - 1));
    } else {
      assert g * a == 0;
    }
  }

  /** Euclid's algorithm on exponents. */
  lemma {:induction false} PowerGcd(x: int, a: nat, b: nat)
    requires Coprime(a, b)
    ensures IsGcd(Pow(x, a) - 1, Pow(x, b) - 1, x - 1)
    decreases a + b, b
  {
    if b == 0 {
      var s, t := CombinesElim(a, b, 1);
      UnitFactor(s, a);
      assert Pow(x, 1) == x * Pow(x, 0) == x;
      FactorIntro(1, x - 1, x - 1);
      FactorIntro(0, x - 1, 0);
      CombinesIntro(1, 0, x - 1, 0, x - 1);
    } else if a < b {
      CoprimeSymmetric(a, b);
      PowerGcd(x, b, a);
      GcdSymmetric(Pow(x, b) - 1, Pow(x, a) - 1, x - 1);
    } else {
      var s, t := CombinesElim(a, b, 1);
      assert s * (a - b) + (s + t) * b == s * a + t * b;
      CombinesIntro(s, s + t, a - b, b, 1);
      PowerGcd(x, a - b, b);
      PowSum(x, a - b, b);
      ShiftGcd(Pow(x, a - b) - 1, Pow(x, b) - 1, x - 1);
    }
  }

  lemma UnitFactor(s: int, a: nat)
    requires s * a == 1
    ensures a == 1
  {
    ProductSize(s, a);
  }

  lemma GcdSymmetric(x: int, y: int, g: int)
    requires IsGcd(x, y, g)
    ensures IsGcd(y, x, g)
  {
    var s, t := CombinesElim(x, y, g);
    CombinesIntro(s, t, x, y, g);
  }

  lemma ShiftGcd(x: int, y: int, g: int)
    requires IsGcd(x, y, g)
    ensures IsGcd((x + 1) * (y + 1) - 1, y, g)
  {
    var k := FactorElim(g, x);
    var l := FactorElim(g, y);
    var s, t := CombinesElim(x, y, g);
    var z := (x + 1) * (y + 1) - 1;
    assert z == x * (y + 1) + y == (k * g) * (y + 1) + l * g == (k * (y + 1) + l) * g;
    FactorIntro(k * (y + 1) + l, g, z);
    assert s * z + (t - s * (x + 1)) * y == s * x + t * y;
    CombinesIntro(s, t - s * (x + 1), z, y, g);
  }

  /** n^m - 1 at index m. */
  function PowerMinusOne(n: int): nat -> int {
    (m: nat) => Pow(n, m) - 1
  }

  lemma {:induction false} PowNotUnit(n: int, m: nat)
    requires n != 1 && n != -1 && m > 0
    ensures Pow(n, m) != 1 && Pow(n, m) != -1
  {
    if m == 1 {
      assert Pow(n, 1) == n * Pow(n, 0);
    } else {
      PowNotUnit(n, m - 1);
      NotUnitProduct(n, Pow(n, m - 1));
    }
  }

  lemma NotUnitProduct(x: int, y: int)
    requires x != 1 && x != -1
    ensures x * y != 1 && x * y != -1
  {
    if x > 0 {
      ProductSize(y, x);
    } else if x < 0 {
      assert x * y == (-y) * (-x);
      ProductSize(-y, -x);
    }
  }

  lemma PowersStronglyDivide(n: int)
    requires n != 1 && n != -1
    ensures StrongDivisibility(PowerMinusOne(n))
  {
    var f := PowerMinusOne(n);
    forall m: nat | m > 0
      ensures f(m) != 0
    {
      PowNotUnit(n, m);
    }
    forall g: nat, a: nat, b: nat | g > 0 && a > 0 && b > 0 && Coprime(a, b)
      ensures IsGcd(f(g * a), f(g * b), f(g))
    {
      PowProduct(n, g, a);
      PowProduct(n, g, b);
      PowerGcd(Pow(n, g), a, b);
    }
  }

  // ---------------------------------------------------------------- Moebius quotients are integers

  /** The alternating product of f over m divided by the products of sets of primes of qs, one prime at a time. */
  ghost function Quo(f: nat -> int, m: nat, qs: seq<nat>): int
    decreases |qs|
  {
    if |qs| == 0 then f(m)
    else
      var d := Quo(f, Shrink(m, Last(qs)), Front(qs));
      if d == 0 then 0 else Quo(f, m, Front(qs)) / d
  }

  lemma ExactQuotient(w: int, h: int)
    requires h != 0
    ensures (w * h) / h == w
  {
    var r := (w * h) % h;
    assert w * h == ((w * h) / h) * h + r;
    assert (w - (w * h) / h) * h == r;
    if h > 0 {
      ProductSize(w - (w * h) / h, h);
    } else {
      assert (w - (w * h) / h) * h == ((w * h) / h - w) * (-h);
      ProductSize((w * h) / h - w, -h);
    }
  }

  /** Every step of the quotient is an exact division of nonzero numbers. */
  lemma {:induction false} QuoExact(f: nat -> int, m: nat, qs: seq<nat>)
    requires StrongDivisibility(f) && PrimeDivisors(qs, m) && m > 0
    ensures Quo(f, m, qs) != 0
    ensures |qs| > 0 ==>
              var d := Quo(f, Shrink(m, Last(qs)), Front(qs));
              d != 0 && Quo(f, m, Front(qs)) == Quo(f, m, qs) * d
    decreases |qs|, 0, 0
  {
    if |qs| > 0 {
      hide Divides, StrongDivisibility, Coprime;
      var q, front := Last(qs), Front(qs);
      var m' := Shrink(m, q);
      PrimeDivisorsFront(qs, m);
      QuoExact(f, m, front);
      QuoExact(f, m', front);
      CoprimeToOne(q);
      QuoGcd(f, m', q, 1, front);
      var k := FactorElim(Quo(f, m' * 1, front), Quo(f, m' * q, front));
      ExactQuotient(k, Quo(f, m', front));
    }
  }

  lemma CoprimeToOne(q: nat)
    ensures Coprime(q, 1)
  {
    CombinesIntro(0, 1, q, 1, 1);
  }

  /** Strong divisibility passes from f to its Moebius quotients. */
  lemma {:induction false} QuoGcd(f: nat -> int, g: nat, a: nat, b: nat, qs: seq<nat>)
    requires StrongDivisibility(f) && PrimeDivisors(qs, g) && g > 0 && a > 0 && b > 0
    requires Coprime(a, b) && Avoids(qs, a) && Avoids(qs, b)
    ensures IsGcd(Quo(f, g * a, qs), Quo(f, g * b, qs), Quo(f, g, qs))
    decreases |qs|, 2
  {
    if |qs| > 0 {
      QuoGcdStep(f, g, a, b, qs);
    }
  }

  lemma {:induction false} QuoGcdStep(f: nat -> int, g: nat, a: nat, b: nat, qs: seq<nat>)
    requires StrongDivisibility(f) && PrimeDivisors(qs, g) && g > 0 && a > 0 && b > 0
    requires Coprime(a, b) && Avoids(qs, a) && Avoids(qs, b) && |qs| > 0
    ensures IsGcd(Quo(f, g * a, qs), Quo(f, g * b, qs), Quo(f, g, qs))
    decreases |qs|, 1
  {
    hide Divides, StrongDivisibility, Coprime, IsGcd, Quo;
    var q, front := Last(qs), Front(qs);
    var g' := Shrink(g, q);
    PrimeDivisorsFront(qs, g);
    assert IsPrime(q) && !Divides(q, a) && !Divides(q, b);
    QuoExactAt(f, g, a, qs);
    QuoExactAt(f, g, b, qs);
    QuoExact(f, g, qs);
    AvoidsProduct(front, g, q, a);
    AvoidsProduct(front, g, q, b);
    CoprimeScaled(q, a, b);
    CoprimeSymmetric(a, b);
    CoprimeScaled(q, b, a);
    CoprimeSymmetric(q * b, a);
    assert g' * (q * a) == g * a && g' * (q * b) == g * b;
    QuoGcd(f, g, a, b, front);
    QuoGcd(f, g', a, b, front);
    QuoGcd(f, g', q * a, b, front);
    QuoGcd(f, g', a, q * b, front);
    var w := QuotientGcd(Quo(f, g' * a, front), Quo(f, g * a, qs), Quo(f, g' * b, front), Quo(f, g * b, qs),
                         Quo(f, g', front), Quo(f, g, front));
    Cancel(Quo(f, g', front), w, Quo(f, g, qs));
  }

  lemma CoprimeScaled(q: nat, a: nat, b: nat)
    requires IsPrime(q) && !Divides(q, b) && Coprime(a, b)
    ensures Coprime(q * a, b)
  {
    PrimeCoprime(q, b);
    CoprimeSymmetric(q, b);
    CoprimeSymmetric(a, b);
    CoprimeProduct(b, q, a);
    CoprimeSymmetric(b, q * a);
  }

  lemma {:induction false} QuoExactAt(f: nat -> int, g: nat, a: nat, qs: seq<nat>)
    requires StrongDivisibility(f) && PrimeDivisors(qs, g) && g > 0 && a > 0 && |qs| > 0
    ensures Quo(f, Shrink(g, Last(qs)) * a, Front(qs)) != 0
    ensures Quo(f, g * a, Front(qs)) == Quo(f, Shrink(g, Last(qs)) * a, Front(qs)) * Quo(f, g * a, qs)
    decreases |qs|, 0, 1
  {
    hide Divides, StrongDivisibility, Quo;
    PrimeDivisorsProduct(qs, g, a);
    ShrinkOfProduct(g, Last(qs), a);
    QuoExact(f, g * a, qs);
  }

  // ---------------------------------------------------------------- the two products

  /** Product of f(m / P) over the products P of an even number of primes of qs. */
  ghost function Even(f: nat -> int, m: nat, qs: seq<nat>): int
    decreases |qs|
  {
    if |qs| == 0 then f(m)
    else Even(f, m, Front(qs)) * Odd(f, Shrink(m, Last(qs)), Front(qs))
  }

  /** Product of f(m / P) over the products P of an odd number of primes of qs. */
  ghost function Odd(f: nat -> int, m: nat, qs: seq<nat>): int
    decreases |qs|
  {
    if |qs| == 0 then 1
    else Odd(f, m, Front(qs)) * Even(f, Shrink(m, Last(qs)), Front(qs))
  }

  /** The product over the odd sets divides the product over the even sets. */
  lemma {:induction false} EvenIsQuoTimesOdd(f: nat -> int, m: nat, qs: seq<nat>)
    requires StrongDivisibility(f) && PrimeDivisors(qs, m) && m > 0
    ensures Odd(f, m, qs) != 0
    ensures Even(f, m, qs) == Quo(f, m, qs) * Odd(f, m, qs)
    decreases |qs|
  {
    if |qs| > 0 {
      var front, m' := Front(qs), Shrink(m, Last(qs));
      PrimeDivisorsFront(qs, m);
      EvenIsQuoTimesOdd(f, m, front);
      EvenIsQuoTimesOdd(f, m', front);
      QuoExact(f, m', front);
      QuoExact(f, m, qs);
      hide Quo, StrongDivisibility, PrimeDivisors;
      NonzeroProduct(Odd(f, m, front), Even(f, m', front));
      NonzeroProduct(Quo(f, m', front), Odd(f, m', front));
      RegroupQuotient(Quo(f, m, qs), Quo(f, m', front), Odd(f, m, front), Odd(f, m', front));
    }
  }

  lemma NonzeroProduct(x: int, y: int)
    requires x != 0 && y != 0
    ensures x * y != 0
  {
  }

  lemma RegroupQuotient(c: int, d: int, x: int, y: int)
    ensures ((c * d) * x) * y == c * (x * (d * y))
  {
  }

  // ---------------------------------------------------------------- Moebius inversion over divisors

  /** d is a divisor of m whose cofactor no prime of qs divides. */
  ghost predicate Selected(m: nat, qs: seq<nat>, d: nat) {
    Divides(d, m) && Avoids(qs, m / d)
  }

  /** Product of phi over the selected numbers from 1 to t. */
  ghost function DivisorProduct(phi: nat -> int, m: nat, qs: seq<nat>, t: nat): int {
    if t == 0 then 1
    else (if Selected(m, qs, t) then phi(t) else 1) * DivisorProduct(phi, m, qs, t - 1)
  }

  /**
   * Each selected divisor for the shorter list is selected once: for the longer list, or for m divided by its last
   * prime.
   */
  lemma SelectedSplits(m: nat, qs: seq<nat>, d: nat)
    requires |qs| > 0 && PrimeDivisors(qs, m) && m > 0 && d > 0
    ensures Selected(m, Front(qs), d) <==> Selected(m, qs, d) || Selected(Shrink(m, Last(qs)), Front(qs), d)
    ensures !(Selected(m, qs, d) && Selected(Shrink(m, Last(qs)), Front(qs), d))
  {
    var q, front, m' := Last(qs), Front(qs), Shrink(m, Last(qs));
    PrimeDivisorsFront(qs, m);
    if Divides(d, m') {
      CofactorOfShrunk(m, q, d);
      AvoidsScaled(front, q, m' / d);
    } else if Divides(d, m) && Divides(q, m / d) {
      CofactorShrinks(m, q, d);
    }
    if Divides(d, m) {
      AvoidsLast(qs, m / d);
    }
  }

  lemma AvoidsLast(qs: seq<nat>, a: nat)
    requires |qs| > 0
    ensures Avoids(qs, a) <==> Avoids(Front(qs), a) && !Divides(Last(qs), a)
  {
    assert forall i :: 0 <= i < |qs| - 1 ==> Front(qs)[i] == qs[i];
  }

  lemma AvoidsScaled(front: seq<nat>, q: nat, c: nat)
    requires Avoids(front, q) && (forall i :: 0 <= i < |front| ==> IsPrime(front[i]))
    ensures Avoids(front, c * q) <==> Avoids(front, c)
  {
    forall i | 0 <= i < |front|
      ensures Divides(front[i], c * q) <==> Divides(front[i], c)
    {
      if Divides(front[i], c) {
        DividesProduct(front[i], c, q);
      }
      if Divides(front[i], c * q) {
        assert c * q == q * c;
        EuclidLemma(front[i], q, c);
      }
    }
  }

  lemma CofactorOfShrunk(m: nat, q: nat, d: nat)
    requires q > 0 && d > 0 && m > 0 && Shrink(m, q) * q == m && Divides(d, Shrink(m, q))
    ensures Divides(d, m) && m / d == (Shrink(m, q) / d) * q && Divides(q, m / d)
  {
    var c := DividesElim(d, Shrink(m, q));
    assert m == (c * q) * d;
    ProductSize(c, d);
    DividesIntro(d, c * q, m);
    DividesIntro(q, c, c * q);
  }

  lemma CofactorShrinks(m: nat, q: nat, d: nat)
    requires q > 0 && d > 0 && m > 0 && Shrink(m, q) * q == m && Divides(d, m) && Divides(q, m / d)
    ensures Divides(d, Shrink(m, q))
  {
    var e := DividesElim(d, m);
    var c := DividesElim(q, m / d);
    assert m == (c * d) * q;
    Cancel(q, Shrink(m, q), c * d);
    DividesIntro(d, c, Shrink(m, q));
  }

  lemma {:induction false} DivisorProductSplits(phi: nat -> int, m: nat, qs: seq<nat>, t: nat)
    requires |qs| > 0 && PrimeDivisors(qs, m) && m > 0
    ensures DivisorProduct(phi, m, Front(qs), t)
         == DivisorProduct(phi, m, qs, t) * DivisorProduct(phi, Shrink(m, Last(qs)), Front(qs), t)
  {
    if t > 0 {
      var m' := Shrink(m, Last(qs));
      DivisorProductSplits(phi, m, qs, t - 1);
      SelectedSplits(m, qs, t);
      hide Selected, PrimeDivisors;
      SplitFactor(if Selected(m, qs, t) then phi(t) else 1, if Selected(m', Front(qs), t) then phi(t) else 1,
                  DivisorProduct(phi, m, qs, t - 1), DivisorProduct(phi, m', Front(qs), t - 1));
    }
  }

  lemma SplitFactor(x: int, y: int, p: int, q: int)
    ensures (x * y) * (p * q) == (x * p) * (y * q)
  {
  }

  lemma {:induction false} DivisorProductTail(phi: nat -> int, m: nat, qs: seq<nat>, t: nat)
    requires 0 < m <= t
    ensures DivisorProduct(phi, m, qs, t) == DivisorProduct(phi, m, qs, m)
  {
    if m < t {
      DivisorProductTail(phi, m, qs, t - 1);
      if Divides(t, m) {
        DivisorBound(t, m);
      }
    }
  }

  lemma {:induction false} DivisorProductAgrees(phi: nat -> int, psi: nat -> int, m: nat, qs: seq<nat>, t: nat)
    requires forall d: nat :: 0 < d <= t ==> phi(d) == psi(d)
    ensures DivisorProduct(phi, m, qs, t) == DivisorProduct(psi, m, qs, t)
  {
    if t > 0 {
      DivisorProductAgrees(phi, psi, m, qs, t - 1);
    }
  }

  /** The product of phi over the divisors of m is f(m), for every divisor m of b. */
  ghost predicate Family(phi: nat -> int, f: nat -> int, b: nat) {
    forall m: nat :: m > 0 && Divides(m, b) ==> DivisorProduct(phi, m, [], m) == f(m)
  }

  /** Moebius inversion, one prime at a time. */
  lemma {:induction false} Inversion(phi: nat -> int, f: nat -> int, b: nat, m: nat, qs: seq<nat>)
    requires Family(phi, f, b) && m > 0 && Divides(m, b) && PrimeDivisors(qs, m)
    ensures Even(f, m, qs) == DivisorProduct(phi, m, qs, m) * Odd(f, m, qs)
    decreases |qs|
  {
    if |qs| == 0 {
      assert qs == [];
    } else {
      var front, m' := Front(qs), Shrink(m, Last(qs));
      PrimeDivisorsFront(qs, m);
      DividesIntro(m', Last(qs), m);
      DividesTransitive(m', m, b);
      Inversion(phi, f, b, m, front);
      Inversion(phi, f, b, m', front);
      DivisorProductSplits(phi, m, qs, m);
      DivisorProductTail(phi, m', front, m);
      hide Family, PrimeDivisors, Divides, DivisorProduct;
      RegroupQuotient(DivisorProduct(phi, m, qs, m), DivisorProduct(phi, m', front, m'),
                      Odd(f, m, front), Odd(f, m', front));
    }
  }

  // ---------------------------------------------------------------- all primes of m

  ghost predicate AllPrimeDivisors(qs: seq<nat>, m: nat) {
    PrimeDivisors(qs, m) && forall p: nat :: IsPrime(p) && Divides(p, m) ==> p in qs
  }

  /** With every prime of m in the list, only m itself is selected. */
  lemma {:induction false} OnlyWholeSelected(phi: nat -> int, m: nat, qs: seq<nat>, t: nat)
    requires AllPrimeDivisors(qs, m) && t <= m && m > 0
    ensures DivisorProduct(phi, m, qs, t) == if t == m then phi(m) else 1
  {
    if t > 0 {
      OnlyWholeSelected(phi, m, qs, t - 1);
      if t == m {
        DividesIntro(m, 1, m);
        OneAvoided(qs);
      } else if Divides(t, m) {
        ProperCofactor(m, t);
        var q := LeastDivisor(m / t);
        var c := DividesElim(t, m);
        DividesProduct(q, m / t, t);
        assert q in qs;
      }
    }
  }

  lemma ProperCofactor(m: nat, t: nat)
    requires Divides(t, m) && 0 < t < m
    ensures m / t >= 2 && m == (m / t) * t
  {
    DivisorBound(t, m);
    assert m / t == 1 ==> m == t;
  }

  lemma OneAvoided(qs: seq<nat>)
    requires forall i :: 0 <= i < |qs| ==> IsPrime(qs[i])
    ensures Avoids(qs, 1)
  {
  }

  /** The primes up to t that divide m, in ascending order. */
  lemma {:induction false} PrimeListExists(m: nat, t: nat) returns (qs: seq<nat>)
    ensures PrimeDivisors(qs, m)
    ensures forall i :: 0 <= i < |qs| ==> qs[i] <= t
    ensures forall p: nat :: p <= t && IsPrime(p) && Divides(p, m) ==> p in qs
  {
    if t == 0 {
      qs := [];
    } else {
      qs := PrimeListExists(m, t - 1);
      if IsPrime(t) && Divides(t, m) {
        var rest := qs;
        qs := rest + [t];
        assert forall p :: p in rest ==> p in qs;
        assert qs[|rest|] == t;
      }
    }
  }

  lemma AllPrimeListExists(m: nat) returns (qs: seq<nat>)
    requires m > 0
    ensures AllPrimeDivisors(qs, m)
  {
    qs := PrimeListExists(m, m);
    forall p: nat | IsPrime(p) && Divides(p, m)
      ensures p in qs
    {
      DivisorBound(p, m);
    }
  }

  // ---------------------------------------------------------------- the cyclotomic values

  /** The integers that multiply to f(m) over the divisors of m, one after the other, when the divisions come out. */
  ghost function Solution(f: nat -> int, m: nat): int
    decreases m, m
  {
    if m == 0 then 0
    else
      var r := ProperProduct(f, m, m - 1);
      if r == 0 then 0 else f(m) / r
  }

  ghost function ProperProduct(f: nat -> int, m: nat, t: nat): int
    requires t < m
    decreases m, t
  {
    if t == 0 then 1
    else (if Divides(t, m) then Solution(f, t) else 1) * ProperProduct(f, m, t - 1)
  }

  ghost function SolutionOf(f: nat -> int): nat -> int {
    (m: nat) => Solution(f, m)
  }

  /** The value at n of the m-th cyclotomic polynomial: n^m - 1 divided by the values for the proper divisors of m. */
  ghost function Cyclotomic(n: int, m: nat): int {
    Solution(PowerMinusOne(n), m)
  }

  ghost function CyclotomicAt(n: int): nat -> int {
    SolutionOf(PowerMinusOne(n))
  }

  lemma {:induction false} ProperIsDivisorProduct(f: nat -> int, m: nat, t: nat)
    requires t < m
    ensures ProperProduct(f, m, t) == DivisorProduct(SolutionOf(f), m, [], t)
  {
    if t > 0 {
      ProperIsDivisorProduct(f, m, t - 1);
    }
  }

  lemma {:induction false} EvenOddAgree(f: nat -> int, h: nat -> int, m: nat, qs: seq<nat>)
    requires forall d: nat :: d <= m ==> f(d) == h(d)
    ensures Even(f, m, qs) == Even(h, m, qs) && Odd(f, m, qs) == Odd(h, m, qs)
    decreases |qs|
  {
    if |qs| > 0 {
      ShrinkBound(m, Last(qs));
      EvenOddAgree(f, h, m, Front(qs));
      EvenOddAgree(f, h, Shrink(m, Last(qs)), Front(qs));
    }
  }

  lemma ShrinkBound(m: nat, q: nat)
    ensures Shrink(m, q) <= m
  {
    if q > 0 {
      assert m == (m / q) * q + m % q;
      ProductSize(m / q, q);
    }
  }

  /** The value at m enters the even product exactly once and the odd product not at all. */
  lemma {:induction false} TopEntersOnce(f: nat -> int, h: nat -> int, m: nat, qs: seq<nat>)
    requires PrimeDivisors(qs, m) && m > 0 && forall d: nat :: d < m ==> f(d) == h(d)
    ensures Odd(f, m, qs) == Odd(h, m, qs)
    ensures Even(f, m, qs) * h(m) == Even(h, m, qs) * f(m)
    decreases |qs|
  {
    if |qs| > 0 {
      var front, m' := Front(qs), Shrink(m, Last(qs));
      PrimeDivisorsFront(qs, m);
      TopEntersOnce(f, h, m, front);
      EvenOddAgree(f, h, m', front);
      hide PrimeDivisors;
      SwapFactor(Even(f, m, front), Odd(f, m', front), h(m), Even(h, m, front), f(m));
    }
  }

  lemma SwapFactor(e: int, o: int, y: int, e': int, x: int)
    requires e * y == e' * x
    ensures (e * o) * y == (e' * o) * x
  {
    assert (e * o) * y == (e * y) * o;
    assert (e' * o) * x == (e' * x) * o;
  }

  /** One step of the recursion: the division that defines the value is exact, and it is the Moebius quotient. */
  lemma {:induction false} SolutionStep(f: nat -> int, m: nat, qs: seq<nat>)
    requires StrongDivisibility(f) && m > 0 && AllPrimeDivisors(qs, m)
    requires forall d: nat :: 0 < d < m ==> DivisorProduct(SolutionOf(f), d, [], d) == f(d)
    ensures ProperProduct(f, m, m - 1) != 0
    ensures Solution(f, m) * ProperProduct(f, m, m - 1) == f(m)
    ensures Solution(f, m) == Quo(f, m, qs)
  {
    var r := ProperProduct(f, m, m - 1);
    var f' := (d: nat) => if d == m then r else f(d);
    var phi' := (d: nat) => if d == m then 1 else Solution(f, d);
    TruncatedFamily(f, m, f', phi');
    DividesIntro(m, 1, m);
    Inversion(phi', f', m, m, qs);
    OnlyWholeSelected(phi', m, qs, m);
    TopEntersOnce(f, f', m, qs);
    EvenIsQuoTimesOdd(f, m, qs);
    var c, o := Quo(f, m, qs), Odd(f, m, qs);
    assert Even(f', m, qs) == o;
    assert (c * o) * r == o * f(m);
    assert f(m) != 0;
    hide StrongDivisibility, AllPrimeDivisors, Even, Odd, Quo;
    CancelProduct(c, o, r, f(m));
    assert r != 0;
    ExactQuotient(c, r);
  }

  lemma CancelProduct(c: int, o: int, r: int, x: int)
    requires o != 0 && (c * o) * r == o * x
    ensures c * r == x
  {
    assert (c * r) * o == x * o;
    Cancel(o, c * r, x);
  }

  /** Below m the solution is a family; at m the truncated functions are one by construction. */
  lemma TruncatedFamily(f: nat -> int, m: nat, f': nat -> int, phi': nat -> int)
    requires m > 0
    requires f' == ((d: nat) => if d == m then ProperProduct(f, m, m - 1) else f(d))
    requires phi' == ((d: nat) => if d == m then 1 else Solution(f, d))
    requires forall d: nat :: 0 < d < m ==> DivisorProduct(SolutionOf(f), d, [], d) == f(d)
    ensures Family(phi', f', m)
  {
    forall d: nat | d > 0 && Divides(d, m)
      ensures DivisorProduct(phi', d, [], d) == f'(d)
    {
      DivisorBound(d, m);
      if d < m {
        DivisorProductAgrees(phi', SolutionOf(f), d, [], d);
      } else {
        DivisorProductAgrees(phi', SolutionOf(f), m, [], m - 1);
        ProperIsDivisorProduct(f, m, m - 1);
        assert phi'(m) == 1;
      }
    }
  }

  /** Every strongly divisible f has a family of integers, the solution. */
  lemma {:induction false} SolutionProduct(f: nat -> int, m: nat)
    requires StrongDivisibility(f) && m > 0
    ensures DivisorProduct(SolutionOf(f), m, [], m) == f(m)
  {
    forall d: nat | 0 < d < m
      ensures DivisorProduct(SolutionOf(f), d, [], d) == f(d)
    {
      SolutionProduct(f, d);
    }
    var qs := AllPrimeListExists(m);
    SolutionStep(f, m, qs);
    ProperIsDivisorProduct(f, m, m - 1);
    DividesIntro(m, 1, m);
    OneAvoided([]);
    assert Selected(m, [], m);
  }

  lemma MoebiusQuotientIsSolution(f: nat -> int, m: nat, qs: seq<nat>)
    requires StrongDivisibility(f) && m > 0 && AllPrimeDivisors(qs, m)
    ensures Odd(f, m, qs) != 0 && Even(f, m, qs) == Solution(f, m) * Odd(f, m, qs)
  {
    forall d: nat | 0 < d < m
      ensures DivisorProduct(SolutionOf(f), d, [], d) == f(d)
    {
      SolutionProduct(f, d);
    }
    SolutionStep(f, m, qs);
    EvenIsQuoTimesOdd(f, m, qs);
  }

  /** Any other family of f agrees with the solution. */
  lemma SolutionUnique(psi: nat -> int, f: nat -> int, b: nat)
    requires StrongDivisibility(f) && b > 0 && Family(psi, f, b)
    ensures psi(b) == Solution(f, b)
  {
    var qs := AllPrimeListExists(b);
    DividesIntro(b, 1, b);
    Inversion(psi, f, b, b, qs);
    OnlyWholeSelected(psi, b, qs, b);
    MoebiusQuotientIsSolution(f, b, qs);
    Cancel(Odd(f, b, qs), psi(b), Solution(f, b));
  }

  /** For n other than 1 and -1 the cyclotomic values multiply to n^m - 1 over the divisors of m. */
  lemma CyclotomicProduct(n: int, m: nat)
    requires n != 1 && n != -1 && m > 0
    ensures DivisorProduct(CyclotomicAt(n), m, [], m) == Pow(n, m) - 1
  {
    PowersStronglyDivide(n);
    SolutionProduct(PowerMinusOne(n), m);
  }

  /** None of them is zero, because n^m - 1 is not. */
  lemma CyclotomicNotZero(n: int, m: nat)
    requires n != 1 && n != -1 && m > 0
    ensures Cyclotomic(n, m) != 0
  {
    CyclotomicProduct(n, m);
    PowNotUnit(n, m);
    DividesIntro(m, 1, m);
    OneAvoided([]);
    assert Selected(m, [], m);
    assert DivisorProduct(CyclotomicAt(n), m, [], m)
        == CyclotomicAt(n)(m) * DivisorProduct(CyclotomicAt(n), m, [], m - 1);
  }

  /** The product over the odd sets divides the product over the even sets, and the quotient is the cyclotomic value. */
  lemma MoebiusQuotientIsCyclotomic(n: int, m: nat, qs: seq<nat>)
    requires n != 1 && n != -1 && m > 0 && AllPrimeDivisors(qs, m)
    ensures Odd(PowerMinusOne(n), m, qs) != 0
    ensures Even(PowerMinusOne(n), m, qs) == Cyclotomic(n, m) * Odd(PowerMinusOne(n), m, qs)
  {
    PowersStronglyDivide(n);
    MoebiusQuotientIsSolution(PowerMinusOne(n), m, qs);
  }

  /** The cyclotomic values are the only integers that multiply to n^m - 1 over the divisors of every divisor m of b. */
  lemma CyclotomicUnique(psi: nat -> int, n: int, b: nat)
    requires n != 1 && n != -1 && b > 0 && Family(psi, PowerMinusOne(n), b)
    ensures psi(b) == Cyclotomic(n, b)
  {
    PowersStronglyDivide(n);
    SolutionUnique(psi, PowerMinusOne(n), b);
  }

  // ---------------------------------------------------------------- the value at n = 1

  function Identity(): nat -> int {
    (m: nat) => m
  }

  ghost predicate PrimePower(b: nat) {
    exists p: nat :: IsPrime(p) && Divides(p, b) && OnlyPrime(p, b)
  }

  ghost predicate OnlyPrime(p: nat, b: nat) {
    forall q: nat :: IsPrime(q) && Divides(q, b) ==> q == p
  }

  /** With m itself in place of n^m - 1 the two products agree as soon as m has two primes. */
  lemma {:induction false} IdentityProducts(m: nat, qs: seq<nat>)
    requires PrimeDivisors(qs, m) && m > 0
    ensures Odd(Identity(), m, qs) > 0
    ensures |qs| == 1 ==> Even(Identity(), m, qs) == Last(qs) * Odd(Identity(), m, qs)
    ensures |qs| >= 2 ==> Even(Identity(), m, qs) == Odd(Identity(), m, qs)
    decreases |qs|
  {
    if |qs| > 0 {
      var f, front, q := Identity(), Front(qs), Last(qs);
      var m' := Shrink(m, q);
      PrimeDivisorsFront(qs, m);
      IdentityProducts(m, front);
      IdentityProducts(m', front);
      hide PrimeDivisors, Shrink;
      if |qs| == 1 {
        assert Even(f, m, front) == m && Odd(f, m, front) == 1 && Even(f, m', front) == m' && Odd(f, m', front) == 1;
      } else {
        EvenPositive(Even(f, m', front), Odd(f, m, front), Odd(f, m', front),
                     if |qs| == 2 then Last(front) else 1, Even(f, m, front));
      }
    }
  }

  lemma EvenPositive(e': int, o: int, o': int, c: int, e: int)
    requires o > 0 && o' > 0 && c > 0 && e == c * o && e' == c * o'
    ensures o * e' > 0 && e * o' == o * e'
  {
    ProductSize(c, o');
    ProductSize(o, e');
    assert (c * o) * o' == o * (c * o');
  }

  lemma IdentityStronglyDivides()
    ensures StrongDivisibility(Identity())
  {
    forall g: nat, a: nat, b: nat | g > 0 && a > 0 && b > 0 && Coprime(a, b)
      ensures IsGcd(g * a, g * b, g)
    {
      var s, t := CombinesElim(a, b, 1);
      FactorIntro(a, g, g * a);
      FactorIntro(b, g, g * b);
      assert s * (g * a) + t * (g * b) == g * (s * a + t * b) == g;
      CombinesIntro(s, t, g * a, g * b, g);
    }
    var f := Identity();
    assert forall g: nat, a: nat :: f(g * a) == g * a && f(g) == g;
  }

  /** There are such integers for every number, and they are the only ones. */
  lemma ValuesAtOneExist(b: nat)
    requires b > 0
    ensures Family(SolutionOf(Identity()), Identity(), b)
  {
    IdentityStronglyDivides();
    forall m: nat | m > 0 && Divides(m, b)
      ensures DivisorProduct(SolutionOf(Identity()), m, [], m) == Identity()(m)
    {
      SolutionProduct(Identity(), m);
    }
  }

  /**
   * The value at 1 of the b-th cyclotomic polynomial: 0 for n - 1, and beyond it the integers that multiply to
   * (n^m - 1) / (n - 1), which is m at n = 1, over the divisors of m above 1.
   */
  ghost function CyclotomicAtOne(b: nat): int {
    if b == 1 then 0 else Solution(Identity(), b)
  }

  /** What it is: the prime for a prime power, and 1 for a number with two primes. */
  lemma ValueAtOne(b: nat)
    requires b >= 2
    ensures PrimePower(b) ==> exists p: nat :: IsPrime(p) && Divides(p, b) && CyclotomicAtOne(b) == p
    ensures !PrimePower(b) ==> CyclotomicAtOne(b) == 1
    ensures IsPrime(b) ==> PrimePower(b) && CyclotomicAtOne(b) == b
    ensures PrimePower(b) && !IsPrime(b) ==> CyclotomicAtOne(b) != 1
  {
    var f := Identity();
    var qs := AllPrimeListExists(b);
    IdentityStronglyDivides();
    MoebiusQuotientIsSolution(f, b, qs);
    IdentityProducts(b, qs);
    SinglePrime(b, qs);
    hide Divides, Even, Odd, Solution, StrongDivisibility;
    if |qs| == 1 {
      Cancel(Odd(f, b, qs), Solution(f, b), Last(qs));
      assert qs[0] == Last(qs);
    } else {
      Cancel(Odd(f, b, qs), Solution(f, b), 1);
    }
  }

  /**
   * At n = 1 the code answers b for a prime b and 1 otherwise: right exactly for primes and for numbers with two
   * primes.
   */
  lemma PhiAtOne(b: nat)
    requires b >= 1
    ensures (if IsPrime(b) then b else 1) == CyclotomicAtOne(b) <==> IsPrime(b) || (b != 1 && !PrimePower(b))
  {
    if b >= 2 {
      ValueAtOne(b);
    }
  }

  lemma SinglePrime(b: nat, qs: seq<nat>)
    requires b >= 2 && AllPrimeDivisors(qs, b)
    ensures |qs| > 0 && (|qs| == 1 <==> PrimePower(b)) && Last(qs) > 1
    ensures IsPrime(b) ==> |qs| == 1 && Last(qs) == b
  {
    var q := LeastDivisor(b);
    assert q in qs;
    if PrimePower(b) {
      var p: nat :| IsPrime(p) && Divides(p, b) && OnlyPrime(p, b);
      SingleEntry(b, qs, p);
    }
    if |qs| == 1 {
      assert OnlyPrime(qs[0], b);
    }
    if IsPrime(b) {
      PrimeHasOnlyItself(b);
      SingleEntry(b, qs, b);
    }
  }

  lemma SingleEntry(b: nat, qs: seq<nat>, p: nat)
    requires PrimeDivisors(qs, b) && OnlyPrime(p, b) && |qs| > 0
    ensures |qs| == 1 && qs[0] == p
  {
    hide Divides, IsPrime;
    if |qs| > 1 {
      var i := OneDiffers(qs, p);
    }
  }

  lemma OneDiffers(qs: seq<nat>, p: nat) returns (i: nat)
    requires |qs| > 1 && forall i, j :: 0 <= i < j < |qs| ==> qs[i] != qs[j]
    ensures i < |qs| && qs[i] != p
  {
    i := if qs[0] == p then 1 else 0;
  }

  lemma PrimeHasOnlyItself(b: nat)
    requires IsPrime(b)
    ensures OnlyPrime(b, b)
  {
    forall q: nat | IsPrime(q) && Divides(q, b)
      ensures q == b
    {
      DivisorBound(q, b);
    }
  }
}
