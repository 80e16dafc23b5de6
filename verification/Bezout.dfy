/** Factors, coprimality and greatest common divisors of integers, by linear combinations. */
module Bezout {
  import opened Arithmetic
  import opened Primes

  function Times(k: int, x: int): int {
    k * x
  }

  ghost predicate Factor(x: int, y: int) {
    exists k :: Times(k, x) == y
  }

  ghost predicate Combines(x: int, y: int, g: int) {
    exists s, t :: Times(s, x) + Times(t, y) == g
  }

  ghost predicate Coprime(x: int, y: int) {
    Combines(x, y, 1)
  }

  ghost predicate IsGcd(x: int, y: int, g: int) {
    Factor(g, x) && Factor(g, y) && Combines(x, y, g)
  }

  lemma FactorIntro(k: int, x: int, y: int)
    requires y == k * x
    ensures Factor(x, y)
  {
    assert Times(k, x) == y;
  }

  lemma FactorElim(x: int, y: int) returns (k: int)
    requires Factor(x, y)
    ensures y == k * x
  {
    k :| Times(k, x) == y;
  }

  lemma CombinesIntro(s: int, t: int, x: int, y: int, g: int)
    requires g == s * x + t * y
    ensures Combines(x, y, g) && Combines(y, x, g)
  {
    assert Times(s, x) + Times(t, y) == g;
    assert Times(t, y) + Times(s, x) == g;
  }

  lemma CombinesElim(x: int, y: int, g: int) returns (s: int, t: int)
    requires Combines(x, y, g)
    ensures g == s * x + t * y
  {
    s, t :| Times(s, x) + Times(t, y) == g;
  }

  lemma CoprimeSymmetric(x: int, y: int)
    requires Coprime(x, y)
    ensures Coprime(y, x)
  {
    var s, t := CombinesElim(x, y, 1);
    CombinesIntro(s, t, x, y, 1);
  }

  /** A number coprime to a product is coprime to each factor of it. */
  lemma CoprimeFactor(x: int, y: int, k: int)
    requires Coprime(x, k * y)
    ensures Coprime(x, y)
  {
    var s, t := CombinesElim(x, k * y, 1);
    assert t * (k * y) == (t * k) * y;
    CombinesIntro(s, t * k, x, y, 1);
  }

  lemma CoprimeProduct(x: int, y: int, z: int)
    requires Coprime(x, y) && Coprime(x, z)
    ensures Coprime(x, y * z)
  {
    var s, t := CombinesElim(x, y, 1);
    var a, b := CombinesElim(x, z, 1);
    assert 1 == (s * x + t * y) * (a * x + b * z);
    assert (s * x + t * y) * (a * x + b * z)
        == (s * a * x + s * b * z + t * a * y) * x + (t * b) * (y * z);
    CombinesIntro(s * a * x + s * b * z + t * a * y, t * b, x, y * z, 1);
  }

  /** Gauss: a factor of a product that is coprime to one part is a factor of the other. */
  lemma GaussLemma(x: int, y: int, z: int)
    requires Coprime(x, y) && Factor(x, y * z)
    ensures Factor(x, z)
  {
    var s, t := CombinesElim(x, y, 1);
    var k := FactorElim(x, y * z);
    assert z == (s * x + t * y) * z == (s * z) * x + t * (y * z) == (s * z) * x + t * (k * x);
    assert t * (k * x) == (t * k) * x;
    assert (s * z) * x + (t * k) * x == (s * z + t * k) * x;
    FactorIntro(s * z + t * k, x, z);
  }

  /** Euclid's algorithm on positive numbers. */
  lemma {:induction false} GcdExists(a: nat, b: nat) returns (g: nat)
    requires a > 0
    ensures g > 0 && IsGcd(a, b, g)
    decreases b, a
  {
    if b == 0 {
      g := a;
      FactorIntro(1, a, a);
      FactorIntro(0, a, 0);
      CombinesIntro(1, 0, a, 0, a);
    } else {
      g := GcdExists(b, a % b);
      GcdStep(b, a % b, a / b, g);
      assert a == (a / b) * b + a % b;
    }
  }

  lemma GcdStep(b: int, r: int, q: int, g: int)
    requires IsGcd(b, r, g)
    ensures IsGcd(q * b + r, b, g)
  {
    var k := FactorElim(g, b);
    var l := FactorElim(g, r);
    var s, t := CombinesElim(b, r, g);
    var a := q * b + r;
    assert q * (k * g) + l * g == (q * k + l) * g;
    FactorIntro(q * k + l, g, a);
    assert t * a + (s - t * q) * b == s * b + t * r;
    CombinesIntro(t, s - t * q, a, b, g);
  }

  lemma PrimeCoprime(q: int, a: nat)
    requires IsPrime(q) && !Divides(q, a)
    ensures Coprime(q, a)
  {
    var g := GcdExists(q, a);
    var k := FactorElim(g, q);
    var l := FactorElim(g, a);
    DividesIntro(g, k, q);
    DividesIntro(g, l, a);
    DivisorBound(g, q);
    assert g == 1;
  }

  lemma EuclidLemma(q: int, a: nat, b: nat)
    requires IsPrime(q) && Divides(q, a * b) && !Divides(q, a)
    ensures Divides(q, b)
  {
    PrimeCoprime(q, a);
    var k := DividesElim(q, a * b);
    FactorIntro(k, q, a * b);
    GaussLemma(q, a, b);
    var l := FactorElim(q, b);
    DividesIntro(q, l, b);
  }

  /**
   * Dividing two numbers by numbers that share their common divisor with them
   * divides the greatest common divisor.
   */
  lemma QuotientGcd(x: int, u: int, y: int, v: int, h: int, g: int) returns (w: int)
    requires h != 0 && IsGcd(x, y, h) && IsGcd(x * u, y, h) && IsGcd(x, y * v, h) && IsGcd(x * u, y * v, g)
    ensures g == w * h && IsGcd(u, v, w)
  {
    var x' := FactorElim(h, x);
    var y' := FactorElim(h, y);
    var c := FactorElim(g, x * u);
    var d := FactorElim(g, y * v);
    w := CommonPart(x', u, y', v, h, g);
    CoprimeParts(x', u, y', h);
    CoprimeParts(y', v, x', h);
    CancelPart(x', u, y', v, h, g, w);
    CancelPart(y', v, x', u, h, g, w);
  }

  lemma Cancel(h: int, x: int, y: int)
    requires h != 0 && x * h == y * h
    ensures x == y
  {
    assert (x - y) * h == 0;
  }

  /** g is a multiple w*h, and w a combination of u and v. */
  lemma CommonPart(x': int, u: int, y': int, v: int, h: int, g: int) returns (w: int)
    requires h != 0 && Combines((x' * h) * u, (y' * h) * v, g)
    ensures g == w * h && Combines(u, v, w)
  {
    var s, t := CombinesElim((x' * h) * u, (y' * h) * v, g);
    w := s * (x' * u) + t * (y' * v);
    assert s * ((x' * h) * u) == (s * (x' * u)) * h;
    assert t * ((y' * h) * v) == (t * (y' * v)) * h;
    assert w == (s * x') * u + (t * y') * v;
    CombinesIntro(s * x', t * y', u, v, w);
  }

  /** If h is the greatest common divisor of x*u and y, then y/h is coprime to x/h and to u. */
  lemma CoprimeParts(x': int, u: int, y': int, h: int)
    requires h != 0 && Combines((x' * h) * u, y' * h, h)
    ensures Coprime(y', x' * u)
  {
    var s, t := CombinesElim((x' * h) * u, y' * h, h);
    assert s * ((x' * h) * u) + t * (y' * h) == (s * (x' * u) + t * y') * h;
    Cancel(h, 1, s * (x' * u) + t * y');
    CombinesIntro(s, t, x' * u, y', 1);
  }

  /** w divides u, because it divides x'*u and y'*v, and x' is coprime to y'*v. */
  lemma CancelPart(x': int, u: int, y': int, v: int, h: int, g: int, w: int)
    requires h != 0 && g == w * h && Coprime(x', y' * v)
    requires Factor(g, (x' * h) * u) && Factor(g, (y' * h) * v)
    ensures Factor(w, u)
  {
    var c := FactorElim(g, (x' * h) * u);
    var d := FactorElim(g, (y' * h) * v);
    assert (x' * u) * h == (c * w) * h;
    Cancel(h, x' * u, c * w);
    assert (y' * v) * h == (d * w) * h;
    Cancel(h, y' * v, d * w);
    CoprimeFactor(x', w, d);
    CoprimeSymmetric(x', w);
    FactorIntro(c, w, x' * u);
    GaussLemma(w, x', u);
  }
}
