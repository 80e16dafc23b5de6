/** Divisibility facts shared by the sieve and by the cyclotomic evaluation. */
module Arithmetic {

  predicate Divides(d: int, n: int) {
    d > 0 && n % d == 0
  }

  /** The sign and size of a product, from the size of one factor. */
  lemma ProductSize(k: int, d: int)
    requires d > 0
    ensures k <= 0 ==> k * d <= 0
    ensures k >= 0 ==> k * d >= k
    ensures k <= -1 ==> k * d <= -d
    ensures k >= 1 ==> k * d >= d
    ensures k >= 2 ==> k * d >= 2 * d
  {
    if k >= 0 {
      assert k * d >= k;
    }
    if k >= 1 {
      assert (k - 1) * d >= 0;
    }
    if k >= 2 {
      assert (k - 2) * d >= 0;
    }
    if k <= -1 {
      assert (-1 - k) * d >= 0;
    }
  }

  lemma DividesIntro(d: int, k: int, n: int)
    requires d > 0 && n == k * d
    ensures Divides(d, n) && n / d == k
  {
    assert n == (n / d) * d + n % d;
    assert (k - n / d) * d == n % d;
    ProductSize(k - n / d, d);
  }

  function Square(x: int): int {
    x * x
  }

  lemma DividesElim(d: int, n: int) returns (k: int)
    requires Divides(d, n)
    ensures n == k * d && k == n / d
  {
    k := n / d;
  }

  lemma DividesTransitive(a: int, b: int, c: int)
    requires Divides(a, b) && Divides(b, c)
    ensures Divides(a, c)
  {
    var k := DividesElim(a, b);
    var l := DividesElim(b, c);
    assert c == l * (k * a) == (l * k) * a;
    DividesIntro(a, l * k, c);
  }

  lemma DividesSum(d: int, x: int, y: int)
    requires Divides(d, x) && Divides(d, y)
    ensures Divides(d, x + y) && Divides(d, x - y)
  {
    var k := DividesElim(d, x);
    var l := DividesElim(d, y);
    assert x + y == (k + l) * d && x - y == (k - l) * d;
    DividesIntro(d, k + l, x + y);
    DividesIntro(d, k - l, x - y);
  }

  lemma DividesProduct(d: int, x: int, y: int)
    requires Divides(d, x)
    ensures Divides(d, x * y) && Divides(d, y * x)
  {
    var k := DividesElim(d, x);
    assert x * y == (k * y) * d && y * x == (k * y) * d;
    DividesIntro(d, k * y, x * y);
  }

  lemma DivisorBound(d: int, n: int)
    requires Divides(d, n) && d > 0 && n > 0
    ensures d <= n && 1 <= n / d <= n && n == (n / d) * d
  {
    var k := DividesElim(d, n);
    ProductSize(k, d);
  }

  /** An odd number that divides twice a value divides the value. */
  lemma OddDividesHalf(p: int, m: int)
    requires p > 0 && p % 2 == 1 && Divides(p, 2 * m)
    ensures Divides(p, m)
  {
    var c := DividesElim(p, 2 * m);
    var h, e, b := c / 2, c % 2, p / 2;
    assert c * p == (2 * h + e) * p == 2 * (h * p) + e * p;
    assert e == 1 ==> e * p == 2 * b + 1;
    DividesIntro(p, h, h * p);
    assert 2 * m == 2 * (h * p);
  }

  /** Nothing strictly between two neighbouring multiples is a multiple. */
  lemma SmallMultipleIsZero(p: int, m: int)
    requires p > 0 && Divides(p, m) && -p < m < p
    ensures m == 0
  {
    var k := DividesElim(p, m);
    ProductSize(k, p);
  }
}
