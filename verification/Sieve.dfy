/** The windowed sieve of source/getprime.c: successive odd primes from a sliding window of odd numbers. */
module Sieve {
  import opened Arithmetic
  import opened Primes

  // ---------------------------------------------------------------- state predicates on values

  /** Sizes of table and window that can occur; from four table primes on, offset <= len^2 < 4*offset. */
  ghost predicate Shape(nprimes: int, offset: int, len: int) {
    || (nprimes == 1 && offset == 5 && len == 1)
    || (nprimes == 2 && offset == 7 && len == 2)
    || (nprimes == 2 && offset == 11 && len == 4)
    || (nprimes >= 4 && offset >= 19 && offset % 2 == 1 && len >= 1 && offset <= Square(len) < 4 * offset)
  }

  /** The table primes: the first odd primes, all below the window, reaching the square root of its end. */
  ghost predicate TableFits(ps: seq<int>, offset: int, len: int) {
    && |ps| > 0
    && FirstOddPrimes(ps)
    && ps[|ps| - 1] < offset
    && offset + 2 * len <= Square(ps[|ps| - 1])
  }

  /** m is the least index, counted from base in steps of two, at which p divides. */
  ghost predicate Carries(p: int, base: int, m: int) {
    0 <= m < p && Divides(p, base + 2 * m)
  }

  ghost predicate ModuliFit(ps: seq<int>, moduli: seq<int>, base: int) {
    |moduli| == |ps| && forall j :: 0 <= j < |ps| ==> Carries(ps[j], base, moduli[j])
  }

  ghost predicate Marked(sieve: seq<bool>, offset: int, len: nat) {
    && |sieve| == len + 1
    && sieve[len]
    && forall i :: 0 <= i < len ==> (sieve[i] <==> IsPrime(offset + 2 * i))
  }

  /** Exactly the entries whose number no prime of ps divides are set. */
  ghost predicate Struck(sieve: seq<bool>, ps: seq<int>, offset: int, len: nat) {
    && |sieve| == len + 1
    && sieve[len]
    && forall k :: 0 <= k < len ==> (sieve[k] <==> NoneDivides(ps, offset + 2 * k))
  }

  // ---------------------------------------------------------------- arithmetic of the window

  /** Doubling once is enough to keep offset <= len^2 < 4*offset when the window moves on. */
  lemma WindowGrowth(offset: int, len: nat)
    requires len >= 1 && offset >= 4 && offset <= Square(len) < 4 * offset
    ensures len <= offset
    ensures
      var offset' := offset + 2 * len;
      var len' := NextLen(offset', len);
      offset' <= Square(len') < 4 * offset'
  {
    assert (2 * len) * (2 * len) == 4 * (len * len);
    ProductSize(len, len);
    if len > offset {
      SquareMonotone(len, offset, len);
      SquareMonotone(offset, offset, len);
      SquareMonotone(offset, 4, offset);
    }
  }

  /** The window's end stays below the square of the next table candidate. */
  lemma OneExtensionSuffices(p: int, q: int, offset: int, len: int)
    requires p >= 3 && q >= p + 2 && len >= 0 && offset <= Square(p) && Square(len) < 4 * offset
    ensures offset + 2 * len < (p + 2) * (p + 2) <= Square(q)
  {
    if len >= 2 * p {
      SquareMonotone(len, 2 * p, len);
      SquareMonotone(2 * p, 2 * p, len);
    }
    assert (p + 2) * (p + 2) == p * p + 4 * p + 4;
    SquareMonotone(p + 2, p + 2, q);
    SquareMonotone(q, p + 2, q);
  }

  lemma WindowStartAfterTable(p: int, offset: int, len: int)
    requires p >= 3 && len >= 0 && offset <= Square(p) < offset + 2 * len && Square(len) < 4 * offset
    ensures (p - 3) * (p - 3) <= offset
  {
    if len >= 2 * p {
      SquareMonotone(len, 2 * p, len);
      SquareMonotone(2 * p, 2 * p, len);
    }
    assert (p - 3) * (p - 3) == p * p - 6 * p + 9;
  }

  function NextLen(offset: int, len: nat): nat {
    if Square(len) < offset then 2 * len else len
  }

  /** How table length, offset and window length follow each other from one window to the next. */
  lemma ShapeAdvances(ps: seq<int>, offset: int, len: nat, offset': int, len': nat, n': nat)
    requires Shape(|ps|, offset, len) && TableFits(ps, offset, len)
    requires offset' == offset + 2 * len && len' == NextLen(offset', len)
    requires n' == if Square(ps[|ps| - 1]) < offset' + 2 * len' then 2 * |ps| else |ps|
    ensures Shape(n', offset', len') && Square(len') < 4 * offset' && offset' % 2 == 1
    ensures n' != |ps| ==> (|ps| == 1 ==> offset' == 7) && (|ps| == 2 ==> offset' == 19)
    ensures |ps| <= 2 || |ps| >= 4
    ensures offset' + 2 * len' <= offset + 6 * len
  {
    FirstTwoOddPrimes(ps);
    hide FirstOddPrimes;
    if |ps| >= 4 {
      ShapeAdvancesLarge(|ps|, ps[|ps| - 1], offset, len, offset', len', n');
      hide Square;
    }
  }

  lemma ShapeAdvancesLarge(n: nat, p: int, offset: int, len: nat, offset': int, len': nat, n': nat)
    requires n >= 4 && offset >= 19 && offset % 2 == 1 && len >= 1 && offset <= Square(len) < 4 * offset
    requires offset' == offset + 2 * len && len' == NextLen(offset', len) && n <= n'
    ensures Shape(n', offset', len') && offset' % 2 == 1 && offset' + 2 * len' <= offset + 6 * len
  {
    WindowGrowth(offset, len);
    hide Square;
  }

  /** Once the table fits, what survives the sieving of a window is what is prime. */
  lemma SievedIsMarked(ps: seq<int>, sieve: seq<bool>, offset: int, len: nat)
    requires TableFits(ps, offset, len) && offset % 2 == 1 && Struck(sieve, ps, offset, len)
    ensures Marked(sieve, offset, len)
  {
    forall k | 0 <= k < len
      ensures sieve[k] <==> IsPrime(offset + 2 * k)
    {
      SurvivorsArePrimes(ps, offset + 2 * k);
    }
  }

  /** The code's own ASSERT: the window just sieved holds a prime. */
  lemma WindowNotEmpty(sieve: seq<bool>, nprimes: nat, offset: int, len: nat, limit: int) returns (k: int)
    requires Shape(nprimes, offset, len) && Marked(sieve, offset, len)
    requires ShortGapsBelow(limit) && offset + 2 * len <= limit
    ensures 0 <= k < len && sieve[k]
  {
    SmallOddPrimes();
    if offset == 5 || offset == 7 || offset == 11 {
      k := 0;
      assert IsPrime(offset + 2 * k);
    } else {
      assert WindowHasPrime(offset, len);
      hide Shape, ShortGapsBelow, IsPrime, Square;
      var p :| offset <= p < offset + 2 * len && IsOddPrime(p);
      k := (p - offset) / 2;
      assert p == offset + 2 * k;
    }
  }

  lemma SmallOddPrimes()
    ensures IsOddPrime(3) && IsOddPrime(5) && IsOddPrime(7) && IsOddPrime(11)
    ensures !IsPrime(9)
  {
    DividesIntro(3, 3, 9);
  }

  /** When the table has to double, that many further odd primes lie below the window. */
  lemma PrimesForTable(ps: seq<int>, offset: int, len: int) returns (w: seq<int>)
    requires |ps| > 0 && FirstOddPrimes(ps)
    requires |ps| == 1 ==> offset == 7
    requires |ps| == 2 ==> offset == 19
    requires |ps| <= 2 || |ps| >= 4
    requires len >= 0 && Square(len) < 4 * offset
    requires offset <= Square(ps[|ps| - 1]) < offset + 2 * len
    requires ShortGapsBelow(offset)
    ensures |w| == |ps| && Increasing(w)
    ensures forall j :: 0 <= j < |w| ==> IsOddPrime(w[j]) && ps[|ps| - 1] < w[j] < offset
  {
    SmallOddPrimes();
    FirstTwoOddPrimes(ps);
    if |ps| == 1 {
      w := [5];
    } else if |ps| == 2 {
      w := [7, 11];
    } else {
      w := PrimesForLargeTable(ps, offset, len);
    }
  }

  lemma FirstTwoOddPrimes(ps: seq<int>)
    requires |ps| > 0 && FirstOddPrimes(ps)
    ensures ps[0] == 3 && (|ps| > 1 ==> ps[1] == 5)
  {
    SmallOddPrimes();
    TableLowerBound(ps, 0);
    assert 3 in ps;
    if |ps| > 1 {
      TableLowerBound(ps, 1);
      assert 5 in ps;
    }
  }

  lemma PrimesForLargeTable(ps: seq<int>, offset: int, len: int) returns (w: seq<int>)
    requires |ps| >= 4 && FirstOddPrimes(ps)
    requires len >= 0 && Square(len) < 4 * offset
    requires offset <= Square(ps[|ps| - 1]) < offset + 2 * len
    requires ShortGapsBelow(offset)
    ensures |w| == |ps| && Increasing(w)
    ensures forall j :: 0 <= j < |w| ==> IsOddPrime(w[j]) && ps[|ps| - 1] < w[j] < offset
  {
    var p := ps[|ps| - 1];
    TableLowerBound(ps, |ps| - 1);
    var root := WindowRoot(p, |ps|, offset, len);
    ShortGapsMonotone((root + |ps|) * (root + |ps|), offset);
    w := WindowPrimes(p + 2, root, |ps|);
  }

  lemma WindowRoot(p: int, n: int, offset: int, len: int) returns (root: nat)
    requires n >= 4 && p >= 2 * n + 3 && p % 2 == 1
    requires len >= 0 && offset <= Square(p) < offset + 2 * len && Square(len) < 4 * offset
    ensures 11 <= p + 2 <= root * root && (root + n) * (root + n) <= offset
  {
    WindowStartAfterTable(p, offset, len);
    root := (p - 3) / 2;
    assert p - 3 == 2 * root;
    SquareMonotone(root, 4, root);
    SquareMonotone(root + n, root + n, p - 3);
    SquareMonotone(p - 3, root + n, p - 3);
  }

  // ---------------------------------------------------------------- stepping through multiples

  lemma OneMultiplePerStride(p: int, base: int, i: int, k: int)
    requires p > 0 && p % 2 == 1 && Divides(p, base + 2 * i) && -p < k - i < p && k != i
    ensures !Divides(p, base + 2 * k)
  {
    if Divides(p, base + 2 * k) {
      DividesSum(p, base + 2 * k, base + 2 * i);
      OddDividesHalf(p, k - i);
      SmallMultipleIsZero(p, k - i);
    }
  }

  lemma NextMultiple(p: int, base: int, i: int)
    requires p > 0 && Divides(p, base + 2 * i)
    ensures Divides(p, base + 2 * (i + p))
  {
    DividesIntro(p, 2, 2 * p);
    DividesSum(p, base + 2 * i, 2 * p);
  }

  /** Index of the first multiple of p at or after offset, as computed from -offset mod p. */
  function FirstMultipleIndex(offset: int, p: int): (m: int)
    requires offset >= 0 && p > 0 && offset % 2 == 1 && p % 2 == 1
    ensures Carries(p, offset, m)
  {
    var r := offset % p;
    var j := if r == 0 then r else p - r;
    var even := if j % 2 != 0 then j + p else j;
    FirstMultipleIndexCorrect(offset, p, r, j, even);
    even / 2
  }

  lemma FirstMultipleIndexCorrect(offset: int, p: int, r: int, j: int, even: int)
    requires offset >= 0 && p > 0 && offset % 2 == 1 && p % 2 == 1
    requires r == offset % p && j == (if r == 0 then r else p - r)
    requires even == if j % 2 != 0 then j + p else j
    ensures Carries(p, offset, even / 2)
  {
    WholeMultiple(offset, p, r, j);
    EvenMultiple(offset, p, j, even);
  }

  lemma EvenMultiple(offset: int, p: int, j: int, even: int)
    requires p > 0 && p % 2 == 1 && 0 <= j < p && Divides(p, offset + j)
    requires even == if j % 2 != 0 then j + p else j
    ensures Carries(p, offset, even / 2)
  {
    DividesIntro(p, 1, p);
    hide Divides;
    DividesSum(p, offset + j, p);
    assert 2 * (even / 2) == even;
  }

  lemma WholeMultiple(offset: int, p: int, r: int, j: int)
    requires offset >= 0 && p > 0
    requires r == offset % p && j == (if r == 0 then r else p - r)
    ensures Divides(p, offset + j)
  {
    var q := offset / p;
    assert offset == q * p + r;
    DividesIntro(p, q, q * p);
    DividesIntro(p, 1, p);
    DividesSum(p, q * p, p);
  }

  /** Scanning a marked window from one index to the next marked one passes over no odd prime. */
  lemma ScanSkipsNoPrime(sieve: seq<bool>, offset: int, len: nat, from: int, to: int)
    requires offset % 2 == 1 && Marked(sieve, offset, len) && -1 <= from < to <= len
    requires forall k :: from < k < to ==> !sieve[k]
    ensures forall q :: IsOddPrime(q) && offset + 2 * from < q ==> offset + 2 * to <= q
    ensures to < len && sieve[to] ==> IsNextOddPrime(offset + 2 * from, offset + 2 * to)
  {
    forall q | IsOddPrime(q) && offset + 2 * from < q
      ensures offset + 2 * to <= q
    {
      var k := (q - offset) / 2;
      assert q == offset + 2 * k;
      assert 0 <= k < len ==> sieve[k];
    }
  }

  // ---------------------------------------------------------------- the sieve object

  /** Trial division by the filled part of the table, up to the square root of p. */
  method IsPrimeByTable(p: int, primes: array<int>, ghost filled: nat) returns (r: bool)
    requires 0 < filled <= primes.Length && FirstOddPrimes(primes[..filled])
    requires p % 2 == 1 && primes[filled - 1] < p < Square(primes[filled - 1])
    ensures r <==> IsPrime(p)
  {
    ghost var ps := primes[..filled];
    assert forall j :: 0 <= j < filled ==> ps[j] <= ps[filled - 1] && ps[j] >= 3;
    hide Square, IsPrime, FirstOddPrimes;
    var i := 0;
    while Square(primes[i]) <= p
      invariant 0 <= i < filled
      invariant forall j :: 0 <= j < i ==> !Divides(ps[j], p)
      decreases filled - i
    {
      if p % primes[i] == 0 {
        ProperDivisor(ps[i], p);
        return false;
      }
      i := i + 1;
    }
    RootReached(ps, i, p);
    return true;
  }

  lemma ProperDivisor(d: int, n: int)
    requires 2 <= d < n && n % d == 0
    ensures !IsPrime(n)
  {
    assert Divides(d, n);
  }

  lemma RootReached(ps: seq<int>, i: nat, p: int)
    requires FirstOddPrimes(ps) && i < |ps| && p % 2 == 1 && ps[|ps| - 1] < p < Square(ps[i])
    requires forall j :: 0 <= j < i ==> !Divides(ps[j], p)
    ensures IsPrime(p)
  {
    OddPrimeAtLeastThree(ps[i]);
    forall q | IsOddPrime(q) && q < ps[i] && q < p
      ensures !Divides(q, p)
    {
      assert q in ps;
    }
    TrialDivision(p, ps[i]);
  }

  /** The next odd prime above the last table entry; some odd prime is known to come before the table's square. */
  method NextTablePrime(primes: array<int>, filled: nat, ghost known: int) returns (p: int)
    requires 0 < filled <= primes.Length && FirstOddPrimes(primes[..filled])
    requires IsOddPrime(known) && primes[filled - 1] < known < Square(primes[filled - 1])
    ensures IsNextOddPrime(primes[filled - 1], p) && p <= known
  {
    hide Divides, IsPrime, Square, FirstOddPrimes;
    ghost var ps := primes[..filled];
    LastEntryIsOddPrime(ps);
    NextCandidate(ps[filled - 1], ps[filled - 1]);
    p := primes[filled - 1] + 2;
    var found := IsPrimeByTable(p, primes, filled);
    while !found
      invariant p % 2 == 1 && primes[filled - 1] < p <= known
      invariant found <==> IsPrime(p)
      invariant forall q :: IsOddPrime(q) && primes[filled - 1] < q ==> p <= q
      decreases known - p
    {
      NextCandidate(ps[filled - 1], p);
      p := p + 2;
      found := IsPrimeByTable(p, primes, filled);
    }
  }

  lemma LastEntryIsOddPrime(ps: seq<int>)
    requires FirstOddPrimes(ps) && |ps| > 0
    ensures IsOddPrime(ps[|ps| - 1])
  {
  }

  lemma NextCandidate(prev: int, p: int)
    requires p % 2 == 1 && (p == prev || !IsPrime(p))
    requires forall q :: IsOddPrime(q) && prev < q ==> p <= q
    ensures forall q :: IsOddPrime(q) && prev < q ==> p + 2 <= q
  {
  }

  /** Clears every entry whose number is a multiple of p, and returns the first stride past the window. */
  method StrikeMultiples(sieve: array<bool>, offset: int, len: nat, p: int, start: int) returns (i: int)
    requires sieve.Length == len + 1 && p % 2 == 1 && Carries(p, offset, start)
    modifies sieve
    ensures forall k :: 0 <= k < len ==> (sieve[k] <==> old(sieve[k]) && !Divides(p, offset + 2 * k))
    ensures sieve[len] == old(sieve[len])
    ensures Carries(p, offset + 2 * len, i - len)
  {
    hide Divides;
    i := start;
    forall k | 0 <= k < start
      ensures !Divides(p, offset + 2 * k)
    {
      OneMultiplePerStride(p, offset, start, k);
    }
    while i < len
      invariant start <= i < len + p && Divides(p, offset + 2 * i)
      invariant forall k :: 0 <= k < i && k < len ==> (sieve[k] <==> old(sieve[k]) && !Divides(p, offset + 2 * k))
      invariant forall k :: i <= k < len ==> sieve[k] == old(sieve[k])
      invariant sieve[len] == old(sieve[len])
      decreases len - i
    {
      sieve[i] := false;
      forall k | i < k < i + p
        ensures !Divides(p, offset + 2 * k)
      {
        OneMultiplePerStride(p, offset, i, k);
      }
      NextMultiple(p, offset, i);
      i := i + p;
    }
    assert offset + 2 * len + 2 * (i - len) == offset + 2 * i;
  }

  class PrimeSieve {
    var offset: int
    var current: int
    var len: nat
    var nprimes: nat
    var primes: array<int>
    var moduli: array<int>
    var sieve: array<bool>

    /** The last prime returned; -2 before the first call. */
    ghost function Last(): int
      reads this
    {
      offset + 2 * current
    }

    /** No number above this one is looked at by the next call. */
    ghost function Horizon(): int
      reads this
    {
      offset + 6 * len
    }

    ghost predicate Cleared()
      reads this
    {
      nprimes == 0 && len == 0 && offset == 0 && current == -1
    }

    /** A window has been sieved by a table that fits it, and the moduli are ready for the next one. */
    ghost predicate Sieved()
      reads this, primes, moduli, sieve
    {
      && primes.Length == nprimes && moduli.Length == nprimes && sieve.Length == len + 1
      && Shape(nprimes, offset, len)
      && TableFits(primes[..], offset, len)
      && ModuliFit(primes[..], moduli[..], offset + 2 * len)
      && Marked(sieve[..], offset, len)
    }

    ghost predicate Running()
      reads this, primes, moduli, sieve
    {
      Sieved() && -1 <= current < len && (current == -1 ==> offset == 5)
    }

    ghost predicate Valid()
      reads this, primes, moduli, sieve
    {
      primes != moduli && (Cleared() || Running())
    }

    constructor ()
      ensures Valid() && Cleared() && fresh(primes) && fresh(moduli) && fresh(sieve)
    {
      offset, current, len, nprimes := 0, -1, 0, 0;
      primes := new int[0];
      moduli := new int[0];
      sieve := new bool[0];
    }

    method Clear()
      modifies this
      ensures Valid() && Cleared() && fresh(primes) && fresh(moduli) && fresh(sieve)
    {
      offset, current, len, nprimes := 0, -1, 0, 0;
      primes := new int[0];
      moduli := new int[0];
      sieve := new bool[0];
    }

    /** First set entry after from; the sentinel bounds the search. */
    method Scan(from: int) returns (to: int)
      requires sieve.Length == len + 1 && sieve[len] && -1 <= from < len
      ensures from < to <= len && sieve[to]
      ensures forall k :: from < k < to ==> !sieve[k]
    {
      to := from + 1;
      while !sieve[to]
        invariant from < to <= len
        invariant forall k :: from < k < to ==> !sieve[k]
        decreases len - to
      {
        to := to + 1;
      }
    }

    /** First set entry of a freshly sieved window. */
    method ScanFromStart() returns (to: int)
      requires sieve.Length == len + 1 && len > 0 && Marked(sieve[..], offset, len)
      ensures 0 <= to <= len && sieve[..][to]
      ensures forall k :: 0 <= k < to ==> !sieve[..][k]
    {
      to := Scan(-1);
    }

    /** Marks the window by the table and carries the moduli over to the next window. */
    method SieveWindow()
      requires primes != moduli && primes.Length == nprimes && moduli.Length == nprimes && sieve.Length == len + 1
      requires FirstOddPrimes(primes[..]) && ModuliFit(primes[..], moduli[..], offset)
      modifies sieve, moduli
      ensures ModuliFit(primes[..], moduli[..], offset + 2 * len)
      ensures Struck(sieve[..], primes[..], offset, len)
    {
      ghost var ps, start := primes[..], moduli[..];
      assert forall l :: 0 <= l < |ps| ==> ps[l] % 2 == 1 && Carries(ps[l], offset, start[l]);
      hide Divides, NoneDivides, Carries, IsPrime, FirstOddPrimes;
      SetAll(sieve);
      NothingStruck(sieve[..], ps, offset, len);
      hide Struck, ModuliFit;
      ModuliFitEmpty(offset + 2 * len);
      assert ps[..0] == [] && moduli[..0] == [];
      var j := 0;
      while j < nprimes
        invariant 0 <= j <= nprimes
        invariant Struck(sieve[..], ps[..j], offset, len)
        invariant ModuliFit(ps[..j], moduli[..j], offset + 2 * len)
        invariant forall l :: j <= l < nprimes ==> moduli[l] == start[l]
      {
        StrikeEntry(j, ps);
        j := j + 1;
      }
      assert ps[..nprimes] == ps && moduli[..nprimes] == moduli[..];
    }

    /** Strikes the multiples of one table prime and carries its modulus. */
    method StrikeEntry(j: nat, ghost ps: seq<int>)
      requires j < primes.Length && j < moduli.Length && sieve.Length == len + 1
      requires j < |ps| && ps[j] == primes[j] && ps[j] % 2 == 1 && Carries(ps[j], offset, moduli[j])
      requires Struck(sieve[..], ps[..j], offset, len) && ModuliFit(ps[..j], moduli[..j], offset + 2 * len)
      modifies sieve, moduli
      ensures Struck(sieve[..], ps[..j + 1], offset, len) && ModuliFit(ps[..j + 1], moduli[..j + 1], offset + 2 * len)
      ensures forall l :: j < l < moduli.Length ==> moduli[l] == old(moduli[l])
    {
      hide Divides, NoneDivides, ModuliFit;
      ghost var before, ms := sieve[..], moduli[..j];
      var i := StrikeMultiples(sieve, offset, len, primes[j], moduli[j]);
      StruckByOneMore(before, sieve[..], ps, j, offset, len);
      hide Struck, Carries;
      moduli[j] := i - len;
      ModuliFitSnoc(ps, ms, j, offset + 2 * len, i - len);
      assert moduli[..j + 1] == ms + [i - len];
    }

    /** Doubles the table of small primes; the new entries get their moduli for the coming window. */
    method ExtendTable()
      requires primes != moduli && primes.Length == nprimes && moduli.Length == nprimes && nprimes > 0
      requires FirstOddPrimes(primes[..]) && ModuliFit(primes[..], moduli[..], offset)
      requires offset % 2 == 1 && primes[nprimes - 1] < offset
      requires nprimes == 1 ==> offset == 7
      requires nprimes == 2 ==> offset == 19
      requires nprimes <= 2 || nprimes >= 4
      requires Square(len) < 4 * offset
      requires offset <= Square(primes[nprimes - 1]) < offset + 2 * len
      requires ShortGapsBelow(offset)
      modifies this`primes, this`moduli, this`nprimes
      ensures fresh(primes) && fresh(moduli) && primes != moduli
      ensures primes.Length == nprimes && moduli.Length == nprimes && nprimes == 2 * old(nprimes)
      ensures TableFits(primes[..], offset, len) && ModuliFit(primes[..], moduli[..], offset)
    {
      ghost var ps, last := primes[..], primes[nprimes - 1];
      OddPrimeAtLeastThree(ps[nprimes - 1]);
      ghost var known := PrimesForTable(ps, offset, len);
      hide Divides, IsPrime, Square, FirstOddPrimes, ModuliFit, Increasing;
      nprimes := 2 * nprimes;
      primes, moduli := GrowTable(primes, moduli, offset, known);
      OneExtensionSuffices(last, primes[nprimes - 1], offset, len);
    }

    /** The state in which the first call leaves the sieve. */
    method Initialize()
      requires nprimes == 0
      modifies this
      ensures Running() && fresh(primes) && fresh(moduli) && fresh(sieve) && primes != moduli
      ensures offset == 5 && current == -1
    {
      nprimes := 1;
      primes := new int[1];
      moduli := new int[1];
      len := 1;
      sieve := new bool[2];
      offset := 5;
      sieve[0] := true;
      sieve[1] := true;
      primes[0] := 3;
      moduli[0] := 1;
      current := -1;
      hide FirstOddPrimes, TableFits, ModuliFit, Marked;
      FirstTable();
      OneEntry(primes);
      OneEntry(moduli);
      TwoEntries(sieve);
    }

    /** Moves the window on by its length; a window that is too short is replaced by one of twice the length. */
    method SlideWindow()
      requires sieve.Length == len + 1
      modifies this`offset, this`len, this`sieve
      ensures offset == old(offset) + 2 * old(len) && len == NextLen(offset, old(len))
      ensures sieve.Length == len + 1 && (sieve == old(sieve) || fresh(sieve))
    {
      offset := offset + 2 * len;
      if Square(len) < offset && len > 0 {
        len := 2 * len;
        sieve := new bool[len + 1];
      }
    }

    /** Doubles the table when its last prime is below the square root of the window's end. */
    method FitTable(ghost offset0: int, ghost len0: nat)
      requires primes != moduli && primes.Length == nprimes && moduli.Length == nprimes
      requires Shape(nprimes, offset0, len0) && TableFits(primes[..], offset0, len0)
      requires offset == offset0 + 2 * len0 && len == NextLen(offset, len0)
      requires ModuliFit(primes[..], moduli[..], offset) && ShortGapsBelow(offset0 + 6 * len0)
      modifies this`primes, this`moduli, this`nprimes
      ensures (primes == old(primes) && moduli == old(moduli)) || (fresh(primes) && fresh(moduli) && primes != moduli)
      ensures primes.Length == nprimes && moduli.Length == nprimes
      ensures Shape(nprimes, offset, len) && TableFits(primes[..], offset, len)
      ensures ModuliFit(primes[..], moduli[..], offset)
      ensures offset % 2 == 1 && offset + 2 * len <= offset0 + 6 * len0
    {
      ghost var ps := primes[..];
      ghost var n' := if Square(ps[nprimes - 1]) < offset + 2 * len then 2 * nprimes else nprimes;
      ShapeAdvances(ps, offset0, len0, offset, len, n');
      hide ModuliFit, FirstOddPrimes, Shape;
      if Square(primes[nprimes - 1]) < offset + 2 * len {
        ShortGapsMonotone(offset, offset0 + 6 * len0);
        ExtendTable();
      }
    }

    /** The next window, marked. */
    method AdvanceWindow()
      requires primes != moduli && Sieved() && ShortGapsBelow(Horizon())
      modifies this, primes, moduli, sieve
      ensures (primes == old(primes) && moduli == old(moduli)) || (fresh(primes) && fresh(moduli) && primes != moduli)
      ensures sieve == old(sieve) || fresh(sieve)
      ensures Sieved() && offset == old(offset) + 2 * old(len)
      ensures offset + 2 * len <= old(Horizon()) && offset % 2 == 1
    {
      hide Divides, IsPrime, ModuliFit, Marked, Shape, FirstOddPrimes;
      ghost var offset0, len0 := offset, len;
      SlideWindow();
      FitTable(offset0, len0);
      SieveWindow();
      SievedIsMarked(primes[..], sieve[..], offset, len);
    }

    /** Sieves the next window and stops at its first prime. */
    method FirstOfNextWindow() returns (p: int)
      requires primes != moduli && Sieved() && ShortGapsBelow(Horizon())
      modifies this, primes, moduli, sieve
      ensures Valid()
      ensures (primes == old(primes) && moduli == old(moduli)) || (fresh(primes) && fresh(moduli))
      ensures sieve == old(sieve) || fresh(sieve)
      ensures p == Last() && IsNextOddPrime(old(offset + 2 * len) - 2, p)
    {
      hide Divides, IsPrime, FirstOddPrimes, ModuliFit, Marked, TableFits, Shape;
      ghost var horizon := Horizon();
      AdvanceWindow();
      ghost var k := WindowNotEmpty(sieve[..], nprimes, offset, len, horizon);
      current := ScanFromStart();
      ScanSkipsNoPrime(sieve[..], offset, len, -1, current);
      p := offset + 2 * current;
    }

    /** Moves current on within the window; no odd prime lies between. */
    method ScanOn()
      requires primes != moduli && Running()
      modifies this`current
      ensures old(current) < current <= len
      ensures forall q :: IsOddPrime(q) && old(Last()) < q ==> Last() <= q
      ensures current < len ==> IsNextOddPrime(old(Last()), Last())
    {
      assert sieve[..][len] && offset % 2 == 1;
      hide Divides, IsPrime, FirstOddPrimes, ModuliFit, Marked, TableFits, Shape;
      current := Scan(current);
      ScanSkipsNoPrime(sieve[..], offset, len, old(current), current);
    }

    /** The next odd prime after the last one returned. */
    method GetPrime() returns (p: int)
      requires Valid() && ShortGapsBelow(Horizon())
      modifies this, primes, moduli, sieve
      ensures Valid()
      ensures (primes == old(primes) && moduli == old(moduli)) || (fresh(primes) && fresh(moduli))
      ensures sieve == old(sieve) || fresh(sieve)
      ensures p == Last() && IsNextOddPrime(old(Last()), p)
      ensures 3 <= p && Horizon() <= 7 * p
    {
      FirstOddPrime();
      assert nprimes == 0 ==> Cleared();
      hide Divides, IsPrime, FirstOddPrimes, ModuliFit, Marked, TableFits, Shape;
      if len > 0 {
        ScanOn();
      } else {
        current := len;
      }
      if current < len {
        HorizonBound(nprimes, offset, len);
        return offset + 2 * current;
      }
      if nprimes == 0 {
        Initialize();
        return 3;
      }
      p := FirstOfNextWindow();
      HorizonBound(nprimes, offset, len);
    }
  }

  lemma HorizonBound(nprimes: int, offset: int, len: nat)
    requires Shape(nprimes, offset, len)
    ensures 5 <= offset && len <= offset
  {
    if nprimes >= 4 {
      WindowGrowth(offset, len);
    }
  }

  lemma OneEntry(a: array<int>)
    requires a.Length == 1
    ensures a[..] == [a[0]]
  {
  }

  lemma TwoEntries(a: array<bool>)
    requires a.Length == 2
    ensures a[..] == [a[0], a[1]]
  {
  }

  lemma FirstTable()
    ensures TableFits([3], 5, 1) && ModuliFit([3], [1], 7) && Marked([true, true], 5, 1)
  {
    SmallOddPrimes();
    DividesIntro(3, 3, 9);
    var table := [3];
    forall q | IsOddPrime(q) && q <= 3
      ensures q in table
    {
      OddPrimeAtLeastThree(q);
    }
  }

  lemma FirstOddPrime()
    ensures IsNextOddPrime(-2, 3)
  {
    SmallOddPrimes();
  }

  /** A table of twice the length that starts with the old entries. */
  method GrowTable(primes: array<int>, moduli: array<int>, offset: int, ghost known: seq<int>)
    returns (primes': array<int>, moduli': array<int>)
    requires primes.Length == moduli.Length == |known| && primes.Length > 0
    requires FirstOddPrimes(primes[..]) && ModuliFit(primes[..], moduli[..], offset)
    requires 3 <= primes[primes.Length - 1] < offset && offset <= Square(primes[primes.Length - 1])
    requires offset % 2 == 1 && Increasing(known)
    requires forall j :: 0 <= j < |known| ==> IsOddPrime(known[j]) && primes[primes.Length - 1] < known[j] < offset
    ensures fresh(primes') && fresh(moduli') && primes' != moduli'
    ensures primes'.Length == moduli'.Length == 2 * primes.Length
    ensures FirstOddPrimes(primes'[..]) && ModuliFit(primes'[..], moduli'[..], offset)
    ensures primes[primes.Length - 1] + 2 <= primes'[primes'.Length - 1] < offset
  {
    hide Divides, IsPrime, Square, FirstOddPrimes, ModuliFit, Increasing;
    var n := primes.Length;
    primes' := Reallocate(primes, 2 * n);
    moduli' := Reallocate(moduli, 2 * n);
    assert primes'[n - 1] == primes'[..n][n - 1];
    FillTable(primes', moduli', n, offset, known);
    assert primes'[..2 * n] == primes'[..] && moduli'[..2 * n] == moduli'[..];
  }

  /** Fills the upper half of the table with the odd primes that follow, all below offset. */
  method FillTable(primes: array<int>, moduli: array<int>, n: nat, offset: int, ghost known: seq<int>)
    requires primes != moduli && n > 0 && primes.Length == 2 * n && moduli.Length == 2 * n && |known| == n
    requires FirstOddPrimes(primes[..n]) && ModuliFit(primes[..n], moduli[..n], offset)
    requires 3 <= primes[n - 1] < offset && offset <= Square(primes[n - 1]) && offset % 2 == 1 && Increasing(known)
    requires forall j :: 0 <= j < n ==> IsOddPrime(known[j]) && primes[n - 1] < known[j] < offset
    modifies primes, moduli
    ensures FirstOddPrimes(primes[..2 * n]) && ModuliFit(primes[..2 * n], moduli[..2 * n], offset)
    ensures old(primes[n - 1]) + 2 <= primes[2 * n - 1] < offset
  {
    hide Divides, IsPrime, FirstOddPrimes, ModuliFit, Square;
    ghost var last := primes[n - 1];
    var i := n;
    while i < 2 * n
      invariant n <= i <= 2 * n
      invariant FirstOddPrimes(primes[..i]) && ModuliFit(primes[..i], moduli[..i], offset)
      invariant last <= primes[i - 1] < offset
      invariant i < 2 * n ==> primes[i - 1] < known[i - n]
      invariant i > n ==> last + 2 <= primes[i - 1]
    {
      AppendPrime(primes, moduli, i, offset, last, known[i - n]);
      i := i + 1;
    }
  }

  /** Adds the next odd prime to the filled part of the table, with its modulus. */
  method AppendPrime(primes: array<int>, moduli: array<int>, i: nat, offset: int, ghost last: int, ghost known: int)
    requires primes != moduli && 0 < i < primes.Length && i < moduli.Length
    requires FirstOddPrimes(primes[..i]) && ModuliFit(primes[..i], moduli[..i], offset)
    requires 3 <= last <= primes[i - 1] < known < offset <= Square(last) && offset % 2 == 1 && IsOddPrime(known)
    modifies primes, moduli
    ensures FirstOddPrimes(primes[..i + 1]) && ModuliFit(primes[..i + 1], moduli[..i + 1], offset)
    ensures last + 2 <= primes[i] <= known
  {
    hide Divides, IsPrime, Square;
    ghost var ps, ms := primes[..i], moduli[..i];
    EntryAboveTable(ps, last, known, offset);
    var p := NextTablePrime(primes, i, known);
    ExtendFirstOddPrimes(ps, p);
    ExtendModuli(ps, ms, offset, p);
    EntryGap(ps, p);
    hide FirstOddPrimes, ModuliFit, IsNextOddPrime;
    var m := FirstMultipleIndex(offset, p);
    primes[i] := p;
    moduli[i] := m;
    assert primes[..i + 1] == ps + [p] && moduli[..i + 1] == ms + [m];
  }

  lemma ModuliFitEmpty(base: int)
    ensures ModuliFit([], [], base)
  {
  }

  lemma ModuliFitSnoc(ps: seq<int>, ms: seq<int>, j: nat, base: int, m: int)
    requires j < |ps| && ModuliFit(ps[..j], ms, base) && Carries(ps[j], base, m)
    ensures ModuliFit(ps[..j + 1], ms + [m], base)
  {
    hide Carries;
    assert ps[..j + 1] == ps[..j] + [ps[j]];
  }

  lemma NothingStruck(sieve: seq<bool>, ps: seq<int>, offset: int, len: nat)
    requires |sieve| == len + 1 && forall k :: 0 <= k < |sieve| ==> sieve[k]
    ensures Struck(sieve, ps[..0], offset, len)
  {
  }

  lemma StruckByOneMore(before: seq<bool>, after: seq<bool>, ps: seq<int>, j: nat, offset: int, len: nat)
    requires j < |ps| && Struck(before, ps[..j], offset, len) && |after| == len + 1 && after[len]
    requires forall k :: 0 <= k < len ==> (after[k] <==> before[k] && !Divides(ps[j], offset + 2 * k))
    ensures Struck(after, ps[..j + 1], offset, len)
  {
    hide Divides, NoneDivides;
    forall k | 0 <= k < len
      ensures after[k] <==> NoneDivides(ps[..j + 1], offset + 2 * k)
    {
      NoneDividesSnoc(ps, j, offset + 2 * k);
    }
  }

  lemma EntryGap(ps: seq<int>, p: int)
    requires |ps| > 0 && FirstOddPrimes(ps) && IsNextOddPrime(ps[|ps| - 1], p)
    ensures p % 2 == 1 && p >= ps[|ps| - 1] + 2
  {
    assert IsOddPrime(ps[|ps| - 1]);
  }

  lemma EntryAboveTable(ps: seq<int>, last: int, known: int, offset: int)
    requires |ps| > 0 && FirstOddPrimes(ps) && 3 <= last <= ps[|ps| - 1] < known < offset <= Square(last)
    ensures known < Square(ps[|ps| - 1])
  {
    SquareMonotone(last, last, ps[|ps| - 1]);
    SquareMonotone(ps[|ps| - 1], last, ps[|ps| - 1]);
  }

  lemma ExtendModuli(ps: seq<int>, ms: seq<int>, offset: int, p: int)
    requires ModuliFit(ps, ms, offset) && offset >= 0 && offset % 2 == 1 && IsOddPrime(p)
    ensures ModuliFit(ps + [p], ms + [FirstMultipleIndex(offset, p)], offset)
  {
  }

  method Reallocate(a: array<int>, n: nat) returns (b: array<int>)
    requires a.Length <= n
    ensures fresh(b) && b.Length == n && b[..a.Length] == a[..]
  {
    b := new int[n];
    forall i | 0 <= i < a.Length {
      b[i] := a[i];
    }
  }

  method SetAll(a: array<bool>)
    modifies a
    ensures forall k :: 0 <= k < a.Length ==> a[k]
  {
    var i := 0;
    while i < a.Length
      invariant 0 <= i <= a.Length
      invariant forall k :: 0 <= k < i ==> a[k]
    {
      a[i] := true;
      i := i + 1;
    }
  }

  lemma NoneDividesSnoc(ps: seq<int>, j: nat, v: int)
    requires j < |ps|
    ensures NoneDivides(ps[..j + 1], v) <==> NoneDivides(ps[..j], v) && !Divides(ps[j], v)
  {
    var longer, shorter := ps[..j + 1], ps[..j];
    assert forall i :: 0 <= i < j ==> longer[i] == shorter[i];
    assert longer[j] == ps[j];
  }
}
