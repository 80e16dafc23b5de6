/**
 * The operators of the power level and phi as mathematics has them, with no value where they have none, and exactly
 * when the machine words of source/eval.c compute them.
 */
module OperatorMeaning {
  import opened Wrappers
  import opened Arithmetic
  import opened Primes
  import opened CyclotomicValues
  import opened PrimeProducts
  import opened PhiValues
  import opened ExpressionMachine
  import opened ExpressionGrammar

  /** Powers with natural exponents, factorials of natural numbers, products of primes; '\0' is no operator. */
  ghost function MathPower(op: char, prior: int, n: int): Option<int> {
    if op == '^' then if n >= 0 then Some(Pow(prior, n)) else None
    else if op == '!' then if n >= 0 then Some(Factorial(n)) else None
    else if op == '@' then if prior >= 0 && n >= 1 then Some(MultiFactorial(prior, n)) else None
    else if op == '#' then Some(PrimeProduct(2, n))
    else if op == '$' then Some(PrimeProduct(n, prior))
    else Some(n)
  }

  /** The b-th cyclotomic polynomial at n; its value at -1 is not part of the model. */
  ghost function MathPhi(b: int, n: int): Option<int> {
    if b < 1 || n == -1 then None
    else if n == 1 then Some(CyclotomicAtOne(b))
    else Some(Cyclotomic(n, b))
  }

  /** What the machine makes of its words is what mathematics says. */
  predicate PowerInWords(op: char, prior: int, n: int) {
    if op == '^' then n < WORD || prior == 1 || prior == -1 || (prior == 0 && n % WORD != 0)
    else if op == '!' then n < WORD
    else if op == '@' then prior <= 1 || (prior < LONG_LIMIT && n < WORD && prior - n >= -LONG_LIMIT)
    else if op == '#' then n < LONG_LIMIT
    else if op == '$' then prior < 2 || (prior < LONG_LIMIT && 3 <= n < WORD)
    else true
  }

  /** The operands of the two-place ! and # fit a long and an unsigned long; for the others nothing is asked. */
  predicate OperandsFit(op: char, prior: int, n: int) {
    op == '@' || op == '$' ==> -LONG_LIMIT <= prior < LONG_LIMIT && -WORD < n < WORD
  }

  // ---------------------------------------------------------------- powers

  lemma {:induction false} PowerSizes(x: int, n: nat)
    requires x >= 2 || x <= -2
    ensures n > 0 ==> SizeOf(Pow(x, n)) > SizeOf(Pow(x, n - 1))
    ensures SizeOf(Pow(x, n)) >= 1
  {
    if n > 0 {
      PowerSizes(x, n - 1);
      SizeTimes(x, Pow(x, n - 1));
    }
  }

  function SizeOf(a: int): nat {
    if a < 0 then -a else a
  }

  lemma SizeTimes(x: int, y: int)
    requires SizeOf(x) >= 2 && SizeOf(y) >= 1
    ensures SizeOf(x * y) > SizeOf(y)
  {
    if y > 0 {
      ProductSize(x, y);
    } else {
      assert x * y == (-x) * (-y);
      ProductSize(-x, -y);
    }
  }

  lemma {:induction false} PowersDiffer(x: int, a: nat, b: nat)
    requires (x >= 2 || x <= -2) && a < b
    ensures SizeOf(Pow(x, a)) < SizeOf(Pow(x, b))
    decreases b
  {
    PowerSizes(x, b);
    if a < b - 1 {
      PowersDiffer(x, a, b - 1);
    }
  }

  lemma {:induction false} UnitPowers(n: nat)
    ensures Pow(1, n) == 1 && Pow(-1, n) == (if n % 2 == 0 then 1 else -1) && Pow(0, n) == (if n == 0 then 1 else 0)
  {
    if n > 0 {
      UnitPowers(n - 1);
    }
  }

  lemma PowerExactly(prior: int, n: nat)
    ensures Pow(prior, n % WORD) == Pow(prior, n) <==> PowerInWords('^', prior, n)
  {
    var m := n % WORD;
    if n >= WORD {
      assert m < n && m % 2 == n % 2;
      if prior >= 2 || prior <= -2 {
        PowersDiffer(prior, m, n);
      } else {
        UnitPowers(m);
        UnitPowers(n);
      }
    }
  }

  // ---------------------------------------------------------------- factorials

  lemma {:induction false} FactorialsGrow(a: nat, b: nat)
    requires 1 <= a < b
    ensures Factorial(a) >= 1 && Factorial(b) > Factorial(a) && Factorial(b) >= b
    decreases b
  {
    if a + 1 < b {
      FactorialsGrow(a, b - 1);
    } else {
      FactorialPositive(a);
    }
    FactorialPositive(b - 1);
    ProductSize(b, Factorial(b - 1));
    ProductSize(Factorial(b - 1), b);
  }

  lemma {:induction false} FactorialPositive(n: nat)
    ensures Factorial(n) >= 1
  {
    if n > 0 {
      FactorialPositive(n - 1);
      ProductSize(n, Factorial(n - 1));
    }
  }

  lemma FactorialExactly(n: nat)
    ensures Factorial(n % WORD) == Factorial(n) <==> PowerInWords('!', n, n)
  {
    var m := n % WORD;
    if n >= WORD {
      if m == 0 {
        FactorialsGrow(1, n);
      } else {
        FactorialsGrow(m, n);
      }
      hide Factorial;
      assert Factorial(0) == Factorial(1) == 1 by {
        FirstFactorials();
      }
    }
  }

  lemma FirstFactorials()
    ensures Factorial(0) == Factorial(1) == 1
  {
  }

  // ---------------------------------------------------------------- products of primes

  lemma {:induction false} PrimeProductGrows(lo: int, a: int, b: int)
    requires a <= b
    ensures 1 <= PrimeProduct(lo, a) <= PrimeProduct(lo, b)
    decreases b - a
  {
    if a < b {
      PrimeProductGrows(lo, a, b - 1);
      if b >= 2 {
        ProductSize(b, PrimeProduct(lo, b - 1));
      }
    } else {
      PrimeProductPositive(lo, a);
    }
  }

  /** A prime in between makes the product larger, and the product is at least that prime. */
  lemma PrimeInBetween(lo: int, a: int, q: int, b: int)
    requires IsPrime(q) && lo <= q && a < q <= b
    ensures PrimeProduct(lo, a) < PrimeProduct(lo, b) && q <= PrimeProduct(lo, b)
  {
    PrimeProductGrows(lo, a, q - 1);
    PrimeProductGrows(lo, q, b);
    var p := PrimeProduct(lo, q - 1);
    assert PrimeProduct(lo, q) == q * p;
    ProductSize(q, p);
    ProductSize(p, q);
  }

  /** Between two words that far apart lies a prime. */
  lemma PrimeBeyondWord(m: int, n: int) returns (q: int)
    requires ShortGaps() && 0 <= m < LONG_LIMIT && n >= m + LONG_LIMIT
    ensures IsPrime(q) && m < q <= n
  {
    var x := if m < 11 then 11 else if m % 2 == 0 then m + 1 else m + 2;
    var len := 0x1_0000_0000;
    assert ShortGapsBelow(x + 2 * len);
    assert x <= len * len;
    assert WindowHasPrime(x, len);
    q :| x <= q < x + 2 * len && IsOddPrime(q);
  }

  /** Which part of a number mpz_get_si keeps. */
  lemma SignedWord(n: int)
    ensures n < 0 ==> GetSi(n) < 0
    ensures 0 <= n < LONG_LIMIT ==> GetSi(n) == n
    ensures n >= LONG_LIMIT ==> 0 <= GetSi(n) < LONG_LIMIT && n - GetSi(n) >= LONG_LIMIT
  {
  }

  lemma NothingBelowTwo(lo: int, hi: int)
    requires hi < 2
    ensures PrimeProduct(lo, hi) == 1
  {
  }

  lemma PrimorialExactly(n: int)
    requires ShortGaps()
    ensures PrimeProduct(2, GetSi(n)) == PrimeProduct(2, n) <==> PowerInWords('#', n, n)
  {
    SignedWord(n);
    hide ShortGaps, PrimeProduct, GetSi;
    if n >= LONG_LIMIT {
      var q := PrimeBeyondWord(GetSi(n), n);
      PrimeInBetween(2, GetSi(n), q, n);
    } else if n < 0 {
      NothingBelowTwo(2, n);
      NothingBelowTwo(2, GetSi(n));
    }
  }

  lemma FittingWords(prior: int, n: int)
    requires -LONG_LIMIT <= prior < LONG_LIMIT && -WORD < n < WORD
    ensures GetSi(prior) == prior && GetUi(n) == SizeOf(n)
  {
  }

  lemma ReducedPrimorialExactly(prior: int, n: int)
    requires OperandsFit('$', prior, n)
    ensures PrimeProduct(if GetUi(n) < 3 then 3 else GetUi(n), GetSi(prior)) == PrimeProduct(n, prior)
       <==> PowerInWords('$', prior, n)
  {
    hide PrimeProduct, GetSi, GetUi;
    FittingWords(prior, n);
    var lo := if GetUi(n) < 3 then 3 else GetUi(n);
    if prior < 2 {
      NothingBelowTwo(lo, prior);
      NothingBelowTwo(n, prior);
    } else if n < 3 {
      LowerStart(3, lo, prior);
      FactorTwo(n, prior);
      PrimeProductPositive(3, prior);
    }
  }

  lemma {:induction false} LowerStart(lo: int, lo': int, hi: int)
    requires lo <= lo'
    ensures PrimeProduct(lo', hi) <= PrimeProduct(lo, hi)
    decreases hi
  {
    if hi >= 2 {
      LowerStart(lo, lo', hi - 1);
      PrimeProductPositive(lo', hi - 1);
      TimesGrows(hi, PrimeProduct(lo', hi - 1), PrimeProduct(lo, hi - 1));
    }
  }

  lemma TimesGrows(q: int, small: int, large: int)
    requires 0 < small <= large && q >= 1
    ensures small <= q * small <= q * large && large <= q * large
  {
    ProductSize(q, small);
    ProductSize(q, large);
    SquareMonotone(q, small, large);
  }

  // ---------------------------------------------------------------- multi-factorials on machine words

  /** The multi-factorial loop on machine words is the multi-factorial unless the first subtraction wraps around. */
  lemma {:induction false} WordsGiveMultiFactorial(n: int, d: int)
    requires 1 <= d < WORD && -LONG_LIMIT <= n < LONG_LIMIT
    ensures MultiFactorialWords(n, d) == MultiFactorial(n, d) <==> n <= 1 || n - d >= -LONG_LIMIT
    ensures n > 1 ==> MultiFactorialWords(n, d) >= n
    decreases if n <= 1 then 0 else 1, if d <= LONG_LIMIT then n + LONG_LIMIT else LONG_LIMIT - n
  {
    if n > 1 {
      if n - d > 1 {
        WordsGiveMultiFactorial(n - d, d);
        ProductSize(n, MultiFactorialWords(n - d, d));
      } else if n - d < -LONG_LIMIT {
        WrappedStep(n, d);
      }
    }
  }

  lemma {:induction false} WrappedStep(n: int, d: int)
    requires n > 1
    requires 1 <= d < WORD && n < LONG_LIMIT && n - d < -LONG_LIMIT
    ensures MultiFactorialWords(n, d) > n && MultiFactorial(n, d) == n
  {
    assert WrapLong(n - d) == n - d + WORD;
    WordsPositive(WrapLong(n - d), d);
    ProductSize(MultiFactorialWords(WrapLong(n - d), d), n);
  }

  lemma {:induction false} WordsPositive(n: int, d: int)
    requires 1 <= d < WORD && -LONG_LIMIT <= n < LONG_LIMIT
    ensures MultiFactorialWords(n, d) >= 1 && (n > 1 ==> MultiFactorialWords(n, d) >= 2)
    decreases if d <= LONG_LIMIT then n + LONG_LIMIT else LONG_LIMIT - n, if n <= 1 then 0 else 1
  {
    if n > 1 && WrapLong(n - d) > 1 {
      WordsPositive(WrapLong(n - d), d);
      ProductSize(MultiFactorialWords(WrapLong(n - d), d), n);
    }
  }

  // ---------------------------------------------------------------- all of them

  /** Whatever the operands, in words the machine's operator is the mathematical one. */
  lemma InWordsIsExact(op: char, prior: int, n: int)
    requires MathPower(op, prior, n).Some? && PowerInWords(op, prior, n)
    ensures Done(EvalPower(op, prior, n)) == MathPower(op, prior, n)
  {
    if op == '^' {
      PowerExactly(prior, n);
    } else if op == '!' {
      assert GetUi(n) == n;
    } else if op == '@' {
      MultiFactorialInWords(prior, n);
    } else if op == '#' {
      BelowWord(n);
    } else if op == '$' {
      ReducedInWords(prior, n);
    }
  }

  lemma MultiFactorialInWords(prior: int, n: int)
    requires prior >= 0 && n >= 1 && PowerInWords('@', prior, n)
    ensures EvalPower('@', prior, n) == Ok(MultiFactorial(prior, n))
  {
    if prior <= 1 {
      assert GetSi(prior) == prior;
    } else {
      assert GetSi(prior) == prior && GetUi(n) == n;
      WordsGiveMultiFactorial(prior, n);
    }
  }

  lemma BelowWord(n: int)
    requires n < LONG_LIMIT
    ensures PrimeProduct(2, GetSi(n)) == PrimeProduct(2, n)
  {
    SignedWord(n);
    if n < 0 {
      NothingBelowTwo(2, n);
      NothingBelowTwo(2, GetSi(n));
    }
  }

  lemma ReducedInWords(prior: int, n: int)
    requires PowerInWords('$', prior, n)
    ensures PrimeProduct(if GetUi(n) < 3 then 3 else GetUi(n), GetSi(prior)) == PrimeProduct(n, prior)
  {
    SignedWord(prior);
    if prior < 2 {
      NothingBelowTwo(n, prior);
      NothingBelowTwo(if GetUi(n) < 3 then 3 else GetUi(n), GetSi(prior));
    } else {
      assert GetUi(n) == n;
    }
  }

  /**
   * Exactly then, for every operand of ^, ! and #, and for those of the two-place ! and # that fit their words. That a
   * primorial beyond the word is missed needs a prime there, which the prime gap assumption gives.
   */
  lemma WordsExactly(op: char, prior: int, n: int)
    requires MathPower(op, prior, n).Some? && OperandsFit(op, prior, n) && ShortGaps()
    ensures Done(EvalPower(op, prior, n)) == MathPower(op, prior, n) <==> PowerInWords(op, prior, n)
  {
    hide ShortGaps;
    if op == '^' {
      PowerExactly(prior, n);
    } else if op == '!' {
      FactorialExactly(n);
    } else if op == '@' {
      MultiFactorialExactly(prior, n);
    } else if op == '#' {
      PrimorialExactly(n);
    } else if op == '$' {
      ReducedPrimorialExactly(prior, n);
    }
  }

  lemma MultiFactorialExactly(prior: int, n: int)
    requires prior >= 0 && n >= 1 && OperandsFit('@', prior, n)
    ensures EvalPower('@', prior, n) == Ok(MultiFactorial(prior, n)) <==> PowerInWords('@', prior, n)
  {
    FittingWords(prior, n);
    hide GetSi, GetUi;
    if prior > 1 {
      WordsGiveMultiFactorial(prior, n);
    }
  }

  /** Where mathematics has no value the machine may still have one: it drops the sign of exponents and factorials. */
  lemma SignsAreDropped(x: int, n: int)
    requires -WORD < n < 0
    ensures MathPower('^', x, n) == None && EvalPower('^', x, n) == Ok(Pow(x, -n))
    ensures MathPower('!', x, n) == None && EvalPower('!', x, n) == Ok(Factorial(-n))
  {
    assert GetUi(n) == -n;
  }

  /** For b below 2^31, or at 1 for an exact answer of the prime test, the code's phi against the mathematical one. */
  lemma PhiExactly(b: int, n: int, pp: int -> bool)
    requires MathPhi(b, n).Some? && (pp(b) <==> IsPrime(b))
    ensures Phi(b, n, pp) == PhiValue(MathPhi(b, n).value)
       <==> if n == 1 then IsPrime(b) || (b != 1 && !PrimePower(b)) else b < INT_LIMIT
  {
    if n == 1 {
      PhiAtOne(b);
    } else if b == 1 {
      CyclotomicOfOne(n);
    }
  }

  lemma CyclotomicOfOne(n: int)
    ensures Cyclotomic(n, 1) == n - 1
  {
    var f := PowerMinusOne(n);
    assert ProperProduct(f, 1, 0) == 1;
    assert Pow(n, 1) == n * Pow(n, 0) == n;
  }
}
