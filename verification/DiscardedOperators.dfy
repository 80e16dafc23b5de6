/**
 * Every shape of a chain in which a bare suffix stands behind something else than the first operand has numbers on
 * which eval_2 (source/eval.c) computes another value than the intended one.
 */
module DiscardedOperators {
  import opened Wrappers
  import opened Arithmetic
  import opened Primes
  import opened CyclotomicValues
  import opened PrimeProducts
  import opened ExpressionMachine
  import opened ExpressionGrammar
  import opened OperatorMeaning
  import opened ExpressionMeaning

  /** The same operators in the same places. */
  predicate SameShape(c: Chain, d: Chain) {
    match (c, d)
    case (First(_), First(_)) => true
    case (Binary(l, op, _), Binary(m, op', _)) => op == op' && SameShape(l, m)
    case (Bare(l, op), Bare(m, op')) => op == op' && SameShape(l, m)
    case _ => false
  }

  predicate SuffixOnFirstOnly(c: Chain) {
    match c
    case First(_) => true
    case Binary(left, _, _) => SuffixOnFirstOnly(left)
    case Bare(left, _) => left.First?
  }

  predicate HasBinary(c: Chain) {
    match c
    case First(_) => false
    case Binary(_, _, _) => true
    case Bare(left, _) => HasBinary(left)
  }

  /** The chain consists of numbers, the machine's value is v and the intended one is w. */
  ghost predicate Computes(c: Chain, pp: int -> bool, v: int, w: int) {
    && WellFormedChain(c) && ChainState(c, pp).Some?
    && ChainValue(c, pp) == Some(v) && ChainMeaning(c, MathOps()) == Some(w)
  }

  function Digit(d: nat): Signed
    requires d < 10
  {
    NumberOperand(false, ['0' + d as char])
  }

  lemma DigitReads(d: nat, pp: int -> bool)
    requires d < 10
    ensures WellFormedSigned(Digit(d)) && SignedValue(Digit(d), pp) == Some(d)
    ensures SignedMeaning(Digit(d), MathOps()) == Some(d)
  {
    var s := ['0' + d as char];
    assert s[..0] == "" && s[0] == '0' + d as char;
    assert Numeral(s, 10) == d;
  }

  // ---------------------------------------------------------------- the operators on the numbers chosen

  /** On 1 every operator gives 1. */
  lemma OnOne(op: char, d: nat)
    requires op == '^' || op == '@' || op == '$' || op == '!' || op == '#'
    requires (op == '^' ==> d == 1) && 1 <= d < 10
    ensures EvalPower(op, 1, if op == '!' || op == '#' then 1 else d) == Ok(1)
  {
    FittingWords(1, d);
    assert PrimeProduct(3, 1) == PrimeProduct(d, 1) == PrimeProduct(2, 1) == 1;
    assert Pow(1, 0) == 1 && Factorial(0) == 1;
    assert GetUi(1) == 1;
  }

  lemma SmallPrimes()
    ensures IsPrime(2) && IsPrime(3) && IsPrime(5) && IsPrime(7)
  {
  }

  /** A suffix does not make a number of at least three smaller, and lifts one of at least six to thirty. */
  lemma SuffixGrows(op: char, u: int)
    requires (op == '!' || op == '#') && u >= 3
    ensures
      var w := MathPower(op, u, u);
      w.Some? && w.value >= 3 && (op == '!' ==> w.value >= u) && w.value >= 6 && (u >= 6 ==> w.value >= 30)
  {
    if op == '!' {
      FactorialsGrow(2, u);
      FactorialAtLeast(u);
    } else {
      PrimorialAtLeast(u);
    }
  }

  lemma FactorialAtLeast(u: nat)
    requires u >= 3
    ensures Factorial(u) >= 6 && (u >= 6 ==> Factorial(u) >= 30)
  {
    SmallFactorials();
    if u > 6 {
      FactorialsGrow(6, u);
    } else if u > 3 {
      FactorialsGrow(3, u);
    }
  }

  lemma SmallFactorials()
    ensures Factorial(3) == 6 && Factorial(6) == 720
  {
    assert Factorial(4) == 24 && Factorial(5) == 120;
  }

  lemma PrimorialAtLeast(u: int)
    requires u >= 3
    ensures PrimeProduct(2, u) >= 6 && (u >= 6 ==> PrimeProduct(2, u) >= 30)
  {
    SmallPrimorials();
    PrimeProductGrows(2, 3, u);
    if u >= 6 {
      PrimeProductGrows(2, 6, u);
    }
  }

  lemma SmallPrimorials()
    ensures PrimeProduct(2, 1) == 1 && PrimeProduct(2, 3) == 6 && PrimeProduct(2, 6) == 30 && PrimeProduct(7, 6) == 1
  {
    SmallPrimes();
    NotPrime(4, 2);
    NotPrime(6, 2);
    assert PrimeProduct(2, 2) == 2 && PrimeProduct(2, 4) == 6 && PrimeProduct(2, 5) == 30;
    assert PrimeProduct(7, 1) == PrimeProduct(7, 2) == PrimeProduct(7, 3) == 1;
    assert PrimeProduct(7, 4) == PrimeProduct(7, 5) == 1;
  }

  lemma NotPrime(n: int, d: int)
    requires 2 <= d < n && n % d == 0
    ensures !IsPrime(n)
  {
    assert Divides(d, n);
  }

  /** With a step of one to five the product of n, n-m and so on is at least n. */
  lemma {:induction false} MultiFactorialAtLeast(u: int, d: nat)
    requires u >= 1 && d >= 1
    ensures MultiFactorial(u, d) >= u
  {
    if u > 1 {
      if u - d >= 1 {
        MultiFactorialAtLeast(u - d, d);
      }
      ProductSize(MultiFactorial(u - d, d), u);
    }
  }

  lemma PrimesFromAtLeast(q: int, u: int)
    requires (q == 3 || q == 7) && u >= q
    ensures PrimeProduct(q, u) >= q
  {
    SmallPrimes();
    PrimeInBetween(q, q - 1, q, u);
  }

  // ---------------------------------------------------------------- in front of the last bare suffix

  /**
   * Numbers that keep the intended value at three or more, while the last operand is 1, or 3 when it is the only one.
   */
  ghost predicate Prepared(c: Chain, d: Chain, pp: int -> bool) {
    && SameShape(c, d) && WellFormedChain(d) && ChainState(d, pp).Some? && ChainMeaning(d, MathOps()).Some?
    && ChainState(d, pp).value.n == (if HasBinary(c) then 1 else 3)
    && ChainMeaning(d, MathOps()).value >= (if c.Bare? then 6 else 3)
  }

  lemma NeverEndless(op: char, prior: int, n: int)
    requires n == 1 || n == 3
    ensures EvalPower(op, prior, n).Ok?
  {
    assert GetUi(n) == n;
  }

  lemma {:induction false} Prepare(c: Chain, pp: int -> bool) returns (d: Chain)
    requires WellFormedChain(c)
    ensures Prepared(c, d, pp)
  {
    match c
    case First(_) =>
      d := First(Digit(3));
      DigitReads(3, pp);
      hide Digit, SignedMeaning, SignedValue, WellFormedSigned;
    case Bare(left, op) =>
      var l := Prepare(left, pp);
      d := Bare(l, op);
      hide MathPower, EvalPower;
      SuffixGrows(op, ChainMeaning(l, MathOps()).value);
    case Binary(left, op, _) =>
      var l := Prepare(left, pp);
      d := Binary(l, op, Digit(1));
      DigitReads(1, pp);
      var state := ChainState(l, pp).value;
      NeverEndless(state.op, state.prior, state.n);
      hide MathPower, EvalPower, SignedMeaning, SignedValue, WellFormedSigned;
      OneKeeps(Pending(op), ChainMeaning(l, MathOps()).value);
  }

  lemma OneKeeps(op: char, u: int)
    requires (op == '^' || op == '@' || op == '$') && u >= 3
    ensures MathPower(op, u, 1).Some? && MathPower(op, u, 1).value >= 3
  {
    if op == '^' {
      assert Pow(u, 1) == u * Pow(u, 0) == u;
    } else if op == '@' {
      MultiFactorialAtLeast(u, 1);
    } else {
      PrimorialAtLeast(u);
      LowerStart(1, 2, u);
    }
  }

  // ---------------------------------------------------------------- behind it

  ghost predicate Apart(v: int, w: int) {
    (v == 1 && w >= 3) || (v == 6 && w >= 30)
  }

  /** The right operand that keeps the two values apart. */
  function Separator(op: char, v: int): nat {
    if op == '^' then 1 else if op == '@' then 5 else if v == 1 then 3 else 7
  }

  lemma StaysApart(op: char, v: int, w: int)
    requires (op == '^' || op == '@' || op == '$') && Apart(v, w)
    ensures
      var d := Separator(op, v);
      && EvalPower(op, v, d).Ok? && MathPower(op, w, d).Some?
      && Apart(EvalPower(op, v, d).value, MathPower(op, w, d).value)
  {
    var d := Separator(op, v);
    if op == '^' {
      assert Pow(w, 1) == w * Pow(w, 0) == w && Pow(v, 1) == v * Pow(v, 0) == v;
      assert GetUi(1) == 1;
    } else if op == '@' {
      MultiFactorialAtLeast(w, 5);
      FittingWords(v, 5);
      WordsGiveMultiFactorial(v, 5);
      assert MultiFactorial(6, 5) == 6 * MultiFactorial(1, 5) == 6;
    } else if v == 1 {
      OnOne(op, 3);
      PrimesFromAtLeast(3, w);
    } else {
      FittingWords(6, 7);
      SmallPrimorials();
      PrimesFromAtLeast(7, w);
    }
  }

  lemma {:induction false} Separate(c: Chain, pp: int -> bool) returns (d: Chain, v: int, w: int)
    requires WellFormedChain(c) && !SuffixOnFirstOnly(c)
    ensures SameShape(c, d) && Computes(d, pp, v, w) && Apart(v, w)
  {
    match c
    case Bare(left, op) =>
      var l := Prepare(left, pp);
      d := Bare(l, op);
      var n, u := ChainState(l, pp).value.n, ChainMeaning(l, MathOps()).value;
      SuffixGrows(op, u);
      SuffixAlone(op, n);
      v, w := EvalPower(op, n, n).value, MathPower(op, u, u).value;
      hide MathPower, EvalPower;
      assert ChainState(d, pp) == Some(Waiting(op, n, n));
    case Binary(left, op, _) =>
      var l, v1, w1 := Separate(left, pp);
      var digit := Separator(Pending(op), v1);
      d := Binary(l, op, Digit(digit));
      DigitReads(digit, pp);
      StaysApart(Pending(op), v1, w1);
      hide MathPower, EvalPower, SignedMeaning, SignedValue, WellFormedSigned;
      v, w := EvalPower(Pending(op), v1, digit).value, MathPower(Pending(op), w1, digit).value;
      assert ChainState(d, pp) == Some(Waiting(Pending(op), v1, digit));
  }

  lemma SuffixAlone(op: char, n: int)
    requires (op == '!' || op == '#') && (n == 1 || n == 3)
    ensures EvalPower(op, n, n) == Ok(if n == 1 then 1 else 6)
  {
    FittingWords(n, n);
    if n == 1 {
      OnOne(op, 1);
    } else {
      SmallFactorials();
      SmallPrimorials();
    }
  }

  /**
   * A suffix behind a later operand is never harmless for the shape: some numbers in the same places make the machine's
   * value differ from the intended one.
   */
  lemma EveryOtherShapeFails(c: Chain, pp: int -> bool)
    requires WellFormedChain(c) && !SuffixOnFirstOnly(c)
    ensures exists d, v, w :: SameShape(c, d) && Computes(d, pp, v, w) && v != w
  {
    var d, v, w := Separate(c, pp);
    assert SameShape(c, d) && Computes(d, pp, v, w) && v != w;
  }

  predicate PlainOperands(c: Chain) {
    match c
    case First(head) => PlainSigned(head)
    case Binary(left, _, right) => PlainOperands(left) && PlainSigned(right)
    case Bare(left, _) => PlainOperands(left)
  }

  /** The shapes that never fail, with operands that are heard in full, are the plain chains. */
  lemma {:induction false} OtherShapesArePlain(c: Chain)
    ensures PlainChain(c) <==> SuffixOnFirstOnly(c) && PlainOperands(c)
  {
    match c
    case First(_) =>
    case Binary(left, _, _) => OtherShapesArePlain(left);
    case Bare(left, _) => OtherShapesArePlain(left);
  }
}
