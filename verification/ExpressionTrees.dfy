/**
 * Printing an expression tree with explicit brackets and evaluating the text (eval_2, source/eval.c) gives the value
 * of the tree; and what the operators of the three levels compute, as a relation between operands and result.
 */
module ExpressionTrees {
  import opened Wrappers
  import opened Arithmetic
  import opened CyclotomicValues
  import opened PrimeProducts
  import opened PhiValues
  import opened ExpressionMachine
  import opened OperatorMeaning
  import opened ExpressionGrammar
  import opened ExpressionMeaning

  // ---------------------------------------------------------------- decimal numerals

  function Decimal(n: nat): (s: string)
    ensures AllDigits(s)
    ensures Numeral(s, 10) == n
  {
    if n < 10 then [Digit(n)]
    else
      var s := Decimal(n / 10) + [Digit(n % 10)];
      assert s[..|s| - 1] == Decimal(n / 10);
      s
  }

  function Digit(d: nat): (c: char)
    requires d < 10
    ensures IsDigit(c) && DigitValue(c) == d
  {
    '0' + d as char
  }

  // ---------------------------------------------------------------- trees

  datatype Tree =
    | Leaf(n: int)
    | Negative(operand: Tree)
    | PhiOf(index: Tree, arg: Tree)
    | Apply(op: char, left: Tree, right: Tree)
    | Suffixed(operand: Tree, op: char)
    | Stepped(operand: Tree, op: char, step: nat)

  predicate ValidTree(t: Tree) {
    match t
    case Leaf(_) => true
    case Negative(x) => ValidTree(x)
    case PhiOf(x, y) => ValidTree(x) && ValidTree(y)
    case Apply(op, x, y) => (IsSumOp(op) || IsProductOp(op) || op == '^') && ValidTree(x) && ValidTree(y)
    case Suffixed(x, op) => (op == '!' || op == '#') && ValidTree(x)
    case Stepped(x, op, _) => (op == '!' || op == '#') && ValidTree(x)
  }

  function ApplyOp(op: char, a: int, b: int, ops: Operators): Option<int> {
    if IsSumOp(op) then Some(EvalSum(op, a, b))
    else if IsProductOp(op) then Done(EvalProduct(op, a, b))
    else ops.power(op, a, b)
  }

  function TreeValue(t: Tree, ops: Operators): Option<int> {
    match t
    case Leaf(n) => Some(n)
    case Negative(x) => (match TreeValue(x, ops) case Some(a) => Some(-a) case None => None)
    case PhiOf(x, y) =>
      (match (TreeValue(x, ops), TreeValue(y, ops)) case (Some(a), Some(b)) => ops.phi(a, b) case _ => None)
    case Apply(op, x, y) =>
      (match (TreeValue(x, ops), TreeValue(y, ops)) case (Some(a), Some(b)) => ApplyOp(op, a, b, ops) case _ => None)
    case Suffixed(x, op) =>
      (match TreeValue(x, ops) case Some(a) => ops.power(op, a, a) case None => None)
    case Stepped(x, op, step) =>
      (match TreeValue(x, ops) case Some(a) => ops.power(Pending(op), a, step) case None => None)
  }

  predicate Primary(t: Tree) {
    t.Leaf? || t.Negative? || t.PhiOf?
  }

  function Printed(t: Tree): string {
    ShowSum(Bracketed(t))
  }

  /** The expression of a tree: every operand that is not a primary is put in brackets. */
  function Bracketed(t: Tree): Sum
    decreases t, 1
  {
    match t
    case Apply(op, x, y) =>
      if IsSumOp(op) then Plus(Term(Single(First(AsOperand(x)))), op, Single(First(AsOperand(y))))
      else if IsProductOp(op) then Term(Times(Single(First(AsOperand(x))), op, First(AsOperand(y))))
      else Term(Single(Binary(First(AsOperand(x)), op, AsOperand(y))))
    case Suffixed(x, op) => Term(Single(Bare(First(AsOperand(x)), op)))
    case Stepped(x, op, step) => Term(Single(Binary(First(AsOperand(x)), op, NumberOperand(false, Decimal(step)))))
    case _ => Term(Single(First(AsPrimary(t))))
  }

  function AsOperand(t: Tree): Signed
    decreases t, 2
  {
    if Primary(t) then AsPrimary(t) else Signed(false, Group('(', Bracketed(t), ')'))
  }

  function AsPrimary(t: Tree): Signed
    requires Primary(t)
    decreases t, 0
  {
    match t
    case Leaf(n) => NumberOperand(n < 0, Decimal(if n < 0 then -n else n))
    case Negative(x) => Signed(true, Group('(', Bracketed(x), ')'))
    case PhiOf(x, y) => Signed(false, PhiCall("phi", Bracketed(x), Bracketed(y), ')'))
  }

  // ---------------------------------------------------------------- the round trip

  lemma {:induction false} PrimaryReads(t: Tree, ops: Operators)
    requires ValidTree(t) && Primary(t)
    ensures WellFormedSigned(AsPrimary(t)) && PlainSigned(AsPrimary(t))
    ensures SignedMeaning(AsPrimary(t), ops) == TreeValue(t, ops)
    decreases t, 0
  {
    hide Numeral, Phi, Decimal, WellFormedSum, PlainSum, SumMeaning, Bracketed;
    match t
    case Leaf(n) =>
      LeafReads(n, ops);
    case Negative(x) =>
      BracketedReads(x, ops);
    case PhiOf(x, y) =>
      BracketedReads(x, ops);
      BracketedReads(y, ops);
  }

  lemma LeafReads(n: int, ops: Operators)
    ensures WellFormedSigned(AsPrimary(Leaf(n))) && PlainSigned(AsPrimary(Leaf(n)))
    ensures SignedMeaning(AsPrimary(Leaf(n)), ops) == Some(n)
  {
    hide Numeral, Decimal;
    var digits := Decimal(SizeOf(n));
    assert AllDigits(digits) && Numeral(digits, 10) == SizeOf(n);
    assert AsPrimary(Leaf(n)) == NumberOperand(n < 0, digits);
    assert AtomMeaning(Num(digits), ops) == Some(SizeOf(n));
  }

  lemma {:induction false} OperandReads(t: Tree, ops: Operators)
    requires ValidTree(t)
    ensures WellFormedSigned(AsOperand(t)) && PlainSigned(AsOperand(t))
    ensures SignedMeaning(AsOperand(t), ops) == TreeValue(t, ops)
    decreases t, 2
  {
    hide TreeValue, ValidTree;
    if Primary(t) {
      PrimaryReads(t, ops);
    } else {
      BracketedReads(t, ops);
    }
  }

  lemma {:induction false} BracketedReads(t: Tree, ops: Operators)
    requires ValidTree(t)
    ensures WellFormedSum(Bracketed(t)) && PlainSum(Bracketed(t))
    ensures SumMeaning(Bracketed(t), ops) == TreeValue(t, ops)
    decreases t, 1
  {
    match t
    case Apply(op, x, y) =>
      OperandReads(x, ops);
      OperandReads(y, ops);
      ApplyReads(op, x, y, ops);
    case Suffixed(x, op) =>
      hide EvalPower, SignedMeaning, PlainSigned, WellFormedSigned;
      OperandReads(x, ops);
      FirstReads(AsOperand(x), ops);
      ChainReads(Bare(First(AsOperand(x)), op), ops);
    case Stepped(x, op, step) =>
      hide EvalPower, Numeral;
      OperandReads(x, ops);
      StepReads(AsOperand(x), op, step, ops);
    case _ =>
      hide SignedMeaning, PlainSigned, WellFormedSigned;
      PrimaryReads(t, ops);
      FirstReads(AsPrimary(t), ops);
  }

  lemma ApplyReads(op: char, x: Tree, y: Tree, ops: Operators)
    requires IsSumOp(op) || IsProductOp(op) || op == '^'
    requires WellFormedSigned(AsOperand(x)) && PlainSigned(AsOperand(x))
    requires WellFormedSigned(AsOperand(y)) && PlainSigned(AsOperand(y))
    requires SignedMeaning(AsOperand(x), ops) == TreeValue(x, ops)
    requires SignedMeaning(AsOperand(y), ops) == TreeValue(y, ops)
    ensures
      var e := Bracketed(Apply(op, x, y));
      WellFormedSum(e) && PlainSum(e) && SumMeaning(e, ops) == TreeValue(Apply(op, x, y), ops)
  {
    hide EvalPower, EvalProduct, EvalSum, SignedMeaning, PlainSigned, WellFormedSigned, AsOperand;
    var c, d := First(AsOperand(x)), First(AsOperand(y));
    FirstReads(AsOperand(x), ops);
    FirstReads(AsOperand(y), ops);
    if IsSumOp(op) {
      assert Bracketed(Apply(op, x, y)) == Plus(Term(Single(c)), op, Single(d));
    } else if IsProductOp(op) {
      assert ProductMeaning(Times(Single(c), op, d), ops) == TreeValue(Apply(op, x, y), ops);
    } else {
      ChainReads(Binary(c, op, AsOperand(y)), ops);
    }
  }

  /** An operand is also a chain, a product and a sum. */
  lemma FirstReads(s: Signed, ops: Operators)
    requires WellFormedSigned(s) && PlainSigned(s)
    ensures
      var c := First(s);
      && WellFormedChain(c) && PlainChain(c) && ChainMeaning(c, ops) == SignedMeaning(s, ops)
      && WellFormedProduct(Single(c)) && PlainProduct(Single(c))
      && ProductMeaning(Single(c), ops) == SignedMeaning(s, ops)
      && WellFormedSum(Term(Single(c))) && PlainSum(Term(Single(c)))
      && SumMeaning(Term(Single(c)), ops) == SignedMeaning(s, ops)
  {
  }

  lemma StepReads(s: Signed, op: char, step: nat, ops: Operators)
    requires WellFormedSigned(s) && PlainSigned(s) && (op == '!' || op == '#')
    ensures
      var e := Term(Single(Binary(First(s), op, NumberOperand(false, Decimal(step)))));
      && WellFormedSum(e) && PlainSum(e)
      && SumMeaning(e, ops)
         == match SignedMeaning(s, ops) case Some(a) => ops.power(Pending(op), a, step) case None => None
  {
    hide EvalPower, Numeral, Decimal;
    var d := NumberOperand(false, Decimal(step));
    assert AllDigits(Decimal(step)) && Numeral(Decimal(step), 10) == step;
    assert AtomMeaning(d.atom, ops) == Some(step);
    assert WellFormedSigned(d) && PlainSigned(d) && SignedMeaning(d, ops) == Some(step);
    hide SignedMeaning, WellFormedSigned, PlainSigned;
    FirstReads(s, ops);
    ChainReads(Binary(First(s), op, d), ops);
  }

  lemma ChainReads(c: Chain, ops: Operators)
    requires WellFormedChain(c) && PlainChain(c)
    ensures WellFormedSum(Term(Single(c))) && PlainSum(Term(Single(c)))
    ensures SumMeaning(Term(Single(c)), ops) == ChainMeaning(c, ops)
  {
    hide WellFormedChain, PlainChain, ChainMeaning;
    assert WellFormedProduct(Single(c)) && PlainProduct(Single(c));
    assert ProductMeaning(Single(c), ops) == ChainMeaning(c, ops);
  }

  /** Printing a tree and evaluating the text gives the value of the tree. */
  lemma RoundTrip(tree: Tree, t: int, pp: int -> bool)
    requires ValidTree(tree) && TreeValue(tree, WordOps(pp)).Some?
    ensures Run(Printed(tree), 0, false, t, pp)
         == Return(1, TreeValue(tree, WordOps(pp)).value, |Printed(tree)| + 1)
  {
    hide Run, TreeValue, ValidTree, Bracketed, WellFormedSum, PlainSum, SumMeaning, SumValue;
    BracketedReads(tree, WordOps(pp));
    PlainSumValue(Bracketed(tree), pp);
    WholeText(Bracketed(tree), t, pp);
  }

  /** The value is the mathematical one when there is one and every number fits its word. */
  lemma RoundTripMeans(tree: Tree, t: int, pp: int -> bool)
    requires ValidTree(tree) && TreeValue(tree, MathOps()).Some? && SumInWords(Bracketed(tree), pp)
    ensures Run(Printed(tree), 0, false, t, pp) == Return(1, TreeValue(tree, MathOps()).value, |Printed(tree)| + 1)
  {
    hide Run, TreeValue, ValidTree, Bracketed, WellFormedSum, PlainSum, SumMeaning, SumInWords;
    BracketedReads(tree, MathOps());
    MachineRefinesMeaning(Bracketed(tree), t, pp);
  }

  // ---------------------------------------------------------------- what the operators compute

  /** Division is exact or nothing. */
  lemma DivisionIsExact(a: int, b: int, q: int)
    ensures EvalProduct('/', a, b) == Ok(q) <==> b != 0 && a == q * b
  {
    if b != 0 {
      SizeSplits(a, b);
      if a == q * b {
        SizeProduct(q, b);
        DividesIntro(SizeOf(b), SizeOf(q), SizeOf(a));
        SameSign(q, a, b);
      }
    }
  }

  lemma SizeSplits(a: int, b: int)
    requires b != 0
    ensures a == TruncDiv(a, b) * b + TruncRem(a, b) && SizeOf(TruncRem(a, b)) < SizeOf(b)
    ensures TruncRem(a, b) == 0 || (TruncRem(a, b) < 0 <==> a < 0)
  {
    var q, r := SizeOf(a) / SizeOf(b), SizeOf(a) % SizeOf(b);
    assert SizeOf(a) == q * SizeOf(b) + r;
    assert (-q) * b == q * (-b) == -(q * b);
  }

  lemma SizeProduct(q: int, b: int)
    ensures SizeOf(q * b) == SizeOf(q) * SizeOf(b)
  {
    assert (-q) * (-b) == q * b && (-q) * b == -(q * b) && q * (-b) == -(q * b);
    if q != 0 && b != 0 {
      ProductSize(SizeOf(q), SizeOf(b));
    }
  }

  lemma SameSign(q: int, a: int, b: int)
    requires b != 0 && a == q * b && TruncDiv(a, b) * b + TruncRem(a, b) == a && TruncRem(a, b) == 0
    ensures TruncDiv(a, b) == q
  {
    assert (TruncDiv(a, b) - q) * b == 0;
  }

  /** The remainder has the sign of the dividend and is smaller than the divisor. */
  lemma RemainderOfDividend(a: int, b: int, r: int)
    ensures EvalProduct('%', a, b) == Ok(r)
       <==> b != 0 && SizeOf(r) < SizeOf(b) && (r == 0 || (r < 0 <==> a < 0)) && Divides(SizeOf(b), a - r)
  {
    if b != 0 {
      SizeSplits(a, b);
      var q, s := TruncDiv(a, b), TruncRem(a, b);
      MultipleOfSize(b, q);
      if SizeOf(r) < SizeOf(b) && (r == 0 || (r < 0 <==> a < 0)) && Divides(SizeOf(b), a - r) {
        DividesSum(SizeOf(b), a - r, q * b);
        SmallMultipleIsZero(SizeOf(b), s - r);
      }
    }
  }

  lemma MultipleOfSize(b: int, q: int)
    requires b != 0
    ensures Divides(SizeOf(b), q * b)
  {
    DividesIntro(SizeOf(b), if b < 0 then -q else q, q * b);
  }

  // ---------------------------------------------------------------- the documented forms

  /** The text of the tree evaluates to v. */
  ghost predicate Evaluates(tree: Tree, v: int, pp: int -> bool) {
    forall t :: Run(Printed(tree), 0, false, t, pp) == Return(1, v, |Printed(tree)| + 1)
  }

  lemma EvaluatesTo(tree: Tree, v: int, pp: int -> bool)
    requires ValidTree(tree) && TreeValue(tree, WordOps(pp)) == Some(v)
    ensures Evaluates(tree, v, pp)
  {
    hide Run, TreeValue, ValidTree, Printed;
    forall t
      ensures Run(Printed(tree), 0, false, t, pp) == Return(1, v, |Printed(tree)| + 1)
    {
      RoundTrip(tree, t, pp);
    }
  }

  /** n^m: the sign of the exponent is dropped. */
  lemma PowerForm(n: int, m: int, pp: int -> bool)
    requires -WORD < m < WORD
    ensures Evaluates(Apply('^', Leaf(n), Leaf(m)), Pow(n, SizeOf(m)), pp)
  {
    hide Pow, Evaluates;
    EvaluatesTo(Apply('^', Leaf(n), Leaf(m)), Pow(n, SizeOf(m)), pp);
  }

  /** n!: the sign of n is dropped. */
  lemma FactorialForm(n: int, pp: int -> bool)
    requires -WORD < n < WORD
    ensures Evaluates(Suffixed(Leaf(n), '!'), Factorial(SizeOf(n)), pp)
  {
    assert GetUi(n) == SizeOf(n);
    hide Factorial, Evaluates, GetUi;
    EvaluatesTo(Suffixed(Leaf(n), '!'), Factorial(SizeOf(n)), pp);
  }

  /** n!m: the product of n, n-m, n-2m and so on as long as the factors are above one. */
  lemma MultiFactorialForm(n: int, m: nat, pp: int -> bool)
    requires -LONG_LIMIT <= n < LONG_LIMIT && 1 <= m <= LONG_LIMIT
    ensures Evaluates(Stepped(Leaf(n), '!', m), MultiFactorial(n, m), pp)
  {
    assert n <= 1 ==> MultiFactorial(n, m) == 1;
    hide Evaluates, MultiFactorialWords, MultiFactorial, GetUi, GetSi;
    WordsGiveMultiFactorial(n, m);
    FittingWords(n, m);
    EvaluatesTo(Stepped(Leaf(n), '!', m), MultiFactorial(n, m), pp);
  }

  /** n# and n#m: the product of the primes up to n, and of those from m or from 3 to n. */
  lemma PrimorialForms(n: int, m: nat, pp: int -> bool)
    requires -LONG_LIMIT <= n < LONG_LIMIT
    ensures Evaluates(Suffixed(Leaf(n), '#'), PrimeProduct(2, n), pp)
    ensures m < WORD ==> Evaluates(Stepped(Leaf(n), '#', m), PrimeProduct(if m < 3 then 3 else m, n), pp)
  {
    hide PrimeProduct, Evaluates, GetUi, GetSi;
    FittingWords(n, 0);
    EvaluatesTo(Suffixed(Leaf(n), '#'), PrimeProduct(2, n), pp);
    if m < WORD {
      FittingWords(n, m);
      EvaluatesTo(Stepped(Leaf(n), '#', m), PrimeProduct(if m < 3 then 3 else m, n), pp);
    }
  }

  /** phi(b,n). */
  lemma PhiForm(b: nat, n: int, pp: int -> bool)
    requires 2 <= b < INT_LIMIT && n != 1 && n != -1
    ensures Evaluates(PhiOf(Leaf(b), Leaf(n)), Cyclotomic(n, b), pp)
  {
    hide Evaluates, Cyclotomic;
    EvaluatesTo(PhiOf(Leaf(b), Leaf(n)), Cyclotomic(n, b), pp);
  }
}
