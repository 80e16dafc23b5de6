/**
 * What eval_2 (source/eval.c) hears of an expression: a bare suffix discards what stands before its operand, and a
 * minus before phi is lost. With the machine's own operators, the value of every expression is the intended value of
 * what is heard of it.
 */
module HeardExpressions {
  import opened Wrappers
  import opened PhiValues
  import opened ExpressionMachine
  import opened ExpressionGrammar
  import opened ExpressionMeaning

  function HeardAtom(a: Atom): Atom {
    match a
    case Group(open, body, close) => Group(open, HeardSum(body), close)
    case PhiCall(name, index, arg, close) => PhiCall(name, HeardSum(index), HeardSum(arg), close)
    case _ => a
  }

  /** A minus before phi is lost. */
  function HeardSigned(s: Signed): Signed {
    Signed(s.minus && !s.atom.PhiCall?, HeardAtom(s.atom))
  }

  /** The last operand of a chain. */
  function HeardLast(c: Chain): Signed {
    match c
    case First(head) => HeardSigned(head)
    case Binary(_, _, right) => HeardSigned(right)
    case Bare(left, _) => HeardLast(left)
  }

  /** A bare suffix sees the operand before it and nothing else: what stands before that operand is discarded. */
  function HeardChain(c: Chain): Chain {
    match c
    case First(head) => First(HeardSigned(head))
    case Binary(left, op, right) => Binary(HeardChain(left), op, HeardSigned(right))
    case Bare(left, op) => Bare(First(HeardLast(left)), op)
  }

  function HeardProduct(p: Product): Product {
    match p
    case Single(chain) => Single(HeardChain(chain))
    case Times(left, op, right) => Times(HeardProduct(left), op, HeardChain(right))
  }

  function HeardSum(s: Sum): Sum {
    match s
    case Term(product) => Term(HeardProduct(product))
    case Plus(left, op, right) => Plus(HeardSum(left), op, HeardProduct(right))
  }

  lemma {:induction false} AtomValueIsHeard(a: Atom, pp: int -> bool)
    requires AtomValue(a, pp).Some?
    ensures AtomMeaning(HeardAtom(a), WordOps(pp)) == AtomValue(a, pp)
    decreases a, 0
  {
    hide Phi, Numeral;
    match a
    case Group(_, body, _) =>
      SumValueIsHeard(body, pp);
    case PhiCall(_, index, arg, _) =>
      SumValueIsHeard(index, pp);
      SumValueIsHeard(arg, pp);
    case _ =>
  }

  lemma SignedValueIsHeard(s: Signed, pp: int -> bool)
    requires SignedValue(s, pp).Some?
    ensures SignedMeaning(HeardSigned(s), WordOps(pp)) == SignedValue(s, pp)
    decreases s, 1
  {
    AtomValueIsHeard(s.atom, pp);
  }

  lemma {:induction false} StateSeesLastOperand(c: Chain, pp: int -> bool)
    requires ChainState(c, pp).Some?
    ensures SignedMeaning(HeardLast(c), WordOps(pp)) == Some(ChainState(c, pp).value.n)
    decreases c, 2
  {
    hide EvalPower;
    match c
    case First(head) => SignedValueIsHeard(head, pp);
    case Binary(_, _, right) => SignedValueIsHeard(right, pp);
    case Bare(left, _) => StateSeesLastOperand(left, pp);
  }

  lemma {:induction false} ChainValueIsHeard(c: Chain, pp: int -> bool)
    requires ChainState(c, pp).Some?
    ensures ChainMeaning(HeardChain(c), WordOps(pp)) == ChainValue(c, pp)
    decreases c, 2
  {
    match c
    case First(head) =>
      SignedValueIsHeard(head, pp);
    case Bare(left, op) =>
      hide EvalPower;
      StateSeesLastOperand(left, pp);
    case Binary(left, op, right) =>
      hide EvalPower;
      ChainValueIsHeard(left, pp);
      SignedValueIsHeard(right, pp);
  }

  lemma {:induction false} ProductValueIsHeard(p: Product, pp: int -> bool)
    requires ProductValue(p, pp).Some?
    ensures ProductMeaning(HeardProduct(p), WordOps(pp)) == ProductValue(p, pp)
    decreases p, 3
  {
    hide EvalProduct, EvalPower;
    match p
    case Single(chain) =>
      ChainValueIsHeard(chain, pp);
    case Times(left, _, right) =>
      ProductValueIsHeard(left, pp);
      ChainValueIsHeard(right, pp);
  }

  /** Every expression that has a value: it is the intended value of what the machine hears, brackets and all. */
  lemma {:induction false} SumValueIsHeard(s: Sum, pp: int -> bool)
    requires SumValue(s, pp).Some?
    ensures SumMeaning(HeardSum(s), WordOps(pp)) == SumValue(s, pp)
    decreases s, 4
  {
    match s
    case Term(product) =>
      ProductValueIsHeard(product, pp);
    case Plus(left, _, right) =>
      SumValueIsHeard(left, pp);
      ProductValueIsHeard(right, pp);
  }

  lemma {:induction false} PlainAtomHeard(a: Atom)
    ensures HeardAtom(a) == a <==> PlainAtom(a)
    ensures HeardAtom(a).PhiCall? <==> a.PhiCall?
    decreases a, 0
  {
    match a
    case Group(_, body, _) => HeardInFull(body);
    case PhiCall(_, index, arg, _) =>
      HeardInFull(index);
      HeardInFull(arg);
    case _ =>
  }

  lemma {:induction false} PlainChainHeard(c: Chain)
    ensures HeardChain(c) == c <==> PlainChain(c)
    decreases c, 1
  {
    match c
    case First(head) => PlainAtomHeard(head.atom);
    case Binary(left, _, right) =>
      PlainChainHeard(left);
      PlainAtomHeard(right.atom);
    case Bare(left, _) =>
      if left.First? {
        PlainAtomHeard(left.head.atom);
        assert HeardChain(c) == Bare(First(HeardSigned(left.head)), c.op);
        assert PlainChain(left) == PlainSigned(left.head);
      }
  }

  lemma {:induction false} PlainProductHeard(p: Product)
    ensures HeardProduct(p) == p <==> PlainProduct(p)
    decreases p, 2
  {
    match p
    case Single(chain) => PlainChainHeard(chain);
    case Times(left, _, right) =>
      PlainProductHeard(left);
      PlainChainHeard(right);
  }

  /** The plain expressions are exactly those that are heard in full. */
  lemma {:induction false} HeardInFull(s: Sum)
    ensures HeardSum(s) == s <==> PlainSum(s)
    decreases s, 3
  {
    match s
    case Term(product) => PlainProductHeard(product);
    case Plus(left, _, right) =>
      HeardInFull(left);
      PlainProductHeard(right);
  }

  /** The parameters for which phi is zero: index 0, argument 1, and a test that takes 0 for a prime. */
  ghost predicate PhiOfZeroAtOne(a: Atom, pp: int -> bool) {
    a.PhiCall? && SumMeaning(a.index, WordOps(pp)) == Some(0) && SumMeaning(a.arg, WordOps(pp)) == Some(1) && pp(0)
  }

  /** A minus before phi is lost, and the value comes out wrong for all parameters but those. */
  lemma MinusBeforePhi(s: Signed, pp: int -> bool)
    requires PlainAtom(s.atom) && AtomMeaning(s.atom, WordOps(pp)).Some?
    ensures SignedValue(s, pp) == SignedMeaning(s, WordOps(pp))
       <==> !(s.minus && s.atom.PhiCall?) || PhiOfZeroAtOne(s.atom, pp)
  {
    PlainAtomValue(s.atom, pp);
    if s.atom.PhiCall? {
      PhiIsZero(SumMeaning(s.atom.index, WordOps(pp)).value, SumMeaning(s.atom.arg, WordOps(pp)).value, pp);
    }
  }

  // ---------------------------------------------------------------- two inputs that show the difference

  /** 2^3! evaluates to 6, where left association would give 40320. */
  lemma PowerIsDiscarded(t: int, pp: int -> bool)
    ensures Run("2^3!", 0, false, t, pp) == Return(1, 6, 5)
  {
    var c := Bare(Binary(First(NumberOperand(false, "2")), '^', NumberOperand(false, "3")), '!');
    var e := Term(Single(c));
    assert Numeral("2", 10) == 2 && Numeral("3", 10) == 3;
    assert ShowChain(c.left) == "2^3";
    assert ShowSum(e) == "2^3!";
    ThreeFactorial();
    assert ChainState(c, pp) == Some(Waiting('!', 3, 3));
    WholeText(e, t, pp);
  }

  lemma ThreeFactorial()
    ensures EvalPower('!', 3, 3) == Ok(6)
  {
    assert GetUi(3) == 3;
  }

  /** -phi(1,3) evaluates to 2, not to -2. */
  lemma MinusIsLost(t: int, pp: int -> bool)
    ensures Run("-phi(1,3)", 0, false, t, pp) == Return(1, 2, 10)
  {
    var one, three := Lone("1"), Lone("3");
    var s := Signed(true, PhiCall("phi", one, three, ')'));
    var e := Term(Single(First(s)));
    assert Numeral("1", 10) == 1 && Numeral("3", 10) == 3;
    LoneNumber("1", pp);
    LoneNumber("3", pp);
    assert ShowAtom(s.atom) == "phi" + "(" + "1" + "," + "3" + [')'];
    assert ShowSum(e) == ShowSigned(s) == "-phi(1,3)";
    assert SignedValue(s, pp) == Some(2);
    assert ChainState(First(s), pp) == Some(Waiting('\0', 0, 2));
    WholeText(e, t, pp);
  }

  function Lone(digits: string): Sum {
    Term(Single(First(NumberOperand(false, digits))))
  }

  lemma LoneNumber(digits: string, pp: int -> bool)
    ensures SumValue(Lone(digits), pp) == Some(Numeral(digits, 10)) && ShowSum(Lone(digits)) == digits
  {
    var s := NumberOperand(false, digits);
    assert ShowChain(First(s)) == ShowSigned(s) == ShowAtom(s.atom) == digits;
    assert ShowProduct(Single(First(s))) == digits;
    assert AtomValue(s.atom, pp) == SignedValue(s, pp) == Some(Numeral(digits, 10));
    assert ChainState(First(s), pp) == Some(Waiting('\0', 0, Numeral(digits, 10)));
    assert ProductValue(Single(First(s)), pp) == ChainValue(First(s), pp);
  }
}
