/**
 * What the expressions of eval_2 (source/eval.c) are meant to say: every operator applies to the whole operand on its
 * left and unary minus binds tightest. Taken with the operators of mathematics this is what the machine computes of
 * every expression in which nothing is discarded and every number fits its word.
 */
module ExpressionMeaning {
  import opened Wrappers
  import opened Primes
  import opened CyclotomicValues
  import opened PhiValues
  import opened ExpressionMachine
  import opened ExpressionGrammar
  import opened OperatorMeaning

  // ---------------------------------------------------------------- the intended reading

  /** The operators of the power level, and phi. */
  datatype Operators = Operators(power: (char, int, int) -> Option<int>, phi: (int, int) -> Option<int>)

  /** Those of the machine. */
  ghost function WordOps(pp: int -> bool): Operators {
    Operators((op: char, a: int, b: int) => Done(EvalPower(op, a, b)), (b: int, n: int) => PhiOption(b, n, pp))
  }

  ghost function PhiOption(b: int, n: int, pp: int -> bool): Option<int> {
    match Phi(b, n, pp)
    case PhiValue(v) => Some(v)
    case _ => None
  }

  /** Those of mathematics. */
  ghost function MathOps(): Operators {
    Operators((op: char, a: int, b: int) => MathPower(op, a, b), (b: int, n: int) => MathPhi(b, n))
  }

  function AtomMeaning(a: Atom, ops: Operators): Option<int>
    decreases a, 0
  {
    match a
    case Num(digits) => Some(Numeral(digits, 10))
    case Hex(_, digits) => Some(Numeral(digits, 16))
    case Group(_, body, _) => SumMeaning(body, ops)
    case PhiCall(_, index, arg, _) =>
      match (SumMeaning(index, ops), SumMeaning(arg, ops))
      case (Some(b), Some(n)) => ops.phi(b, n)
      case _ => None
  }

  function SignedMeaning(s: Signed, ops: Operators): Option<int>
    decreases s, 1
  {
    match AtomMeaning(s.atom, ops)
    case Some(v) => Some(Negated(s.minus, v))
    case None => None
  }

  /** Left association; a bare suffix takes everything before it as its operand. */
  function ChainMeaning(c: Chain, ops: Operators): Option<int>
    decreases c, 0
  {
    match c
    case First(head) => SignedMeaning(head, ops)
    case Bare(left, op) =>
      (match ChainMeaning(left, ops) case Some(v) => ops.power(op, v, v) case None => None)
    case Binary(left, op, right) =>
      match (ChainMeaning(left, ops), SignedMeaning(right, ops))
      case (Some(u), Some(v)) => ops.power(Pending(op), u, v)
      case _ => None
  }

  function ProductMeaning(p: Product, ops: Operators): Option<int>
    decreases p, 2
  {
    match p
    case Single(chain) => ChainMeaning(chain, ops)
    case Times(left, op, right) =>
      match (ProductMeaning(left, ops), ChainMeaning(right, ops))
      case (Some(x), Some(y)) => Done(EvalProduct(op, x, y))
      case _ => None
  }

  function SumMeaning(s: Sum, ops: Operators): Option<int>
    decreases s, 3
  {
    match s
    case Term(product) => ProductMeaning(product, ops)
    case Plus(left, op, right) =>
      match (SumMeaning(left, ops), ProductMeaning(right, ops))
      case (Some(x), Some(y)) => Some(EvalSum(op, x, y))
      case _ => None
  }

  // ---------------------------------------------------------------- expressions that are heard in full

  predicate PlainAtom(a: Atom) {
    match a
    case Group(_, body, _) => PlainSum(body)
    case PhiCall(_, index, arg, _) => PlainSum(index) && PlainSum(arg)
    case _ => true
  }

  predicate PlainSigned(s: Signed) {
    PlainAtom(s.atom) && !(s.minus && s.atom.PhiCall?)
  }

  /** Bare suffixes stand directly behind the first operand only. */
  predicate PlainChain(c: Chain) {
    match c
    case First(head) => PlainSigned(head)
    case Binary(left, _, right) => PlainChain(left) && PlainSigned(right)
    case Bare(left, _) => left.First? && PlainChain(left)
  }

  predicate PlainProduct(p: Product) {
    match p
    case Single(chain) => PlainChain(chain)
    case Times(left, _, right) => PlainProduct(left) && PlainChain(right)
  }

  predicate PlainSum(s: Sum) {
    match s
    case Term(product) => PlainProduct(product)
    case Plus(left, _, right) => PlainSum(left) && PlainProduct(right)
  }

  lemma {:induction false} PlainAtomValue(a: Atom, pp: int -> bool)
    requires PlainAtom(a)
    ensures AtomValue(a, pp) == AtomMeaning(a, WordOps(pp))
    decreases a, 0
  {
    hide Phi, Numeral;
    match a
    case Group(_, body, _) =>
      PlainSumValue(body, pp);
    case PhiCall(_, index, arg, _) =>
      PlainSumValue(index, pp);
      PlainSumValue(arg, pp);
    case _ =>
  }

  lemma PlainSignedValue(s: Signed, pp: int -> bool)
    requires PlainSigned(s)
    ensures SignedValue(s, pp) == SignedMeaning(s, WordOps(pp))
    decreases s, 1
  {
    PlainAtomValue(s.atom, pp);
  }

  lemma {:induction false} PlainChainValue(c: Chain, pp: int -> bool)
    requires PlainChain(c)
    ensures ChainValue(c, pp) == ChainMeaning(c, WordOps(pp))
    decreases c, 0
  {
    match c
    case First(head) =>
      PlainSignedValue(head, pp);
    case Bare(left, op) =>
      hide EvalPower;
      PlainChainValue(left, pp);
      assert ChainState(left, pp).Some? ==>
        ChainState(left, pp) == Some(Waiting('\0', 0, SignedValue(left.head, pp).value));
      PlainSignedValue(left.head, pp);
    case Binary(left, op, right) =>
      hide EvalPower;
      PlainChainValue(left, pp);
      PlainSignedValue(right, pp);
  }

  lemma {:induction false} PlainProductValue(p: Product, pp: int -> bool)
    requires PlainProduct(p)
    ensures ProductValue(p, pp) == ProductMeaning(p, WordOps(pp))
    decreases p, 2
  {
    match p
    case Single(chain) =>
      PlainChainValue(chain, pp);
    case Times(left, _, right) =>
      PlainProductValue(left, pp);
      PlainChainValue(right, pp);
  }

  lemma {:induction false} PlainSumValue(s: Sum, pp: int -> bool)
    requires PlainSum(s)
    ensures SumValue(s, pp) == SumMeaning(s, WordOps(pp))
    decreases s, 3
  {
    match s
    case Term(product) =>
      PlainProductValue(product, pp);
    case Plus(left, _, right) =>
      PlainSumValue(left, pp);
      PlainProductValue(right, pp);
  }

  // ---------------------------------------------------------------- numbers that fit their words

  /** A phi that the code gets right: the index fits an int, and at 1 the prime test is right and so is the rule. */
  ghost predicate PhiInWords(b: int, n: int, pp: int -> bool) {
    if n == 1 then (pp(b) <==> IsPrime(b)) && (IsPrime(b) || (b != 1 && (b < 1 || !PrimePower(b))))
    else b < INT_LIMIT
  }

  ghost predicate AtomInWords(a: Atom, pp: int -> bool) {
    match a
    case Group(_, body, _) => SumInWords(body, pp)
    case PhiCall(_, index, arg, _) =>
      && SumInWords(index, pp) && SumInWords(arg, pp)
      && (match (SumMeaning(index, MathOps()), SumMeaning(arg, MathOps()))
          case (Some(b), Some(n)) => PhiInWords(b, n, pp)
          case _ => true)
    case _ => true
  }

  ghost predicate ChainInWords(c: Chain, pp: int -> bool) {
    match c
    case First(head) => AtomInWords(head.atom, pp)
    case Bare(left, op) =>
      && ChainInWords(left, pp)
      && (match ChainMeaning(left, MathOps()) case Some(v) => PowerInWords(op, v, v) case None => true)
    case Binary(left, op, right) =>
      && ChainInWords(left, pp) && AtomInWords(right.atom, pp)
      && (match (ChainMeaning(left, MathOps()), SignedMeaning(right, MathOps()))
          case (Some(u), Some(v)) => PowerInWords(Pending(op), u, v)
          case _ => true)
  }

  ghost predicate ProductInWords(p: Product, pp: int -> bool) {
    match p
    case Single(chain) => ChainInWords(chain, pp)
    case Times(left, _, right) => ProductInWords(left, pp) && ChainInWords(right, pp)
  }

  /** At every operator of the expression the words of the machine are enough. */
  ghost predicate SumInWords(s: Sum, pp: int -> bool) {
    match s
    case Term(product) => ProductInWords(product, pp)
    case Plus(left, _, right) => SumInWords(left, pp) && ProductInWords(right, pp)
  }

  lemma PhiInWordsIsExact(b: int, n: int, pp: int -> bool)
    requires MathPhi(b, n).Some? && PhiInWords(b, n, pp)
    ensures PhiOption(b, n, pp) == MathPhi(b, n)
  {
    if n == 1 {
      PhiExactly(b, n, pp);
    } else if b == 1 {
      CyclotomicOfOne(n);
    }
  }

  lemma {:induction false} AtomInWordsMeaning(a: Atom, pp: int -> bool)
    requires AtomInWords(a, pp) && AtomMeaning(a, MathOps()).Some?
    ensures AtomMeaning(a, WordOps(pp)) == AtomMeaning(a, MathOps())
    decreases a, 0
  {
    hide PhiOption, MathPhi, PhiInWords, Numeral;
    match a
    case Group(_, body, _) =>
      SumInWordsMeaning(body, pp);
    case PhiCall(_, index, arg, _) =>
      SumInWordsMeaning(index, pp);
      SumInWordsMeaning(arg, pp);
      PhiInWordsIsExact(SumMeaning(index, MathOps()).value, SumMeaning(arg, MathOps()).value, pp);
    case _ =>
  }

  lemma SignedInWordsMeaning(s: Signed, pp: int -> bool)
    requires AtomInWords(s.atom, pp) && SignedMeaning(s, MathOps()).Some?
    ensures SignedMeaning(s, WordOps(pp)) == SignedMeaning(s, MathOps())
    decreases s, 1
  {
    AtomInWordsMeaning(s.atom, pp);
  }

  lemma {:induction false} ChainInWordsMeaning(c: Chain, pp: int -> bool)
    requires ChainInWords(c, pp) && ChainMeaning(c, MathOps()).Some?
    ensures ChainMeaning(c, WordOps(pp)) == ChainMeaning(c, MathOps())
    decreases c, 2
  {
    hide EvalPower, MathPower, PowerInWords;
    match c
    case First(head) =>
      SignedInWordsMeaning(head, pp);
    case Bare(left, op) =>
      ChainInWordsMeaning(left, pp);
      var v := ChainMeaning(left, MathOps()).value;
      InWordsIsExact(op, v, v);
    case Binary(left, op, right) =>
      ChainInWordsMeaning(left, pp);
      SignedInWordsMeaning(right, pp);
      InWordsIsExact(Pending(op), ChainMeaning(left, MathOps()).value, SignedMeaning(right, MathOps()).value);
  }

  lemma {:induction false} ProductInWordsMeaning(p: Product, pp: int -> bool)
    requires ProductInWords(p, pp) && ProductMeaning(p, MathOps()).Some?
    ensures ProductMeaning(p, WordOps(pp)) == ProductMeaning(p, MathOps())
    decreases p, 3
  {
    hide EvalProduct;
    match p
    case Single(chain) =>
      ChainInWordsMeaning(chain, pp);
    case Times(left, _, right) =>
      ProductInWordsMeaning(left, pp);
      ChainInWordsMeaning(right, pp);
  }

  lemma {:induction false} SumInWordsMeaning(s: Sum, pp: int -> bool)
    requires SumInWords(s, pp) && SumMeaning(s, MathOps()).Some?
    ensures SumMeaning(s, WordOps(pp)) == SumMeaning(s, MathOps())
    decreases s, 4
  {
    match s
    case Term(product) =>
      ProductInWordsMeaning(product, pp);
    case Plus(left, _, right) =>
      SumInWordsMeaning(left, pp);
      ProductInWordsMeaning(right, pp);
  }

  /** The machine computes what a plain expression means mathematically, as long as the numbers fit their words. */
  lemma MachineRefinesMeaning(e: Sum, t: int, pp: int -> bool)
    requires WellFormedSum(e) && PlainSum(e) && SumInWords(e, pp) && SumMeaning(e, MathOps()).Some?
    ensures Run(ShowSum(e), 0, false, t, pp) == Return(1, SumMeaning(e, MathOps()).value, |ShowSum(e)| + 1)
  {
    hide Run, SumValue, WellFormedSum, SumMeaning, PlainSum, SumInWords;
    PlainSumValue(e, pp);
    SumInWordsMeaning(e, pp);
    WholeText(e, t, pp);
  }
}
