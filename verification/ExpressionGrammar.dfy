/**
 * The grammar of the expressions that eval_2 (source/eval.c) accepts, their value, and the proof that the register
 * machine computes it.
 */
module ExpressionGrammar {
  import opened Wrappers
  import opened PhiValues
  import opened ExpressionMachine

  // ---------------------------------------------------------------- abstract syntax

  /** Left recursion in Chain, Product and Sum is left association. Group does not match the kinds of its brackets. */
  datatype Atom =
    | Num(digits: string)
    | Hex(x: char, digits: string)
    | Group(open: char, body: Sum, close: char)
    | PhiCall(name: string, index: Sum, arg: Sum, close: char)

  datatype Signed = Signed(minus: bool, atom: Atom)

  datatype Chain = First(head: Signed) | Binary(left: Chain, op: char, right: Signed) | Bare(left: Chain, op: char)

  datatype Product = Single(chain: Chain) | Times(left: Product, op: char, right: Chain)

  datatype Sum = Term(product: Product) | Plus(left: Sum, op: char, right: Product)

  function NumberOperand(minus: bool, digits: string): Signed {
    Signed(minus, Num(digits))
  }

  function ShowAtom(a: Atom): string {
    match a
    case Num(digits) => digits
    case Hex(x, digits) => ['0', x] + digits
    case Group(open, body, close) => [open] + ShowSum(body) + [close]
    case PhiCall(name, index, arg, close) => name + "(" + ShowSum(index) + "," + ShowSum(arg) + [close]
  }

  function ShowSigned(s: Signed): string {
    if s.minus then "-" + ShowAtom(s.atom) else ShowAtom(s.atom)
  }

  function ShowChain(c: Chain): string {
    match c
    case First(head) => ShowSigned(head)
    case Binary(left, op, right) => ShowChain(left) + [op] + ShowSigned(right)
    case Bare(left, op) => ShowChain(left) + [op]
  }

  function ShowProduct(p: Product): string {
    match p
    case Single(chain) => ShowChain(chain)
    case Times(left, op, right) => ShowProduct(left) + [op] + ShowChain(right)
  }

  function ShowSum(s: Sum): string {
    match s
    case Term(product) => ShowProduct(product)
    case Plus(left, op, right) => ShowSum(left) + [op] + ShowProduct(right)
  }

  // ---------------------------------------------------------------- well-formedness

  predicate AllDigits(s: string) {
    |s| > 0 && forall i :: 0 <= i < |s| ==> IsDigit(s[i])
  }

  predicate AllHexDigits(s: string) {
    |s| > 0 && forall i :: 0 <= i < |s| ==> IsHexDigit(s[i])
  }

  predicate PhiName(s: string) {
    |s| == 3 && SameLetter(s[0], 'p', 'P') && SameLetter(s[1], 'h', 'H') && SameLetter(s[2], 'i', 'I')
  }

  predicate WellFormedAtom(a: Atom) {
    match a
    case Num(digits) => AllDigits(digits)
    case Hex(x, digits) => SameLetter(x, 'x', 'X') && AllHexDigits(digits)
    case Group(open, body, close) => IsOpen(open) && IsClose(close) && WellFormedSum(body)
    case PhiCall(name, index, arg, close) =>
      PhiName(name) && IsClose(close) && WellFormedSum(index) && WellFormedSum(arg)
  }

  predicate WellFormedSigned(s: Signed) {
    WellFormedAtom(s.atom)
  }

  /** A two-place ! or # is told from a bare one by the digit that follows it. */
  predicate WellFormedChain(c: Chain) {
    match c
    case First(head) => WellFormedSigned(head)
    case Binary(left, op, right) =>
      && WellFormedChain(left) && WellFormedSigned(right)
      && (op == '^' || ((op == '!' || op == '#') && !right.minus && (right.atom.Num? || right.atom.Hex?)))
    case Bare(left, op) => WellFormedChain(left) && (op == '!' || op == '#')
  }

  predicate WellFormedProduct(p: Product) {
    match p
    case Single(chain) => WellFormedChain(chain)
    case Times(left, op, right) => WellFormedProduct(left) && IsProductOp(op) && WellFormedChain(right)
  }

  predicate WellFormedSum(s: Sum) {
    match s
    case Term(product) => WellFormedProduct(product)
    case Plus(left, op, right) => WellFormedSum(left) && IsSumOp(op) && WellFormedProduct(right)
  }

  // ---------------------------------------------------------------- values

  function Done(s: Step): Option<int> {
    match s
    case Ok(v) => Some(v)
    case Halted(_) => None
  }

  ghost function AtomValue(a: Atom, pp: int -> bool): Option<int>
    decreases a, 0
  {
    match a
    case Num(digits) => Some(Numeral(digits, 10))
    case Hex(_, digits) => Some(Numeral(digits, 16))
    case Group(_, body, _) => SumValue(body, pp)
    case PhiCall(_, index, arg, _) =>
      match (SumValue(index, pp), SumValue(arg, pp))
      case (Some(b), Some(n)) => (match Phi(b, n, pp) case PhiValue(v) => Some(v) case _ => None)
      case _ => None
  }

  /** Unary minus binds tightest, but phi does not take it. */
  ghost function SignedValue(s: Signed, pp: int -> bool): Option<int>
    decreases s, 1
  {
    match AtomValue(s.atom, pp)
    case Some(v) => Some(if s.minus && !s.atom.PhiCall? then -v else v)
    case None => None
  }

  /** A power-level operator that waits for its right operand, and the number read last. */
  datatype Waiting = Waiting(op: char, prior: int, n: int)

  /**
   * Reading a chain from left to right: a two-place operator first works off the one that waits, a bare suffix
   * takes its place.
   */
  ghost function ChainState(c: Chain, pp: int -> bool): Option<Waiting>
    decreases c, 0
  {
    match c
    case First(head) =>
      (match SignedValue(head, pp) case Some(v) => Some(Waiting('\0', 0, v)) case None => None)
    case Bare(left, op) =>
      (match ChainState(left, pp) case Some(w) => Some(Waiting(op, w.n, w.n)) case None => None)
    case Binary(left, op, right) =>
      match (ChainState(left, pp), SignedValue(right, pp))
      case (Some(w), Some(v)) =>
        (match EvalPower(w.op, w.prior, w.n) case Ok(u) => Some(Waiting(Pending(op), u, v)) case Halted(_) => None)
      case _ => None
  }

  ghost function ChainValue(c: Chain, pp: int -> bool): Option<int>
    decreases c, 1
  {
    match ChainState(c, pp)
    case Some(w) => Done(EvalPower(w.op, w.prior, w.n))
    case None => None
  }

  ghost function ProductValue(p: Product, pp: int -> bool): Option<int>
    decreases p, 2
  {
    match p
    case Single(chain) => ChainValue(chain, pp)
    case Times(left, op, right) =>
      match (ProductValue(left, pp), ChainValue(right, pp))
      case (Some(x), Some(y)) => Done(EvalProduct(op, x, y))
      case _ => None
  }

  ghost function SumValue(s: Sum, pp: int -> bool): Option<int>
    decreases s, 3
  {
    match s
    case Term(product) => ProductValue(product, pp)
    case Plus(left, op, right) =>
      match (SumValue(left, pp), ProductValue(right, pp))
      case (Some(x), Some(y)) => Some(EvalSum(op, x, y))
      case _ => None
  }

  // ---------------------------------------------------------------- reading shown text

  /** s stands in txt at p. */
  predicate Stands(txt: string, p: nat, s: string) {
    p + |s| <= |txt| && txt[p..p + |s|] == s
  }

  lemma StandsSplit(txt: string, p: nat, a: string, b: string)
    requires Stands(txt, p, a + b)
    ensures Stands(txt, p, a) && Stands(txt, p + |a|, b)
  {
    assert (a + b)[..|a|] == a && (a + b)[|a|..] == b;
    assert txt[p..p + |a + b|][..|a|] == txt[p..p + |a|];
    assert txt[p..p + |a + b|][|a|..] == txt[p + |a|..p + |a| + |b|];
  }

  lemma StandsChar(txt: string, p: nat, c: char)
    requires Stands(txt, p, [c])
    ensures At(txt, p) == c && p < |txt|
  {
    assert txt[p..p + 1][0] == c;
  }

  /** A character that can follow an operand. */
  predicate Delimits(c: char) {
    IsEnd(c, true) || c == '^' || c == '!' || c == '#' || IsProductOp(c) || IsSumOp(c)
  }

  lemma DelimiterIsNoDigit(c: char)
    requires Delimits(c)
    ensures !IsHexDigit(c) && !IsDigit(c) && c != 'x' && c != 'X'
  {
  }

  lemma {:induction false} RunLengthOfShown(txt: string, p: nat, s: string, hex: bool)
    requires Stands(txt, p, s) && forall i :: 0 <= i < |s| ==> if hex then IsHexDigit(s[i]) else IsDigit(s[i])
    requires !(if hex then IsHexDigit(At(txt, p + |s|)) else IsDigit(At(txt, p + |s|)))
    ensures RunLength(txt, p, hex) == |s|
    decreases |s|
  {
    if |s| > 0 {
      assert txt[p] == txt[p..p + |s|][0] == s[0];
      assert txt[p + 1..p + 1 + |s[1..]|] == txt[p..p + |s|][1..];
      RunLengthOfShown(txt, p + 1, s[1..], hex);
    }
  }

  // ---------------------------------------------------------------- the machine on shown text

  /** The power slot holds what waits; the other slots are those of regs. */
  ghost predicate Holds(regs': Regs, regs: Regs, n': int, w: Waiting) {
    && regs'.sumOp == regs.sumOp && regs'.sum == regs.sum
    && regs'.prodOp == regs.prodOp && regs'.prod == regs.prod
    && regs'.powOp == w.op && (w.op != '\0' ==> regs'.pow == w.prior) && n' == w.n
  }

  /** A closed sum between brackets, or up to a comma or the end of the text. */
  lemma {:induction false} RunSum(e: Sum, txt: string, p: nat, inParams: bool, t: int, pp: int -> bool)
    requires WellFormedSum(e) && Stands(txt, p, ShowSum(e)) && SumValue(e, pp).Some?
    requires IsEnd(At(txt, p + |ShowSum(e)|), inParams)
    ensures
      var end := p + |ShowSum(e)|;
      Run(txt, p, inParams, t, pp)
        == Return(if At(txt, end) == ',' then 2 else 1, SumValue(e, pp).value, end + 1)
    decreases e, 4
  {
    var t', regs', n' := SumPrefix(e, txt, p, inParams, t, pp);
    var end := p + |ShowSum(e)|;
    assert Suffix(txt, end, inParams, t', regs', n', pp)
        == Return(if At(txt, end) == ',' then 2 else 1, SumValue(e, pp).value, end + 1) by {
      hide EvalPower, EvalProduct, EvalSum, ShowSum, SumValue;
    }
  }

  /** Reading a sum from empty slots: what the three slots hold comes to the value of the sum. */
  lemma {:induction false} SumPrefix(e: Sum, txt: string, p: nat, inParams: bool, t: int, pp: int -> bool)
    returns (t': int, regs': Regs, n': int)
    requires WellFormedSum(e) && Stands(txt, p, ShowSum(e)) && SumValue(e, pp).Some?
    requires Delimits(At(txt, p + |ShowSum(e)|))
    ensures Operand(txt, p, inParams, t, EMPTY, 0, pp)
         == Suffix(txt, p + |ShowSum(e)|, inParams, t', regs', n', pp)
    ensures Collapse(regs', n').Ok?
    ensures SumValue(e, pp).value == EvalSum(regs'.sumOp, regs'.sum, Collapse(regs', n').value)
    decreases e, 3
  {
    hide Operand, Suffix, PhiOperand, Run, Collapse, EvalPower, EvalProduct, EvalSum, Stands, Phi;
    match e
    case Term(product) =>
      t', regs', n' := ProductPrefix(product, txt, p, inParams, t, EMPTY, 0, pp);
      NothingToAdd(regs'.sum, ProductValue(product, pp).value);
    case Plus(left, op, right) =>
      var l := |ShowSum(left)|;
      StandsSplit(txt, p, ShowSum(left) + [op], ShowProduct(right));
      StandsSplit(txt, p, ShowSum(left), [op]);
      StandsChar(txt, p + l, op);
      var t1, regs1, n1 := SumPrefix(left, txt, p, inParams, t, pp);
      var w := SumValue(left, pp).value;
      var regs2 := regs1.(powOp := '\0', prodOp := '\0', sum := w, sumOp := op);
      SumStep(txt, p + l, inParams, t1, regs1, n1, pp);
      t', regs', n' := ProductPrefix(right, txt, p + l + 1, inParams, t1, regs2, w, pp);
  }

  lemma NothingToAdd(x: int, y: int)
    ensures EvalSum('\0', x, y) == y && EvalProduct('\0', x, y) == Ok(y)
  {
  }

  lemma SumStep(txt: string, p: nat, inParams: bool, t: int, regs: Regs, n: int, pp: int -> bool)
    requires p < |txt| && IsSumOp(At(txt, p)) && Collapse(regs, n).Ok?
    ensures
      var w := EvalSum(regs.sumOp, regs.sum, Collapse(regs, n).value);
      Suffix(txt, p, inParams, t, regs, n, pp)
        == Operand(txt, p + 1, inParams, t, regs.(powOp := '\0', prodOp := '\0', sum := w, sumOp := At(txt, p)), w, pp)
  {
    hide Collapse, EvalSum;
  }

  lemma ProductStep(txt: string, p: nat, inParams: bool, t: int, regs: Regs, n: int, pp: int -> bool)
    requires p < |txt| && IsProductOp(At(txt, p)) && Collapse(regs, n).Ok?
    ensures
      var v := Collapse(regs, n).value;
      Suffix(txt, p, inParams, t, regs, n, pp)
        == Operand(txt, p + 1, inParams, t, regs.(powOp := '\0', prod := v, prodOp := At(txt, p)), v, pp)
  {
    hide Collapse, EvalSum;
  }

  /** Reading a product when the power and product slots are empty. */
  lemma {:induction false} ProductPrefix(e: Product, txt: string, p: nat, inParams: bool, t: int, regs: Regs,
    n: int, pp: int -> bool)
    returns (t': int, regs': Regs, n': int)
    requires WellFormedProduct(e) && Stands(txt, p, ShowProduct(e)) && ProductValue(e, pp).Some?
    requires Delimits(At(txt, p + |ShowProduct(e)|)) && regs.prodOp == '\0' && regs.powOp == '\0'
    ensures Operand(txt, p, inParams, t, regs, n, pp)
         == Suffix(txt, p + |ShowProduct(e)|, inParams, t', regs', n', pp)
    ensures regs'.sumOp == regs.sumOp && regs'.sum == regs.sum
    ensures Collapse(regs', n') == Ok(ProductValue(e, pp).value)
    decreases e, 2
  {
    hide Operand, Suffix, PhiOperand, Run, Collapse, EvalPower, EvalProduct, EvalSum, Stands, Phi;
    match e
    case Single(chain) =>
      t', regs', n' := ChainPrefix(chain, txt, p, inParams, t, regs, n, pp);
      CollapseChain(chain, regs, regs', n', pp);
      NothingToAdd(regs.prod, ChainValue(chain, pp).value);
    case Times(left, op, right) =>
      var l := |ShowProduct(left)|;
      StandsSplit(txt, p, ShowProduct(left) + [op], ShowChain(right));
      StandsSplit(txt, p, ShowProduct(left), [op]);
      StandsChar(txt, p + l, op);
      var t1, regs1, n1 := ProductPrefix(left, txt, p, inParams, t, regs, n, pp);
      var v := ProductValue(left, pp).value;
      var regs2 := regs1.(powOp := '\0', prod := v, prodOp := op);
      ProductStep(txt, p + l, inParams, t1, regs1, n1, pp);
      t', regs', n' := ChainPrefix(right, txt, p + l + 1, inParams, t1, regs2, v, pp);
      CollapseChain(right, regs2, regs', n', pp);
  }

  lemma CollapseChain(c: Chain, regs: Regs, regs': Regs, n': int, pp: int -> bool)
    requires ChainState(c, pp).Some? && ChainValue(c, pp).Some? && Holds(regs', regs, n', ChainState(c, pp).value)
    ensures Collapse(regs', n') == EvalProduct(regs.prodOp, regs.prod, ChainValue(c, pp).value)
  {
    hide EvalProduct, ChainState, Phi;
  }

  /** Reading a chain when the power slot is empty. */
  lemma {:induction false} ChainPrefix(c: Chain, txt: string, p: nat, inParams: bool, t: int, regs: Regs,
    n: int, pp: int -> bool)
    returns (t': int, regs': Regs, n': int)
    requires WellFormedChain(c) && Stands(txt, p, ShowChain(c)) && ChainState(c, pp).Some?
    requires Delimits(At(txt, p + |ShowChain(c)|)) && regs.powOp == '\0'
    ensures Operand(txt, p, inParams, t, regs, n, pp)
         == Suffix(txt, p + |ShowChain(c)|, inParams, t', regs', n', pp)
    ensures Holds(regs', regs, n', ChainState(c, pp).value)
    decreases c, 1
  {
    hide Operand, Suffix, PhiOperand, Run, Collapse, EvalPower, EvalProduct, EvalSum, Stands, Phi;
    hide Delimits, SignedValue, ShowSigned, WellFormedSigned;
    match c
    case First(head) =>
      t' := SignedPrefix(head, txt, p, inParams, t, regs, n, pp);
      regs', n' := regs, SignedValue(head, pp).value;
    case Bare(left, op) =>
      var end := p + |ShowChain(left)|;
      BareParts(left, op, txt, p);
      var t1, regs1, n1 := ChainPrefix(left, txt, p, inParams, t, regs, n, pp);
      t', regs', n' := t1, regs1.(pow := n1, powOp := op), n1;
      BareStep(txt, end, inParams, t1, regs1, n1, pp);
    case Binary(left, op, right) =>
      var end := p + |ShowChain(left)|;
      BinaryParts(left, op, right, txt, p);
      var t1, regs1, n1 := ChainPrefix(left, txt, p, inParams, t, regs, n, pp);
      var w := ChainState(left, pp).value;
      var u := EvalPower(w.op, w.prior, w.n).value;
      EmptySlot(regs1, w);
      regs' := regs1.(pow := u, powOp := Pending(op));
      PowerStep(txt, end, inParams, t1, regs1, n1, pp);
      t' := SignedPrefix(right, txt, end + 1, inParams, t1, regs', u, pp);
      n' := SignedValue(right, pp).value;
  }

  lemma BareParts(left: Chain, op: char, txt: string, p: nat)
    requires WellFormedChain(Bare(left, op)) && Stands(txt, p, ShowChain(Bare(left, op)))
    requires Delimits(At(txt, p + |ShowChain(Bare(left, op))|))
    ensures
      var end := p + |ShowChain(left)|;
      && end < |txt| && end + 1 == p + |ShowChain(Bare(left, op))|
      && Stands(txt, p, ShowChain(left)) && At(txt, end) == op && Delimits(op) && !IsDigit(At(txt, end + 1))
  {
    hide Stands;
    StandsSplit(txt, p, ShowChain(left), [op]);
    StandsChar(txt, p + |ShowChain(left)|, op);
    DelimiterIsNoDigit(At(txt, p + |ShowChain(left)| + 1));
  }

  lemma BinaryParts(left: Chain, op: char, right: Signed, txt: string, p: nat)
    requires WellFormedChain(Binary(left, op, right)) && Stands(txt, p, ShowChain(Binary(left, op, right)))
    ensures
      var end := p + |ShowChain(left)|;
      && end < |txt| && end + 1 + |ShowSigned(right)| == p + |ShowChain(Binary(left, op, right))|
      && Stands(txt, p, ShowChain(left)) && At(txt, end) == op && Delimits(op)
      && Stands(txt, end + 1, ShowSigned(right)) && (op != '^' ==> IsDigit(At(txt, end + 1)))
  {
    hide Stands;
    var end := p + |ShowChain(left)|;
    StandsSplit(txt, p, ShowChain(left) + [op], ShowSigned(right));
    StandsSplit(txt, p, ShowChain(left), [op]);
    StandsChar(txt, end, op);
    if op != '^' {
      StartsWithDigit(right, txt, end + 1);
    }
  }

  /** With nothing waiting, the content of the slot does not matter. */
  lemma EmptySlot(regs: Regs, w: Waiting)
    requires regs.powOp == w.op && (w.op != '\0' ==> regs.pow == w.prior)
    ensures EvalPower(regs.powOp, regs.pow, w.n) == EvalPower(w.op, w.prior, w.n)
  {
  }

  lemma BareStep(txt: string, p: nat, inParams: bool, t: int, regs: Regs, n: int, pp: int -> bool)
    requires p < |txt| && (At(txt, p) == '!' || At(txt, p) == '#') && !IsDigit(At(txt, p + 1))
    ensures Suffix(txt, p, inParams, t, regs, n, pp)
         == Suffix(txt, p + 1, inParams, t, regs.(pow := n, powOp := At(txt, p)), n, pp)
  {
    hide Collapse;
  }

  lemma PowerStep(txt: string, p: nat, inParams: bool, t: int, regs: Regs, n: int, pp: int -> bool)
    requires p < |txt| && EvalPower(regs.powOp, regs.pow, n).Ok?
    requires At(txt, p) == '^' || ((At(txt, p) == '!' || At(txt, p) == '#') && IsDigit(At(txt, p + 1)))
    ensures
      var v := EvalPower(regs.powOp, regs.pow, n).value;
      Suffix(txt, p, inParams, t, regs, n, pp)
        == Operand(txt, p + 1, inParams, t, regs.(pow := v, powOp := Pending(At(txt, p))), v, pp)
  {
    hide Collapse, EvalPower;
  }

  lemma StartsWithDigit(s: Signed, txt: string, p: nat)
    requires WellFormedSigned(s) && Stands(txt, p, ShowSigned(s)) && !s.minus && (s.atom.Num? || s.atom.Hex?)
    ensures IsDigit(At(txt, p))
  {
    assert ShowSigned(s) == ShowAtom(s.atom);
    assert txt[p..p + |ShowSigned(s)|][0] == txt[p] == ShowAtom(s.atom)[0];
  }

  // ---------------------------------------------------------------- operands

  /** The cursor after an optional minus sign. */
  function AfterSign(s: Signed, p: nat): nat {
    if s.minus then p + 1 else p
  }

  lemma SkipMinus(s: Signed, txt: string, p: nat)
    requires WellFormedSigned(s) && Stands(txt, p, ShowSigned(s))
    ensures
      var q := AfterSign(s, p);
      && p <= q < |txt| && s.minus == (At(txt, p) == '-')
      && Stands(txt, q, ShowAtom(s.atom)) && q + |ShowAtom(s.atom)| == p + |ShowSigned(s)|
  {
    hide Stands;
    var q := AfterSign(s, p);
    AtomStart(s.atom);
    assert Stands(txt, q, ShowAtom(s.atom)) && s.minus == (At(txt, p) == '-') by {
      if s.minus {
        StandsSplit(txt, p, "-", ShowAtom(s.atom));
        StandsChar(txt, p, '-');
      } else {
        StandsHead(txt, p, ShowAtom(s.atom));
      }
    }
    StandsHead(txt, q, ShowAtom(s.atom));
  }

  lemma StandsHead(txt: string, p: nat, s: string)
    requires Stands(txt, p, s) && |s| > 0
    ensures p < |txt| && At(txt, p) == s[0]
  {
    assert txt[p..p + |s|][0] == txt[p];
  }

  lemma AtomStart(a: Atom)
    requires WellFormedAtom(a)
    ensures |ShowAtom(a)| > 0
    ensures
      var c := ShowAtom(a)[0];
      && c != '-' && (IsOpen(c) <==> a.Group?)
      && (IsDigit(c) <==> a.Num? || a.Hex?)
      && (SameLetter(c, 'p', 'P') <==> a.PhiCall?)
  {
  }

  /** The value read, with its sign. */
  function Negated(minus: bool, v: int): int {
    if minus then -v else v
  }

  lemma NumOperand(s: Signed, txt: string, p: nat, inParams: bool, t: int, regs: Regs, n: int, pp: int -> bool)
    requires WellFormedSigned(s) && Stands(txt, p, ShowSigned(s)) && s.atom.Num?
    requires Delimits(At(txt, p + |ShowSigned(s)|))
    ensures Operand(txt, p, inParams, t, regs, n, pp)
         == Suffix(txt, p + |ShowSigned(s)|, inParams, t, regs, Negated(s.minus, Numeral(s.atom.digits, 10)), pp)
  {
    hide Suffix, Numeral, Delimits, Run, PhiOperand, StartsPhi;
    var q, d := AfterSign(s, p), s.atom.digits;
    SkipMinus(s, txt, p);
    AtomStart(s.atom);
    StandsHead(txt, q, d);
    DelimiterIsNoDigit(At(txt, q + |d|));
    RunLengthOfShown(txt, q, d, false);
    assert !(|d| == 1 && StartsHex(txt, q));
    assert txt[q..q + |d|] == d;
  }

  lemma HexParts(s: Signed, txt: string, p: nat)
    requires WellFormedSigned(s) && Stands(txt, p, ShowSigned(s)) && s.atom.Hex?
    ensures
      var q := AfterSign(s, p);
      && At(txt, q) == '0' && SameLetter(At(txt, q + 1), 'x', 'X') && Stands(txt, q + 2, s.atom.digits)
  {
    hide Stands;
    var q, d, x := AfterSign(s, p), s.atom.digits, s.atom.x;
    SkipMinus(s, txt, p);
    StandsSplit(txt, q, ['0', x], d);
    assert ['0', x] == ['0'] + [x];
    StandsSplit(txt, q, ['0'], [x]);
    StandsChar(txt, q, '0');
    StandsChar(txt, q + 1, x);
  }

  lemma HexRuns(txt: string, q: nat, d: string)
    requires At(txt, q) == '0' && SameLetter(At(txt, q + 1), 'x', 'X')
    requires AllHexDigits(d) && Stands(txt, q + 2, d) && Delimits(At(txt, q + 2 + |d|))
    ensures RunLength(txt, q, false) == 1 && RunLength(txt, q + 2, true) == |d| && txt[q + 2..q + 2 + |d|] == d
  {
    DelimiterIsNoDigit(At(txt, q + 2 + |d|));
    RunLengthOfShown(txt, q + 2, d, true);
    assert RunLength(txt, q + 1, false) == 0;
  }

  lemma HexOperand(s: Signed, txt: string, p: nat, inParams: bool, t: int, regs: Regs, n: int, pp: int -> bool)
    requires WellFormedSigned(s) && Stands(txt, p, ShowSigned(s)) && s.atom.Hex?
    requires Delimits(At(txt, p + |ShowSigned(s)|))
    ensures Operand(txt, p, inParams, t, regs, n, pp)
         == Suffix(txt, p + |ShowSigned(s)|, inParams, t, regs, Negated(s.minus, Numeral(s.atom.digits, 16)), pp)
  {
    hide Suffix, Numeral, Delimits, Run, PhiOperand, StartsPhi, Stands, RunLength;
    SkipMinus(s, txt, p);
    HexParts(s, txt, p);
    HexRuns(txt, AfterSign(s, p), s.atom.digits);
  }

  lemma GroupOperand(s: Signed, txt: string, p: nat, inParams: bool, t: int, regs: Regs, n: int, v: int,
    pp: int -> bool)
    requires WellFormedSigned(s) && Stands(txt, p, ShowSigned(s)) && s.atom.Group?
    requires
      var q := AfterSign(s, p) + 1;
      Run(txt, q, inParams, t, pp) == Return(1, v, q + |ShowSum(s.atom.body)| + 1)
    ensures Operand(txt, p, inParams, t, regs, n, pp)
         == Suffix(txt, p + |ShowSigned(s)|, inParams, v, regs, Negated(s.minus, v), pp)
  {
    hide Suffix, Run, PhiOperand, StartsPhi, StartsHex, RunLength, Stands;
    var q := AfterSign(s, p);
    SkipMinus(s, txt, p);
    AtomStart(s.atom);
    StandsHead(txt, q, ShowAtom(s.atom));
  }

  lemma PhiReached(s: Signed, txt: string, p: nat, inParams: bool, t: int, regs: Regs, n: int, pp: int -> bool)
    requires WellFormedSigned(s) && Stands(txt, p, ShowSigned(s)) && s.atom.PhiCall?
    ensures AfterSign(s, p) + 4 <= |txt|
    ensures Operand(txt, p, inParams, t, regs, n, pp)
         == PhiOperand(txt, AfterSign(s, p) + 4, inParams, t, regs, n, pp)
  {
    hide Suffix, Run, PhiOperand, StartsHex, Stands;
    var q, name := AfterSign(s, p), s.atom.name;
    SkipMinus(s, txt, p);
    AtomStart(s.atom);
    var rest := ShowSum(s.atom.index) + "," + ShowSum(s.atom.arg) + [s.atom.close];
    assert ShowAtom(s.atom) == (name + "(") + rest;
    StandsSplit(txt, q, name + "(", rest);
    assert name + "(" == [name[0]] + ([name[1]] + ([name[2]] + "("));
    StandsSplit(txt, q, [name[0]], [name[1]] + ([name[2]] + "("));
    StandsSplit(txt, q + 1, [name[1]], [name[2]] + "(");
    StandsSplit(txt, q + 2, [name[2]], "(");
    StandsChar(txt, q, name[0]);
    StandsChar(txt, q + 1, name[1]);
    StandsChar(txt, q + 2, name[2]);
    StandsChar(txt, q + 3, '(');
  }

  lemma PhiFinished(txt: string, q: nat, i: nat, a: nat, inParams: bool, t: int, regs: Regs, n: int, b: int, v: int,
    pp: int -> bool)
    requires q <= |txt| && Run(txt, q, true, t, pp) == Return(2, b, i)
    requires Run(txt, i, false, b, pp) == Return(1, v, a)
    requires Phi(b, v, pp).PhiValue?
    ensures PhiOperand(txt, q, inParams, t, regs, n, pp) == Suffix(txt, a, inParams, v, regs, Phi(b, v, pp).value, pp)
  {
    hide Suffix, Run, Phi;
  }

  /** Where the parts of a phi call stand. */
  lemma PhiParts(s: Signed, txt: string, p: nat)
    requires WellFormedSigned(s) && Stands(txt, p, ShowSigned(s)) && s.atom.PhiCall?
    ensures
      var q := AfterSign(s, p) + 4;
      var i := q + |ShowSum(s.atom.index)| + 1;
      var a := i + |ShowSum(s.atom.arg)| + 1;
      && Stands(txt, q, ShowSum(s.atom.index)) && At(txt, i - 1) == ','
      && Stands(txt, i, ShowSum(s.atom.arg)) && At(txt, a - 1) == s.atom.close
      && a == p + |ShowSigned(s)|
  {
    hide Stands, At;
    var q, x, y, c := AfterSign(s, p) + 4, ShowSum(s.atom.index), ShowSum(s.atom.arg), [s.atom.close];
    SkipMinus(s, txt, p);
    assert ShowAtom(s.atom) == (s.atom.name + "(") + (x + ("," + (y + c)));
    StandsSplit(txt, q - 4, s.atom.name + "(", x + ("," + (y + c)));
    StandsSplit(txt, q, x, "," + (y + c));
    StandsSplit(txt, q + |x|, ",", y + c);
    StandsSplit(txt, q + |x| + 1, y, c);
    StandsChar(txt, q + |x|, ',');
    StandsChar(txt, q + |x| + 1 + |y|, s.atom.close);
  }

  lemma GroupParts(s: Signed, txt: string, p: nat)
    requires WellFormedSigned(s) && Stands(txt, p, ShowSigned(s)) && s.atom.Group?
    ensures
      var q, x := AfterSign(s, p) + 1, ShowSum(s.atom.body);
      && Stands(txt, q, x) && At(txt, q + |x|) == s.atom.close && q + |x| + 1 == p + |ShowSigned(s)|
  {
    hide Stands, At;
    var q, x := AfterSign(s, p) + 1, ShowSum(s.atom.body);
    SkipMinus(s, txt, p);
    assert ShowAtom(s.atom) == [s.atom.open] + (x + [s.atom.close]);
    StandsSplit(txt, q - 1, [s.atom.open], x + [s.atom.close]);
    StandsSplit(txt, q, x, [s.atom.close]);
    StandsChar(txt, q + |x|, s.atom.close);
  }

  /** Reading a number, a bracket or a call of phi leaves the slots alone. */
  lemma {:induction false} SignedPrefix(s: Signed, txt: string, p: nat, inParams: bool, t: int, regs: Regs,
    n: int, pp: int -> bool)
    returns (t': int)
    requires WellFormedSigned(s) && Stands(txt, p, ShowSigned(s)) && SignedValue(s, pp).Some?
    requires Delimits(At(txt, p + |ShowSigned(s)|))
    ensures Operand(txt, p, inParams, t, regs, n, pp)
         == Suffix(txt, p + |ShowSigned(s)|, inParams, t', regs, SignedValue(s, pp).value, pp)
    decreases s, 0
  {
    hide Operand, Suffix, PhiOperand, Run, Stands, Phi, Delimits, ShowSum, SumValue, WellFormedSum;
    match s.atom
    case Num(_) =>
      NumOperand(s, txt, p, inParams, t, regs, n, pp);
      t' := t;
    case Hex(_, _) =>
      HexOperand(s, txt, p, inParams, t, regs, n, pp);
      t' := t;
    case Group(_, body, close) =>
      GroupParts(s, txt, p);
      RunSum(body, txt, AfterSign(s, p) + 1, inParams, t, pp);
      t' := SumValue(body, pp).value;
      GroupOperand(s, txt, p, inParams, t, regs, n, t', pp);
    case PhiCall(_, index, arg, _) =>
      PhiParts(s, txt, p);
      PhiReached(s, txt, p, inParams, t, regs, n, pp);
      var q := AfterSign(s, p) + 4;
      var i := q + |ShowSum(index)| + 1;
      var b := SumValue(index, pp).value;
      RunSum(index, txt, q, true, t, pp);
      RunSum(arg, txt, i, false, b, pp);
      t' := SumValue(arg, pp).value;
      PhiFinished(txt, q, i, p + |ShowSigned(s)|, inParams, t, regs, n, b, t', pp);
  }

  /** A whole text: the cursor comes to rest one past the NUL that ends it, and t holds the value. */
  lemma WholeText(e: Sum, t: int, pp: int -> bool)
    requires WellFormedSum(e) && SumValue(e, pp).Some?
    ensures Run(ShowSum(e), 0, false, t, pp) == Return(1, SumValue(e, pp).value, |ShowSum(e)| + 1)
  {
    hide Run, SumValue, WellFormedSum;
    RunSum(e, ShowSum(e), 0, false, t, pp);
  }
}
