/**
 * Expressions without a value: an inexact division, a division by zero, an endless product or a phi that is too large
 * stops the program (source/eval.c), wherever brackets have hidden it. A phi that is refused does not: a bracket around
 * it goes on with what was left in t.
 */
module ExpressionErrors {
  import opened PhiValues
  import opened ExpressionMachine
  import opened ExpressionGrammar
  import opened HeardExpressions

  /** No call of phi refuses its parameters. */
  ghost predicate AcceptedSigned(s: Signed, pp: int -> bool) {
    match s.atom
    case Group(_, body, _) => AcceptedSum(body, pp)
    case PhiCall(_, index, arg, _) =>
      && AcceptedSum(index, pp) && AcceptedSum(arg, pp)
      && (match (SumValue(index, pp), SumValue(arg, pp))
          case (Some(b), Some(n)) => !Phi(b, n, pp).PhiRejected?
          case _ => true)
    case _ => true
  }

  ghost predicate AcceptedChain(c: Chain, pp: int -> bool) {
    match c
    case First(head) => AcceptedSigned(head, pp)
    case Binary(left, _, right) => AcceptedChain(left, pp) && AcceptedSigned(right, pp)
    case Bare(left, _) => AcceptedChain(left, pp)
  }

  ghost predicate AcceptedProduct(p: Product, pp: int -> bool) {
    match p
    case Single(chain) => AcceptedChain(chain, pp)
    case Times(left, _, right) => AcceptedProduct(left, pp) && AcceptedChain(right, pp)
  }

  ghost predicate AcceptedSum(s: Sum, pp: int -> bool) {
    match s
    case Term(product) => AcceptedProduct(product, pp)
    case Plus(left, _, right) => AcceptedSum(left, pp) && AcceptedProduct(right, pp)
  }

  /** A character that makes the machine work off the power and the product slot. */
  predicate WorksOff(c: char, inParams: bool) {
    IsProductOp(c) || IsSumOp(c) || IsEnd(c, inParams)
  }

  lemma PendingStops(txt: string, p: nat, inParams: bool, t: int, regs: Regs, n: int, pp: int -> bool)
    requires p <= |txt| && WorksOff(At(txt, p), inParams) && Collapse(regs, n).Halted?
    ensures Suffix(txt, p, inParams, t, regs, n, pp).Stop?
  {
    hide Collapse, Operand;
  }

  lemma PowerStops(txt: string, p: nat, inParams: bool, t: int, regs: Regs, n: int, pp: int -> bool)
    requires p < |txt| && EvalPower(regs.powOp, regs.pow, n).Halted?
    requires At(txt, p) == '^' || ((At(txt, p) == '!' || At(txt, p) == '#') && IsDigit(At(txt, p + 1)))
    ensures Suffix(txt, p, inParams, t, regs, n, pp).Stop?
  {
    hide Collapse, EvalPower, Operand;
  }

  lemma {:induction false} RunStops(e: Sum, txt: string, p: nat, inParams: bool, t: int, pp: int -> bool)
    requires WellFormedSum(e) && AcceptedSum(e, pp) && Stands(txt, p, ShowSum(e)) && SumValue(e, pp).None?
    requires IsEnd(At(txt, p + |ShowSum(e)|), inParams)
    ensures Run(txt, p, inParams, t, pp).Stop?
    decreases e, 4
  {
    hide Operand, Suffix, ShowSum, SumValue, WellFormedSum;
    SumStops(e, txt, p, inParams, t, pp);
  }

  lemma {:induction false} SumStops(e: Sum, txt: string, p: nat, inParams: bool, t: int, pp: int -> bool)
    requires WellFormedSum(e) && AcceptedSum(e, pp) && Stands(txt, p, ShowSum(e)) && SumValue(e, pp).None?
    requires WorksOff(At(txt, p + |ShowSum(e)|), inParams)
    ensures Operand(txt, p, inParams, t, EMPTY, 0, pp).Stop?
    decreases e, 3
  {
    hide Operand, Suffix, PhiOperand, Run, Collapse, EvalPower, EvalProduct, EvalSum, Stands, Phi;
    match e
    case Term(product) =>
      ProductStops(product, txt, p, inParams, t, EMPTY, 0, pp);
    case Plus(left, op, right) =>
      var l := |ShowSum(left)|;
      StandsSplit(txt, p, ShowSum(left) + [op], ShowProduct(right));
      StandsSplit(txt, p, ShowSum(left), [op]);
      StandsChar(txt, p + l, op);
      if SumValue(left, pp).None? {
        SumStops(left, txt, p, inParams, t, pp);
      } else {
        var t1, regs1, n1 := SumPrefix(left, txt, p, inParams, t, pp);
        var w := SumValue(left, pp).value;
        var regs2 := regs1.(powOp := '\0', prodOp := '\0', sum := w, sumOp := op);
        SumStep(txt, p + l, inParams, t1, regs1, n1, pp);
        ProductStops(right, txt, p + l + 1, inParams, t1, regs2, w, pp);
      }
  }

  lemma {:induction false} ProductStops(e: Product, txt: string, p: nat, inParams: bool, t: int, regs: Regs,
    n: int, pp: int -> bool)
    requires WellFormedProduct(e) && AcceptedProduct(e, pp)
    requires Stands(txt, p, ShowProduct(e)) && ProductValue(e, pp).None?
    requires WorksOff(At(txt, p + |ShowProduct(e)|), inParams) && regs.prodOp == '\0' && regs.powOp == '\0'
    ensures Operand(txt, p, inParams, t, regs, n, pp).Stop?
    decreases e, 2
  {
    hide Operand, Suffix, PhiOperand, Run, Collapse, EvalPower, EvalProduct, EvalSum, Stands, Phi;
    match e
    case Single(chain) =>
      ChainStops(chain, txt, p, inParams, t, regs, n, pp);
    case Times(left, op, right) =>
      var l := |ShowProduct(left)|;
      StandsSplit(txt, p, ShowProduct(left) + [op], ShowChain(right));
      StandsSplit(txt, p, ShowProduct(left), [op]);
      StandsChar(txt, p + l, op);
      if ProductValue(left, pp).None? {
        ProductStops(left, txt, p, inParams, t, regs, n, pp);
      } else {
        var t1, regs1, n1 := ProductPrefix(left, txt, p, inParams, t, regs, n, pp);
        var v := ProductValue(left, pp).value;
        var regs2 := regs1.(powOp := '\0', prod := v, prodOp := op);
        ProductStep(txt, p + l, inParams, t1, regs1, n1, pp);
        if ChainValue(right, pp).None? {
          ChainStops(right, txt, p + l + 1, inParams, t1, regs2, v, pp);
        } else {
          LastFactorStops(right, txt, p + l + 1, inParams, t1, regs2, v, pp);
        }
      }
  }

  /** The chain has a value, but what waits in the product slot cannot take it. */
  lemma LastFactorStops(c: Chain, txt: string, p: nat, inParams: bool, t: int, regs: Regs, n: int, pp: int -> bool)
    requires WellFormedChain(c) && Stands(txt, p, ShowChain(c)) && ChainValue(c, pp).Some?
    requires WorksOff(At(txt, p + |ShowChain(c)|), inParams) && regs.powOp == '\0'
    requires EvalProduct(regs.prodOp, regs.prod, ChainValue(c, pp).value).Halted?
    ensures Operand(txt, p, inParams, t, regs, n, pp).Stop?
  {
    hide Operand, Suffix, Collapse, EvalPower, EvalProduct;
    var t', regs', n' := ChainPrefix(c, txt, p, inParams, t, regs, n, pp);
    CollapseChain(c, regs, regs', n', pp);
    PendingStops(txt, p + |ShowChain(c)|, inParams, t', regs', n', pp);
  }

  lemma {:induction false} ChainStops(c: Chain, txt: string, p: nat, inParams: bool, t: int, regs: Regs,
    n: int, pp: int -> bool)
    requires WellFormedChain(c) && AcceptedChain(c, pp) && Stands(txt, p, ShowChain(c)) && ChainValue(c, pp).None?
    requires WorksOff(At(txt, p + |ShowChain(c)|), inParams) && regs.powOp == '\0'
    ensures Operand(txt, p, inParams, t, regs, n, pp).Stop?
    decreases c, 2
  {
    hide Operand, Suffix, EvalPower, EvalProduct;
    if ChainState(c, pp).None? {
      StateStops(c, txt, p, inParams, t, regs, n, pp);
    } else {
      var t', regs', n' := ChainPrefix(c, txt, p, inParams, t, regs, n, pp);
      var w := ChainState(c, pp).value;
      EmptySlot(regs', w);
      PendingStops(txt, p + |ShowChain(c)|, inParams, t', regs', n', pp);
    }
  }

  /** A power operator that stops inside the chain, or an operand that stops. */
  lemma {:induction false} StateStops(c: Chain, txt: string, p: nat, inParams: bool, t: int, regs: Regs,
    n: int, pp: int -> bool)
    requires WellFormedChain(c) && AcceptedChain(c, pp) && Stands(txt, p, ShowChain(c)) && ChainState(c, pp).None?
    requires Delimits(At(txt, p + |ShowChain(c)|)) && regs.powOp == '\0'
    ensures Operand(txt, p, inParams, t, regs, n, pp).Stop?
    decreases c, 1
  {
    hide Operand, Suffix, PhiOperand, Run, Collapse, EvalPower, EvalProduct, EvalSum, Stands, Phi, Delimits;
    match c
    case First(head) =>
      SignedStops(head, txt, p, inParams, t, regs, n, pp);
    case Bare(left, op) =>
      BareParts(left, op, txt, p);
      StateStops(left, txt, p, inParams, t, regs, n, pp);
    case Binary(left, op, right) =>
      var end := p + |ShowChain(left)|;
      BinaryParts(left, op, right, txt, p);
      if ChainState(left, pp).None? {
        StateStops(left, txt, p, inParams, t, regs, n, pp);
      } else {
        var t1, regs1, n1 := ChainPrefix(left, txt, p, inParams, t, regs, n, pp);
        var w := ChainState(left, pp).value;
        EmptySlot(regs1, w);
        if EvalPower(w.op, w.prior, w.n).Halted? {
          PowerStops(txt, end, inParams, t1, regs1, n1, pp);
        } else {
          var u := EvalPower(w.op, w.prior, w.n).value;
          PowerStep(txt, end, inParams, t1, regs1, n1, pp);
          SignedStops(right, txt, end + 1, inParams, t1, regs1.(pow := u, powOp := Pending(op)), u, pp);
        }
      }
  }

  lemma PhiStops(s: Signed, txt: string, p: nat, inParams: bool, t: int, regs: Regs, n: int, pp: int -> bool)
    requires WellFormedSigned(s) && s.atom.PhiCall? && AcceptedSigned(s, pp) && Stands(txt, p, ShowSigned(s))
    requires
      var q := AfterSign(s, p) + 4;
      var i := q + |ShowSum(s.atom.index)| + 1;
      && q <= |txt| && SignedValue(s, pp).None?
      && (SumValue(s.atom.index, pp).None? ==> Run(txt, q, true, t, pp).Stop?)
      && (match SumValue(s.atom.index, pp)
          case Some(b) =>
            && Run(txt, q, true, t, pp) == Return(2, b, i)
            && (match SumValue(s.atom.arg, pp)
                case Some(v) => Run(txt, i, false, b, pp) == Return(1, v, p + |ShowSigned(s)|)
                case None => Run(txt, i, false, b, pp).Stop?)
          case None => true)
    ensures Operand(txt, p, inParams, t, regs, n, pp).Stop?
  {
    PhiReached(s, txt, p, inParams, t, regs, n, pp);
    hide Run, Operand, Suffix, Phi, Stands, SumValue, WellFormedSum, AcceptedSum, ShowSum, RunLength;
  }

  /** A bracket, or a call of phi, can be without a value. */
  lemma {:induction false} SignedStops(s: Signed, txt: string, p: nat, inParams: bool, t: int, regs: Regs, n: int,
    pp: int -> bool)
    requires WellFormedSigned(s) && AcceptedSigned(s, pp) && Stands(txt, p, ShowSigned(s)) && SignedValue(s, pp).None?
    ensures Operand(txt, p, inParams, t, regs, n, pp).Stop?
    decreases s, 0
  {
    hide Suffix, Run, Phi, Stands, SumValue, WellFormedSum, AcceptedSum, ShowSum, RunLength;
    match s.atom
    case Group(_, body, _) =>
      var q := AfterSign(s, p);
      GroupParts(s, txt, p);
      SkipMinus(s, txt, p);
      AtomStart(s.atom);
      StandsHead(txt, q, ShowAtom(s.atom));
      RunStops(body, txt, q + 1, inParams, t, pp);
    case PhiCall(_, index, arg, _) =>
      hide Operand, PhiOperand;
      var q := AfterSign(s, p) + 4;
      PhiParts(s, txt, p);
      if SumValue(index, pp).None? {
        RunStops(index, txt, q, true, t, pp);
      } else {
        RunSum(index, txt, q, true, t, pp);
        var b, i := SumValue(index, pp).value, q + |ShowSum(index)| + 1;
        if SumValue(arg, pp).None? {
          RunStops(arg, txt, i, false, b, pp);
        } else {
          RunSum(arg, txt, i, false, b, pp);
        }
      }
      PhiStops(s, txt, p, inParams, t, regs, n, pp);
    case _ =>
  }

  /** An expression in which no phi is refused is evaluated to its value, or it has none and the program stops. */
  lemma MachineDecides(e: Sum, t: int, pp: int -> bool)
    requires WellFormedSum(e) && AcceptedSum(e, pp)
    ensures
      match SumValue(e, pp)
      case Some(v) => Run(ShowSum(e), 0, false, t, pp) == Return(1, v, |ShowSum(e)| + 1)
      case None => Run(ShowSum(e), 0, false, t, pp).Stop?
  {
    hide Run, SumValue, WellFormedSum, AcceptedSum;
    if SumValue(e, pp).Some? {
      WholeText(e, t, pp);
    } else {
      RunStops(e, ShowSum(e), 0, false, t, pp);
    }
  }

  /** A refused phi within brackets is not noticed: the value is its second parameter. */
  lemma RefusedPhiInBrackets(t: int, pp: int -> bool)
    ensures Run("(phi(0,5))", 0, false, t, pp) == Return(1, 5, 10)
  {
    var txt := "(phi(0,5))";
    var zero, five := Lone("0"), Lone("5");
    LoneNumber("0", pp);
    LoneNumber("5", pp);
    assert Numeral("0", 10) == 0 && Numeral("5", 10) == 5;
    assert Stands(txt, 5, "0") && Stands(txt, 7, "5");
    assert WellFormedSum(zero) && WellFormedSum(five);
    RunSum(zero, txt, 5, true, t, pp);
    RunSum(five, txt, 7, false, 0, pp);
    PhiRefusesZero(txt, t, pp);
    assert Suffix(txt, 9, false, 5, EMPTY, 5, pp) == Return(1, 5, 10);
  }

  lemma PhiRefusesZero(txt: string, t: int, pp: int -> bool)
    requires txt == "(phi(0,5))"
    requires Run(txt, 5, true, t, pp) == Return(2, 0, 7) && Run(txt, 7, false, 0, pp) == Return(1, 5, 9)
    ensures Run(txt, 0, false, t, pp) == Suffix(txt, 9, false, 5, EMPTY, 5, pp)
  {
    hide Suffix;
    assert PhiOperand(txt, 5, false, t, EMPTY, 0, pp) == Return(0, 5, 9);
    assert RunLength(txt, 1, false) == 0;
    assert Unsigned(txt, 1, false, t, EMPTY, 0, false, pp) == Return(0, 5, 9);
    assert Run(txt, 1, false, t, pp) == Operand(txt, 1, false, t, EMPTY, 0, pp) == Return(0, 5, 9);
    assert Unsigned(txt, 0, false, t, EMPTY, 0, false, pp) == Suffix(txt, 9, false, 5, EMPTY, 5, pp);
    assert Run(txt, 0, false, t, pp) == Operand(txt, 0, false, t, EMPTY, 0, pp);
  }
}
