/**
 * The calls of phi whose refusal eval_2 (source/eval.c) passes on: those that reading reaches and that stand outside
 * all brackets and second parameters. The text is refused then, whatever else stands in it.
 */
module NoticedRefusals {
  import opened Wrappers
  import opened ExpressionMachine
  import opened ExpressionGrammar
  import opened ExpressionErrors
  import opened RefusalPlaces
  import opened ReadingOn
  import opened RefusedPhi

  /** A call refuses outside all brackets and second parameters, and everything that is read before it has a value. */
  ghost predicate RefusesSigned(s: Signed, pp: int -> bool) {
    match s.atom
    case PhiCall(_, index, arg, _) => RefusesSum(index, pp) || Rejects(index, arg, pp)
    case _ => false
  }

  ghost predicate RefusesChain(c: Chain, pp: int -> bool) {
    match c
    case First(head) => RefusesSigned(head, pp)
    case Bare(left, _) => RefusesChain(left, pp)
    case Binary(left, _, right) =>
      RefusesChain(left, pp) || (Passed(ChainState(left, pp)) && RefusesSigned(right, pp))
  }

  ghost predicate RefusesProduct(p: Product, pp: int -> bool) {
    match p
    case Single(chain) => RefusesChain(chain, pp)
    case Times(left, _, right) =>
      RefusesProduct(left, pp) || (ProductValue(left, pp).Some? && RefusesChain(right, pp))
  }

  ghost predicate RefusesSum(s: Sum, pp: int -> bool) {
    match s
    case Term(product) => RefusesProduct(product, pp)
    case Plus(left, _, right) => RefusesSum(left, pp) || (SumValue(left, pp).Some? && RefusesProduct(right, pp))
  }

  /** The chain before a two-place operator is read, and what waits there is worked off. */
  ghost predicate Passed(state: Option<Waiting>) {
    state.Some? && EvalPower(state.value.op, state.value.prior, state.value.n).Ok?
  }

  /** Refused if the call is reached; where the call stands on the level itself, stopped if it is not. */
  predicate Settled(refuses: bool, place: Place, o: Outcome) {
    && (refuses ==> o.Return? && o.code == 0)
    && (place.Outside? && !refuses ==> o.Stop?)
  }

  lemma {:induction false} OperandSettled(s: Signed, txt: string, p: nat, inParams: bool, t: int, regs: Regs, n: int,
    pp: int -> bool)
    requires WellFormedSigned(s) && Stands(txt, p, ShowSigned(s))
    ensures
      Settled(RefusesSigned(s, pp), PlaceSigned(s, inParams, pp), Operand(txt, p, inParams, t, regs, n, pp))
    decreases s, 0
  {
    hide Operand, PhiOperand, Run, Suffix, Stands, ShowSigned, ShowSum, Rejects, PlaceSigned;
    if PlaceSigned(s, inParams, pp).Outside? {
      OutsideMeans(s, inParams, pp);
    }
    if RefusesSigned(s, pp) {
      if Rejects(s.atom.index, s.atom.arg, pp) {
        RefusedCall(s, txt, p, inParams, t, regs, n, pp);
      } else {
        var q := AfterSign(s, p) + 4;
        PhiParts(s, txt, p);
        PhiReached(s, txt, p, inParams, t, regs, n, pp);
        SumSettled(s.atom.index, txt, q, true, t, pp);
        RunIsOperand(txt, q, true, t, pp);
        PhiReadsIndex(txt, q, inParams, t, regs, n, pp);
      }
    }
  }

  lemma {:induction false} ChainSettled(c: Chain, txt: string, p: nat, inParams: bool, t: int, regs: Regs, n: int,
    pp: int -> bool)
    requires WellFormedChain(c) && Stands(txt, p, ShowChain(c)) && regs.powOp == '\0'
    requires Delimits(At(txt, p + |ShowChain(c)|))
    ensures Settled(RefusesChain(c, pp), PlaceChain(c, inParams, pp), Operand(txt, p, inParams, t, regs, n, pp))
    decreases c, 1
  {
    hide Operand, Suffix, Stands, Delimits, PlaceSigned, RefusesSigned, WellFormedSigned, ShowSigned, EvalPower;
    match c
    case First(head) => OperandSettled(head, txt, p, inParams, t, regs, n, pp);
    case Bare(left, op) =>
      BareParts(left, op, txt, p);
      ChainSettled(left, txt, p, inParams, t, regs, n, pp);
    case Binary(left, op, right) =>
      BinaryParts(left, op, right, txt, p);
      ChainSettled(left, txt, p, inParams, t, regs, n, pp);
      NowhereChain(left, inParams, pp);
      var end := p + |ShowChain(left)|;
      if Passed(ChainState(left, pp)) {
        var t1, regs1, n1 := ChainPrefix(left, txt, p, inParams, t, regs, n, pp);
        var w := ChainState(left, pp).value;
        var u := EvalPower(w.op, w.prior, w.n).value;
        EmptySlot(regs1, w);
        PowerStep(txt, end, inParams, t1, regs1, n1, pp);
        OperandSettled(right, txt, end + 1, inParams, t1, regs1.(pow := u, powOp := Pending(op)), u, pp);
      } else if PlaceChain(left, inParams, pp).Nowhere? {
        LeftStops(left, txt, p, inParams, t, regs, n, pp);
      }
  }

  /** What stands before a two-place operator stops the program. */
  lemma LeftStops(left: Chain, txt: string, p: nat, inParams: bool, t: int, regs: Regs, n: int, pp: int -> bool)
    requires WellFormedChain(left) && AcceptedChain(left, pp) && Stands(txt, p, ShowChain(left))
    requires regs.powOp == '\0' && !Passed(ChainState(left, pp))
    requires
      var end := p + |ShowChain(left)|;
      && end < |txt| && Delimits(At(txt, end))
      && (At(txt, end) == '^' || ((At(txt, end) == '!' || At(txt, end) == '#') && IsDigit(At(txt, end + 1))))
    ensures Operand(txt, p, inParams, t, regs, n, pp).Stop?
  {
    hide Operand, Suffix, Stands, Delimits, WellFormedChain, AcceptedChain, ShowChain, EvalPower, ChainState;
    if ChainState(left, pp).None? {
      StateStops(left, txt, p, inParams, t, regs, n, pp);
    } else {
      var t1, regs1, n1 := ChainPrefix(left, txt, p, inParams, t, regs, n, pp);
      EmptySlot(regs1, ChainState(left, pp).value);
      PowerStops(txt, p + |ShowChain(left)|, inParams, t1, regs1, n1, pp);
    }
  }

  lemma {:induction false} ProductSettled(e: Product, txt: string, p: nat, inParams: bool, t: int, regs: Regs, n: int,
    pp: int -> bool)
    requires WellFormedProduct(e) && Stands(txt, p, ShowProduct(e)) && regs.prodOp == '\0' && regs.powOp == '\0'
    requires Delimits(At(txt, p + |ShowProduct(e)|))
    ensures
      Settled(RefusesProduct(e, pp), PlaceProduct(e, inParams, pp), Operand(txt, p, inParams, t, regs, n, pp))
    decreases e, 2
  {
    hide Operand, Suffix, Stands, Delimits, PlaceChain, RefusesChain, WellFormedChain, ShowChain, EvalProduct, Collapse;
    match e
    case Single(chain) => ChainSettled(chain, txt, p, inParams, t, regs, n, pp);
    case Times(left, op, right) =>
      TimesParts(left, op, right, txt, p);
      ProductSettled(left, txt, p, inParams, t, regs, n, pp);
      NowhereProduct(left, inParams, pp);
      var end := p + |ShowProduct(left)|;
      if ProductValue(left, pp).Some? {
        var t1, regs1, n1 := ProductPrefix(left, txt, p, inParams, t, regs, n, pp);
        var v := ProductValue(left, pp).value;
        ProductStep(txt, end, inParams, t1, regs1, n1, pp);
        ChainSettled(right, txt, end + 1, inParams, t1, regs1.(powOp := '\0', prod := v, prodOp := op), v, pp);
      } else if PlaceProduct(left, inParams, pp).Nowhere? {
        ProductStops(left, txt, p, inParams, t, regs, n, pp);
      }
  }

  lemma {:induction false} SumSettled(e: Sum, txt: string, p: nat, inParams: bool, t: int, pp: int -> bool)
    requires WellFormedSum(e) && Stands(txt, p, ShowSum(e)) && Delimits(At(txt, p + |ShowSum(e)|))
    ensures Settled(RefusesSum(e, pp), PlaceSum(e, inParams, pp), Operand(txt, p, inParams, t, EMPTY, 0, pp))
    decreases e, 3
  {
    hide Operand, Suffix, Stands, Delimits, PlaceProduct, RefusesProduct, WellFormedProduct, ShowProduct, EvalSum;
    hide Collapse;
    match e
    case Term(product) => ProductSettled(product, txt, p, inParams, t, EMPTY, 0, pp);
    case Plus(left, op, right) =>
      PlusParts(left, op, right, txt, p);
      SumSettled(left, txt, p, inParams, t, pp);
      NowhereSum(left, inParams, pp);
      var end := p + |ShowSum(left)|;
      if SumValue(left, pp).Some? {
        var t1, regs1, n1 := SumPrefix(left, txt, p, inParams, t, pp);
        var w := SumValue(left, pp).value;
        SumStep(txt, end, inParams, t1, regs1, n1, pp);
        ProductSettled(right, txt, end + 1, inParams, t1,
                       regs1.(powOp := '\0', prodOp := '\0', sum := w, sumOp := op), w, pp);
      } else if PlaceSum(left, inParams, pp).Nowhere? {
        SumStops(left, txt, p, inParams, t, pp);
      }
  }

  /**
   * A whole text is refused whenever such a call is reached, however many calls refuse in it. Where the only call that
   * refuses stands on the level of the text itself, the text is refused exactly then, and stops the program otherwise.
   */
  lemma RefusalIsNoticed(e: Sum, t: int, pp: int -> bool)
    requires WellFormedSum(e)
    ensures
      var o := Run(ShowSum(e), 0, false, t, pp);
      && (RefusesSum(e, pp) ==> o.Return? && o.code == 0)
      && (PlaceSum(e, false, pp).Outside? && !RefusesSum(e, pp) ==> o.Stop?)
  {
    hide WellFormedSum, PlaceSum, RefusesSum, ShowSum;
    SumSettled(e, ShowSum(e), 0, false, t, pp);
    RunIsOperand(ShowSum(e), 0, false, t, pp);
  }
}
