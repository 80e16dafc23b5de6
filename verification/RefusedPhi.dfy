/**
 * What becomes of a text in which phi refuses its parameters (source/eval.c). The call returns 0 to whoever reads the
 * text around it: a bracket does not look, a second parameter is skipped, only a first parameter is given up. Reading
 * goes on behind the call, one closing bracket too early. This module says from the place of the call what follows.
 */
module RefusedPhi {
  import opened PhiValues
  import opened ExpressionMachine
  import opened ExpressionGrammar
  import opened ExpressionErrors
  import opened RefusalPlaces
  import opened ReadingOn

  /** What the place says of the outcome, x being the position right behind the operand with the call. */
  ghost predicate Fits(place: Place, o: Outcome, txt: string, x: nat, pp: int -> bool) {
    o.Stop? ||
    match place
    case Outside => o.code == 0 && o.pos == x
    case Within => o.code == 1 && o.pos == x
    case InIndex => o.code == 0 && CommaAhead(txt, o.pos, pp)
    case Lost => o.code == 0
    case _ => true
  }

  lemma RunIsOperand(txt: string, p: nat, inParams: bool, t: int, pp: int -> bool)
    ensures Run(txt, p, inParams, t, pp) == Operand(txt, p, inParams, t, EMPTY, 0, pp)
  {
    hide Operand;
  }

  /** A bracket goes on with what was left in t, wherever reading stopped. */
  lemma GroupGoesOn(s: Signed, txt: string, p: nat, inParams: bool, t: int, regs: Regs, n: int, pp: int -> bool)
    requires WellFormedSigned(s) && Stands(txt, p, ShowSigned(s)) && s.atom.Group?
    ensures
      AfterSign(s, p) + 1 <= |txt|
      && match Run(txt, AfterSign(s, p) + 1, inParams, t, pp)
         case Stop(_) => Operand(txt, p, inParams, t, regs, n, pp).Stop?
         case Return(_, v, q) =>
           Operand(txt, p, inParams, t, regs, n, pp) == Suffix(txt, q, inParams, v, regs, Negated(s.minus, v), pp)
  {
    hide Suffix, Run, PhiOperand, StartsPhi, StartsHex, RunLength, Stands;
    var q := AfterSign(s, p);
    SkipMinus(s, txt, p);
    AtomStart(s.atom);
    StandsHead(txt, q, ShowAtom(s.atom));
  }

  lemma PhiReadsIndex(txt: string, q: nat, inParams: bool, t: int, regs: Regs, n: int, pp: int -> bool)
    requires q <= |txt|
    ensures
      var o := PhiOperand(txt, q, inParams, t, regs, n, pp);
      match Run(txt, q, true, t, pp)
      case Stop(_) => o.Stop?
      case Return(code, b, i) =>
        if code != 2 then o == Return(0, b, i)
        else
          match Run(txt, i, false, b, pp)
          case Stop(_) => o.Stop?
          case Return(code', v, a) =>
            && (code' == 0 ==> o == Suffix(txt, a, inParams, v, regs, n, pp))
            && (code' != 0 && Phi(b, v, pp).PhiRejected? ==> o == Return(0, v, a))
  {
    hide Run, Suffix, Phi;
  }

  /** A call whose two parameters are read and refused. */
  lemma RefusedCall(s: Signed, txt: string, p: nat, inParams: bool, t: int, regs: Regs, n: int, pp: int -> bool)
    requires WellFormedSigned(s) && s.atom.PhiCall? && Stands(txt, p, ShowSigned(s))
    requires Rejects(s.atom.index, s.atom.arg, pp)
    ensures
      Operand(txt, p, inParams, t, regs, n, pp) == Return(0, SumValue(s.atom.arg, pp).value, p + |ShowSigned(s)|)
  {
    var q := AfterSign(s, p) + 4;
    PhiParts(s, txt, p);
    PhiReached(s, txt, p, inParams, t, regs, n, pp);
    hide Operand, Run, PhiOperand, Suffix, Stands, SumValue, ShowSigned, ShowSum, WellFormedSum, Phi;
    RunSum(s.atom.index, txt, q, true, t, pp);
    RunSum(s.atom.arg, txt, q + |ShowSum(s.atom.index)| + 1, false, SumValue(s.atom.index, pp).value, pp);
    PhiReadsIndex(txt, q, inParams, t, regs, n, pp);
  }

  lemma {:induction false} PlaceGroup(s: Signed, txt: string, p: nat, inParams: bool, t: int, regs: Regs, n: int,
    pp: int -> bool)
    requires WellFormedSigned(s) && Stands(txt, p, ShowSigned(s)) && s.atom.Group?
    requires !PlaceSigned(s, inParams, pp).Nowhere? && !PlaceSigned(s, inParams, pp).Beyond?
    ensures
      Fits(PlaceSigned(s, inParams, pp), Operand(txt, p, inParams, t, regs, n, pp), txt, p + |ShowSigned(s)|, pp)
    decreases s, 2
  {
    var q := AfterSign(s, p) + 1;
    GroupParts(s, txt, p);
    GroupGoesOn(s, txt, p, inParams, t, regs, n, pp);
    hide Operand, Suffix, Run, Stands;
    GroupLevel(s, txt, p, q, inParams, t, pp);
    GroupLeft(s, txt, p, q, inParams, regs, Run(txt, q, inParams, t, pp), pp);
  }

  /** What comes out of the bracket. */
  lemma {:induction false} GroupLevel(s: Signed, txt: string, p: nat, q: nat, inParams: bool, t: int, pp: int -> bool)
    requires WellFormedSigned(s) && s.atom.Group? && Stands(txt, q, ShowSum(s.atom.body))
    requires At(txt, q + |ShowSum(s.atom.body)|) == s.atom.close
    requires !PlaceSigned(s, inParams, pp).Nowhere? && !PlaceSigned(s, inParams, pp).Beyond?
    ensures
      Fits(PlaceSum(s.atom.body, inParams, pp), Run(txt, q, inParams, t, pp), txt, q + BehindSum(s.atom.body, pp), pp)
    decreases s, 1
  {
    PlaceLevel(s.atom.body, txt, q, inParams, t, EMPTY, 0, pp);
    hide Operand, Stands;
  }

  /** And how the level around the bracket goes on from there. */
  lemma GroupLeft(s: Signed, txt: string, p: nat, q: nat, inParams: bool, regs: Regs, o: Outcome, pp: int -> bool)
    requires WellFormedSigned(s) && s.atom.Group? && Stands(txt, q, ShowSum(s.atom.body))
    requires q + |ShowSum(s.atom.body)| + 1 == p + |ShowSigned(s)| && q + |ShowSum(s.atom.body)| < |txt|
    requires At(txt, q + |ShowSum(s.atom.body)|) == s.atom.close
    requires !PlaceSigned(s, inParams, pp).Nowhere? && !PlaceSigned(s, inParams, pp).Beyond?
    requires Fits(PlaceSum(s.atom.body, inParams, pp), o, txt, q + BehindSum(s.atom.body, pp), pp)
    ensures o.Return? ==>
      Fits(PlaceSigned(s, inParams, pp), Suffix(txt, o.pos, inParams, o.t, regs, Negated(s.minus, o.t), pp), txt,
           p + |ShowSigned(s)|, pp)
  {
    var body := s.atom.body;
    SumRestAccepted(body, inParams, pp);
    hide Run, Operand, Suffix, PlaceSum, Stands, WellFormedSum, AcceptedSum, RestSumAccepted, ShowSum, BehindSum;
    if o.Return? && !PlaceSum(body, inParams, pp).InIndex? {
      RestToClose(body, txt, q, inParams, o.t, regs, Negated(s.minus, o.t), pp);
    }
  }

  lemma {:induction false} PlacePhi(s: Signed, txt: string, p: nat, inParams: bool, t: int, regs: Regs, n: int,
    pp: int -> bool)
    requires WellFormedSigned(s) && Stands(txt, p, ShowSigned(s)) && s.atom.PhiCall?
    requires !PlaceSigned(s, inParams, pp).Nowhere? && !PlaceSigned(s, inParams, pp).Beyond?
    ensures
      Fits(PlaceSigned(s, inParams, pp), Operand(txt, p, inParams, t, regs, n, pp), txt, p + |ShowSigned(s)|, pp)
    decreases s, 2
  {
    var q := AfterSign(s, p) + 4;
    PhiParts(s, txt, p);
    PhiReached(s, txt, p, inParams, t, regs, n, pp);
    hide Operand, Suffix, Run, Stands;
    if PlaceSum(s.atom.index, true, pp).Nowhere? {
      PhiWithIndex(s, txt, p, q, inParams, t, regs, n, pp);
    } else {
      PhiWithoutIndex(s, txt, p, q, inParams, t, regs, n, pp);
    }
  }

  /** The first parameter cannot be read: the call returns 0, and what is left of that parameter leads to its comma. */
  lemma {:induction false} PhiWithoutIndex(s: Signed, txt: string, p: nat, q: nat, inParams: bool, t: int, regs: Regs,
    n: int, pp: int -> bool)
    requires WellFormedSigned(s) && s.atom.PhiCall? && q <= |txt|
    requires Stands(txt, q, ShowSum(s.atom.index)) && q + |ShowSum(s.atom.index)| < |txt|
    requires At(txt, q + |ShowSum(s.atom.index)|) == ','
    requires PlaceSigned(s, inParams, pp).InIndex? && !PlaceSum(s.atom.index, true, pp).Nowhere?
    ensures Fits(InIndex, PhiOperand(txt, q, inParams, t, regs, n, pp), txt, 0, pp)
    decreases s, 1
  {
    var index := s.atom.index;
    PlaceLevel(index, txt, q, true, t, EMPTY, 0, pp);
    SumRestAccepted(index, true, pp);
    var o := Run(txt, q, true, t, pp);
    assert o == Operand(txt, q, true, t, EMPTY, 0, pp);
    hide Run, Operand, Suffix, PlaceSum, Stands, WellFormedSum, AcceptedSum, RestSumAccepted, ShowSum, BehindSum;
    if o.Return? && !PlaceSum(index, true, pp).InIndex? {
      RestToComma(index, txt, q, pp);
    }
  }

  /** The first parameter is read: then the call refuses itself, or its second parameter is skipped. */
  lemma {:induction false} PhiWithIndex(s: Signed, txt: string, p: nat, q: nat, inParams: bool, t: int, regs: Regs,
    n: int, pp: int -> bool)
    requires WellFormedSigned(s) && s.atom.PhiCall? && q <= |txt|
    requires
      var i := q + |ShowSum(s.atom.index)| + 1;
      var a := i + |ShowSum(s.atom.arg)| + 1;
      && Stands(txt, q, ShowSum(s.atom.index)) && At(txt, i - 1) == ',' && Stands(txt, i, ShowSum(s.atom.arg))
      && a - 1 < |txt| && At(txt, a - 1) == s.atom.close && a == p + |ShowSigned(s)|
    requires !PlaceSigned(s, inParams, pp).Nowhere? && !PlaceSigned(s, inParams, pp).Beyond?
    requires PlaceSum(s.atom.index, true, pp).Nowhere?
    ensures
      Fits(PlaceSigned(s, inParams, pp), PhiOperand(txt, q, inParams, t, regs, n, pp), txt, p + |ShowSigned(s)|, pp)
    decreases s, 1
  {
    var index, arg := s.atom.index, s.atom.arg;
    var i := q + |ShowSum(index)| + 1;
    NowhereSum(index, true, pp);
    hide Run, PhiOperand, Stands, WellFormedSum, AcceptedSum;
    if SumValue(index, pp).None? {
      RunStops(index, txt, q, true, t, pp);
      PhiReadsIndex(txt, q, inParams, t, regs, n, pp);
    } else {
      var b := SumValue(index, pp).value;
      RunSum(index, txt, q, true, t, pp);
      PhiReadsIndex(txt, q, inParams, t, regs, n, pp);
      if PlaceSum(arg, false, pp).Nowhere? {
        RunSum(arg, txt, i, false, b, pp);
      } else {
        ArgLevel(s, txt, i, b, pp);
        ArgLeft(s, txt, p, i, inParams, regs, n, Run(txt, i, false, b, pp), pp);
      }
    }
  }

  /** What comes out of the second parameter. */
  lemma {:induction false} ArgLevel(s: Signed, txt: string, i: nat, b: int, pp: int -> bool)
    requires WellFormedSigned(s) && s.atom.PhiCall? && Stands(txt, i, ShowSum(s.atom.arg))
    requires At(txt, i + |ShowSum(s.atom.arg)|) == s.atom.close
    requires !PlaceSum(s.atom.arg, false, pp).Nowhere? && !PlaceSum(s.atom.arg, false, pp).Beyond?
    ensures
      Fits(PlaceSum(s.atom.arg, false, pp), Run(txt, i, false, b, pp), txt, i + BehindSum(s.atom.arg, pp), pp)
    decreases s, 0
  {
    PlaceLevel(s.atom.arg, txt, i, false, b, EMPTY, 0, pp);
    hide Operand, Stands;
  }

  /** And how the level around the call goes on from there. */
  lemma ArgLeft(s: Signed, txt: string, p: nat, i: nat, inParams: bool, regs: Regs, n: int, o: Outcome, pp: int -> bool)
    requires WellFormedSigned(s) && s.atom.PhiCall? && Stands(txt, i, ShowSum(s.atom.arg))
    requires i + |ShowSum(s.atom.arg)| + 1 == p + |ShowSigned(s)| && i + |ShowSum(s.atom.arg)| < |txt|
    requires At(txt, i + |ShowSum(s.atom.arg)|) == s.atom.close
    requires PlaceSum(s.atom.index, true, pp).Nowhere? && !PlaceSum(s.atom.arg, false, pp).Nowhere?
    requires !PlaceSigned(s, inParams, pp).Nowhere? && !PlaceSigned(s, inParams, pp).Beyond?
    requires Fits(PlaceSum(s.atom.arg, false, pp), o, txt, i + BehindSum(s.atom.arg, pp), pp)
    ensures o.Return? && o.code == 0 ==>
      Fits(PlaceSigned(s, inParams, pp), Suffix(txt, o.pos, inParams, o.t, regs, n, pp), txt, p + |ShowSigned(s)|, pp)
    ensures o.Return? ==> o.code == 0
  {
    var arg := s.atom.arg;
    SumRestAccepted(arg, false, pp);
    hide Suffix, PlaceSum, Stands, WellFormedSum, AcceptedSum, RestSumAccepted, ShowSum, BehindSum;
    if o.Return? && !PlaceSum(arg, false, pp).InIndex? {
      RestToClose(arg, txt, i, inParams, o.t, regs, n, pp);
    }
  }

  lemma {:induction false} PlaceOperand(s: Signed, txt: string, p: nat, inParams: bool, t: int, regs: Regs, n: int,
    pp: int -> bool)
    requires WellFormedSigned(s) && Stands(txt, p, ShowSigned(s))
    requires !PlaceSigned(s, inParams, pp).Nowhere? && !PlaceSigned(s, inParams, pp).Beyond?
    ensures
      Fits(PlaceSigned(s, inParams, pp), Operand(txt, p, inParams, t, regs, n, pp), txt, p + |ShowSigned(s)|, pp)
    decreases s, 3
  {
    hide Operand, Stands, Fits, ShowSigned;
    match s.atom
    case Group(_, _, _) => PlaceGroup(s, txt, p, inParams, t, regs, n, pp);
    case PhiCall(_, _, _, _) => PlacePhi(s, txt, p, inParams, t, regs, n, pp);
    case _ =>
  }

  lemma {:induction false} PlaceInChain(c: Chain, txt: string, p: nat, inParams: bool, t: int, regs: Regs, n: int,
    pp: int -> bool)
    requires WellFormedChain(c) && Stands(txt, p, ShowChain(c)) && Delimits(At(txt, p + |ShowChain(c)|))
    requires !PlaceChain(c, inParams, pp).Nowhere? && !PlaceChain(c, inParams, pp).Beyond?
    ensures
      Fits(PlaceChain(c, inParams, pp), Operand(txt, p, inParams, t, regs, n, pp), txt, p + BehindChain(c, pp), pp)
    decreases c, 4
  {
    hide Operand, Suffix, Stands, Delimits, PlaceSigned, AcceptedSigned, WellFormedSigned, ShowSigned, EvalPower;
    match c
    case First(head) => PlaceOperand(head, txt, p, inParams, t, regs, n, pp);
    case Bare(left, op) =>
      BareParts(left, op, txt, p);
      PlaceInChain(left, txt, p, inParams, t, regs, n, pp);
    case Binary(left, op, right) =>
      BinaryParts(left, op, right, txt, p);
      NowhereChain(left, inParams, pp);
      if !PlaceChain(left, inParams, pp).Nowhere? {
        PlaceInChain(left, txt, p, inParams, t, regs, n, pp);
      } else {
        var t1, regs1, n1 := ChainGoesOn(left, txt, p, inParams, t, regs, n, pp);
        var end := p + |ShowChain(left)|;
        if EvalPower(regs1.powOp, regs1.pow, n1).Halted? {
          PowerStops(txt, end, inParams, t1, regs1, n1, pp);
        } else {
          var u := EvalPower(regs1.powOp, regs1.pow, n1).value;
          PowerStep(txt, end, inParams, t1, regs1, n1, pp);
          PlaceOperand(right, txt, end + 1, inParams, t1, regs1.(pow := u, powOp := Pending(op)), u, pp);
        }
      }
  }

  lemma {:induction false} PlaceInProduct(e: Product, txt: string, p: nat, inParams: bool, t: int, regs: Regs, n: int,
    pp: int -> bool)
    requires WellFormedProduct(e) && Stands(txt, p, ShowProduct(e)) && Delimits(At(txt, p + |ShowProduct(e)|))
    requires !PlaceProduct(e, inParams, pp).Nowhere? && !PlaceProduct(e, inParams, pp).Beyond?
    ensures
      Fits(PlaceProduct(e, inParams, pp), Operand(txt, p, inParams, t, regs, n, pp), txt, p + BehindProduct(e, pp), pp)
    decreases e, 5
  {
    hide Operand, Suffix, Stands, Delimits, PlaceChain, AcceptedChain, WellFormedChain, ShowChain, Collapse;
    hide BehindChain;
    match e
    case Single(chain) => PlaceInChain(chain, txt, p, inParams, t, regs, n, pp);
    case Times(left, op, right) =>
      TimesParts(left, op, right, txt, p);
      NowhereProduct(left, inParams, pp);
      if !PlaceProduct(left, inParams, pp).Nowhere? {
        PlaceInProduct(left, txt, p, inParams, t, regs, n, pp);
      } else {
        var t1, regs1, n1 := FactorsGoOn(left, txt, p, inParams, t, regs, n, pp);
        var end := p + |ShowProduct(left)|;
        if Collapse(regs1, n1).Halted? {
          PendingStops(txt, end, inParams, t1, regs1, n1, pp);
        } else {
          var v := Collapse(regs1, n1).value;
          ProductStep(txt, end, inParams, t1, regs1, n1, pp);
          PlaceInChain(right, txt, end + 1, inParams, t1, regs1.(powOp := '\0', prod := v, prodOp := op), v, pp);
        }
      }
  }

  lemma {:induction false} PlaceLevel(e: Sum, txt: string, p: nat, inParams: bool, t: int, regs: Regs, n: int,
    pp: int -> bool)
    requires WellFormedSum(e) && Stands(txt, p, ShowSum(e)) && Delimits(At(txt, p + |ShowSum(e)|))
    requires !PlaceSum(e, inParams, pp).Nowhere? && !PlaceSum(e, inParams, pp).Beyond?
    ensures
      Fits(PlaceSum(e, inParams, pp), Operand(txt, p, inParams, t, regs, n, pp), txt, p + BehindSum(e, pp), pp)
    decreases e, 6
  {
    hide Operand, Suffix, Stands, Delimits, PlaceProduct, AcceptedProduct, WellFormedProduct, ShowProduct, Collapse;
    hide BehindProduct, EvalSum;
    match e
    case Term(product) => PlaceInProduct(product, txt, p, inParams, t, regs, n, pp);
    case Plus(left, op, right) =>
      PlusParts(left, op, right, txt, p);
      NowhereSum(left, inParams, pp);
      if !PlaceSum(left, inParams, pp).Nowhere? {
        PlaceLevel(left, txt, p, inParams, t, regs, n, pp);
      } else {
        var t1, regs1, n1 := TermsGoOn(left, txt, p, inParams, t, regs, n, pp);
        var end := p + |ShowSum(left)|;
        if Collapse(regs1, n1).Halted? {
          PendingStops(txt, end, inParams, t1, regs1, n1, pp);
        } else {
          var w := EvalSum(regs1.sumOp, regs1.sum, Collapse(regs1, n1).value);
          SumStep(txt, end, inParams, t1, regs1, n1, pp);
          PlaceInProduct(right, txt, end + 1, inParams, t1,
                         regs1.(powOp := '\0', prodOp := '\0', sum := w, sumOp := op), w, pp);
        }
      }
  }

  /**
   * A whole text that does not stop the program: it is refused if and only if the call of phi that refuses stands
   * on its level, in a first parameter there, or in a first parameter within one bracket or second parameter; it is
   * accepted if and only if no call refuses or it stands within brackets or a second parameter.
   */
  lemma PlaceDecides(e: Sum, t: int, pp: int -> bool)
    requires WellFormedSum(e) && !PlaceSum(e, false, pp).Beyond?
    ensures
      var o, place := Run(ShowSum(e), 0, false, t, pp), PlaceSum(e, false, pp);
      o.Return? ==>
        && (o.code == 0 <==> place.Outside? || place.InIndex? || place.Lost?)
        && (o.code == 1 <==> place.Nowhere? || place.Within?)
  {
    hide WellFormedSum, PlaceSum, ShowSum, AcceptedSum, SumValue;
    NowhereSum(e, false, pp);
    if PlaceSum(e, false, pp).Nowhere? {
      MachineDecides(e, t, pp);
    } else {
      PlaceLevel(e, ShowSum(e), 0, false, t, EMPTY, 0, pp);
    }
  }
}
