/**
 * Brackets around a call of phi that refuses (source/eval.c), and the places where the numbers decide whether the text
 * is refused.
 */
module UndecidedPlaces {
  import opened Wrappers
  import opened PhiValues
  import opened ExpressionMachine
  import opened ExpressionGrammar
  import opened RefusalPlaces
  import opened ReadingOn
  import opened RefusedPhi

  /** An operand on its own. */
  function Alone(s: Signed): Sum {
    Term(Single(First(s)))
  }

  lemma AloneShown(s: Signed)
    ensures ShowSum(Alone(s)) == ShowSigned(s) && (WellFormedSum(Alone(s)) <==> WellFormedSigned(s))
  {
    hide ShowSigned, WellFormedSigned;
    var c := First(s);
    assert ShowProduct(Single(c)) == ShowChain(c) == ShowSigned(s);
    assert WellFormedProduct(Single(c)) == WellFormedChain(c) == WellFormedSigned(s);
  }

  lemma AloneMeans(s: Signed, pp: int -> bool)
    ensures ShowSum(Alone(s)) == ShowSigned(s) && (WellFormedSum(Alone(s)) <==> WellFormedSigned(s))
    ensures SumValue(Alone(s), pp) == SignedValue(s, pp)
    ensures forall inParams :: PlaceSum(Alone(s), inParams, pp) == PlaceSigned(s, inParams, pp)
  {
    hide ShowSigned, WellFormedSigned, SignedValue, PlaceSigned;
    var c := First(s);
    AloneShown(s);
    assert ProductValue(Single(c), pp) == ChainValue(c, pp) == SignedValue(s, pp);
    assert forall inParams :: PlaceProduct(Single(c), inParams, pp) == PlaceChain(c, inParams, pp);
  }

  function Call(index: Signed, arg: Signed): Signed {
    Signed(false, PhiCall("phi", Alone(index), Alone(arg), ')'))
  }

  function Bracket(s: Signed): Signed {
    Signed(false, Group('(', Alone(s), ')'))
  }

  function NumberValue(x: Signed): int
    requires x.atom.Num?
  {
    Negated(x.minus, Numeral(x.atom.digits, 10))
  }

  lemma NumberMeans(x: Signed, pp: int -> bool)
    requires WellFormedSigned(x) && x.atom.Num?
    ensures SignedValue(x, pp) == Some(NumberValue(x))
    ensures |ShowSigned(x)| > 0 && (if x.minus then ShowSigned(x)[0] == '-' else IsDigit(ShowSigned(x)[0]))
    ensures forall inParams :: PlaceSigned(x, inParams, pp).Nowhere?
  {
  }

  /** phi(0,x), which refuses for every number x but 1. */
  lemma ZeroIndexRefuses(x: Signed, pp: int -> bool)
    requires WellFormedSigned(x) && x.atom.Num? && NumberValue(x) != 1
    ensures
      var s := Call(NumberOperand(false, "0"), x);
      && WellFormedSigned(s) && Rejects(s.atom.index, s.atom.arg, pp)
      && SumValue(s.atom.arg, pp) == SignedValue(x, pp)
      && forall inParams :: PlaceSigned(s, inParams, pp).Outside?
  {
    var zero := NumberOperand(false, "0");
    assert Numeral("0", 10) == 0;
    NumberMeans(zero, pp);
    NumberMeans(x, pp);
    AloneMeans(zero, pp);
    AloneMeans(x, pp);
    hide ShowSum, SumValue, SignedValue, ShowSigned, Numeral, PlaceSum;
  }

  /** With empty slots a closing bracket, or the end of the text, hands on the number just read. */
  lemma NothingPending(txt: string, q: nat, t: int, n: int, pp: int -> bool)
    requires q <= |txt| && (q < |txt| ==> IsClose(At(txt, q)))
    ensures Suffix(txt, q, false, t, EMPTY, n, pp) == Return(1, n, q + 1)
  {
    assert Collapse(EMPTY, n) == Ok(n);
  }

  /** A call of phi whose second parameter has come to v, in front of nothing but a closing bracket. */
  lemma CallAnswers(s: Signed, txt: string, b: int, v: int, a: nat, t: int, pp: int -> bool)
    requires WellFormedSigned(s) && s.atom.PhiCall? && !s.minus && txt == ShowSigned(s)
    requires a <= |txt| && (a < |txt| ==> IsClose(At(txt, a)))
    requires SumValue(s.atom.index, pp) == Some(b) && !Phi(b, v, pp).PhiOverflow?
    requires 5 + |ShowSum(s.atom.index)| <= |txt|
    requires Run(txt, 5 + |ShowSum(s.atom.index)|, false, b, pp) == Return(1, v, a)
    ensures
      var o := Run(txt, 0, false, t, pp);
      if Phi(b, v, pp).PhiRejected? then o == Return(0, v, a) else o == Return(1, Phi(b, v, pp).value, a + 1)
  {
    assert Run(txt, 0, false, t, pp) == Operand(txt, 0, false, t, EMPTY, 0, pp);
    hide Operand, Run, Suffix, SumValue, ShowSum, ShowSigned, WellFormedSum, Phi;
    PhiParts(s, txt, 0);
    RunSum(s.atom.index, txt, 4, true, t, pp);
    PhiReached(s, txt, 0, false, t, EMPTY, 0, pp);
    if Phi(b, v, pp).PhiValue? {
      NothingPending(txt, a, v, Phi(b, v, pp).value, pp);
    }
  }

  /** A bracket around a call that refuses hands on the second parameter. */
  lemma BracketHandsOn(inner: Signed, txt: string, p: nat, t: int, pp: int -> bool)
    requires WellFormedSigned(inner) && inner.atom.PhiCall? && Rejects(inner.atom.index, inner.atom.arg, pp)
    requires Stands(txt, p, ShowSigned(Bracket(inner)))
    requires p + |ShowSigned(Bracket(inner))| <= |txt|
    ensures |ShowSigned(Bracket(inner))| > 0
    ensures
      var v, end := SumValue(inner.atom.arg, pp).value, p + |ShowSigned(Bracket(inner))| - 1;
      && At(txt, end) == ')' && end < |txt|
      && Operand(txt, p, false, t, EMPTY, 0, pp) == Suffix(txt, end, false, v, EMPTY, v, pp)
  {
    var s := Bracket(inner);
    AloneMeans(inner, pp);
    hide ShowSum, WellFormedSum, SumValue, Operand, Suffix, Run;
    assert WellFormedSigned(s) && ShowSum(s.atom.body) == ShowSigned(inner);
    hide ShowSigned, WellFormedSigned, Stands;
    GroupParts(s, txt, p);
    GroupGoesOn(s, txt, p, false, t, EMPTY, 0, pp);
    RunIsOperand(txt, p + 1, false, t, pp);
    RefusedCall(inner, txt, p + 1, false, t, EMPTY, 0, pp);
  }

  /** The value of a bracket around a call that refuses is the second parameter of the call. */
  lemma BracketHasSecondParameter(inner: Signed, t: int, pp: int -> bool)
    requires WellFormedSigned(inner) && PlaceSigned(inner, false, pp).Outside?
    ensures inner.atom.PhiCall? && SumValue(inner.atom.arg, pp).Some?
    ensures
      var e := Alone(Bracket(inner));
      && WellFormedSum(e)
      && Run(ShowSum(e), 0, false, t, pp) == Return(1, SumValue(inner.atom.arg, pp).value, |ShowSum(e)|)
  {
    OutsideMeans(inner, false, pp);
    AloneShown(inner);
    AloneShown(Bracket(inner));
    var txt, v := ShowSigned(Bracket(inner)), SumValue(inner.atom.arg, pp).value;
    assert Stands(txt, 0, txt);
    assert WellFormedSigned(Bracket(inner));
    hide ShowSum, SumValue, ShowSigned, WellFormedSum, WellFormedSigned, PlaceSigned, Run, Suffix, Operand, Stands, At;
    BracketHandsOn(inner, txt, 0, t, pp);
    RunIsOperand(txt, 0, false, t, pp);
    NothingPending(txt, |txt| - 1, v, v, pp);
  }

  /** phi(1,(phi(0,x))). */
  function BracketInParameter(x: Signed): Signed {
    Call(NumberOperand(false, "1"), Bracket(Call(NumberOperand(false, "0"), x)))
  }

  lemma BracketInParameterPlaced(x: Signed, pp: int -> bool)
    requires WellFormedSigned(x) && x.atom.Num? && NumberValue(x) != 1
    ensures
      var s := BracketInParameter(x);
      && WellFormedSigned(s) && PlaceSigned(s, false, pp).Beyond?
      && |ShowSum(s.atom.index)| == 1 && SumValue(s.atom.index, pp) == Some(1)
      && ShowSum(s.atom.arg) == ShowSigned(Bracket(Call(NumberOperand(false, "0"), x)))
  {
    var one, inner := NumberOperand(false, "1"), Call(NumberOperand(false, "0"), x);
    assert Numeral("1", 10) == 1;
    assert ShowSigned(one) == "1";
    NumberMeans(one, pp);
    ZeroIndexRefuses(x, pp);
    AloneMeans(one, pp);
    AloneMeans(inner, pp);
    AloneMeans(Bracket(inner), pp);
    hide ShowSum, SumValue, SignedValue, ShowSigned, Numeral, PlaceSum;
    assert PlaceSigned(Bracket(inner), false, pp).Within?;
  }

  /** It is refused if and only if x is -1, and has the value x - 1 otherwise: the place of phi(0,x) is the same. */
  lemma BracketInParameterDecidesByValue(x: Signed, t: int, pp: int -> bool)
    requires WellFormedSigned(x) && x.atom.Num? && NumberValue(x) != 1
    ensures
      var e := Alone(BracketInParameter(x));
      var o, v := Run(ShowSum(e), 0, false, t, pp), NumberValue(x);
      && WellFormedSum(e) && PlaceSum(e, false, pp).Beyond?
      && o.Return? && (if v == -1 then o.code == 0 else o.code == 1 && o.t == v - 1)
  {
    var s, inner := BracketInParameter(x), Call(NumberOperand(false, "0"), x);
    NumberMeans(x, pp);
    ZeroIndexRefuses(x, pp);
    BracketInParameterPlaced(x, pp);
    AloneMeans(s, pp);
    var txt, v := ShowSigned(s), NumberValue(x);
    hide ShowSum, SumValue, SignedValue, ShowSigned, NumberValue, PlaceSum, PlaceSigned, Run, Suffix, Operand, Stands;
    hide At;
    hide WellFormedSum, WellFormedSigned, Rejects;
    PhiParts(s, txt, 0);
    RunIsOperand(txt, 6, false, 1, pp);
    BracketHandsOn(inner, txt, 6, 1, pp);
    NothingPending(txt, |txt| - 2, v, v, pp);
    CallAnswers(s, txt, 1, v, |txt| - 1, t, pp);
  }

  /** ((phi(R,x))), with a call R that refuses. */
  function CallInParameter(inner: Signed, x: Signed): Signed {
    Bracket(Bracket(Call(inner, x)))
  }

  lemma CallInParameterPlaced(inner: Signed, x: Signed, pp: int -> bool)
    requires WellFormedSigned(inner) && PlaceSigned(inner, true, pp).Outside? && WellFormedSigned(x) && x.atom.Num?
    ensures
      var s := CallInParameter(inner, x);
      && WellFormedSigned(s) && PlaceSigned(s, false, pp).Beyond?
      && WellFormedSigned(Call(inner, x)) && WellFormedSigned(Bracket(Call(inner, x)))
  {
    var s := Call(inner, x);
    NumberMeans(x, pp);
    AloneMeans(inner, pp);
    AloneMeans(x, pp);
    AloneMeans(s, pp);
    AloneMeans(Bracket(s), pp);
    hide ShowSum, SumValue, SignedValue, ShowSigned, PlaceSum;
    assert PlaceSigned(s, false, pp).InIndex?;
    assert PlaceSigned(Bracket(s), false, pp).Lost?;
  }

  lemma BracketStands(s: Signed, txt: string, p: nat)
    requires WellFormedSigned(s) && Stands(txt, p, ShowSigned(Bracket(s)))
    ensures Stands(txt, p + 1, ShowSigned(s)) && p + |ShowSigned(s)| + 2 == p + |ShowSigned(Bracket(s))| <= |txt|
    ensures At(txt, p + 1 + |ShowSigned(s)|) == ')' && WellFormedSigned(Bracket(s))
  {
    AloneShown(s);
    assert WellFormedSigned(Bracket(s));
    GroupParts(Bracket(s), txt, p);
  }

  lemma CallStands(index: Signed, arg: Signed, txt: string, p: nat)
    requires WellFormedSigned(index) && WellFormedSigned(arg) && Stands(txt, p, ShowSigned(Call(index, arg)))
    ensures
      var i := p + 4 + |ShowSigned(index)| + 1;
      && WellFormedSigned(Call(index, arg)) && Stands(txt, p + 4, ShowSigned(index)) && At(txt, i - 1) == ','
      && Stands(txt, i, ShowSigned(arg)) && At(txt, i + |ShowSigned(arg)|) == ')'
      && i + |ShowSigned(arg)| + 1 == p + |ShowSigned(Call(index, arg))| <= |txt|
  {
    AloneShown(index);
    AloneShown(arg);
    assert WellFormedSigned(Call(index, arg));
    hide ShowSum, ShowSigned, WellFormedSum;
    PhiParts(Call(index, arg), txt, p);
  }

  /** The call of which R is the first parameter is given up in front of its comma. */
  lemma CallGivenUp(inner: Signed, x: Signed, txt: string, p: nat, t: int, pp: int -> bool)
    requires WellFormedSigned(inner) && PlaceSigned(inner, true, pp).Outside? && WellFormedSigned(x)
    requires Stands(txt, p, ShowSigned(Call(inner, x)))
    ensures
      Run(txt, p, false, t, pp) == Return(0, SumValue(inner.atom.arg, pp).value, p + 4 + |ShowSigned(inner)|)
  {
    var s := Call(inner, x);
    CallStands(inner, x, txt, p);
    OutsideMeans(inner, true, pp);
    RunIsOperand(txt, p, false, t, pp);
    RunIsOperand(txt, p + 4, true, t, pp);
    hide ShowSum, SumValue, ShowSigned, WellFormedSum, PlaceSum, PlaceSigned, Run, Suffix, Operand, PhiOperand;
    hide Rejects, Stands;
    PhiReached(s, txt, p, false, t, EMPTY, 0, pp);
    RefusedCall(inner, txt, p + 4, true, t, EMPTY, 0, pp);
    PhiReadsIndex(txt, p + 4, false, t, EMPTY, 0, pp);
  }

  /** The inner bracket trips over the comma, the outer one takes up reading behind it. */
  lemma BracketsGoOn(s: Signed, txt: string, t: int, comma: nat, v: int, pp: int -> bool)
    requires WellFormedSigned(s) && Stands(txt, 0, ShowSigned(Bracket(Bracket(s))))
    requires Run(txt, 2, false, t, pp) == Return(0, v, comma) && comma < |txt| && At(txt, comma) == ','
    ensures Run(txt, 0, false, t, pp) == Suffix(txt, comma + 1, false, v, EMPTY, v, pp)
  {
    AloneShown(s);
    AloneShown(Bracket(s));
    assert WellFormedSigned(Bracket(s)) && WellFormedSigned(Bracket(Bracket(s)));
    hide ShowSum, ShowSigned, WellFormedSum, WellFormedSigned, Run, Suffix, Operand, Stands, At;
    BracketStands(Bracket(s), txt, 0);
    RunIsOperand(txt, 1, false, t, pp);
    RunIsOperand(txt, 0, false, t, pp);
    GroupGoesOn(Bracket(s), txt, 1, false, t, EMPTY, 0, pp);
    CommaTrips(txt, comma, v, EMPTY, v, pp);
    GroupGoesOn(Bracket(Bracket(s)), txt, 0, false, t, EMPTY, 0, pp);
  }

  /** A number behind a number is a sum if it has a minus, and an error if it has none. */
  lemma SecondNumber(x: Signed, txt: string, q: nat, n: int, pp: int -> bool)
    requires WellFormedSigned(x) && x.atom.Num? && Stands(txt, q, ShowSigned(x))
    requires q + |ShowSigned(x)| < |txt| && At(txt, q + |ShowSigned(x)|) == ')'
    ensures
      var o := Suffix(txt, q, false, n, EMPTY, n, pp);
      o.Return? && (if x.minus then o.code == 1 && o.t == n + NumberValue(x) else o.code == 0)
  {
    var y := NumberOperand(false, x.atom.digits);
    assert ShowSigned(y) == ShowAtom(x.atom);
    NumberMeans(x, pp);
    StandsHead(txt, q, ShowSigned(x));
    hide Stands, Numeral, ShowSigned;
    if x.minus {
      SkipMinus(x, txt, q);
      SumStep(txt, q, false, n, EMPTY, n, pp);
      NumOperand(y, txt, q + 1, false, n, EMPTY.(sum := n, sumOp := '-'), n, pp);
    }
  }

  /**
   * It is refused if and only if x has no minus, and is the sum of R's second parameter and x otherwise: the place of
   * R is the same.
   */
  lemma CallInParameterDecidesBySign(inner: Signed, x: Signed, t: int, pp: int -> bool)
    requires WellFormedSigned(inner) && PlaceSigned(inner, true, pp).Outside? && WellFormedSigned(x) && x.atom.Num?
    ensures inner.atom.PhiCall? && SumValue(inner.atom.arg, pp).Some?
    ensures
      var e := Alone(CallInParameter(inner, x));
      var o, v := Run(ShowSum(e), 0, false, t, pp), SumValue(inner.atom.arg, pp).value;
      && WellFormedSum(e) && PlaceSum(e, false, pp).Beyond?
      && o.Return? && (if x.minus then o.code == 1 && o.t == v + NumberValue(x) else o.code == 0)
  {
    var s := Call(inner, x);
    var txt := ShowSigned(CallInParameter(inner, x));
    OutsideMeans(inner, true, pp);
    CallInParameterPlaced(inner, x, pp);
    AloneMeans(CallInParameter(inner, x), pp);
    assert Stands(txt, 0, txt);
    hide ShowSum, SumValue, ShowSigned, WellFormedSum, WellFormedSigned, PlaceSum, PlaceSigned, Run, Suffix, Stands;
    hide NumberValue, At;
    BracketStands(Bracket(s), txt, 0);
    BracketStands(s, txt, 1);
    CallStands(inner, x, txt, 2);
    CallGivenUp(inner, x, txt, 2, t, pp);
    var comma, v := 6 + |ShowSigned(inner)|, SumValue(inner.atom.arg, pp).value;
    BracketsGoOn(s, txt, t, comma, v, pp);
    SecondNumber(x, txt, comma + 1, v, pp);
  }
}
