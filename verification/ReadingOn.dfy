/**
 * How eval_2 (source/eval.c) reads on with whatever the registers hold: over operands in which no call of phi refuses,
 * and from behind a call that has refused to the end of its level.
 */
module ReadingOn {
  import opened ExpressionMachine
  import opened ExpressionGrammar
  import opened ExpressionErrors
  import opened RefusalPlaces

  // ---------------------------------------------------------------- reading what is accepted, from any registers

  lemma SignedGoesOn(s: Signed, txt: string, p: nat, inParams: bool, t: int, regs: Regs, n: int, pp: int -> bool)
    returns (t': int, n': int)
    requires WellFormedSigned(s) && AcceptedSigned(s, pp) && Stands(txt, p, ShowSigned(s))
    requires Delimits(At(txt, p + |ShowSigned(s)|))
    ensures
      var o := Operand(txt, p, inParams, t, regs, n, pp);
      o.Stop? || o == Suffix(txt, p + |ShowSigned(s)|, inParams, t', regs, n', pp)
  {
    t', n' := 0, 0;
    if SignedValue(s, pp).Some? {
      t' := SignedPrefix(s, txt, p, inParams, t, regs, n, pp);
      n' := SignedValue(s, pp).value;
    } else {
      SignedStops(s, txt, p, inParams, t, regs, n, pp);
    }
  }

  /** A two-place operator of the power level, then its right operand. */
  lemma PowerGoesOn(op: char, right: Signed, txt: string, q: nat, inParams: bool, t: int, regs: Regs, n: int,
    pp: int -> bool) returns (t': int, regs': Regs, n': int)
    requires WellFormedSigned(right) && AcceptedSigned(right, pp)
    requires q < |txt| && At(txt, q) == op && Stands(txt, q + 1, ShowSigned(right))
    requires op == '^' || ((op == '!' || op == '#') && IsDigit(At(txt, q + 1)))
    requires Delimits(At(txt, q + 1 + |ShowSigned(right)|))
    ensures
      var o := Suffix(txt, q, inParams, t, regs, n, pp);
      o.Stop? || o == Suffix(txt, q + 1 + |ShowSigned(right)|, inParams, t', regs', n', pp)
  {
    hide Suffix, Operand, EvalPower, Stands, Delimits, WellFormedSigned, AcceptedSigned;
    t', regs', n' := t, regs, n;
    if EvalPower(regs.powOp, regs.pow, n).Halted? {
      PowerStops(txt, q, inParams, t, regs, n, pp);
    } else {
      var u := EvalPower(regs.powOp, regs.pow, n).value;
      PowerStep(txt, q, inParams, t, regs, n, pp);
      regs' := regs.(pow := u, powOp := Pending(op));
      t', n' := SignedGoesOn(right, txt, q + 1, inParams, t, regs', u, pp);
    }
  }

  lemma {:induction false} ChainGoesOn(c: Chain, txt: string, p: nat, inParams: bool, t: int, regs: Regs, n: int,
    pp: int -> bool) returns (t': int, regs': Regs, n': int)
    requires WellFormedChain(c) && AcceptedChain(c, pp) && Stands(txt, p, ShowChain(c))
    requires Delimits(At(txt, p + |ShowChain(c)|))
    ensures
      var o := Operand(txt, p, inParams, t, regs, n, pp);
      o.Stop? || o == Suffix(txt, p + |ShowChain(c)|, inParams, t', regs', n', pp)
    decreases c
  {
    hide Operand, Suffix, Stands, Delimits, AcceptedSigned, WellFormedSigned, ShowSigned;
    match c
    case First(head) =>
      regs' := regs;
      t', n' := SignedGoesOn(head, txt, p, inParams, t, regs, n, pp);
    case Bare(left, op) =>
      BareParts(left, op, txt, p);
      t', regs', n' := ChainGoesOn(left, txt, p, inParams, t, regs, n, pp);
      BareStep(txt, p + |ShowChain(left)|, inParams, t', regs', n', pp);
      regs' := regs'.(pow := n', powOp := op);
    case Binary(left, op, right) =>
      BinaryParts(left, op, right, txt, p);
      var t1, regs1, n1 := ChainGoesOn(left, txt, p, inParams, t, regs, n, pp);
      t', regs', n' := PowerGoesOn(op, right, txt, p + |ShowChain(left)|, inParams, t1, regs1, n1, pp);
  }

  /** An operator of the product level, then its right operand. */
  lemma ProductGoesOn(op: char, right: Chain, txt: string, q: nat, inParams: bool, t: int, regs: Regs, n: int,
    pp: int -> bool) returns (t': int, regs': Regs, n': int)
    requires WellFormedChain(right) && AcceptedChain(right, pp) && IsProductOp(op)
    requires q < |txt| && At(txt, q) == op && Stands(txt, q + 1, ShowChain(right))
    requires Delimits(At(txt, q + 1 + |ShowChain(right)|))
    ensures
      var o := Suffix(txt, q, inParams, t, regs, n, pp);
      o.Stop? || o == Suffix(txt, q + 1 + |ShowChain(right)|, inParams, t', regs', n', pp)
  {
    hide Suffix, Operand, Collapse, Stands, Delimits, WellFormedChain, AcceptedChain;
    t', regs', n' := t, regs, n;
    if Collapse(regs, n).Halted? {
      PendingStops(txt, q, inParams, t, regs, n, pp);
    } else {
      var v := Collapse(regs, n).value;
      ProductStep(txt, q, inParams, t, regs, n, pp);
      t', regs', n' := ChainGoesOn(right, txt, q + 1, inParams, t,
                                   regs.(powOp := '\0', prod := v, prodOp := op), v, pp);
    }
  }

  lemma {:induction false} FactorsGoOn(e: Product, txt: string, p: nat, inParams: bool, t: int, regs: Regs, n: int,
    pp: int -> bool) returns (t': int, regs': Regs, n': int)
    requires WellFormedProduct(e) && AcceptedProduct(e, pp) && Stands(txt, p, ShowProduct(e))
    requires Delimits(At(txt, p + |ShowProduct(e)|))
    ensures
      var o := Operand(txt, p, inParams, t, regs, n, pp);
      o.Stop? || o == Suffix(txt, p + |ShowProduct(e)|, inParams, t', regs', n', pp)
    decreases e
  {
    hide Operand, Suffix, Stands, Delimits, AcceptedChain, WellFormedChain, ShowChain;
    match e
    case Single(chain) =>
      t', regs', n' := ChainGoesOn(chain, txt, p, inParams, t, regs, n, pp);
    case Times(left, op, right) =>
      TimesParts(left, op, right, txt, p);
      var t1, regs1, n1 := FactorsGoOn(left, txt, p, inParams, t, regs, n, pp);
      t', regs', n' := ProductGoesOn(op, right, txt, p + |ShowProduct(left)|, inParams, t1, regs1, n1, pp);
  }

  lemma TimesParts(left: Product, op: char, right: Chain, txt: string, p: nat)
    requires WellFormedProduct(Times(left, op, right)) && Stands(txt, p, ShowProduct(Times(left, op, right)))
    ensures
      var end := p + |ShowProduct(left)|;
      && end < |txt| && end + 1 + |ShowChain(right)| == p + |ShowProduct(Times(left, op, right))|
      && Stands(txt, p, ShowProduct(left)) && At(txt, end) == op && Delimits(op)
      && Stands(txt, end + 1, ShowChain(right))
  {
    hide Stands;
    var end := p + |ShowProduct(left)|;
    StandsSplit(txt, p, ShowProduct(left) + [op], ShowChain(right));
    StandsSplit(txt, p, ShowProduct(left), [op]);
    StandsChar(txt, end, op);
  }

  /** An operator of the sum level, then its right operand. */
  lemma SumGoesOn(op: char, right: Product, txt: string, q: nat, inParams: bool, t: int, regs: Regs, n: int,
    pp: int -> bool) returns (t': int, regs': Regs, n': int)
    requires WellFormedProduct(right) && AcceptedProduct(right, pp) && IsSumOp(op)
    requires q < |txt| && At(txt, q) == op && Stands(txt, q + 1, ShowProduct(right))
    requires Delimits(At(txt, q + 1 + |ShowProduct(right)|))
    ensures
      var o := Suffix(txt, q, inParams, t, regs, n, pp);
      o.Stop? || o == Suffix(txt, q + 1 + |ShowProduct(right)|, inParams, t', regs', n', pp)
  {
    hide Suffix, Operand, Collapse, EvalSum, Stands, Delimits, WellFormedProduct, AcceptedProduct;
    t', regs', n' := t, regs, n;
    if Collapse(regs, n).Halted? {
      PendingStops(txt, q, inParams, t, regs, n, pp);
    } else {
      var w := EvalSum(regs.sumOp, regs.sum, Collapse(regs, n).value);
      SumStep(txt, q, inParams, t, regs, n, pp);
      t', regs', n' := FactorsGoOn(right, txt, q + 1, inParams, t,
                                   regs.(powOp := '\0', prodOp := '\0', sum := w, sumOp := op), w, pp);
    }
  }

  lemma {:induction false} TermsGoOn(e: Sum, txt: string, p: nat, inParams: bool, t: int, regs: Regs, n: int,
    pp: int -> bool) returns (t': int, regs': Regs, n': int)
    requires WellFormedSum(e) && AcceptedSum(e, pp) && Stands(txt, p, ShowSum(e))
    requires Delimits(At(txt, p + |ShowSum(e)|))
    ensures
      var o := Operand(txt, p, inParams, t, regs, n, pp);
      o.Stop? || o == Suffix(txt, p + |ShowSum(e)|, inParams, t', regs', n', pp)
    decreases e
  {
    hide Operand, Suffix, Stands, Delimits, AcceptedProduct, WellFormedProduct, ShowProduct;
    match e
    case Term(product) =>
      t', regs', n' := FactorsGoOn(product, txt, p, inParams, t, regs, n, pp);
    case Plus(left, op, right) =>
      PlusParts(left, op, right, txt, p);
      var t1, regs1, n1 := TermsGoOn(left, txt, p, inParams, t, regs, n, pp);
      t', regs', n' := SumGoesOn(op, right, txt, p + |ShowSum(left)|, inParams, t1, regs1, n1, pp);
  }

  lemma PlusParts(left: Sum, op: char, right: Product, txt: string, p: nat)
    requires WellFormedSum(Plus(left, op, right)) && Stands(txt, p, ShowSum(Plus(left, op, right)))
    ensures
      var end := p + |ShowSum(left)|;
      && end < |txt| && end + 1 + |ShowProduct(right)| == p + |ShowSum(Plus(left, op, right))|
      && Stands(txt, p, ShowSum(left)) && At(txt, end) == op && Delimits(op)
      && Stands(txt, end + 1, ShowProduct(right))
  {
    hide Stands;
    var end := p + |ShowSum(left)|;
    StandsSplit(txt, p, ShowSum(left) + [op], ShowProduct(right));
    StandsSplit(txt, p, ShowSum(left), [op]);
    StandsChar(txt, end, op);
  }

  // ---------------------------------------------------------------- what stands behind the call, on its level

  /** The length of the part that ends with the operand in which a call refuses. */
  ghost function BehindChain(c: Chain, pp: int -> bool): nat {
    match c
    case First(head) => |ShowSigned(head)|
    case Binary(left, _, right) => if AcceptedChain(left, pp) then |ShowChain(c)| else BehindChain(left, pp)
    case Bare(left, _) => BehindChain(left, pp)
  }

  ghost function BehindProduct(e: Product, pp: int -> bool): nat {
    match e
    case Single(chain) => BehindChain(chain, pp)
    case Times(left, _, right) =>
      if AcceptedProduct(left, pp) then |ShowProduct(left)| + 1 + BehindChain(right, pp) else BehindProduct(left, pp)
  }

  ghost function BehindSum(e: Sum, pp: int -> bool): nat {
    match e
    case Term(product) => BehindProduct(product, pp)
    case Plus(left, _, right) =>
      if AcceptedSum(left, pp) then |ShowSum(left)| + 1 + BehindProduct(right, pp) else BehindSum(left, pp)
  }

  lemma {:induction false} BehindChainWithin(c: Chain, pp: int -> bool)
    ensures BehindChain(c, pp) <= |ShowChain(c)|
  {
    match c
    case First(_) =>
    case Binary(left, _, _) => BehindChainWithin(left, pp);
    case Bare(left, _) => BehindChainWithin(left, pp);
  }

  lemma {:induction false} BehindProductWithin(e: Product, pp: int -> bool)
    ensures BehindProduct(e, pp) <= |ShowProduct(e)|
  {
    match e
    case Single(chain) => BehindChainWithin(chain, pp);
    case Times(left, _, right) =>
      BehindProductWithin(left, pp);
      BehindChainWithin(right, pp);
  }

  lemma {:induction false} BehindSumWithin(e: Sum, pp: int -> bool)
    ensures BehindSum(e, pp) <= |ShowSum(e)|
  {
    match e
    case Term(product) => BehindProductWithin(product, pp);
    case Plus(left, _, right) =>
      BehindSumWithin(left, pp);
      BehindProductWithin(right, pp);
  }

  /** No second call refuses behind it. */
  ghost predicate RestChainAccepted(c: Chain, pp: int -> bool) {
    match c
    case First(_) => true
    case Binary(left, _, right) =>
      AcceptedChain(left, pp) || (RestChainAccepted(left, pp) && AcceptedSigned(right, pp))
    case Bare(left, _) => RestChainAccepted(left, pp)
  }

  ghost predicate RestProductAccepted(e: Product, pp: int -> bool) {
    match e
    case Single(chain) => RestChainAccepted(chain, pp)
    case Times(left, _, right) =>
      if AcceptedProduct(left, pp) then RestChainAccepted(right, pp)
      else RestProductAccepted(left, pp) && AcceptedChain(right, pp)
  }

  ghost predicate RestSumAccepted(e: Sum, pp: int -> bool) {
    match e
    case Term(product) => RestProductAccepted(product, pp)
    case Plus(left, _, right) =>
      if AcceptedSum(left, pp) then RestProductAccepted(right, pp)
      else RestSumAccepted(left, pp) && AcceptedProduct(right, pp)
  }

  lemma {:induction false} ChainRest(c: Chain, txt: string, p: nat, inParams: bool, t: int, regs: Regs, n: int,
    pp: int -> bool) returns (t': int, regs': Regs, n': int)
    requires WellFormedChain(c) && !AcceptedChain(c, pp) && RestChainAccepted(c, pp) && Stands(txt, p, ShowChain(c))
    requires Delimits(At(txt, p + |ShowChain(c)|))
    ensures
      var o := Suffix(txt, p + BehindChain(c, pp), inParams, t, regs, n, pp);
      o.Stop? || o == Suffix(txt, p + |ShowChain(c)|, inParams, t', regs', n', pp)
    decreases c
  {
    hide Operand, Suffix, Stands, Delimits, AcceptedSigned, WellFormedSigned, ShowSigned;
    t', regs', n' := t, regs, n;
    match c
    case First(_) =>
    case Bare(left, op) =>
      BareParts(left, op, txt, p);
      t', regs', n' := ChainRest(left, txt, p, inParams, t, regs, n, pp);
      BareStep(txt, p + |ShowChain(left)|, inParams, t', regs', n', pp);
      regs' := regs'.(pow := n', powOp := op);
    case Binary(left, op, right) =>
      if !AcceptedChain(left, pp) {
        BinaryParts(left, op, right, txt, p);
        var t1, regs1, n1 := ChainRest(left, txt, p, inParams, t, regs, n, pp);
        t', regs', n' := PowerGoesOn(op, right, txt, p + |ShowChain(left)|, inParams, t1, regs1, n1, pp);
      }
  }

  lemma {:induction false} ProductRest(e: Product, txt: string, p: nat, inParams: bool, t: int, regs: Regs, n: int,
    pp: int -> bool) returns (t': int, regs': Regs, n': int)
    requires WellFormedProduct(e) && !AcceptedProduct(e, pp) && RestProductAccepted(e, pp)
    requires Stands(txt, p, ShowProduct(e)) && Delimits(At(txt, p + |ShowProduct(e)|))
    ensures
      var o := Suffix(txt, p + BehindProduct(e, pp), inParams, t, regs, n, pp);
      o.Stop? || o == Suffix(txt, p + |ShowProduct(e)|, inParams, t', regs', n', pp)
    decreases e
  {
    hide Operand, Suffix, Stands, Delimits, AcceptedChain, WellFormedChain, ShowChain, BehindChain, RestChainAccepted;
    match e
    case Single(chain) =>
      t', regs', n' := ChainRest(chain, txt, p, inParams, t, regs, n, pp);
    case Times(left, op, right) =>
      TimesParts(left, op, right, txt, p);
      if AcceptedProduct(left, pp) {
        t', regs', n' := ChainRest(right, txt, p + |ShowProduct(left)| + 1, inParams, t, regs, n, pp);
      } else {
        var t1, regs1, n1 := ProductRest(left, txt, p, inParams, t, regs, n, pp);
        t', regs', n' := ProductGoesOn(op, right, txt, p + |ShowProduct(left)|, inParams, t1, regs1, n1, pp);
      }
  }

  lemma {:induction false} SumRest(e: Sum, txt: string, p: nat, inParams: bool, t: int, regs: Regs, n: int,
    pp: int -> bool) returns (t': int, regs': Regs, n': int)
    requires WellFormedSum(e) && !AcceptedSum(e, pp) && RestSumAccepted(e, pp)
    requires Stands(txt, p, ShowSum(e)) && Delimits(At(txt, p + |ShowSum(e)|))
    ensures
      var o := Suffix(txt, p + BehindSum(e, pp), inParams, t, regs, n, pp);
      o.Stop? || o == Suffix(txt, p + |ShowSum(e)|, inParams, t', regs', n', pp)
    decreases e
  {
    hide Operand, Suffix, Stands, Delimits, AcceptedProduct, WellFormedProduct, ShowProduct, BehindProduct;
    hide RestProductAccepted;
    match e
    case Term(product) =>
      t', regs', n' := ProductRest(product, txt, p, inParams, t, regs, n, pp);
    case Plus(left, op, right) =>
      PlusParts(left, op, right, txt, p);
      if AcceptedSum(left, pp) {
        t', regs', n' := ProductRest(right, txt, p + |ShowSum(left)| + 1, inParams, t, regs, n, pp);
      } else {
        var t1, regs1, n1 := SumRest(left, txt, p, inParams, t, regs, n, pp);
        t', regs', n' := SumGoesOn(op, right, txt, p + |ShowSum(left)|, inParams, t1, regs1, n1, pp);
      }
  }

  /** A place that the parts decide leaves nothing refused behind the call. */
  lemma {:induction false} ChainRestAccepted(c: Chain, inParams: bool, pp: int -> bool)
    requires !PlaceChain(c, inParams, pp).Nowhere? && !PlaceChain(c, inParams, pp).Beyond?
    ensures RestChainAccepted(c, pp) && !AcceptedChain(c, pp)
  {
    hide PlaceSigned;
    NowhereChain(c, inParams, pp);
    match c
    case First(_) =>
    case Binary(left, _, right) =>
      NowhereChain(left, inParams, pp);
      NowhereSigned(right, inParams, pp);
      if !PlaceChain(left, inParams, pp).Nowhere? {
        ChainRestAccepted(left, inParams, pp);
      }
    case Bare(left, _) => ChainRestAccepted(left, inParams, pp);
  }

  lemma {:induction false} ProductRestAccepted(e: Product, inParams: bool, pp: int -> bool)
    requires !PlaceProduct(e, inParams, pp).Nowhere? && !PlaceProduct(e, inParams, pp).Beyond?
    ensures RestProductAccepted(e, pp) && !AcceptedProduct(e, pp)
  {
    NowhereProduct(e, inParams, pp);
    match e
    case Single(chain) => ChainRestAccepted(chain, inParams, pp);
    case Times(left, _, right) =>
      NowhereProduct(left, inParams, pp);
      NowhereChain(right, inParams, pp);
      if PlaceProduct(left, inParams, pp).Nowhere? {
        ChainRestAccepted(right, inParams, pp);
      } else {
        ProductRestAccepted(left, inParams, pp);
      }
  }

  lemma {:induction false} SumRestAccepted(e: Sum, inParams: bool, pp: int -> bool)
    requires !PlaceSum(e, inParams, pp).Nowhere? && !PlaceSum(e, inParams, pp).Beyond?
    ensures RestSumAccepted(e, pp) && !AcceptedSum(e, pp)
  {
    NowhereSum(e, inParams, pp);
    match e
    case Term(product) => ProductRestAccepted(product, inParams, pp);
    case Plus(left, _, right) =>
      NowhereSum(left, inParams, pp);
      NowhereProduct(right, inParams, pp);
      if PlaceSum(left, inParams, pp).Nowhere? {
        ProductRestAccepted(right, inParams, pp);
      } else {
        SumRestAccepted(left, inParams, pp);
      }
  }

  // ---------------------------------------------------------------- how a level ends

  lemma LevelEnds(txt: string, q: nat, inParams: bool, t: int, regs: Regs, n: int, pp: int -> bool)
    requires q < |txt| && IsClose(At(txt, q))
    ensures
      var o := Suffix(txt, q, inParams, t, regs, n, pp);
      o.Stop? || (o.code == 1 && o.pos == q + 1)
  {
    hide Collapse, EvalSum;
  }

  /** Outside first parameters a comma is no operator. */
  lemma CommaTrips(txt: string, q: nat, t: int, regs: Regs, n: int, pp: int -> bool)
    requires q < |txt| && At(txt, q) == ','
    ensures Suffix(txt, q, false, t, regs, n, pp) == Return(0, t, q + 1)
  {
    hide Collapse, EvalSum;
  }

  predicate Trips(o: Outcome) {
    o.Stop? || o.code == 0
  }

  /** Whatever the registers hold, reading from here trips over a comma, unless the program stops. */
  ghost predicate CommaAhead(txt: string, q: nat, pp: int -> bool) {
    q <= |txt| && forall t, regs, n :: Trips(Suffix(txt, q, false, t, regs, n, pp))
  }

  /** From behind the call in a bracket or in a second parameter to the bracket that closes it. */
  lemma RestToClose(e: Sum, txt: string, p: nat, inParams: bool, t: int, regs: Regs, n: int, pp: int -> bool)
    requires WellFormedSum(e) && !AcceptedSum(e, pp) && RestSumAccepted(e, pp) && Stands(txt, p, ShowSum(e))
    requires p + |ShowSum(e)| < |txt| && IsClose(At(txt, p + |ShowSum(e)|))
    ensures
      var o := Suffix(txt, p + BehindSum(e, pp), inParams, t, regs, n, pp);
      o.Stop? || (o.code == 1 && o.pos == p + |ShowSum(e)| + 1)
  {
    hide Suffix, WellFormedSum, AcceptedSum, RestSumAccepted, ShowSum, BehindSum, Stands;
    var t', regs', n' := SumRest(e, txt, p, inParams, t, regs, n, pp);
    LevelEnds(txt, p + |ShowSum(e)|, inParams, t', regs', n', pp);
  }

  /** From behind the call in a first parameter to the comma that ends it. */
  lemma RestToComma(e: Sum, txt: string, p: nat, pp: int -> bool)
    requires WellFormedSum(e) && !AcceptedSum(e, pp) && RestSumAccepted(e, pp) && Stands(txt, p, ShowSum(e))
    requires p + |ShowSum(e)| < |txt| && At(txt, p + |ShowSum(e)|) == ','
    ensures CommaAhead(txt, p + BehindSum(e, pp), pp)
  {
    hide Suffix, WellFormedSum, AcceptedSum, RestSumAccepted, ShowSum, BehindSum, Stands;
    BehindSumWithin(e, pp);
    var x := p + BehindSum(e, pp);
    forall t, regs, n
      ensures Trips(Suffix(txt, x, false, t, regs, n, pp))
    {
      var t', regs', n' := SumRest(e, txt, p, false, t, regs, n, pp);
      CommaTrips(txt, p + |ShowSum(e)|, t', regs', n', pp);
    }
  }
}
