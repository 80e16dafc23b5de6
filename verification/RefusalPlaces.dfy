/**
 * Where in an expression the one call of phi stands that refuses its parameters (source/eval.c), as far as what becomes
 * of the text depends on it.
 */
module RefusalPlaces {
  import opened PhiValues
  import opened ExpressionGrammar
  import opened ExpressionErrors

  /**
   * Where the one call stands that refuses, seen from the level that is read:
   * - Outside: on this level; the level returns 0 right behind it.
   * - InIndex: somewhere in a first parameter of this level; the level returns 0 in front of what is left of it.
   * - Within: in a bracket or a second parameter of this level; the level ends at its closing bracket and returns 1.
   * - Lost: in a first parameter within a bracket or a second parameter; the level trips over the comma and returns 0.
   * - Beyond: elsewhere, or more than one call refuses; the place does not decide.
   */
  datatype Place = Nowhere | Outside | InIndex | Within | Lost | Beyond

  ghost predicate Rejects(index: Sum, arg: Sum, pp: int -> bool) {
    match (SumValue(index, pp), SumValue(arg, pp))
    case (Some(b), Some(n)) => Phi(b, n, pp).PhiRejected?
    case _ => false
  }

  /** From the place in a bracket, or in a second parameter whose phi is not evaluated any more. */
  function Skipped(inner: Place, inParams: bool): Place {
    match inner
    case Nowhere => Nowhere
    case Outside => Within
    case InIndex => if inParams then Beyond else Lost
    case _ => Beyond
  }

  ghost function PlaceSigned(s: Signed, inParams: bool, pp: int -> bool): Place {
    match s.atom
    case Group(_, body, _) =>
      var inner := PlaceSum(body, inParams, pp);
      if inner.Within? then Within else Skipped(inner, inParams)
    case PhiCall(_, index, arg, _) =>
      (match PlaceSum(index, true, pp)
       case Nowhere =>
         var inner := PlaceSum(arg, false, pp);
         if inner.Nowhere? && Rejects(index, arg, pp) then Outside else Skipped(inner, inParams)
       case Outside => if PlaceSum(arg, false, pp).Nowhere? then InIndex else Beyond
       case InIndex => if PlaceSum(arg, false, pp).Nowhere? then InIndex else Beyond
       case Within => if PlaceSum(arg, false, pp).Nowhere? then InIndex else Beyond
       case _ => Beyond)
    case _ => Nowhere
  }

  function Only(first: Place, second: Place): Place {
    if first.Nowhere? then second else if second.Nowhere? then first else Beyond
  }

  ghost function PlaceChain(c: Chain, inParams: bool, pp: int -> bool): Place {
    match c
    case First(head) => PlaceSigned(head, inParams, pp)
    case Binary(left, _, right) => Only(PlaceChain(left, inParams, pp), PlaceSigned(right, inParams, pp))
    case Bare(left, _) => PlaceChain(left, inParams, pp)
  }

  ghost function PlaceProduct(p: Product, inParams: bool, pp: int -> bool): Place {
    match p
    case Single(chain) => PlaceChain(chain, inParams, pp)
    case Times(left, _, right) => Only(PlaceProduct(left, inParams, pp), PlaceChain(right, inParams, pp))
  }

  ghost function PlaceSum(s: Sum, inParams: bool, pp: int -> bool): Place {
    match s
    case Term(product) => PlaceProduct(product, inParams, pp)
    case Plus(left, _, right) => Only(PlaceSum(left, inParams, pp), PlaceProduct(right, inParams, pp))
  }

  // ---------------------------------------------------------------- nowhere means that no call refuses

  lemma {:induction false} NowhereSigned(s: Signed, inParams: bool, pp: int -> bool)
    ensures PlaceSigned(s, inParams, pp).Nowhere? <==> AcceptedSigned(s, pp)
    decreases s, 0
  {
    match s.atom
    case Group(_, body, _) => NowhereSum(body, inParams, pp);
    case PhiCall(_, index, arg, _) =>
      NowhereSum(index, true, pp);
      NowhereSum(arg, false, pp);
    case _ =>
  }

  lemma {:induction false} NowhereChain(c: Chain, inParams: bool, pp: int -> bool)
    ensures PlaceChain(c, inParams, pp).Nowhere? <==> AcceptedChain(c, pp)
    decreases c, 1
  {
    match c
    case First(head) => NowhereSigned(head, inParams, pp);
    case Binary(left, _, right) =>
      NowhereChain(left, inParams, pp);
      NowhereSigned(right, inParams, pp);
    case Bare(left, _) => NowhereChain(left, inParams, pp);
  }

  lemma {:induction false} NowhereProduct(p: Product, inParams: bool, pp: int -> bool)
    ensures PlaceProduct(p, inParams, pp).Nowhere? <==> AcceptedProduct(p, pp)
    decreases p, 2
  {
    match p
    case Single(chain) => NowhereChain(chain, inParams, pp);
    case Times(left, _, right) =>
      NowhereProduct(left, inParams, pp);
      NowhereChain(right, inParams, pp);
  }

  lemma {:induction false} NowhereSum(s: Sum, inParams: bool, pp: int -> bool)
    ensures PlaceSum(s, inParams, pp).Nowhere? <==> AcceptedSum(s, pp)
    decreases s, 3
  {
    match s
    case Term(product) => NowhereProduct(product, inParams, pp);
    case Plus(left, _, right) =>
      NowhereSum(left, inParams, pp);
      NowhereProduct(right, inParams, pp);
  }

  lemma OutsideMeans(s: Signed, inParams: bool, pp: int -> bool)
    requires PlaceSigned(s, inParams, pp).Outside?
    ensures s.atom.PhiCall? && Rejects(s.atom.index, s.atom.arg, pp)
    ensures forall other :: PlaceSigned(s, other, pp).Outside?
  {
    hide PlaceSum, Rejects;
  }
}
