/**
 * The search for a candidate over composites: what a row sends is what the allocation assigns to its composite
 * (SendUsingStrategy and SendWork in source/WorkSender.cpp).
 */
module CandidateComposites {
  import opened CurveTables
  import opened EcmAllocator
  import opened EcmRuns
  import opened CandidateLoop

  /** The rows of a composite's work, its TotalWorkDone, and when it was last sent. */
  datatype Composite = Composite(work: Table, total: int, lastSend: int)

  /** The work of the unit that is assigned, 0 when there is none. */
  function AssignedWork(c: Config, k: Composite): int
    requires ValidConfig(c)
  {
    match Assign(c, k.work, k.total)
    case Send(u) => u.curves * u.b1
    case _ => 0
  }

  /** The ECM work of some allowed level is not complete. */
  predicate HasOpenLevel(c: Config, k: Composite) {
    exists l :: 0 <= l < |c.levels| && Allowed(c, l) && SumWork(c, l) > k.total
  }

  /** A composite sends work exactly when it has an open level; owed P-1 and P+1 curves alone do not count. */
  lemma WorkExactly(c: Config, k: Composite)
    requires ValidConfig(c)
    ensures AssignedWork(c, k) >= 0
    ensures AssignedWork(c, k) > 0 <==> HasOpenLevel(c, k)
  {
    FindFrom(c, k.total, 0);
    var f := Find(c, k.total, 0);
    if f.Ecm? {
      assert HasOpenLevel(c, k);
      NextOwedFrom(c, k.work, f.level, SearchEnd(c, f.level));
      CurvesOvershoot(c, k.total, f.level);
      UnitWork(c, k, f.level);
    } else if f.OffTable? {
      assert forall l :: 0 <= l < |c.levels| ==> !Allowed(c, l);
    }
  }

  lemma UnitWork(c: Config, k: Composite, level: nat)
    requires ValidConfig(c) && Find(c, k.total, 0).Ecm? && Find(c, k.total, 0).level == level
    requires level < |c.levels| && Find(c, k.total, 0).curves >= 1
    ensures Assign(c, k.work, k.total).Send?
    ensures Assign(c, k.work, k.total).unit.curves >= 1 && Assign(c, k.work, k.total).unit.b1 >= 1
    ensures AssignedWork(c, k) >= 1
  {
    NextOwedFrom(c, k.work, level, SearchEnd(c, level));
    var u := Assign(c, k.work, k.total).unit;
    PositiveWork(u.curves, u.b1);
  }

  lemma PositiveWork(curves: int, b1: int)
    requires curves >= 1 && b1 >= 1
    ensures curves * b1 >= 1
  {
    assert (curves - 1) * b1 >= 0;
  }

  function RowOf(c: Config, k: Composite): CandidateLoop.Row
    requires ValidConfig(c)
  {
    CandidateLoop.Row(k.lastSend, AssignedWork(c, k))
  }

  function RowsOf(c: Config, composites: seq<Composite>): seq<CandidateLoop.Row>
    requires ValidConfig(c)
  {
    seq(|composites|, i requires 0 <= i < |composites| => RowOf(c, composites[i]))
  }

  /** The world of the search, with the composites that are fetched in each pass. */
  function WorldOf(c: Config, now: int, fetched: nat -> seq<Composite>, random: (nat, nat) -> int): World
    requires ValidConfig(c)
  {
    World(now, (pass: nat) => RowsOf(c, fetched(pass)), random)
  }

  predicate SomeOpen(c: Config, composites: seq<Composite>) {
    exists i :: 0 <= i < |composites| && HasOpenLevel(c, composites[i])
  }

  lemma WorkOfRows(c: Config, composites: seq<Composite>)
    requires ValidConfig(c)
    ensures forall i :: 0 <= i < |composites| ==>
      && RowsOf(c, composites)[i] == RowOf(c, composites[i])
      && (RowsOf(c, composites)[i].work > 0 <==> HasOpenLevel(c, composites[i]))
  {
    forall i | 0 <= i < |composites|
      ensures RowOf(c, composites[i]).work > 0 <==> HasOpenLevel(c, composites[i])
    {
      WorkExactly(c, composites[i]);
    }
    hide AssignedWork, HasOpenLevel;
  }

  lemma RowsHaveWorkExactly(c: Config, composites: seq<Composite>)
    requires ValidConfig(c)
    ensures SomeRowHasWork(RowsOf(c, composites)) <==> SomeOpen(c, composites)
  {
    WorkOfRows(c, composites);
    hide AssignedWork, HasOpenLevel, RowOf;
  }

  /**
   * The search sends work within SurePass + 1 passes whenever every pass fetches a composite with an open level, or
   * stops at the first pass that fetches nothing.
   */
  method FindComposite(s: Strategy, c: Config, now: int, fetched: nat -> seq<Composite>, random: (nat, nat) -> int)
    returns (workSent: int, passes: nat)
    requires ValidConfig(c) && Sensible(s, WorldOf(c, now, fetched, random))
    requires forall pass: nat :: fetched(pass) == [] || SomeOpen(c, fetched(pass))
    ensures 1 <= passes <= SurePass(s) + 1
    ensures workSent > 0 || fetched(passes - 1) == []
  {
    var w := WorldOf(c, now, fetched, random);
    forall pass: nat
      ensures w.rows(pass) == RowsOf(c, fetched(pass)) && (w.rows(pass) == [] || SomeRowHasWork(w.rows(pass)))
      ensures w.rows(pass) == [] <==> fetched(pass) == []
    {
      RowsHaveWorkExactly(c, fetched(pass));
    }
    hide SomeRowHasWork, SomeOpen;
    workSent, passes := FindCandidate(s, w);
  }

  /** There are composites, and the random numbers pass over every one with an open level. */
  predicate NoComposite(s: Strategy, c: Config, w: World, fetched: nat -> seq<Composite>, pass: nat)
    requires ValidConfig(c)
  {
    && fetched(pass) != []
    && forall i :: 0 <= i < |fetched(pass)| && HasOpenLevel(c, fetched(pass)[i]) ==>
         !Taken(s, w.now, RowOf(c, fetched(pass)[i]), w.random(pass, i), pass)
  }

  lemma NoCompositeNoLuck(s: Strategy, c: Config, w: World, fetched: nat -> seq<Composite>, pass: nat)
    requires ValidConfig(c) && w.rows(pass) == RowsOf(c, fetched(pass))
    ensures NoLuck(s, w, pass) <==> NoComposite(s, c, w, fetched, pass)
  {
    WorkOfRows(c, fetched(pass));
    hide Taken, HasOpenLevel, RowOf, AssignedWork;
  }

  /** It never ends exactly when composites keep coming and every one with an open level is passed over every time. */
  lemma SearchesForeverExactly(s: Strategy, c: Config, now: int, fetched: nat -> seq<Composite>, random: (nat,
    nat) -> int)
    requires ValidConfig(c)
    ensures
      var w := WorldOf(c, now, fetched, random);
      (forall n: nat :: StillSearching(s, w, n)) <==> forall pass: nat :: NoComposite(s, c, w, fetched, pass)
  {
    var w := WorldOf(c, now, fetched, random);
    SearchesForever(s, w);
    forall pass: nat
      ensures NoLuck(s, w, pass) <==> NoComposite(s, c, w, fetched, pass)
    {
      NoCompositeNoLuck(s, c, w, fetched, pass);
    }
    hide NoLuck, NoComposite;
  }

  /** A pass that ends the search in any case: nothing, or a composite with an open level that is sure to be taken. */
  predicate SurelySends(s: Strategy, c: Config, now: int, composites: seq<Composite>, pass: nat)
    requires ValidConfig(c)
  {
    composites == []
    || exists i :: 0 <= i < |composites|
         && HasOpenLevel(c, composites[i]) && SureRow(s, now, RowOf(c, composites[i]), pass)
  }

  /** For composites that do not depend on the random numbers: it ends for all of these exactly with such a pass. */
  lemma EndsForAllRandomsExactly(s: Strategy, c: Config, now: int, fetched: nat -> seq<Composite>)
    requires ValidConfig(c)
    ensures (forall random :: InHundred(random) ==> Ends(s, WorldOf(c, now, fetched, random)))
       <==> exists n: nat :: SurelySends(s, c, now, fetched(n), n)
  {
    var rows := (pass: nat) => RowsOf(c, fetched(pass));
    EndsForAllRandoms(s, now, rows);
    forall random
      ensures WorldOf(c, now, fetched, random) == World(now, rows, random)
    {
    }
    forall n: nat
      ensures SureEnd(s, now, rows(n), n) <==> SurelySends(s, c, now, fetched(n), n)
    {
      SureEndExactly(s, c, now, fetched(n), n);
    }
    hide Ends, SureEnd, SurelySends;
  }

  lemma SureEndExactly(s: Strategy, c: Config, now: int, composites: seq<Composite>, pass: nat)
    requires ValidConfig(c)
    ensures SureEnd(s, now, RowsOf(c, composites), pass) <==> SurelySends(s, c, now, composites, pass)
  {
    WorkOfRows(c, composites);
    hide SureRow, HasOpenLevel, RowOf, AssignedWork;
  }
}
