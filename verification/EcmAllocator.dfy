/**
 * Which unit of work a composite gets next (SendWork and GetECMIndexAndCurves in source/WorkSender.cpp): the lowest
 * B1 level whose ECM work is not complete, unless P-1 or P+1 curves are owed there or shortly above. The doubles of
 * the original are integers here.
 */
module EcmAllocator {
  import opened CurveTables

  /** One configured bound with the curves of each method. */
  datatype Level = Level(b1: int, ecm: int, pp1: int, pm1: int)

  datatype Config = Config(levels: seq<Level>, minB1: int, maxB1: int, pm1Over: int, pp1Over: int)

  /** GetECMIndexAndCurves: no work, a level with a number of curves, or an index past the end of the table. */
  datatype Choice = NoWork | Ecm(level: nat, curves: int) | OffTable

  datatype WorkUnit = WorkUnit(factorMethod: string, b1: int, curves: int)

  datatype Assignment = Nothing | Send(unit: WorkUnit) | ReadsPastTable

  /** Bounds ascend, as the configuration demands, and the curves are not negative. */
  predicate ValidConfig(c: Config) {
    && (forall i :: 0 <= i < |c.levels| ==> c.levels[i].b1 > 0 && c.levels[i].ecm >= 0)
    && forall i, j :: 0 <= i < j < |c.levels| ==> c.levels[i].b1 <= c.levels[j].b1
  }

  /** The ECM work of levels 0 to i. */
  function SumWork(c: Config, i: nat): int
    requires i < |c.levels|
  {
    c.levels[i].b1 * c.levels[i].ecm + (if i == 0 then 0 else SumWork(c, i - 1))
  }

  predicate Allowed(c: Config, i: int) {
    0 <= i < |c.levels| && c.minB1 <= c.levels[i].b1 <= c.maxB1
  }

  function CurvesFor(c: Config, total: int, i: nat): int
    requires i < |c.levels| && c.levels[i].b1 != 0
  {
    var whole := (SumWork(c, i) - total) / c.levels[i].b1;
    if whole == 0 then 1 else whole
  }

  /** The loop of GetECMIndexAndCurves from index i on. */
  function Find(c: Config, total: int, i: nat): Choice
    requires ValidConfig(c)
    decreases |c.levels| - i
  {
    if i >= |c.levels| then OffTable
    else if c.levels[i].b1 > c.maxB1 then NoWork
    else if c.levels[i].b1 < c.minB1 then Find(c, total, i + 1)
    else if SumWork(c, i) > total then Ecm(i, CurvesFor(c, total, i))
    else if i + 1 == |c.levels| then NoWork
    else Find(c, total, i + 1)
  }

  method GetEcmIndexAndCurves(c: Config, total: int) returns (choice: Choice)
    requires ValidConfig(c)
    ensures choice == Find(c, total, 0)
  {
    var i := 0;
    var sum := 0;
    while i < |c.levels|
      invariant 0 <= i <= |c.levels| && sum == (if i == 0 then 0 else SumWork(c, i - 1))
      invariant Find(c, total, 0) == Find(c, total, i)
      decreases |c.levels| - i
    {
      var level := c.levels[i];
      sum := sum + level.b1 * level.ecm;
      if level.b1 > c.maxB1 {
        return NoWork;
      }
      if level.b1 < c.minB1 {
        i := i + 1;
        continue;
      }
      if sum > total {
        var curves := (sum - total) / level.b1;
        return Ecm(i, if curves == 0 then 1 else curves);
      }
      i := i + 1;
      if i == |c.levels| {
        return NoWork;
      }
    }
    return OffTable;
  }

  lemma {:induction false} FindFrom(c: Config, total: int, i: nat)
    requires ValidConfig(c)
    ensures Find(c, total, i).Ecm? ==>
      var l := Find(c, total, i).level;
      && i <= l && Allowed(c, l) && SumWork(c, l) > total && Find(c, total, i).curves == CurvesFor(c, total, l)
      && forall j :: i <= j < l && Allowed(c, j) ==> SumWork(c, j) <= total
    ensures Find(c, total, i).NoWork? ==> forall j :: i <= j && Allowed(c, j) ==> SumWork(c, j) <= total
    ensures Find(c, total, i).OffTable? <==>
      forall j :: i <= j < |c.levels| ==> c.levels[j].b1 < c.minB1 && c.levels[j].b1 <= c.maxB1
    decreases |c.levels| - i
  {
    if i < |c.levels| {
      FindFrom(c, total, i + 1);
    }
  }

  /** The chosen level is the lowest allowed one whose work is not complete; there is none when NoWork is returned. */
  lemma FindsLowestOpenLevel(c: Config, total: int, l: nat)
    requires ValidConfig(c)
    ensures (exists n :: Find(c, total, 0) == Ecm(l, n)) <==>
      && Allowed(c, l) && SumWork(c, l) > total
      && forall j :: 0 <= j < l && Allowed(c, j) ==> SumWork(c, j) <= total
  {
    FindFrom(c, total, 0);
    var f := Find(c, total, 0);
    if f.Ecm? {
      assert Find(c, total, 0) == Ecm(f.level, f.curves);
    }
  }

  /** The index runs past the table exactly when every bound is below the minimum: then no entry is looked at again. */
  lemma RunsPastTableExactly(c: Config, total: int)
    requires ValidConfig(c)
    ensures Find(c, total, 0).OffTable? <==>
      forall j :: 0 <= j < |c.levels| ==> c.levels[j].b1 < c.minB1 && c.levels[j].b1 <= c.maxB1
  {
    FindFrom(c, total, 0);
  }

  // ---------------------------------------------------------------- P-1 and P+1 before ECM

  function Wanted(level: Level, factorMethod: string): int {
    if factorMethod == PM1 then level.pm1 else level.pp1
  }

  function CurvesLeft(c: Config, t: Table, i: nat, factorMethod: string): int
    requires i < |c.levels|
  {
    Wanted(c.levels[i], factorMethod) - Local(t, Key(factorMethod, c.levels[i].b1))
  }

  predicate Owes(c: Config, t: Table, i: nat, factorMethod: string) {
    Allowed(c, i) && CurvesLeft(c, t, i, factorMethod) > 0
  }

  /** P-1 is looked at before P+1, level by level, from i up to but not including end. */
  function NextOwed(c: Config, t: Table, i: nat, end: int): Assignment
    decreases end - i
  {
    if i >= end then Nothing
    else if Owes(c, t, i, PM1) then Send(WorkUnit(PM1, c.levels[i].b1, CurvesLeft(c, t, i, PM1)))
    else if Owes(c, t, i, PP1) then Send(WorkUnit(PP1, c.levels[i].b1, CurvesLeft(c, t, i, PP1)))
    else NextOwed(c, t, i + 1, end)
  }

  /** Where the search for owed curves ends: at the smaller of the two configured depths. */
  function SearchEnd(c: Config, level: nat): int {
    level + if c.pm1Over < c.pp1Over then c.pm1Over else c.pp1Over
  }

  function Assign(c: Config, t: Table, total: int): Assignment
    requires ValidConfig(c)
  {
    match Find(c, total, 0)
    case NoWork => Nothing
    case OffTable => ReadsPastTable
    case Ecm(level, curves) =>
      FindFrom(c, total, 0);
      var owed := NextOwed(c, t, level, SearchEnd(c, level));
      if owed.Nothing? then Send(WorkUnit(ECM, c.levels[level].b1, curves)) else owed
  }

  /** GetCurvesDone. */
  method GetCurvesDone(t: Table, factorMethod: string, b1: int) returns (n: int)
    ensures n == Local(t, Key(factorMethod, b1))
  {
    n := if Key(factorMethod, b1) in t then t[Key(factorMethod, b1)].local else 0;
  }

  method SendWork(c: Config, t: Table, total: int) returns (a: Assignment)
    requires ValidConfig(c)
    ensures a == Assign(c, t, total)
  {
    FindFrom(c, total, 0);
    var choice := GetEcmIndexAndCurves(c, total);
    if choice.NoWork? {
      return Nothing;
    }
    if choice.OffTable? {
      return ReadsPastTable;
    }
    var pm1, pp1 := choice.level, choice.level;
    while pm1 < choice.level + c.pm1Over && pp1 < choice.level + c.pp1Over
      invariant pm1 == pp1 >= choice.level
      invariant NextOwed(c, t, choice.level, SearchEnd(c, choice.level))
             == NextOwed(c, t, pm1, SearchEnd(c, choice.level))
      decreases choice.level + c.pm1Over - pm1
    {
      if pm1 < |c.levels| {
        var level := c.levels[pm1];
        var done := GetCurvesDone(t, PM1, level.b1);
        if level.pm1 - done > 0 && c.minB1 <= level.b1 <= c.maxB1 {
          return Send(WorkUnit(PM1, level.b1, level.pm1 - done));
        }
        done := GetCurvesDone(t, PP1, level.b1);
        if level.pp1 - done > 0 && c.minB1 <= level.b1 <= c.maxB1 {
          return Send(WorkUnit(PP1, level.b1, level.pp1 - done));
        }
      }
      pm1, pp1 := pm1 + 1, pp1 + 1;
    }
    return Send(WorkUnit(ECM, c.levels[choice.level].b1, choice.curves));
  }

  lemma {:induction false} NextOwedFrom(c: Config, t: Table, i: nat, end: int)
    ensures NextOwed(c, t, i, end).Nothing? <==>
      forall j :: i <= j < end ==> !Owes(c, t, j, PM1) && !Owes(c, t, j, PP1)
    ensures NextOwed(c, t, i, end).Send? ==>
      exists j, m :: i <= j < end && (m == PM1 || m == PP1) && Owes(c, t, j, m)
        && NextOwed(c, t, i, end) == Send(WorkUnit(m, c.levels[j].b1, CurvesLeft(c, t, j, m)))
    ensures !NextOwed(c, t, i, end).ReadsPastTable?
    decreases end - i
  {
    if i < end && !Owes(c, t, i, PM1) && !Owes(c, t, i, PP1) {
      NextOwedFrom(c, t, i + 1, end);
    }
  }

  /**
   * ECM curves of a level are sent exactly when nothing is owed from that level up to the smaller of the two depths;
   * the larger depth has no effect.
   */
  lemma EcmOnlyWhenNothingOwed(c: Config, t: Table, total: int, level: nat, curves: int)
    requires ValidConfig(c) && Find(c, total, 0) == Ecm(level, curves)
    ensures level < |c.levels|
    ensures Assign(c, t, total) == Send(WorkUnit(ECM, c.levels[level].b1, curves)) <==>
      forall j :: level <= j < SearchEnd(c, level) ==> !Owes(c, t, j, PM1) && !Owes(c, t, j, PP1)
  {
    FindFrom(c, total, 0);
    NextOwedFrom(c, t, level, SearchEnd(c, level));
    MethodsDiffer();
  }

  lemma MethodsDiffer()
    ensures ECM != PM1 && ECM != PP1 && PM1 != PP1
  {
    assert ECM[0] != PM1[0] && ECM[0] != PP1[0] && PM1[1] != PP1[1];
  }
}
