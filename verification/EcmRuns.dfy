/**
 * The run of a composite (source/WorkSender.cpp): a unit is assigned, sent and returned in full, until nothing is
 * assigned any more. It ends, with at most two ECM units for a level, just above the sum of the last allowed level.
 */
module EcmRuns {
  import opened CurveTables
  import opened EcmAllocator

  // ---------------------------------------------------------------- two units are enough for a level

  lemma {:induction false} SumsAscend(c: Config, i: nat, j: nat)
    requires ValidConfig(c) && i <= j < |c.levels|
    ensures SumWork(c, i) <= SumWork(c, j)
    decreases j
  {
    if i < j {
      SumsAscend(c, i, j - 1);
      assert c.levels[j].b1 * c.levels[j].ecm >= 0;
    }
  }

  /** The curves sent bring the total past the level's sum less one curve, and over it by less than one curve. */
  lemma CurvesOvershoot(c: Config, total: int, i: nat)
    requires ValidConfig(c) && i < |c.levels| && SumWork(c, i) > total
    ensures
      var b, s, n := c.levels[i].b1, SumWork(c, i), CurvesFor(c, total, i);
      && n >= 1 && s - b < total + n * b < s + b && total + b <= total + n * b
      && (total > s - b ==> total + n * b >= s)
  {
    Quotient(SumWork(c, i) - total, c.levels[i].b1);
  }

  lemma Quotient(x: int, b: int)
    requires b > 0 && x > 0
    ensures
      var n := if x / b == 0 then 1 else x / b;
      && x / b >= 0 && n >= 1 && n * b >= b && x - b < n * b < x + b && (x < b ==> n * b == b)
  {
    var q, r := x / b, x % b;
    assert x == q * b + r;
    assert q >= 0;
    if q > 0 {
      assert (q - 1) * b >= 0;
    }
  }

  /** How many more ECM units a level can take. */
  function UnitsLeftAt(c: Config, total: int, i: nat): nat {
    if !Allowed(c, i) || SumWork(c, i) <= total then 0
    else if total > SumWork(c, i) - c.levels[i].b1 then 1
    else 2
  }

  function UnitsLeft(c: Config, total: int, n: nat): nat {
    if n == 0 then 0 else UnitsLeft(c, total, n - 1) + UnitsLeftAt(c, total, n - 1)
  }

  lemma {:induction false} UnitsLeftBound(c: Config, total: int, n: nat)
    ensures UnitsLeft(c, total, n) <= 2 * n
  {
    if n > 0 {
      UnitsLeftBound(c, total, n - 1);
    }
  }

  /** More work never makes a level take more units; the level that has been served takes fewer. */
  lemma {:induction false} UnitsLeftDrops(c: Config, total: int, total': int, n: nat, level: int)
    requires total <= total'
    requires 0 <= level < n ==> UnitsLeftAt(c, total', level) < UnitsLeftAt(c, total, level)
    ensures UnitsLeft(c, total', n) <= UnitsLeft(c, total, n)
    ensures 0 <= level < n ==> UnitsLeft(c, total', n) < UnitsLeft(c, total, n)
  {
    if n > 0 {
      UnitsLeftDrops(c, total, total', n - 1, level);
    }
  }

  // ---------------------------------------------------------------- owed P-1 and P+1 units

  function OwedAt(c: Config, t: Table, i: nat): nat {
    (if Owes(c, t, i, PM1) then 1 else 0) + (if Owes(c, t, i, PP1) then 1 else 0)
  }

  function OwedUnits(c: Config, t: Table, n: nat): nat {
    if n == 0 then 0 else OwedUnits(c, t, n - 1) + OwedAt(c, t, n - 1)
  }

  lemma {:induction false} OwedBound(c: Config, t: Table, n: nat)
    ensures OwedUnits(c, t, n) <= 2 * n
  {
    if n > 0 {
      OwedBound(c, t, n - 1);
    }
  }

  /** The rows after a unit has been sent and all its curves have been returned. */
  function Completed(t: Table, u: WorkUnit): Table {
    AddWork(t, Key(u.factorMethod, u.b1), u.curves)
  }

  lemma {:induction false} OwedDrops(c: Config, t: Table, u: WorkUnit, n: nat, level: int)
    requires u.curves >= 0
    requires 0 <= level < n ==> OwedAt(c, Completed(t, u), level) < OwedAt(c, t, level)
    ensures OwedUnits(c, Completed(t, u), n) <= OwedUnits(c, t, n)
    ensures 0 <= level < n ==> OwedUnits(c, Completed(t, u), n) < OwedUnits(c, t, n)
  {
    if n > 0 {
      OwedDrops(c, t, u, n - 1, level);
      OwedAtMost(c, t, u, n - 1);
      hide OwedAt;
    }
  }

  lemma OwedAtMost(c: Config, t: Table, u: WorkUnit, i: nat)
    requires u.curves >= 0
    ensures OwedAt(c, Completed(t, u), i) <= OwedAt(c, t, i)
  {
    LocalGrows(t, u, Key(PM1, if i < |c.levels| then c.levels[i].b1 else 0));
    LocalGrows(t, u, Key(PP1, if i < |c.levels| then c.levels[i].b1 else 0));
    hide Completed;
  }

  lemma LocalGrows(t: Table, u: WorkUnit, k: Key)
    ensures Local(Completed(t, u), k) == Local(t, k) + (if k == Key(u.factorMethod, u.b1) then u.curves else 0)
  {
    AddWorkCounts(t, Key(u.factorMethod, u.b1), u.curves, k);
  }

  /** An owed unit that is returned in full is owed no longer. */
  lemma OwedOnce(c: Config, t: Table, i: nat, m: string)
    requires (m == PM1 || m == PP1) && Owes(c, t, i, m)
    ensures OwedAt(c, Completed(t, WorkUnit(m, c.levels[i].b1, CurvesLeft(c, t, i, m))), i) < OwedAt(c, t, i)
  {
    var u := WorkUnit(m, c.levels[i].b1, CurvesLeft(c, t, i, m));
    OwedAtMost(c, t, u, i);
    LocalGrows(t, u, Key(m, c.levels[i].b1));
    LocalGrows(t, u, Key(PM1, c.levels[i].b1));
    LocalGrows(t, u, Key(PP1, c.levels[i].b1));
    MethodsDiffer();
    hide Completed;
  }

  // ---------------------------------------------------------------- the run of a composite

  /** TotalWorkDone as FinalizeChanges stores it. */
  ghost function EcmWork(t: Table): int {
    TotalWork(t, ECM)
  }

  ghost function NextAssignment(c: Config, t: Table): Assignment
    requires ValidConfig(c)
  {
    Assign(c, t, EcmWork(t))
  }

  /** Units that can still be assigned. */
  ghost function Left(c: Config, t: Table): nat {
    UnitsLeft(c, EcmWork(t), |c.levels|) + OwedUnits(c, t, |c.levels|)
  }

  /** One unit is sent and returned: the measure drops, and the ECM work moves as the level that was served says. */
  lemma UnitMakesProgress(c: Config, t: Table)
    requires ValidConfig(c) && NextAssignment(c, t).Send?
    ensures
      var u := NextAssignment(c, t).unit;
      var t' := Completed(t, u);
      && Left(c, t') < Left(c, t)
      && ((u.factorMethod != ECM && EcmWork(t') == EcmWork(t))
          || exists l :: Allowed(c, l) && u.factorMethod == ECM && u.b1 == c.levels[l].b1
               && EcmWork(t) < SumWork(c, l) && SumWork(c, l) - u.b1 < EcmWork(t') < SumWork(c, l) + u.b1)
  {
    var total, u := EcmWork(t), NextAssignment(c, t).unit;
    var t' := Completed(t, u);
    var l := Find(c, total, 0).level;
    FindFrom(c, total, 0);
    NextOwedFrom(c, t, l, SearchEnd(c, l));
    MethodsDiffer();
    AddWorkTotals(t, Key(u.factorMethod, u.b1), u.curves, ECM);
    if NextOwed(c, t, l, SearchEnd(c, l)).Nothing? {
      EcmUnit(c, t, l);
    } else {
      var j, m :| l <= j < SearchEnd(c, l) && (m == PM1 || m == PP1) && Owes(c, t, j, m)
        && u == WorkUnit(m, c.levels[j].b1, CurvesLeft(c, t, j, m));
      OwedOnce(c, t, j, m);
      OwedDrops(c, t, u, |c.levels|, j);
    }
  }

  lemma EcmUnit(c: Config, t: Table, l: nat)
    requires ValidConfig(c) && Allowed(c, l) && SumWork(c, l) > EcmWork(t)
    ensures
      var u := WorkUnit(ECM, c.levels[l].b1, CurvesFor(c, EcmWork(t), l));
      var t' := Completed(t, u);
      && Left(c, t') < Left(c, t)
      && SumWork(c, l) - u.b1 < EcmWork(t') < SumWork(c, l) + u.b1
  {
    var total := EcmWork(t);
    var u := WorkUnit(ECM, c.levels[l].b1, CurvesFor(c, total, l));
    var t' := Completed(t, u);
    AddWorkTotals(t, Key(u.factorMethod, u.b1), u.curves, ECM);
    CurvesOvershoot(c, total, l);
    hide TotalWork, CurvesFor, Completed;
    UnitsLeftDrops(c, total, EcmWork(t'), |c.levels|, l);
    OwedDrops(c, t, u, |c.levels|, -1);
  }

  /** The rows after n units, or after fewer when there is nothing more to send. */
  ghost function After(c: Config, t: Table, n: nat): Table
    requires ValidConfig(c)
    decreases n
  {
    if n == 0 || !NextAssignment(c, t).Send? then t
    else After(c, Completed(t, NextAssignment(c, t).unit), n - 1)
  }

  /** Assigning and completing units ends; there are at most four units for a configured level. */
  lemma {:induction false} RunEnds(c: Config, t: Table) returns (n: nat)
    requires ValidConfig(c)
    ensures n <= Left(c, t) <= 4 * |c.levels|
    ensures !NextAssignment(c, After(c, t, n)).Send?
    decreases Left(c, t)
  {
    UnitsLeftBound(c, EcmWork(t), |c.levels|);
    OwedBound(c, t, |c.levels|);
    if NextAssignment(c, t).Send? {
      UnitMakesProgress(c, t);
      var m := RunEnds(c, Completed(t, NextAssignment(c, t).unit));
      n := m + 1;
    } else {
      n := 0;
    }
  }

  /** The last allowed level. */
  predicate LastAllowed(c: Config, l: nat) {
    Allowed(c, l) && forall j :: l < j < |c.levels| ==> !Allowed(c, j)
  }

  lemma {:induction false} WorkStaysBelow(c: Config, t: Table, n: nat, l: nat)
    requires ValidConfig(c) && LastAllowed(c, l) && EcmWork(t) < SumWork(c, l) + c.levels[l].b1
    ensures EcmWork(After(c, t, n)) < SumWork(c, l) + c.levels[l].b1
    decreases n
  {
    if n > 0 && NextAssignment(c, t).Send? {
      UnitStaysBelow(c, t, l);
      WorkStaysBelow(c, Completed(t, NextAssignment(c, t).unit), n - 1, l);
    }
  }

  lemma UnitStaysBelow(c: Config, t: Table, l: nat)
    requires ValidConfig(c) && LastAllowed(c, l) && EcmWork(t) < SumWork(c, l) + c.levels[l].b1
    requires NextAssignment(c, t).Send?
    ensures EcmWork(Completed(t, NextAssignment(c, t).unit)) < SumWork(c, l) + c.levels[l].b1
  {
    UnitMakesProgress(c, t);
    hide SumWork, EcmWork, Completed, NextAssignment, Left;
    var u := NextAssignment(c, t).unit;
    if k :| Allowed(c, k) && u.b1 == c.levels[k].b1 && EcmWork(Completed(t, u)) < SumWork(c, k) + u.b1 {
      SumsAscend(c, k, l);
    }
  }

  /** How many ECM units of one level are among the first n units. */
  ghost function EcmUnitsOf(c: Config, t: Table, n: nat, level: nat): nat
    requires ValidConfig(c)
    decreases n
  {
    if n == 0 || !NextAssignment(c, t).Send? then 0
    else
      var u := NextAssignment(c, t).unit;
      (if u.factorMethod == ECM && Find(c, EcmWork(t), 0).level == level then 1 else 0)
        + EcmUnitsOf(c, Completed(t, u), n - 1, level)
  }

  /** No level takes more than two ECM units, in however long a run. */
  lemma {:induction false} TwoUnitsPerLevel(c: Config, t: Table, n: nat, level: nat)
    requires ValidConfig(c)
    ensures EcmUnitsOf(c, t, n, level) <= UnitsLeftAt(c, EcmWork(t), level) <= 2
    decreases n
  {
    if n > 0 && NextAssignment(c, t).Send? {
      UnitUsesUp(c, t, level);
      TwoUnitsPerLevel(c, Completed(t, NextAssignment(c, t).unit), n - 1, level);
    }
  }

  lemma UnitUsesUp(c: Config, t: Table, level: nat)
    requires ValidConfig(c) && NextAssignment(c, t).Send?
    ensures
      var u := NextAssignment(c, t).unit;
      UnitsLeftAt(c, EcmWork(Completed(t, u)), level)
        + (if u.factorMethod == ECM && Find(c, EcmWork(t), 0).level == level then 1 else 0)
      <= UnitsLeftAt(c, EcmWork(t), level)
  {
    var total, u := EcmWork(t), NextAssignment(c, t).unit;
    var l := Find(c, total, 0).level;
    FindFrom(c, total, 0);
    NextOwedFrom(c, t, l, SearchEnd(c, l));
    MethodsDiffer();
    AddWorkTotals(t, Key(u.factorMethod, u.b1), u.curves, ECM);
    CurvesOvershoot(c, total, l);
    hide TotalWork, CurvesFor, Owes, AddWork, SumWork;
  }

  /** A composite that starts below the last allowed level's sum ends in [sum, sum + b1) of that level. */
  lemma RunCompletes(c: Config, t: Table, l: nat) returns (n: nat)
    requires ValidConfig(c) && LastAllowed(c, l) && EcmWork(t) < SumWork(c, l) + c.levels[l].b1
    ensures n <= 4 * |c.levels|
    ensures
      var e := After(c, t, n);
      && NextAssignment(c, e).Nothing?
      && SumWork(c, l) <= EcmWork(e) < SumWork(c, l) + c.levels[l].b1
  {
    n := RunEnds(c, t);
    var e := After(c, t, n);
    WorkStaysBelow(c, t, n, l);
    FindFrom(c, EcmWork(e), 0);
    assert Allowed(c, l);
    if Find(c, EcmWork(e), 0).Ecm? {
      var k := Find(c, EcmWork(e), 0).level;
      NextOwedFrom(c, e, k, SearchEnd(c, k));
    }
  }
}
