/**
 * The comment above SendWork (source/WorkSender.cpp) promises that all P-1 and P+1 curves are done up to the depth
 * configured for each method before ECM curves are sent. The search stops at the smaller depth; this module says for
 * exactly which configurations the promise is kept all the same.
 */
module OwedDepths {
  import opened CurveTables
  import opened EcmAllocator

  predicate OwedMethod(m: string) {
    m == PM1 || m == PP1
  }

  /** The configured depth of a method over ECM. */
  function Depth(c: Config, m: string): int {
    if m == PM1 then c.pm1Over else c.pp1Over
  }

  /** ECM curves of this level are what is sent. */
  predicate SendsEcm(c: Config, t: Table, total: int, level: nat)
    requires ValidConfig(c)
  {
    Find(c, total, 0).Ecm? && Find(c, total, 0).level == level && Assign(c, t, total).Send?
    && Assign(c, t, total).unit.factorMethod == ECM
  }

  /** Counts of curves and bounds are never negative. */
  ghost predicate Counted(t: Table) {
    forall k :: k in t ==> t[k].local >= 0 && k.b1 >= 0
  }

  /**
   * The promise: with ECM curves of a level sent for the work that a table of rows comes to, neither method is owed
   * within its own depth.
   */
  ghost predicate KeepsPromise(c: Config)
    requires ValidConfig(c)
  {
    forall t: Table, level: nat, j: nat, m: string ::
      Counted(t) && SendsEcm(c, t, TotalWork(t, ECM), level) && OwedMethod(m) && level <= j < level + Depth(c, m) ==>
        !Owes(c, t, j, m)
  }

  /** Some amount of work done, possibly none, makes this level the one that is served. */
  predicate CanServe(c: Config, level: nat) {
    && Allowed(c, level) && SumWork(c, level) > 0
    && forall j :: 0 <= j < level && Allowed(c, j) ==> SumWork(c, j) < SumWork(c, level)
  }

  /**
   * Level j lies beyond the search but within the depth of method m, is allowed, and wants more curves of m than any
   * level of the same bound within the search.
   */
  predicate Exposed(c: Config, level: nat, j: nat, m: string) {
    && OwedMethod(m) && CanServe(c, level) && level <= j && SearchEnd(c, level) <= j < level + Depth(c, m)
    && Allowed(c, j) && Wanted(c.levels[j], m) > 0
    && forall i :: level <= i < SearchEnd(c, level) && i < |c.levels| && c.levels[i].b1 == c.levels[j].b1 ==>
         Wanted(c.levels[i], m) < Wanted(c.levels[j], m)
  }

  lemma {:induction false} SumNotNegative(t: Table, keys: set<Key>)
    requires Counted(t)
    ensures SumOver(t, keys, ECM) >= 0
    decreases keys
  {
    hide RowWork;
    if keys != {} {
      var k :| k in keys && SumOver(t, keys, ECM) == RowWork(t, k, ECM) + SumOver(t, keys - {k}, ECM);
      SumNotNegative(t, keys - {k});
      RowNotNegative(t, k);
    }
  }

  lemma RowNotNegative(t: Table, k: Key)
    requires Counted(t)
    ensures RowWork(t, k, ECM) >= 0
  {
    if k in t {
      assert t[k].local * k.b1 >= 0;
    }
  }

  lemma {:induction false} NoEcmNoWork(t: Table, keys: set<Key>)
    requires forall k :: k in keys ==> k.factorMethod != ECM
    ensures SumOver(t, keys, ECM) == 0
    decreases keys
  {
    if keys != {} {
      var k :| k in keys && SumOver(t, keys, ECM) == RowWork(t, k, ECM) + SumOver(t, keys - {k}, ECM);
      NoEcmNoWork(t, keys - {k});
      assert RowWork(t, k, ECM) == 0;
    }
  }

  lemma SendsEcmMeans(c: Config, t: Table, total: int, level: nat)
    requires ValidConfig(c) && total >= 0 && SendsEcm(c, t, total, level)
    ensures CanServe(c, level)
    ensures forall j, m :: level <= j < SearchEnd(c, level) && OwedMethod(m) ==> !Owes(c, t, j, m)
  {
    FindFrom(c, total, 0);
    NextOwedFrom(c, t, level, SearchEnd(c, level));
    MethodsDiffer();
  }

  lemma UnexposedKeeps(c: Config, t: Table, total: int, level: nat, j: nat, m: string)
    requires ValidConfig(c) && Counted(t) && total >= 0 && SendsEcm(c, t, total, level) && OwedMethod(m)
    requires level <= j < level + Depth(c, m) && Owes(c, t, j, m)
    ensures Exposed(c, level, j, m)
  {
    SendsEcmMeans(c, t, total, level);
    assert SearchEnd(c, level) <= j;
    assert Local(t, Key(m, c.levels[j].b1)) >= 0;
    forall i | level <= i < SearchEnd(c, level) && i < |c.levels| && c.levels[i].b1 == c.levels[j].b1
      ensures Wanted(c.levels[i], m) < Wanted(c.levels[j], m)
    {
      assert !Owes(c, t, i, m);
    }
  }

  // ---------------------------------------------------------------- an exposed level is passed over

  function MostWanted(c: Config, n: nat): nat
    requires n <= |c.levels|
  {
    if n == 0 then 0
    else
      var most, level := MostWanted(c, n - 1), c.levels[n - 1];
      var larger := if level.pm1 > level.pp1 then level.pm1 else level.pp1;
      if larger > most then larger else most
  }

  lemma {:induction false} MostWantedBounds(c: Config, n: nat, i: nat)
    requires i < n <= |c.levels|
    ensures c.levels[i].pm1 <= MostWanted(c, n) && c.levels[i].pp1 <= MostWanted(c, n)
  {
    if i < n - 1 {
      MostWantedBounds(c, n - 1, i);
    }
  }

  /** Everything is done, but for the last curve of one method at one bound. */
  function AllButOne(c: Config, j: nat, m: string): Table
    requires j < |c.levels|
  {
    var keys := (set i | 0 <= i < |c.levels| :: Key(PM1, c.levels[i].b1))
      + (set i | 0 <= i < |c.levels| :: Key(PP1, c.levels[i].b1));
    map k | k in keys ::
      if k == Key(m, c.levels[j].b1) then Row(Wanted(c.levels[j], m) - 1, 0) else Row(MostWanted(c, |c.levels|), 0)
  }

  lemma AllButOneRows(c: Config, j: nat, m: string, i: nat, n: string)
    requires i < |c.levels| && j < |c.levels| && OwedMethod(m) && OwedMethod(n)
    ensures
      Local(AllButOne(c, j, m), Key(n, c.levels[i].b1))
      == if n == m && c.levels[i].b1 == c.levels[j].b1 then Wanted(c.levels[j], m) - 1 else MostWanted(c, |c.levels|)
  {
  }

  /** The same with one ECM row that brings the work to one below what the level is for. */
  function Witness(c: Config, level: nat, j: nat, m: string): Table
    requires level < |c.levels| && j < |c.levels|
  {
    AddWork(AllButOne(c, j, m), Key(ECM, 1), SumWork(c, level) - 1)
  }

  lemma AllButOneCounted(c: Config, j: nat, m: string)
    requires ValidConfig(c) && j < |c.levels| && Wanted(c.levels[j], m) > 0
    ensures Counted(AllButOne(c, j, m))
    ensures forall k :: k in AllButOne(c, j, m).Keys ==> k.factorMethod != ECM
  {
    MethodsDiffer();
    hide MostWanted, Wanted;
  }

  lemma CountedAdd(t: Table, k: Key, n: int)
    requires Counted(t) && k.b1 >= 0 && n >= 0
    ensures Counted(AddWork(t, k, n))
  {
  }

  lemma WitnessWork(c: Config, level: nat, j: nat, m: string)
    requires ValidConfig(c) && Exposed(c, level, j, m)
    ensures Counted(Witness(c, level, j, m)) && TotalWork(Witness(c, level, j, m), ECM) == SumWork(c, level) - 1
  {
    var t := AllButOne(c, j, m);
    AllButOneCounted(c, j, m);
    hide AllButOne, SumWork, Counted, RowWork, AddWork, SumOver;
    CountedAdd(t, Key(ECM, 1), SumWork(c, level) - 1);
    NoEcmNoWork(t, t.Keys);
    AddWorkTotals(t, Key(ECM, 1), SumWork(c, level) - 1, ECM);
  }

  lemma WitnessRows(c: Config, level: nat, j: nat, m: string, i: nat, n: string)
    requires i < |c.levels| && j < |c.levels| && level < |c.levels| && OwedMethod(m) && OwedMethod(n)
    ensures
      Local(Witness(c, level, j, m), Key(n, c.levels[i].b1))
      == if n == m && c.levels[i].b1 == c.levels[j].b1 then Wanted(c.levels[j], m) - 1 else MostWanted(c, |c.levels|)
  {
    MethodsDiffer();
    AllButOneRows(c, j, m, i, n);
    hide AllButOne, MostWanted, AddWork, SumWork, Wanted;
    AddWorkCounts(AllButOne(c, j, m), Key(ECM, 1), SumWork(c, level) - 1, Key(n, c.levels[i].b1));
  }

  /** In the witness nothing is owed within the search. */
  lemma WitnessOwesNothing(c: Config, level: nat, j: nat, m: string, i: nat, n: string)
    requires Exposed(c, level, j, m) && level <= i < SearchEnd(c, level) && OwedMethod(n)
    ensures !Owes(c, Witness(c, level, j, m), i, n)
  {
    if i < |c.levels| {
      MostWantedBounds(c, |c.levels|, i);
      WitnessRows(c, level, j, m, i, n);
    }
    hide Witness, MostWanted, SumWork;
  }

  lemma ExposedIsPassedOver(c: Config, level: nat, j: nat, m: string) returns (t: Table)
    requires ValidConfig(c) && Exposed(c, level, j, m)
    ensures Counted(t) && SendsEcm(c, t, TotalWork(t, ECM), level) && Owes(c, t, j, m)
  {
    t := Witness(c, level, j, m);
    var total := SumWork(c, level) - 1;
    WitnessWork(c, level, j, m);
    WitnessRows(c, level, j, m, j, m);
    FindsLowestOpenLevel(c, total, level);
    var f := Find(c, total, 0);
    hide Witness, MostWanted, Counted, TotalWork, SumWork;
    assert exists n :: f == Ecm(level, n);
    forall i | level <= i < SearchEnd(c, level)
      ensures !Owes(c, t, i, PM1) && !Owes(c, t, i, PP1)
    {
      WitnessOwesNothing(c, level, j, m, i, PM1);
      WitnessOwesNothing(c, level, j, m, i, PP1);
    }
    hide Owes, Find, Assign;
    EcmOnlyWhenNothingOwed(c, t, total, level, f.curves);
    MethodsDiffer();
  }

  /** The promise is kept for every table exactly when no level is exposed. */
  lemma PromiseExactly(c: Config)
    requires ValidConfig(c)
    ensures KeepsPromise(c) <==> forall level: nat, j: nat, m: string :: !Exposed(c, level, j, m)
  {
    if level: nat, j: nat, m: string :| Exposed(c, level, j, m) {
      var t := ExposedIsPassedOver(c, level, j, m);
    } else {
      forall t: Table, level: nat, j: nat, m: string
        | Counted(t) && SendsEcm(c, t, TotalWork(t, ECM), level) && OwedMethod(m) && level <= j < level + Depth(c, m)
        ensures !Owes(c, t, j, m)
      {
        if Owes(c, t, j, m) {
          SumNotNegative(t, t.Keys);
          UnexposedKeeps(c, t, TotalWork(t, ECM), level, j, m);
        }
      }
    }
  }

  /** Equal depths keep it. */
  lemma EqualDepthsKeepPromise(c: Config)
    requires ValidConfig(c) && c.pm1Over == c.pp1Over
    ensures KeepsPromise(c)
  {
    PromiseExactly(c);
    assert forall level: nat, j: nat, m: string :: !Exposed(c, level, j, m);
  }

  /** One level with a depth of one for P-1 and none for P+1: its P-1 curve is owed, and an ECM curve is sent. */
  lemma DeeperMethodIgnored()
    ensures
      var c := Config([Level(2000, 1, 0, 1)], 0, 3000, 1, 0);
      && ValidConfig(c) && Assign(c, map[], TotalWork(map[], ECM)) == Send(WorkUnit(ECM, 2000, 1))
      && Owes(c, map[], 0, PM1) && 0 < Depth(c, PM1) && Counted(map[])
  {
    var c := Config([Level(2000, 1, 0, 1)], 0, 3000, 1, 0);
    assert SumWork(c, 0) == 2000;
    assert Find(c, 0, 0) == Ecm(0, 1);
  }
}
