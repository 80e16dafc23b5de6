/**
 * The search for a candidate (SendUsingStrategy in source/WorkSender.cpp): passes over the fetched rows, each row taken
 * with a probability that rises by ten percent from pass to pass, until one of them has work. Percents, hours and
 * times, doubles in the original, are integers here.
 */
module CandidateLoop {

  /** A strategy as it is stored; hourBreak is what the configured number of hours has been turned into. */
  datatype Strategy = Strategy(select: int, hourBreak: int, percentAdd: int, percentSub: int)

  /** Reading the configuration multiplies the hours by the seconds of an hour. */
  function Configured(select: int, hours: int, percentAdd: int, percentSub: int): Strategy {
    Strategy(select, hours * 3600, percentAdd, percentSub)
  }

  /** A fetched row: when it was last sent, and what SendWork would send for it now. */
  datatype Row = Row(lastSend: int, work: int)

  /** What the database and the random generator answer in each pass. */
  datatype World = World(now: int, rows: nat -> seq<Row>, random: (nat, nat) -> int)

  /** Conversion of a quotient of doubles to an integer rounds towards zero. */
  function Hours(seconds: int): int {
    if seconds >= 0 then seconds / 3600 else -((-seconds) / 3600)
  }

  /** The stored break is multiplied by the seconds of an hour once more. */
  function BaseTime(s: Strategy, now: int): int {
    now - s.hourBreak * 3600
  }

  /** So the threshold lies the configured number of hours back exactly when that number is zero. */
  lemma ThresholdInHours(select: int, hours: int, add: int, sub: int, now: int)
    ensures BaseTime(Configured(select, hours, add, sub), now) == now - hours * 3600 <==> hours == 0
  {
    assert hours * 3600 * 3600 == hours * 3600 <==> hours == 0;
  }

  /** With 40:10:3:2, a row that was sent 28 hours ago is not helped for its age but held back by 71944 percent. */
  lemma OldRowHeldBack(now: int, work: int)
    requires now != 28 * 3600
    ensures AdjustPercent(Configured(40, 10, 3, 2), now, Row(now - 28 * 3600, work)) == -71944
  {
  }

  function SelectPercent(s: Strategy, r: Row): int {
    if r.lastSend == 0 then 100 else s.select
  }

  function AdjustPercent(s: Strategy, now: int, r: Row): int {
    var age := BaseTime(s, now) - r.lastSend;
    if r.lastSend == 0 then 0
    else if age > 0 then s.percentAdd * Hours(age)
    else s.percentSub * Hours(age)
  }

  predicate Taken(s: Strategy, now: int, r: Row, random: int, pass: nat) {
    random - 10 * pass <= SelectPercent(s, r) + AdjustPercent(s, now, r)
  }

  /** What a pass sends, from row j on: the first row that is taken and has work. */
  function PassWork(s: Strategy, w: World, pass: nat, j: nat): int
    decreases |w.rows(pass)| - j
  {
    var rows := w.rows(pass);
    if j >= |rows| then 0
    else if Taken(s, w.now, rows[j], w.random(pass, j), pass) && rows[j].work > 0 then rows[j].work
    else PassWork(s, w, pass, j + 1)
  }

  /** Sensible settings, random numbers in 0..99, no row from the future. */
  ghost predicate Sensible(s: Strategy, w: World) {
    && s.hourBreak >= 0 && s.percentAdd >= 0 && s.percentSub >= 0
    && (forall pass: nat, j: nat :: 0 <= w.random(pass, j) < 100)
    && forall pass: nat, j: nat :: j < |w.rows(pass)| ==> w.rows(pass)[j].lastSend <= w.now
  }

  predicate SomeRowHasWork(rows: seq<Row>) {
    exists j :: 0 <= j < |rows| && rows[j].work > 0
  }

  /** From this pass on every row is taken, whatever the random numbers say. */
  function SurePass(s: Strategy): nat {
    var gap := 99 - s.select + s.percentSub * s.hourBreak;
    if gap <= 0 then 0 else (gap + 9) / 10
  }

  lemma SurePassReached(s: Strategy, pass: nat)
    requires pass >= SurePass(s)
    ensures 99 - 10 * pass <= s.select - s.percentSub * s.hourBreak
  {
  }

  /** A row is never held back by more than the penalty for the whole break. */
  lemma AdjustBound(s: Strategy, now: int, r: Row)
    requires s.hourBreak >= 0 && s.percentAdd >= 0 && s.percentSub >= 0 && r.lastSend <= now
    ensures AdjustPercent(s, now, r) >= -(s.percentSub * s.hourBreak)
  {
    var age := BaseTime(s, now) - r.lastSend;
    assert age >= -3600 * s.hourBreak;
    assert Hours(age) >= -s.hourBreak && (age > 0 ==> Hours(age) >= 0);
    Penalty(s.percentSub, Hours(age), s.hourBreak);
    if age > 0 {
      Penalty(s.percentAdd, Hours(age), 0);
    }
    Penalty(s.percentSub, 0, s.hourBreak);
  }

  lemma Penalty(percent: int, hours: int, limit: int)
    requires percent >= 0 && hours >= -limit
    ensures percent * hours >= -(percent * limit)
  {
    assert percent * (hours + limit) >= 0;
  }

  lemma SureRowIsTaken(s: Strategy, w: World, pass: nat, j: nat)
    requires Sensible(s, w) && pass >= SurePass(s) && j < |w.rows(pass)|
    ensures Taken(s, w.now, w.rows(pass)[j], w.random(pass, j), pass)
  {
    var r := w.rows(pass)[j];
    AdjustBound(s, w.now, r);
    SurePassReached(s, pass);
    assert w.random(pass, j) < 100;
  }

  /** A pass sends work exactly when it takes a row that has some. */
  lemma {:induction false} PassWorkFrom(s: Strategy, w: World, pass: nat, j: nat)
    ensures PassWork(s, w, pass, j) >= 0
    ensures PassWork(s, w, pass, j) > 0 <==>
      exists i :: j <= i < |w.rows(pass)|
        && Taken(s, w.now, w.rows(pass)[i], w.random(pass, i), pass) && w.rows(pass)[i].work > 0
    decreases |w.rows(pass)| - j
  {
    if j < |w.rows(pass)| {
      PassWorkFrom(s, w, pass, j + 1);
    }
  }

  /** In a sure pass the random numbers do not matter any more. */
  lemma SurePassSends(s: Strategy, w: World, pass: nat)
    requires Sensible(s, w) && pass >= SurePass(s)
    ensures PassWork(s, w, pass, 0) > 0 <==> SomeRowHasWork(w.rows(pass))
  {
    PassWorkFrom(s, w, pass, 0);
    var rows := w.rows(pass);
    if i :| 0 <= i < |rows| && rows[i].work > 0 {
      SureRowIsTaken(s, w, pass, i);
    }
  }

  /**
   * The two nested loops, for a world in which every pass fetches either nothing or some row with work: they end
   * within SurePass + 1 passes for every sequence of random numbers.
   */
  method FindCandidate(s: Strategy, w: World) returns (workSent: int, passes: nat)
    requires Sensible(s, w)
    requires forall pass: nat :: w.rows(pass) == [] || SomeRowHasWork(w.rows(pass))
    ensures 1 <= passes <= SurePass(s) + 1
    ensures forall k :: 0 <= k < passes - 1 ==> PassWork(s, w, k, 0) == 0 && w.rows(k) != []
    ensures workSent == PassWork(s, w, passes - 1, 0)
    ensures workSent > 0 || w.rows(passes - 1) == []
  {
    workSent := 0;
    passes := 0;
    var loopAdjust := 0;
    while workSent == 0
      invariant passes == 0 ==> workSent == 0
      invariant passes > 0 ==> workSent == PassWork(s, w, passes - 1, 0) && w.rows(passes - 1) != []
      invariant workSent >= 0 && loopAdjust == 10 * passes && passes <= SurePass(s) + 1
      invariant passes == SurePass(s) + 1 ==> workSent > 0
      invariant forall k :: 0 <= k < passes - 1 ==> PassWork(s, w, k, 0) == 0 && w.rows(k) != []
      decreases SurePass(s) + 1 - passes
    {
      var rows := w.rows(passes);
      var j := 0;
      while workSent == 0 && j < |rows|
        invariant 0 <= j <= |rows| && workSent >= 0
        invariant workSent == 0 ==> PassWork(s, w, passes, 0) == PassWork(s, w, passes, j)
        invariant workSent > 0 ==> PassWork(s, w, passes, 0) == workSent
        decreases |rows| - j, if workSent == 0 then 1 else 0
      {
        var row := rows[j];
        if w.random(passes, j) - loopAdjust <= SelectPercent(s, row) + AdjustPercent(s, w.now, row) {
          workSent := if row.work > 0 then row.work else 0;
        }
        j := j + 1;
      }
      if passes == SurePass(s) {
        SurePassSends(s, w, passes);
      }
      passes := passes + 1;
      if rows == [] {
        break;
      }
      loopAdjust := loopAdjust + 10;
    }
  }

  predicate PassInVain(s: Strategy, w: World, pass: nat) {
    w.rows(pass) != [] && PassWork(s, w, pass, 0) == 0
  }

  /** The loop is still running after n passes. */
  ghost predicate StillSearching(s: Strategy, w: World, n: nat) {
    forall k: nat :: k < n ==> PassInVain(s, w, k)
  }

  /** There are rows, and the random numbers pass over every one that has work. */
  predicate NoLuck(s: Strategy, w: World, pass: nat) {
    && w.rows(pass) != []
    && forall j :: 0 <= j < |w.rows(pass)| && w.rows(pass)[j].work > 0 ==>
         !Taken(s, w.now, w.rows(pass)[j], w.random(pass, j), pass)
  }

  lemma InVainWithoutLuck(s: Strategy, w: World, pass: nat)
    ensures PassInVain(s, w, pass) <==> NoLuck(s, w, pass)
  {
    PassWorkFrom(s, w, pass, 0);
    hide Taken;
  }

  /** It never ends exactly when rows keep coming and every row with work is passed over in every pass. */
  lemma SearchesForever(s: Strategy, w: World)
    ensures (forall n: nat :: StillSearching(s, w, n)) <==> forall pass: nat :: NoLuck(s, w, pass)
  {
    forall pass: nat
      ensures PassInVain(s, w, pass) <==> NoLuck(s, w, pass)
    {
      InVainWithoutLuck(s, w, pass);
    }
    if forall n: nat :: StillSearching(s, w, n) {
      forall pass: nat
        ensures NoLuck(s, w, pass)
      {
        assert StillSearching(s, w, pass + 1);
        assert PassInVain(s, w, pass);
      }
    }
  }

  ghost predicate InHundred(random: (nat, nat) -> int) {
    forall pass: nat, j: nat :: 0 <= random(pass, j) < 100
  }

  ghost predicate Ends(s: Strategy, w: World) {
    exists n: nat :: !PassInVain(s, w, n)
  }

  /** The row is taken in this pass even with the largest random number. */
  predicate SureRow(s: Strategy, now: int, r: Row, pass: nat) {
    99 - 10 * pass <= SelectPercent(s, r) + AdjustPercent(s, now, r)
  }

  /** A pass that ends the search in any case: nothing is fetched, or some row with work is sure to be taken. */
  predicate SureEnd(s: Strategy, now: int, rows: seq<Row>, pass: nat) {
    rows == [] || exists j :: 0 <= j < |rows| && rows[j].work > 0 && SureRow(s, now, rows[j], pass)
  }

  lemma SureEndEnds(s: Strategy, w: World, pass: nat)
    requires InHundred(w.random) && SureEnd(s, w.now, w.rows(pass), pass)
    ensures !PassInVain(s, w, pass)
  {
    InVainWithoutLuck(s, w, pass);
    var rows := w.rows(pass);
    if rows != [] {
      var j :| 0 <= j < |rows| && rows[j].work > 0 && SureRow(s, w.now, rows[j], pass);
      assert w.random(pass, j) < 100;
      assert Taken(s, w.now, rows[j], w.random(pass, j), pass);
    }
  }

  /**
   * For rows that do not depend on the random numbers, and any settings whatever: the search ends for all random
   * numbers exactly when some pass fetches nothing or some row with work that is sure to be taken.
   */
  lemma EndsForAllRandoms(s: Strategy, now: int, rows: nat -> seq<Row>)
    ensures (forall random :: InHundred(random) ==> Ends(s, World(now, rows, random)))
       <==> exists n: nat :: SureEnd(s, now, rows(n), n)
  {
    if n: nat :| SureEnd(s, now, rows(n), n) {
      forall random | InHundred(random)
        ensures Ends(s, World(now, rows, random))
      {
        SureEndEnds(s, World(now, rows, random), n);
      }
    } else {
      var largest := (pass: nat, j: nat) => 99;
      var w := World(now, rows, largest);
      assert InHundred(largest);
      forall n: nat
        ensures PassInVain(s, w, n)
      {
        InVainWithoutLuck(s, w, n);
        assert !SureEnd(s, now, rows(n), n);
      }
      assert !Ends(s, w);
    }
  }

  /** Rows without any work keep it running for ever. */
  lemma IdleRowsNeverEnd(s: Strategy, w: World, n: nat)
    requires forall pass: nat :: w.rows(pass) != [] && !SomeRowHasWork(w.rows(pass))
    ensures StillSearching(s, w, n)
  {
    forall k: nat | k < n
      ensures PassInVain(s, w, k)
    {
      PassWorkFrom(s, w, k, 0);
      assert !SomeRowHasWork(w.rows(k));
    }
  }
}
