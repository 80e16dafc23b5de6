/** Runs of the synchronisation that end badly (source/MasterComposite.cpp, source/IAmAMaster.cpp). */
module SyncFailures {
  import opened CurveTables
  import opened SyncProtocol
  import opened SyncCoherence
  import opened SyncSessions

  const SOME_KEY: Key := Key("ECM", 2000)

  function OneSlave(dirty: bool): State {
    State(map[], map[0 := true], [Slave(map[], dirty, SIdle, NoneToSlave, NoneToMaster, MIdle)],
          Ledger(k => 0, k => 0, k => 0, k => 0))
  }

  lemma OneSlaveStarts(dirty: bool)
    ensures Start(OneSlave(dirty))
  {
    var s := OneSlave(dirty);
    forall k
      ensures AllOwed(s.slaves, k) == 0
    {
      assert AllOwed(s.slaves[..0], k) == 0;
    }
  }

  /** Without the lock a return to the master during a refresh is wiped from the flags: clean but not coherent. */
  lemma UnlockedMasterLosesCoherence()
    ensures
      var run := [OpenRefresh(0), ReturnToMaster(SOME_KEY, 1), Refresh(0), Clear(0)];
      && Start(OneSlave(false)) && CanRun(OneSlave(false), run, Absent)
      && var e := Run(OneSlave(false), run);
         |e.slaves| == 1 && Clean(e, 0) && !Coherent(e.work, e.slaves[0].work)
  {
    OneSlaveStarts(false);
    var run := [OpenRefresh(0), ReturnToMaster(SOME_KEY, 1), Refresh(0), Clear(0)];
    var s := OneSlave(false);
    var s1 := Do(OpenRefresh(0), s);
    var s2 := Do(ReturnToMaster(SOME_KEY, 1), s1);
    var s3 := Do(Refresh(0), s2);
    var s4 := Do(Clear(0), s3);
    UnrollLast(s3, Clear(0));
    hide CanRun, Run;
    assert run[2..][1..] == [Clear(0)];
    UnrollUnlocked(s2, run[2..]);
    UnrollUnlocked(s1, run[1..]);
    UnrollUnlocked(s, run);
    assert Local(s4.work, SOME_KEY) == 1 && Local(s4.slaves[0].work, SOME_KEY) == 0;
    assert Since(s4.slaves[0].work, SOME_KEY) == 0;
  }

  /** Slave 0 has five curves to report, slave 1 none. */
  function TwoSlaves(): State {
    State(map[], map[0 := true, 1 := true],
          [Slave(map[SOME_KEY := Row(5, 5)], true, SIdle, NoneToSlave, NoneToMaster, MIdle),
           Slave(map[], false, SIdle, NoneToSlave, NoneToMaster, MIdle)],
          Ledger(k => if k == SOME_KEY then 5 else 0, k => 0, k => 0, k => 0))
  }

  lemma TwoSlavesStart()
    ensures Start(TwoSlaves())
  {
    var s := TwoSlaves();
    forall k
      ensures AllOwed(s.slaves, k) == if k == SOME_KEY then 5 else 0
    {
      assert AllOwed(s.slaves[..1][..0], k) == 0;
      assert AllOwed(s.slaves[..1], k) == Owed(s.slaves[0], k);
    }
  }

  /** The refresh of slave 1 is opened when the master has released its lock and not yet committed. */
  function RefreshInGap(): seq<Action> {
    [OpenRefresh(1), CommitMaster(0), Refresh(1), Clear(1)]
  }

  lemma RefreshInGapRuns(s: State)
    requires |s.slaves| == 2 && s.slaves[0].session == MMerged(map[SOME_KEY := 5], true) && s.work == map[]
    requires 1 in s.flags && s.flags[1]
    requires s.slaves[1].side.SIdle? && s.slaves[1].session.MIdle?
    ensures CanRun(s, RefreshInGap(), UntilRelease) && CanRun(s, RefreshInGap(), Absent)
    ensures
      var e := Run(s, RefreshInGap());
      |e.slaves| == 2 && Clean(e, 1) && !Coherent(e.work, e.slaves[1].work)
  {
    var run, rest := RefreshInGap(), [Refresh(1), Clear(1)];
    assert run[0] == OpenRefresh(1) && run[1..][0] == CommitMaster(0) && run[1..][1..] == rest;
    GapSteps(s);
    hide CanRun, Run, Do, Enabled, Coherent, RefreshInGap;
    var s1 := Do(OpenRefresh(1), s);
    var s2 := Do(CommitMaster(0), s1);
    RefreshesIncoherent(s2, 1, SOME_KEY, UntilRelease);
    SlaveCountStays(s2, rest);
    UnrollUnder(s1, run[1..], UntilRelease);
    UnrollUnder(s, run, UntilRelease);
  }

  /** The rows for slave 1 are read before the master has its five curves. */
  lemma GapSteps(s: State)
    requires |s.slaves| == 2 && s.slaves[0].session == MMerged(map[SOME_KEY := 5], true) && s.work == map[]
    requires 1 in s.flags && s.flags[1]
    requires s.slaves[1].side.SIdle? && s.slaves[1].session.MIdle?
    ensures Enabled(OpenRefresh(1), s, UntilRelease) && Enabled(OpenRefresh(1), s, Absent)
    ensures
      var s1 := Do(OpenRefresh(1), s);
      && Enabled(CommitMaster(0), s1, UntilRelease) && Enabled(CommitMaster(0), s1, Absent)
      && var s2 := Do(CommitMaster(0), s1);
         && |s2.slaves| == 2 && s2.slaves[1].session.MAwaitOk2? && 1 in s2.flags
         && s2.slaves[1].side.SListening? && s2.slaves[1].inbox.Rows2?
         && Count(s2.slaves[1].inbox.rows, SOME_KEY) != Local(s2.work, SOME_KEY)
  {
    MergedCounts(s.work, map[SOME_KEY := 5], SOME_KEY);
    assert Count(Totals(s.work), SOME_KEY) == 0;
    hide Merged, Totals, Plus;
  }

  lemma {:induction false} SlaveCountStays(s: State, run: seq<Action>)
    requires CanRun(s, run, Absent)
    ensures |Run(s, run).slaves| == |s.slaves|
    decreases |run|
  {
    if |run| > 0 {
      SlavesStay(run[0], s);
      SlaveCountStays(Do(run[0], s), run[1..]);
    }
  }

  /** With a lock that excludes but is released before the commit: slave 1 ends clean and lacks five curves. */
  lemma ReleaseBeforeCommitLosesCoherence()
    ensures
      var run := ReportSteps(0) + [Replace(0), TakeOk(0)] + RefreshInGap();
      && Start(TwoSlaves()) && CanRun(TwoSlaves(), run, UntilRelease) && CanRun(TwoSlaves(), run, Absent)
      && var e := Run(TwoSlaves(), run);
         |e.slaves| == 2 && Clean(e, 1) && !Coherent(e.work, e.slaves[1].work)
  {
    TwoSlavesStart();
    var s, taken := TwoSlaves(), [Replace(0), TakeOk(0)];
    ReportPart(s, 0);
    LaxerRun(s, ReportSteps(0));
    assert Pending(s.slaves[0].work) == map[SOME_KEY := 5];
    var m := Run(s, ReportSteps(0));
    hide CanRun, Run, ReportSteps, RefreshInGap, Coherent, Start, Merged, Totals, Pending;
    TakenRuns(m);
    var m2 := Run(m, taken);
    RefreshInGapRuns(m2);
    RunsAppendUnder(s, ReportSteps(0), taken, UntilRelease);
    RunsAppendUnder(s, ReportSteps(0) + taken, RefreshInGap(), UntilRelease);
  }

  lemma TakenRuns(m: State)
    requires |m.slaves| == 2 && m.slaves[0].session == MMerged(map[SOME_KEY := 5], false)
    requires m.slaves[0].side.SReporting? && m.slaves[0].inbox.Rows1?
    ensures
      var taken := [Replace(0), TakeOk(0)];
      && CanRun(m, taken, UntilRelease) && CanRun(m, taken, Absent)
      && var e := Run(m, taken);
         && |e.slaves| == 2 && e.slaves[0].session == MMerged(map[SOME_KEY := 5], true)
         && e.work == m.work && e.flags == m.flags && e.slaves[1] == m.slaves[1]
  {
    var m1 := Do(Replace(0), m);
    UnrollUnder(m1, [TakeOk(0)], UntilRelease);
    UnrollUnder(m, [Replace(0), TakeOk(0)], UntilRelease);
  }

  /** Curves that a client returns to a slave after phase 1 are lost when phase 2 replaces the rows. */
  lemma ReturnBetweenPhasesIsLost()
    ensures
      var run := [ReturnToSlave(0, SOME_KEY, 5)] + Phase2(0);
      && Start(OneSlave(false)) && CanRun(OneSlave(false), run, UntilCommit) && CanRun(OneSlave(false), run, Absent)
      && Run(OneSlave(false), run).ledger.lost(SOME_KEY) == 5
  {
    OneSlaveStarts(false);
    var s := OneSlave(false);
    var first := [ReturnToSlave(0, SOME_KEY, 5)];
    var s1 := Do(first[0], s);
    Unroll(s, first);
    assert Since(s1.slaves[0].work, SOME_KEY) == 5;
    Phase2Uncut(s1, 0);
    RunsAppend(s, first, Phase2(0));
  }
}
