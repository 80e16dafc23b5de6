/**
 * Sessions of the synchronisation as runs, cut before their last answer or not (source/IAmASlave.cpp,
 * source/IAmAMaster.cpp), and the way back from every cut.
 */
module SyncSessions {
  import opened CurveTables
  import opened SyncProtocol

  // ---------------------------------------------------------------- the phases as steps

  function ReportSteps(i: nat): seq<Action> {
    [Open(i), SendReport(i), Merge(i)]
  }

  function MasterCommitSteps(i: nat): seq<Action> {
    [Replace(i), TakeOk(i), CommitMaster(i)]
  }

  function SlaveCommitSteps(i: nat): seq<Action> {
    [TakeDone(i), CommitSlave(i)]
  }

  function Phase1(i: nat): seq<Action> {
    ReportSteps(i) + MasterCommitSteps(i) + SlaveCommitSteps(i)
  }

  function RefreshSteps(i: nat): seq<Action> {
    [OpenRefresh(i), Refresh(i)]
  }

  function Phase2(i: nat): seq<Action> {
    RefreshSteps(i) + [Clear(i)]
  }

  /** Phase 1 when the last answer of the master is lost and the slave gives up. */
  function CutPhase1(i: nat): seq<Action> {
    ReportSteps(i) + MasterCommitSteps(i) + [DropToSlave(i), AbortSlave(i)]
  }

  /** Phase 2 when the last answer of the slave is lost and the master gives up. */
  function CutPhase2(i: nat): seq<Action> {
    RefreshSteps(i) + [DropToMaster(i), AbortMaster(i)]
  }

  // ---------------------------------------------------------------- phase 1

  lemma ReportPart(s: State, i: nat)
    requires i < |s.slaves| && MasterUnlocked(s) && s.slaves[i].side.SIdle? && s.slaves[i].dirty
    ensures
      var run := ReportSteps(i);
      var v, report := s.slaves[i], Pending(s.slaves[i].work);
      && CanRun(s, run, UntilCommit) && CanRun(s, run, Absent)
      && Run(s, run)
         == SetSlave(s, i, Slave(v.work, v.dirty, SReporting(report), Rows1(Totals(Merged(s.work, report))),
                                 NoneToMaster, MMerged(report, false)))
  {
    hide Merged, Pending, Totals, Run, CanRun;
    var s1 := Do(Open(i), s);
    var s2 := Do(SendReport(i), s1);
    UnrollLast(s2, Merge(i));
    var run := ReportSteps(i);
    assert run[1..][1..] == [Merge(i)];
    Unroll(s1, run[1..]);
    Unroll(s, run);
  }

  lemma MasterCommitPart(s: State, i: nat)
    requires i < |s.slaves| && s.slaves[i].session.MMerged? && !s.slaves[i].session.released
    requires s.slaves[i].side == SReporting(s.slaves[i].session.report) && s.slaves[i].inbox.Rows1?
    ensures
      var run := MasterCommitSteps(i);
      var v := s.slaves[i];
      && CanRun(s, run, UntilCommit) && CanRun(s, run, Absent)
      && Run(s, run)
         == SetSlave(s, i, Slave(v.work, v.dirty, SReplaced(v.session.report, v.inbox.rows, true, false), Done1,
                                 NoneToMaster, MIdle))
              .(work := Merged(s.work, v.session.report), flags := AllDirty(s.flags))
  {
    hide Merged, Installed, AllDirty, Plus, Run, CanRun;
    var s1 := Do(Replace(i), s);
    var s2 := Do(TakeOk(i), s1);
    UnrollLast(s2, CommitMaster(i));
    var run := MasterCommitSteps(i);
    assert run[1..][1..] == [CommitMaster(i)];
    Unroll(s1, run[1..]);
    Unroll(s, run);
  }

  lemma SlaveCommitPart(s: State, i: nat)
    requires i < |s.slaves| && s.slaves[i].side.SReplaced? && !s.slaves[i].side.released && s.slaves[i].inbox.Done1?
    ensures
      var run := SlaveCommitSteps(i);
      var v := s.slaves[i];
      && CanRun(s, run, UntilCommit) && CanRun(s, run, Absent)
      && Run(s, run)
         == SetSlave(s, i, Slave(Installed(v.side.rows), false, SIdle, NoneToSlave, v.outbox, v.session))
              .(ledger := s.ledger.(lost := PlusDropped(s.ledger.lost, v.work, v.side.report)))
  {
    hide Installed, PlusDropped, Run, CanRun;
    var s1 := Do(TakeDone(i), s);
    UnrollLast(s1, CommitSlave(i));
    var run := SlaveCommitSteps(i);
    assert run[1..] == [CommitSlave(i)];
    Unroll(s, run);
  }

  /** Phase 1 moves what the slave owes to the master, leaves both with the same totals, and marks every slave. */
  lemma Phase1Uncut(s: State, i: nat)
    requires i < |s.slaves| && MasterUnlocked(s) && s.slaves[i].side.SIdle? && s.slaves[i].dirty
    ensures CanRun(s, Phase1(i), UntilCommit) && CanRun(s, Phase1(i), Absent)
    ensures
      var e := Run(s, Phase1(i));
      && |e.slaves| == |s.slaves| && MasterUnlocked(e) && e.slaves[i].side.SIdle? && !e.slaves[i].dirty
      && e.work == Merged(s.work, Pending(s.slaves[i].work))
      && e.slaves[i].work == Installed(Totals(e.work))
      && e.flags == AllDirty(s.flags)
      && e.ledger.resent == s.ledger.resent
      && e.ledger.lost == PlusDropped(s.ledger.lost, s.slaves[i].work, Pending(s.slaves[i].work))
  {
    hide Merged, Pending, Installed, Totals, AllDirty, PlusDropped, Run, CanRun;
    hide ReportSteps, MasterCommitSteps, SlaveCommitSteps;
    ReportPart(s, i);
    var m := Run(s, ReportSteps(i));
    MasterCommitPart(m, i);
    RunsAppend(s, ReportSteps(i), MasterCommitSteps(i));
    var c := Run(m, MasterCommitSteps(i));
    SlaveCommitPart(c, i);
    RunsAppend(s, ReportSteps(i) + MasterCommitSteps(i), SlaveCommitSteps(i));
  }

  /** The report is counted on the master, and the slave still owes it: that is what is resent. */
  lemma Phase1Cut(s: State, i: nat)
    requires i < |s.slaves| && MasterUnlocked(s) && s.slaves[i].side.SIdle? && s.slaves[i].dirty
    ensures CanRun(s, CutPhase1(i), UntilCommit) && CanRun(s, CutPhase1(i), Absent)
    ensures
      var e, report := Run(s, CutPhase1(i)), Pending(s.slaves[i].work);
      && |e.slaves| == |s.slaves| && MasterUnlocked(e) && e.slaves[i].side.SIdle? && e.slaves[i].dirty
      && e.work == Merged(s.work, report) && e.slaves[i].work == s.slaves[i].work && e.flags == AllDirty(s.flags)
      && e.ledger == s.ledger.(resent := Plus(s.ledger.resent, report))
  {
    hide Merged, Pending, Installed, Totals, AllDirty, Plus, Run, CanRun;
    hide ReportSteps, MasterCommitSteps;
    ReportPart(s, i);
    var m := Run(s, ReportSteps(i));
    MasterCommitPart(m, i);
    RunsAppend(s, ReportSteps(i), MasterCommitSteps(i));
    var c := Run(m, MasterCommitSteps(i));
    UnrollLast(Do(DropToSlave(i), c), AbortSlave(i));
    Unroll(c, [DropToSlave(i), AbortSlave(i)]);
    RunsAppend(s, ReportSteps(i) + MasterCommitSteps(i), [DropToSlave(i), AbortSlave(i)]);
  }

  // ---------------------------------------------------------------- phase 2

  lemma RefreshPart(s: State, i: nat)
    requires i < |s.slaves| && MasterUnlocked(s) && s.slaves[i].side.SIdle? && i in s.flags && s.flags[i]
    ensures CanRun(s, RefreshSteps(i), UntilCommit) && CanRun(s, RefreshSteps(i), Absent)
    ensures
      var v := s.slaves[i];
      Run(s, RefreshSteps(i))
      == SetSlave(s, i, Slave(Installed(Totals(s.work)), v.dirty, SIdle, NoneToSlave, Ok2, MAwaitOk2))
           .(ledger := s.ledger.(lost := PlusDropped(s.ledger.lost, v.work, map[])))
  {
    hide Installed, Totals, PlusDropped, Run, CanRun;
    var s1 := Do(OpenRefresh(i), s);
    UnrollLast(s1, Refresh(i));
    var run := RefreshSteps(i);
    assert run[1..] == [Refresh(i)];
    Unroll(s, run);
  }

  /** Phase 2 leaves the slave with exactly the master's totals and the flag cleared. */
  lemma Phase2Uncut(s: State, i: nat)
    requires i < |s.slaves| && MasterUnlocked(s) && s.slaves[i].side.SIdle? && i in s.flags && s.flags[i]
    ensures CanRun(s, Phase2(i), UntilCommit) && CanRun(s, Phase2(i), Absent)
    ensures
      var e := Run(s, Phase2(i));
      && |e.slaves| == |s.slaves| && MasterUnlocked(e) && e.slaves[i].side.SIdle?
      && e.slaves[i].dirty == s.slaves[i].dirty
      && e.work == s.work && e.slaves[i].work == Installed(Totals(s.work)) && Clean(e, i)
      && e.ledger.resent == s.ledger.resent
      && e.ledger.lost == PlusDropped(s.ledger.lost, s.slaves[i].work, map[])
  {
    hide Installed, Totals, PlusDropped, Run, CanRun, RefreshSteps;
    RefreshPart(s, i);
    UnrollLast(Run(s, RefreshSteps(i)), Clear(i));
    RunsAppend(s, RefreshSteps(i), [Clear(i)]);
  }

  /** The slave has the master's totals, and the flag stays set. */
  lemma Phase2Cut(s: State, i: nat)
    requires i < |s.slaves| && MasterUnlocked(s) && s.slaves[i].side.SIdle? && i in s.flags && s.flags[i]
    ensures CanRun(s, CutPhase2(i), UntilCommit) && CanRun(s, CutPhase2(i), Absent)
    ensures
      var e := Run(s, CutPhase2(i));
      && |e.slaves| == |s.slaves| && MasterUnlocked(e) && e.slaves[i].side.SIdle?
      && e.slaves[i].dirty == s.slaves[i].dirty && e.flags == s.flags
      && e.work == s.work && e.slaves[i].work == Installed(Totals(s.work))
      && e.ledger.lost == PlusDropped(s.ledger.lost, s.slaves[i].work, map[]) && e.ledger.resent == s.ledger.resent
  {
    hide Installed, Totals, PlusDropped, Run, CanRun, RefreshSteps;
    RefreshPart(s, i);
    var r := Run(s, RefreshSteps(i));
    UnrollLast(Do(DropToMaster(i), r), AbortMaster(i));
    Unroll(r, [DropToMaster(i), AbortMaster(i)]);
    RunsAppend(s, RefreshSteps(i), [DropToMaster(i), AbortMaster(i)]);
  }

  // ---------------------------------------------------------------- sessions and recovery

  /** A whole session that nobody cuts and no client interrupts: master and slave agree and no curve is lost. */
  lemma SessionUncut(s: State, i: nat)
    requires i < |s.slaves| && MasterUnlocked(s) && s.slaves[i].side.SIdle? && s.slaves[i].dirty && i in s.flags
    requires forall k :: Since(s.slaves[i].work, k) >= 0
    ensures CanRun(s, Phase1(i) + Phase2(i), Absent) && forall lock :: CanRun(s, Phase1(i) + Phase2(i), lock)
    ensures
      var e := Run(s, Phase1(i) + Phase2(i));
      && |e.slaves| == |s.slaves| && Clean(e, i) && !e.slaves[i].dirty
      && (forall k :: Local(e.work, k) == Local(s.work, k) + Since(s.slaves[i].work, k))
      && (forall k :: Local(e.slaves[i].work, k) == Local(e.work, k) && Since(e.slaves[i].work, k) == 0)
      && (forall k :: e.ledger.lost(k) == s.ledger.lost(k) && e.ledger.resent(k) == s.ledger.resent(k))
  {
    Phase1Uncut(s, i);
    var m := Run(s, Phase1(i));
    Phase2Uncut(m, i);
    RunsAppend(s, Phase1(i), Phase2(i));
    AnyLock(s, Phase1(i) + Phase2(i));
    var e := Run(m, Phase2(i));
    hide Merged, Pending, Installed, Totals, Run, CanRun;
    forall k
      ensures Local(e.work, k) == Local(s.work, k) + Since(s.slaves[i].work, k)
      ensures Local(e.slaves[i].work, k) == Local(e.work, k) && Since(e.slaves[i].work, k) == 0
      ensures e.ledger.lost(k) == s.ledger.lost(k) && e.ledger.resent(k) == s.ledger.resent(k)
    {
      MergedCounts(s.work, Pending(s.slaves[i].work), k);
      PendingCounts(s.slaves[i].work, k);
      InstalledCounts(e.work, k);
    }
  }

  /** The master gives up every session it has with the first n slaves. */
  function AbortAll(n: nat): seq<Action> {
    if n == 0 then [] else AbortAll(n - 1) + [AbortMaster(n - 1)]
  }

  lemma {:induction false} AbortAllRuns(s: State, n: nat)
    requires n <= |s.slaves|
    ensures CanRun(s, AbortAll(n), UntilCommit) && CanRun(s, AbortAll(n), Absent)
    ensures
      var e := Run(s, AbortAll(n));
      && |e.slaves| == |s.slaves| && e.work == s.work && e.flags == s.flags
      && (forall j :: 0 <= j < n ==> e.slaves[j] == s.slaves[j].(session := MIdle))
      && (forall j :: n <= j < |s.slaves| ==> e.slaves[j] == s.slaves[j])
  {
    if n > 0 {
      AbortAllRuns(s, n - 1);
      var m := Run(s, AbortAll(n - 1));
      UnrollLast(m, AbortMaster(n - 1));
      hide Run, CanRun;
      RunsAppend(s, AbortAll(n - 1), [AbortMaster(n - 1)]);
    }
  }

  /** However sessions were cut, when they are given up a refresh brings a registered slave in line again. */
  lemma CanRecover(s: State, i: nat) returns (run: seq<Action>)
    requires i < |s.slaves| && i in s.flags && !Clean(s, i)
    ensures CanRun(s, run, Absent) && forall lock :: CanRun(s, run, lock)
    ensures
      var e := Run(s, run);
      i < |e.slaves| && Clean(e, i) && e.work == s.work && e.slaves[i].work == Installed(Totals(s.work))
  {
    hide Installed, Totals, Run, CanRun;
    AbortAllRuns(s, |s.slaves|);
    var s1 := Run(s, AbortAll(|s.slaves|));
    UnrollLast(s1, AbortSlave(i));
    RunsAppend(s, AbortAll(|s.slaves|), [AbortSlave(i)]);
    var s2 := Do(AbortSlave(i), s1);
    Phase2Uncut(s2, i);
    RunsAppend(s, AbortAll(|s.slaves|) + [AbortSlave(i)], Phase2(i));
    run := AbortAll(|s.slaves|) + [AbortSlave(i)] + Phase2(i);
    AnyLock(s, run);
  }
}
