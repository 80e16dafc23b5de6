/**
 * When a slave that counts as clean has the totals of its master (source/IAmAMaster.cpp): always, unless a total moves
 * while a refresh is in flight; and which locks rule that out.
 */
module SyncCoherence {
  import opened CurveTables
  import opened SyncProtocol

  // ---------------------------------------------------------------- the step that does harm

  /** The rows of a refresh, or the answer to it, are under way. */
  predicate RefreshInFlight(v: Slave) {
    v.session.MAwaitOk2? && ((v.side.SListening? && v.inbox.Rows2?) || v.outbox.Ok2?)
  }

  /** The step changes a total of the master. */
  ghost predicate MovesTotals(a: Action, s: State)
    requires Enabled(a, s, Absent)
  {
    match a
    case ReturnToMaster(_, n) => n != 0
    case CommitMaster(i) => exists k :: Count(s.slaves[i].session.report, k) != 0
    case _ => false
  }

  /** The one thing the master's lock is needed for: a total moves while a refresh is in flight. */
  ghost predicate Harmful(a: Action, s: State)
    requires Enabled(a, s, Absent)
  {
    MovesTotals(a, s) && exists i :: 0 <= i < |s.slaves| && RefreshInFlight(s.slaves[i])
  }

  lemma TotalsMoveOnly(a: Action, s: State, k: Key)
    requires Enabled(a, s, Absent) && !MovesTotals(a, s)
    ensures Local(Do(a, s).work, k) == Local(s.work, k)
  {
    if a.ReturnToMaster? {
      AddWorkCounts(s.work, a.k, a.n, k);
    } else if a.CommitMaster? {
      MergedCounts(s.work, s.slaves[a.i].session.report, k);
    }
    hide AddWork, Merged;
  }

  lemma SameTotals(m: Table, m': Table, v: Slave)
    requires forall k :: Local(m', k) == Local(m, k)
    ensures Coherent(m, v.work) ==> Coherent(m', v.work)
    ensures v.inbox.Rows2? && RowsMatch(v.inbox.rows, m) ==> RowsMatch(v.inbox.rows, m')
  {
  }

  /** Of a slave that a step does not change only the flag can, and only to dirty. */
  lemma UntouchedStays(a: Action, s: State, j: nat)
    requires Enabled(a, s, Absent) && j < |s.slaves| && j != Touched(a)
    ensures |Do(a, s).slaves| == |s.slaves| && Do(a, s).slaves[j] == s.slaves[j]
    ensures Clean(Do(a, s), j) ==> Clean(s, j)
  {
    hide Pending, Merged, Totals, AddWork, Installed, PlusDropped, Plus;
  }

  /** Steps that leave the master's totals alone. */
  lemma TotalsStayInStep(a: Action, s: State, j: nat)
    requires Enabled(a, s, Absent) && j < |s.slaves| && SessionAt(s, j) && StepAt(s, j) && !MovesTotals(a, s)
    ensures |Do(a, s).slaves| == |s.slaves| && StepAt(Do(a, s), j)
  {
    var s' := Do(a, s);
    forall k
      ensures Local(s'.work, k) == Local(s.work, k)
    {
      TotalsMoveOnly(a, s, k);
    }
    SameTotals(s.work, s'.work, s.slaves[j]);
    if j == Touched(a) {
      TouchedStaysInStep(a, s);
    } else {
      UntouchedStays(a, s, j);
      hide Coherent, RowsMatch, Enabled, Do, MovesTotals;
    }
  }

  lemma TouchedStaysInStep(a: Action, s: State)
    requires Enabled(a, s, Absent) && Touched(a) >= 0 && !MovesTotals(a, s)
    requires SessionAt(s, Touched(a)) && StepAt(s, Touched(a))
    requires forall k :: Local(Do(a, s).work, k) == Local(s.work, k)
    ensures |Do(a, s).slaves| == |s.slaves| && StepAt(Do(a, s), Touched(a))
  {
    var j := Touched(a);
    SameTotals(s.work, Do(a, s).work, s.slaves[j]);
    hide Coherent, RowsMatch, Pending, Merged, Totals, AddWork, Installed, MovesTotals, AllDirty, PlusDropped;
    if a.ReturnToSlave? {
      if Coherent(s.work, s.slaves[j].work) {
        CoherentReturn(s.work, s.slaves[j].work, a.k, a.n);
      }
    } else if a.OpenRefresh? {
      TotalsMatch(s.work);
    } else if a.Refresh? {
      MatchingRowsInstalled(s.slaves[j].inbox.rows, s.work);
    }
  }

  /** Steps that move a total mark every slave; none is about to be cleared. */
  lemma TotalsMoveInStep(a: Action, s: State, j: nat)
    requires Enabled(a, s, Absent) && j < |s.slaves| && SessionAt(s, j) && MovesTotals(a, s)
    requires !RefreshInFlight(s.slaves[j])
    ensures |Do(a, s).slaves| == |s.slaves| && StepAt(Do(a, s), j)
  {
    hide Coherent, RowsMatch, Merged, AddWork;
  }

  lemma StepKeepsInStep(a: Action, s: State)
    requires Enabled(a, s, Absent) && Balanced(s) && AllInStep(s) && !Harmful(a, s)
    ensures AllInStep(Do(a, s))
  {
    assert forall i :: 0 <= i < |s.slaves| ==> SessionAt(s, i) && StepAt(s, i);
    var s' := Do(a, s);
    hide SessionAt, StepAt, Do, Enabled, MovesTotals, RefreshInFlight;
    SlavesStay(a, s);
    forall j | 0 <= j < |s'.slaves|
      ensures StepAt(s', j)
    {
      if MovesTotals(a, s) {
        TotalsMoveInStep(a, s, j);
      } else {
        TotalsStayInStep(a, s, j);
      }
    }
  }

  /** No step of the run moves a total while a refresh is in flight. */
  ghost predicate Harmless(s: State, run: seq<Action>)
    requires CanRun(s, run, Absent)
    decreases |run|
  {
    |run| == 0 || (!Harmful(run[0], s) && Harmless(Do(run[0], s), run[1..]))
  }

  lemma {:induction false} RunKeepsInStep(s: State, run: seq<Action>)
    requires Balanced(s) && AllInStep(s) && CanRun(s, run, Absent) && Harmless(s, run)
    ensures AllInStep(Run(s, run))
    decreases |run|
  {
    if |run| > 0 {
      hide Balanced, AllInStep, Harmful, Enabled, Do;
      StepKeepsBalance(run[0], s);
      StepKeepsInStep(run[0], s);
      RunKeepsInStep(Do(run[0], s), run[1..]);
    }
  }

  /** In every harmless run clean slaves are coherent, whatever the locks do. */
  lemma HarmlessRunsAreCoherent(s: State, run: seq<Action>)
    requires Start(s) && CanRun(s, run, Absent) && Harmless(s, run)
    ensures
      var e := Run(s, run);
      forall i :: 0 <= i < |e.slaves| && Clean(e, i) ==> Coherent(e.work, e.slaves[i].work)
  {
    StartHolds(s);
    RunKeepsInStep(s, run);
    var e := Run(s, run);
    forall i | 0 <= i < |e.slaves| && Clean(e, i)
      ensures Coherent(e.work, e.slaves[i].work)
    {
      assert StepAt(e, i);
    }
  }

  /** Every harmful step can end badly: two more steps at most, and the slave counts as clean without being coherent. */
  lemma HarmfulStepsBreakCoherence(a: Action, s: State, i: nat) returns (rest: seq<Action>)
    requires Enabled(a, s, Absent) && Balanced(s) && AllInStep(s)
    requires i < |s.slaves| && RefreshInFlight(s.slaves[i]) && MovesTotals(a, s)
    ensures CanRun(s, [a] + rest, Absent)
    ensures
      var e := Run(s, [a] + rest);
      i < |e.slaves| && Clean(e, i) && !Coherent(e.work, e.slaves[i].work)
  {
    var s1 := Do(a, s);
    assert SessionAt(s, i) && StepAt(s, i);
    var k := TotalThatMoves(a, s);
    assert s1.slaves[i] == s.slaves[i] && i in s1.flags;
    hide AddWork, Merged, Totals, Pending, Do, Run, CanRun;
    rest := if s.slaves[i].outbox.Ok2? then [Clear(i)] else [Refresh(i), Clear(i)];
    if s.slaves[i].outbox.Ok2? {
      ClearsIncoherent(s1, i, k, Absent);
    } else {
      RefreshesIncoherent(s1, i, k, Absent);
    }
    assert ([a] + rest)[1..] == rest;
    UnrollUnlocked(s, [a] + rest);
  }

  lemma ClearsIncoherent(s: State, i: nat, k: Key, lock: Lock)
    requires i < |s.slaves| && s.slaves[i].session.MAwaitOk2? && s.slaves[i].outbox.Ok2? && i in s.flags
    requires Local(s.slaves[i].work, k) != Local(s.work, k) + Since(s.slaves[i].work, k)
    ensures CanRun(s, [Clear(i)], lock) && CanRun(s, [Clear(i)], Absent)
    ensures
      var e := Run(s, [Clear(i)]);
      i < |e.slaves| && Clean(e, i) && !Coherent(e.work, e.slaves[i].work)
  {
    UnrollUnder(s, [Clear(i)], lock);
  }

  lemma RefreshesIncoherent(s: State, i: nat, k: Key, lock: Lock)
    requires i < |s.slaves| && s.slaves[i].session.MAwaitOk2? && i in s.flags
    requires s.slaves[i].side.SListening? && s.slaves[i].inbox.Rows2?
    requires Count(s.slaves[i].inbox.rows, k) != Local(s.work, k)
    ensures CanRun(s, [Refresh(i), Clear(i)], lock) && CanRun(s, [Refresh(i), Clear(i)], Absent)
    ensures
      var e := Run(s, [Refresh(i), Clear(i)]);
      i < |e.slaves| && Clean(e, i) && !Coherent(e.work, e.slaves[i].work)
  {
    InstalledLocal(s.slaves[i].inbox.rows, k);
    hide Installed, PlusDropped, Run, CanRun, Coherent;
    var run := [Refresh(i), Clear(i)];
    assert run[1..] == [Clear(i)];
    ClearsIncoherent(Do(Refresh(i), s), i, k, lock);
    UnrollUnder(s, run, lock);
  }

  lemma InstalledLocal(rows: Counts, k: Key)
    ensures Local(Installed(rows), k) == Count(rows, k) && Since(Installed(rows), k) == 0
  {
  }

  lemma TotalThatMoves(a: Action, s: State) returns (k: Key)
    requires Enabled(a, s, Absent) && MovesTotals(a, s)
    ensures Local(Do(a, s).work, k) != Local(s.work, k)
  {
    if a.ReturnToMaster? {
      k := a.k;
      AddWorkCounts(s.work, a.k, a.n, k);
    } else {
      var report := s.slaves[a.i].session.report;
      k :| Count(report, k) != 0;
      MergedCounts(s.work, report, k);
    }
  }

  // ---------------------------------------------------------------- the lock that is held until the commit

  lemma LockedStepHarmless(a: Action, s: State)
    requires Enabled(a, s, UntilCommit) && Locked(s)
    ensures !Harmful(a, s)
  {
    hide Count, ReportStands;
  }

  lemma LockedStepKeepsReport(a: Action, s: State, j: nat)
    requires Enabled(a, s, UntilCommit) && j < |s.slaves| && ReportStands(s.slaves[j])
    ensures |Do(a, s).slaves| == |s.slaves| && ReportStands(Do(a, s).slaves[j])
  {
    hide Pending, Merged, Totals, AddWork, Installed;
  }

  lemma LockedStepKeepsOneSession(a: Action, s: State, i: nat, j: nat)
    requires Enabled(a, s, UntilCommit) && i < j < |s.slaves|
    requires s.slaves[i].session.MIdle? || s.slaves[j].session.MIdle?
    ensures
      && |Do(a, s).slaves| == |s.slaves|
      && (Do(a, s).slaves[i].session.MIdle? || Do(a, s).slaves[j].session.MIdle?)
  {
  }

  /** With locks held until the commit no step is harmful, and what they add stays true. */
  lemma LockedStep(a: Action, s: State)
    requires Enabled(a, s, UntilCommit) && Locked(s)
    ensures !Harmful(a, s) && Locked(Do(a, s))
  {
    LockedStepHarmless(a, s);
    SlavesStay(a, s);
    hide Do, Enabled, ReportStands, Harmful;
    forall j | 0 <= j < |s.slaves|
      ensures ReportStands(Do(a, s).slaves[j])
    {
      LockedStepKeepsReport(a, s, j);
    }
    forall i, j | 0 <= i < j < |s.slaves|
      ensures Do(a, s).slaves[i].session.MIdle? || Do(a, s).slaves[j].session.MIdle?
    {
      LockedStepKeepsOneSession(a, s, i, j);
    }
  }

  /** Every step of a run with locks held until the commit keeps the whole invariant. */
  lemma StepKeepsInvariant(a: Action, s: State)
    requires Enabled(a, s, UntilCommit) && Invariant(s)
    ensures Invariant(Do(a, s))
  {
    hide Balanced, AllInStep, Locked, Harmful, Do;
    StepKeepsBalance(a, s);
    LockedStep(a, s);
    StepKeepsInStep(a, s);
  }

  lemma {:induction false} LockedRunIsHarmless(s: State, run: seq<Action>)
    requires Locked(s) && CanRun(s, run, UntilCommit)
    ensures CanRun(s, run, Absent) && Harmless(s, run)
    decreases |run|
  {
    if |run| > 0 {
      hide Locked, Harmful, Do;
      LockedStep(run[0], s);
      LockedRunIsHarmless(Do(run[0], s), run[1..]);
    }
  }

  /**
   * In every state that locks held until the commit let a run reach: clean slaves are coherent, and the curves add up
   * row by row.
   */
  lemma CoherenceAndConservation(s: State, run: seq<Action>)
    requires Start(s) && CanRun(s, run, UntilCommit)
    ensures CanRun(s, run, Absent)
    ensures
      var e := Run(s, run);
      && (forall i :: 0 <= i < |e.slaves| && Clean(e, i) ==> Coherent(e.work, e.slaves[i].work))
      && (forall i :: 0 <= i < |e.slaves| && !e.slaves[i].dirty ==> NothingPending(e.slaves[i].work))
      && (forall k :: Conserved(e, k))
  {
    StartHolds(s);
    LockedRunIsHarmless(s, run);
    Conservation(s, run);
    HarmlessRunsAreCoherent(s, run);
  }

  // ---------------------------------------------------------------- the lock that is released before the commit

  /** No master commits a report, its lock released, while the refresh of another slave is in flight. */
  ghost predicate CommitsMeetNoRefresh(s: State, run: seq<Action>)
    requires CanRun(s, run, Absent)
    decreases |run|
  {
    |run| == 0
    || ((run[0].CommitMaster? ==> !Harmful(run[0], s)) && CommitsMeetNoRefresh(Do(run[0], s), run[1..]))
  }

  /** Such commits are the one thing that this lock does not rule out. */
  lemma {:induction false} ReleasedRunIsHarmless(s: State, run: seq<Action>)
    requires CanRun(s, run, UntilRelease)
    ensures CanRun(s, run, Absent) && (CommitsMeetNoRefresh(s, run) <==> Harmless(s, run))
    decreases |run|
  {
    LaxerRun(s, run);
    if |run| > 0 {
      ReleasedLockLeavesCommits(run[0], s);
      hide Do, Harmful, Enabled;
      ReleasedRunIsHarmless(Do(run[0], s), run[1..]);
    }
  }

  lemma ReleasedLockLeavesCommits(a: Action, s: State)
    requires Enabled(a, s, UntilRelease)
    ensures Enabled(a, s, Absent)
    ensures Harmful(a, s) ==> a.CommitMaster?
  {
    LaxerLock(a, s);
  }
}
