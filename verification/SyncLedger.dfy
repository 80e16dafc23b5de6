/**
 * Which steps of the synchronisation overwrite curves or count them twice, and what that makes of a row over a whole
 * run (source/IAmASlave.cpp).
 */
module SyncLedger {
  import opened CurveTables
  import opened SyncProtocol

  /** The step puts rows in place of rows whose unreported curves the master does not have. */
  predicate Overwrites(a: Action, s: State, k: Key)
    requires Enabled(a, s, Absent)
  {
    || (a.Refresh? && Since(s.slaves[a.i].work, k) != 0)
    || (a.CommitSlave? && Since(s.slaves[a.i].work, k) != Count(s.slaves[a.i].side.report, k))
  }

  /** A session ends between the commit of the master and that of the slave, with curves of this row reported in it. */
  predicate Cuts(a: Action, s: State, k: Key)
    requires Enabled(a, s, Absent)
  {
    || (a.CommitMaster? && !s.slaves[a.i].side.SReplaced? && Count(s.slaves[a.i].session.report, k) != 0)
    || (a.AbortSlave? && s.slaves[a.i].side.SReplaced? && s.slaves[a.i].side.counted
        && Count(s.slaves[a.i].side.report, k) != 0)
  }

  lemma LedgerMoves(a: Action, s: State, k: Key)
    requires Enabled(a, s, Absent)
    ensures Do(a, s).ledger.start == s.ledger.start
    ensures Do(a, s).ledger.lost(k) != s.ledger.lost(k) <==> Overwrites(a, s, k)
    ensures Do(a, s).ledger.resent(k) != s.ledger.resent(k) <==> Cuts(a, s, k)
  {
    hide Pending, Merged, Totals, Installed, AddWork;
  }

  /**
   * With locks held until the commit, curves are overwritten exactly when phase 2 meets unreported rows, or phase 1
   * rows below zero.
   */
  lemma LostExactly(a: Action, s: State, k: Key)
    requires Enabled(a, s, UntilCommit) && Invariant(s)
    ensures Do(a, s).ledger.lost(k) != s.ledger.lost(k) <==>
      || (a.Refresh? && Since(s.slaves[a.i].work, k) != 0)
      || (a.CommitSlave? && Since(s.slaves[a.i].work, k) < 0)
  {
    LedgerMoves(a, s, k);
    if a.CommitSlave? {
      assert ReportStands(s.slaves[a.i]);
      PendingCounts(s.slaves[a.i].work, k);
    }
    hide Pending, Balanced, AllInStep, Locked, Do;
  }

  /** Curves of a row that the master has, that slaves owe, or that were overwritten. */
  function Accounted(s: State, k: Key): int {
    Local(s.work, k) + AllOwed(s.slaves, k) + s.ledger.lost(k)
  }

  /**
   * Curves come from nowhere, that is the accounts move by something else than what a client returned, exactly when a
   * session ends between the commit of the master and that of the slave.
   */
  lemma ResentExactly(a: Action, s: State, k: Key)
    requires Enabled(a, s, Absent) && Balanced(s)
    ensures Do(a, s).ledger.resent(k) != s.ledger.resent(k) <==> Cuts(a, s, k)
    ensures Accounted(Do(a, s), k) - Accounted(s, k) != Do(a, s).ledger.returned(k) - s.ledger.returned(k)
       <==> Cuts(a, s, k)
  {
    LedgerMoves(a, s, k);
    StepKeepsBalance(a, s);
    assert Conserved(s, k) && Conserved(Do(a, s), k);
    hide Cuts, Do, Enabled;
  }

  ghost predicate NeverOverwrites(s: State, run: seq<Action>, k: Key)
    requires CanRun(s, run, Absent)
    decreases |run|
  {
    |run| == 0 || (!Overwrites(run[0], s, k) && NeverOverwrites(Do(run[0], s), run[1..], k))
  }

  ghost predicate NeverCuts(s: State, run: seq<Action>, k: Key)
    requires CanRun(s, run, Absent)
    decreases |run|
  {
    |run| == 0 || (!Cuts(run[0], s, k) && NeverCuts(Do(run[0], s), run[1..], k))
  }

  lemma {:induction false} LedgerStays(s: State, run: seq<Action>, k: Key)
    requires CanRun(s, run, Absent)
    ensures Run(s, run).ledger.start == s.ledger.start
    ensures NeverOverwrites(s, run, k) ==> Run(s, run).ledger.lost(k) == s.ledger.lost(k)
    ensures NeverCuts(s, run, k) ==> Run(s, run).ledger.resent(k) == s.ledger.resent(k)
    decreases |run|
  {
    if |run| > 0 {
      hide Enabled, Do, Overwrites, Cuts;
      LedgerMoves(run[0], s, k);
      LedgerStays(Do(run[0], s), run[1..], k);
    }
  }

  /**
   * The curves of a row over a whole run. What the master has and what the slaves owe is what there was and what
   * clients returned: and what was resent, when nothing was overwritten; less what was overwritten, when no session was
   * cut; and exactly that when neither happened.
   */
  lemma RowAddsUp(s: State, run: seq<Action>, k: Key)
    requires Start(s) && CanRun(s, run, Absent)
    ensures
      var e := Run(s, run);
      var have, due := Local(e.work, k) + AllOwed(e.slaves, k), s.ledger.start(k) + e.ledger.returned(k);
      && (NeverOverwrites(s, run, k) ==> have == due + e.ledger.resent(k))
      && (NeverCuts(s, run, k) ==> have == due - e.ledger.lost(k))
      && (NeverOverwrites(s, run, k) && NeverCuts(s, run, k) ==> have == due)
  {
    Conservation(s, run);
    LedgerStays(s, run, k);
    assert Conserved(Run(s, run), k);
  }
}
