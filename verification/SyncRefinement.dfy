/**
 * The two phases as the servers carry them out on their databases, against the state machine of the synchronisation:
 * an exchange, cut before its last answer or not, leaves in both databases what the corresponding run leaves in the
 * state.
 */
module SyncRefinement {
  import opened CurveTables
  import opened WorkDatabase
  import opened SyncProtocol
  import opened SyncSessions

  /** Both databases hold what the state says of the master and of slave i, and no transaction is open. */
  ghost predicate Represents(s: State, i: nat, id: string, slave: Database, master: Database)
    reads slave, master
  {
    && i < |s.slaves| && slave.current == slave.committed && master.current == master.committed
    && master.committed.work == s.work
    && slave.committed.work == s.slaves[i].work && slave.committed.sendToMaster == s.slaves[i].dirty
    && (id in master.committed.sendToSlave <==> i in s.flags)
    && (i in s.flags ==> master.committed.sendToSlave[id] == s.flags[i])
  }

  /** Phase 1, with the last answer of the master or without. */
  method Report(ghost s: State, i: nat, id: string, slave: Database, master: Database, answered: bool)
    requires slave != master && Represents(s, i, id, slave, master)
    requires MasterUnlocked(s) && s.slaves[i].side.SIdle? && s.slaves[i].dirty
    modifies slave, master
    ensures
      var run := if answered then Phase1(i) else CutPhase1(i);
      && CanRun(s, run, UntilCommit) && CanRun(s, run, Absent)
      && Represents(Run(s, run), i, id, slave, master)
  {
    hide Merged, Pending, Installed, Totals, TotalWork, Run, CanRun;
    Phase1Uncut(s, i);
    Phase1Cut(s, i);
    ReportRound(slave, master, id, answered);
  }

  /** Phase 2, with the last answer of the slave or without: both databases are coherent. */
  method Refresh(ghost s: State, i: nat, id: string, slave: Database, master: Database, answered: bool)
    requires slave != master && Represents(s, i, id, slave, master)
    requires MasterUnlocked(s) && s.slaves[i].side.SIdle? && i in s.flags && s.flags[i]
    modifies slave, master
    ensures
      var run := if answered then Phase2(i) else CutPhase2(i);
      && CanRun(s, run, UntilCommit) && CanRun(s, run, Absent)
      && Represents(Run(s, run), i, id, slave, master)
    ensures Coherent(master.committed.work, slave.committed.work)
  {
    hide Installed, Totals, TotalWork, Run, CanRun, Coherent;
    Phase2Uncut(s, i);
    Phase2Cut(s, i);
    RefreshRound(slave, master, id, answered);
    CoherentInstalled(s.work);
  }
}
