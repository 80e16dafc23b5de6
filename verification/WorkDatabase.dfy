/**
 * One composite in the database of a server (source/MasterComposite.cpp) and the loops that synchronise it
 * (source/IAmASlave.cpp, source/IAmAMaster.cpp): what is committed, what the open transaction sees, and the messages.
 */
module WorkDatabase {
  import opened CurveTables

  /** The rows, the MasterCompositeSlaveSync flags by slave, and the columns SendUpdatesToMaster and TotalWorkDone. */
  datatype Contents = Contents(work: Table, sendToSlave: map<string, bool>, sendToMaster: bool, total: int)

  /** Every slave that has a row in MasterCompositeSlaveSync is to be sent this composite. */
  function AllFlagged(flags: map<string, bool>): map<string, bool> {
    map s | s in flags :: true
  }

  class Database {
    var committed: Contents
    var current: Contents

    constructor (start: Contents)
      ensures committed == current == start
    {
      committed, current := start, start;
    }

    method Commit()
      modifies this
      ensures committed == current == old(current)
    {
      committed := current;
    }

    method Rollback()
      modifies this
      ensures committed == current == old(committed)
    {
      current := committed;
    }
  }

  class MasterComposite {
    const db: Database
    var sendUpdatesToMaster: bool

    constructor (database: Database)
      ensures db == database && sendUpdatesToMaster == database.current.sendToMaster
    {
      db, sendUpdatesToMaster := database, database.current.sendToMaster;
    }

    /** The row is updated when it is there and inserted when it is not. */
    method AddWorkDone(k: Key, n: int)
      modifies db
      ensures db.committed == old(db.committed)
      ensures db.current == old(db.current).(work := AddWork(old(db.current.work), k, n))
    {
      var t := db.current.work;
      if k in t {
        db.current := db.current.(work := t[k := Row(t[k].local + n, t[k].since + n)]);
      } else {
        db.current := db.current.(work := t[k := Row(n, n)]);
      }
    }

    /** The insert fails when the row is already there. */
    method InsertWorkDoneFromMaster(k: Key, n: int) returns (success: bool)
      modifies db
      ensures db.committed == old(db.committed) && success == (k !in old(db.current.work))
      ensures success ==> db.current == old(db.current).(work := old(db.current.work)[k := Row(n, 0)])
      ensures !success ==> db.current == old(db.current)
    {
      success := k !in db.current.work;
      if success {
        db.current := db.current.(work := db.current.work[k := Row(n, 0)]);
      }
    }

    /** The work rows that DeleteMasterCompositeDetails deletes. */
    method DeleteWorkDone()
      modifies db
      ensures db.committed == old(db.committed) && db.current == old(db.current).(work := map[])
    {
      db.current := db.current.(work := map[]);
    }

    method SendUpdatesToAllSlaves()
      modifies db
      ensures db.committed == old(db.committed)
      ensures db.current == old(db.current).(sendToSlave := AllFlagged(old(db.current.sendToSlave)))
    {
      db.current := db.current.(sendToSlave := AllFlagged(db.current.sendToSlave));
    }

    /** The flag of one slave is cleared, if that slave has one. */
    method SentUpdateToSlave(slave: string)
      modifies db
      ensures db.committed == old(db.committed)
      ensures
        var flags := old(db.current.sendToSlave);
        db.current == old(db.current).(sendToSlave := if slave in flags then flags[slave := false] else flags)
    {
      if slave in db.current.sendToSlave {
        db.current := db.current.(sendToSlave := db.current.sendToSlave[slave := false]);
      }
    }

    method SetSendUpdatesToMaster(value: bool)
      modifies this
      ensures sendUpdatesToMaster == value
    {
      sendUpdatesToMaster := value;
    }

    /** The sum of curves times bound over the ECM rows, in whatever order they come. */
    method SumEcmRows() returns (sum: int)
      ensures sum == TotalWork(db.current.work, ECM)
    {
      var t := db.current.work;
      var left := t.Keys;
      sum := 0;
      while left != {}
        invariant left <= t.Keys && sum + SumOver(t, left, ECM) == TotalWork(t, ECM)
        decreases left
      {
        var k :| k in left;
        SumSplits(t, left, k, ECM);
        if k.factorMethod == ECM {
          sum := sum + t[k].local * k.b1;
        }
        left := left - {k};
      }
    }

    /** Computes the total over the ECM rows and writes the columns of the composite. */
    method FinalizeChanges()
      modifies db
      ensures db.committed == old(db.committed)
      ensures db.current
           == old(db.current).(sendToMaster := sendUpdatesToMaster, total := TotalWork(old(db.current.work), ECM))
    {
      var sum := SumEcmRows();
      db.current := db.current.(sendToMaster := sendUpdatesToMaster, total := sum);
    }

    /** EndMasterCompositeSync: the updates of a report are finalized and committed, or everything is rolled back. */
    method EndSync(success: bool)
      modifies this, db
      ensures db.committed == db.current
      ensures !success ==> db.committed == old(db.committed)
      ensures success ==>
        db.committed
        == old(db.current).(sendToSlave := AllFlagged(old(db.current.sendToSlave)), sendToMaster := true,
                            total := TotalWork(old(db.current.work), ECM))
    {
      if success {
        SetSendUpdatesToMaster(true);
        SendUpdatesToAllSlaves();
        FinalizeChanges();
        db.Commit();
      } else {
        db.Rollback();
      }
    }
  }

  // ---------------------------------------------------------------- sending rows

  lemma CarriedOneMore(msgs: seq<SyncMessage>, k: Key, n: int)
    requires Distinct(msgs) && k !in Carried(msgs)
    ensures Distinct(msgs + [Work(k, n)]) && Carried(msgs + [Work(k, n)]) == Carried(msgs)[k := n]
  {
    CarriedKeys(msgs);
    assert (msgs + [Work(k, n)])[..|msgs|] == msgs;
  }

  /** The cursor over the rows of a table, in any order. */
  method SendRows(rows: Counts) returns (msgs: seq<SyncMessage>)
    ensures Distinct(msgs) && Carried(msgs) == rows
  {
    msgs := [];
    var left := rows;
    while left.Keys != {}
      invariant Distinct(msgs) && left.Keys <= rows.Keys
      invariant forall k :: k in Carried(msgs) <==> k in rows && k !in left
      invariant forall k :: k in left ==> left[k] == rows[k]
      invariant forall k :: k in Carried(msgs) ==> Carried(msgs)[k] == rows[k]
      decreases left.Keys
    {
      var k :| k in left.Keys;
      CarriedOneMore(msgs, k, left[k]);
      msgs := msgs + [Work(k, left[k])];
      left := left - {k};
    }
  }

  /** What a slave owes its master is sent and set to zero, row by row, in the slave's open transaction. */
  method SendWorkToMaster(db: Database) returns (msgs: seq<SyncMessage>)
    modifies db
    ensures Distinct(msgs) && Carried(msgs) == Pending(old(db.current.work))
    ensures db.committed == old(db.committed)
    ensures db.current == old(db.current).(work := Reported(old(db.current.work)))
  {
    ghost var before := db.current.work;
    var owed := Pending(db.current.work);
    msgs := [];
    SendingStarts(before);
    while owed.Keys != {}
      invariant db.committed == old(db.committed) && db.current == old(db.current).(work := db.current.work)
      invariant Sending(before, msgs, owed, db.current.work)
      decreases owed.Keys
    {
      hide Distinct, Carried, Pending;
      var k :| k in owed.Keys;
      SendingContinues(before, msgs, owed, db.current.work, k);
      hide Sending;
      msgs := msgs + [Work(k, owed[k])];
      db.current := db.current.(work := db.current.work[k := Row(Local(db.current.work, k), 0)]);
      owed := owed - {k};
    }
    SendingEnds(before, msgs, owed, db.current.work);
  }

  /** Some rows of before have been sent and zeroed, those in owed have not. */
  ghost predicate Sending(before: Table, msgs: seq<SyncMessage>, owed: Counts, now: Table) {
    && Distinct(msgs) && owed.Keys <= Pending(before).Keys && now.Keys == before.Keys
    && (forall k :: k in Carried(msgs) <==> k in Pending(before) && k !in owed)
    && (forall k :: k in owed ==> owed[k] == before[k].since)
    && (forall k :: k in Carried(msgs) ==> Carried(msgs)[k] == before[k].since)
    && (forall k :: k in before ==> now[k] == if k in Carried(msgs) then Row(before[k].local, 0) else before[k])
  }

  lemma SendingStarts(before: Table)
    ensures Sending(before, [], Pending(before), before)
  {
  }

  lemma SendingContinues(before: Table, msgs: seq<SyncMessage>, owed: Counts, now: Table, k: Key)
    requires Sending(before, msgs, owed, now) && k in owed
    ensures Sending(before, msgs + [Work(k, owed[k])], owed - {k}, now[k := Row(Local(now, k), 0)])
  {
    CarriedOneMore(msgs, k, owed[k]);
    hide Distinct, Carried;
  }

  lemma SendingEnds(before: Table, msgs: seq<SyncMessage>, owed: Counts, now: Table)
    requires Sending(before, msgs, owed, now) && owed.Keys == {}
    ensures Distinct(msgs) && Carried(msgs) == Pending(before) && now == Reported(before)
  {
  }

  /** All rows go to the slave. */
  method SendWorkToSlave(db: Database) returns (msgs: seq<SyncMessage>)
    ensures Distinct(msgs) && Carried(msgs) == Totals(db.current.work)
  {
    msgs := SendRows(Totals(db.current.work));
  }

  // ---------------------------------------------------------------- receiving rows

  /** Every message is understood up to the one that ends the composite. */
  predicate Complete(msgs: seq<SyncMessage>, n: int) {
    && 0 <= n < |msgs| && msgs[n] == EndOfComposite
    && forall i :: 0 <= i < n ==> Understood(msgs[i])
  }

  /**
   * The loop of the master over what a slave sends; when the messages run out the connection is lost. After a message
   * that fails or that it does not understand it reads on to the end of the composite and applies nothing more.
   */
  method ReceiveWorkFromSlave(mc: MasterComposite, msgs: seq<SyncMessage>) returns (success: bool, fatal: bool)
    modifies mc.db
    ensures mc.db.committed == old(mc.db.committed)
    ensures fatal == (EndOfComposite !in msgs)
    ensures success <==> exists n :: Complete(msgs, n)
    ensures forall n :: Complete(msgs, n) ==>
      mc.db.current == old(mc.db.current).(work := Applied(old(mc.db.current.work), Works(msgs[..n])))
  {
    success, fatal := true, false;
    ghost var start := mc.db.current;
    var i := 0;
    while true
      invariant 0 <= i <= |msgs| && !fatal && mc.db.committed == old(mc.db.committed)
      invariant forall j :: 0 <= j < i ==> msgs[j] != EndOfComposite
      invariant success <==> forall j :: 0 <= j < i ==> Understood(msgs[j])
      invariant success ==> mc.db.current == start.(work := Applied(start.work, Works(msgs[..i])))
      decreases |msgs| - i
    {
      if i == |msgs| {
        return false, true;
      }
      var message := msgs[i];
      if message == EndOfComposite {
        assert success ==> Complete(msgs, i);
        assert forall n :: Complete(msgs, n) ==> n == i && success;
        return;
      }
      WorksOneMore(msgs, i);
      if success {
        if message.Work? {
          AppliedOneMore(start.work, Works(msgs[..i]), message);
          mc.AddWorkDone(message.key, message.curves);
        } else {
          success := message.Detail? && message.handled;
        }
      }
      i := i + 1;
    }
  }

  lemma AppliedOneMore(t: Table, works: seq<SyncMessage>, m: SyncMessage)
    requires m.Work? && forall i :: 0 <= i < |works| ==> works[i].Work?
    ensures Applied(t, works + [m]) == AddWork(Applied(t, works), m.key, m.curves)
  {
    assert (works + [m])[..|works|] == works;
  }

  /** The loop of the slave over the rows that the master sends, after its own rows have been deleted. */
  method InsertRows(mc: MasterComposite, msgs: seq<SyncMessage>) returns (success: bool, fatal: bool)
    requires mc.db.current.work == map[]
    modifies mc.db
    ensures mc.db.committed == old(mc.db.committed)
    ensures fatal == (EndOfComposite !in msgs)
    ensures success <==> exists n :: Complete(msgs, n) && Distinct(Works(msgs[..n]))
    ensures forall n :: Complete(msgs, n) && Distinct(Works(msgs[..n])) ==>
      mc.db.current == old(mc.db.current).(work := Installed(Carried(Works(msgs[..n]))))
  {
    success, fatal := true, false;
    ghost var start := mc.db.current;
    var i := 0;
    InsertingStarts(start, msgs);
    hide Inserting, Complete, Distinct;
    while true
      invariant 0 <= i <= |msgs| && !fatal && mc.db.committed == old(mc.db.committed)
      invariant Inserting(start, msgs, i, success, mc.db.current)
      decreases |msgs| - i
    {
      if i == |msgs| {
        InsertingCut(start, msgs, success, mc.db.current);
        return false, true;
      }
      var message := msgs[i];
      if message == EndOfComposite {
        InsertingEnds(start, msgs, i, success, mc.db.current);
        return;
      }
      InsertingContinues(start, msgs, i, success, mc.db.current);
      if success {
        if message.Work? {
          success := mc.InsertWorkDoneFromMaster(message.key, message.curves);
        } else {
          success := message.Detail? && message.handled;
        }
      }
      i := i + 1;
    }
  }

  /** After i messages: the rows are in as long as everything was understood and no key came twice. */
  ghost predicate Inserting(start: Contents, msgs: seq<SyncMessage>, i: int, success: bool, now: Contents)
    requires 0 <= i <= |msgs|
  {
    && (forall j :: 0 <= j < i ==> msgs[j] != EndOfComposite)
    && (success <==> Distinct(Works(msgs[..i])) && forall j :: 0 <= j < i ==> Understood(msgs[j]))
    && (success ==> now == start.(work := Installed(Carried(Works(msgs[..i])))))
  }

  lemma InsertingStarts(start: Contents, msgs: seq<SyncMessage>)
    requires start.work == map[]
    ensures Inserting(start, msgs, 0, true, start)
  {
    assert Installed(Carried(Works(msgs[..0]))) == map[];
  }

  lemma InsertingContinues(start: Contents, msgs: seq<SyncMessage>, i: int, success: bool, now: Contents)
    requires 0 <= i < |msgs| && Inserting(start, msgs, i, success, now) && msgs[i] != EndOfComposite
    ensures !success || !Understood(msgs[i]) ==> Inserting(start, msgs, i + 1, false, now)
    ensures success && msgs[i].Detail? && msgs[i].handled ==> Inserting(start, msgs, i + 1, true, now)
    ensures success && msgs[i].Work? && msgs[i].key in now.work ==> Inserting(start, msgs, i + 1, false, now)
    ensures success && msgs[i].Work? && msgs[i].key !in now.work ==>
      Inserting(start, msgs, i + 1, true, now.(work := now.work[msgs[i].key := Row(msgs[i].curves, 0)]))
  {
    var works := Works(msgs[..i]);
    WorksOneMore(msgs, i);
    if msgs[i].Work? {
      OneMoreWork(works, msgs[i]);
      if success {
        CarriedKeys(works);
        hide Carried;
        assert Installed(Carried(works)[msgs[i].key := msgs[i].curves])
            == Installed(Carried(works))[msgs[i].key := Row(msgs[i].curves, 0)];
      }
    }
    hide Distinct, Carried, Works, Installed;
  }

  lemma InsertingEnds(start: Contents, msgs: seq<SyncMessage>, i: int, success: bool, now: Contents)
    requires 0 <= i < |msgs| && Inserting(start, msgs, i, success, now) && msgs[i] == EndOfComposite
    ensures success <==> exists n :: Complete(msgs, n) && Distinct(Works(msgs[..n]))
    ensures forall n :: Complete(msgs, n) && Distinct(Works(msgs[..n])) ==>
      now == start.(work := Installed(Carried(Works(msgs[..n]))))
  {
    hide Carried, Installed, Distinct, Works;
    assert success ==> Complete(msgs, i);
    assert forall n :: Complete(msgs, n) ==> n == i;
  }

  lemma InsertingCut(start: Contents, msgs: seq<SyncMessage>, success: bool, now: Contents)
    requires Inserting(start, msgs, |msgs|, success, now)
    ensures EndOfComposite !in msgs && forall n :: !Complete(msgs, n)
  {
  }

  /** The slave deletes its rows and inserts what the master sends. */
  method ReceiveWorkFromMaster(mc: MasterComposite, msgs: seq<SyncMessage>) returns (success: bool, fatal: bool)
    modifies mc.db
    ensures mc.db.committed == old(mc.db.committed)
    ensures fatal == (EndOfComposite !in msgs)
    ensures success <==> exists n :: Complete(msgs, n) && Distinct(Works(msgs[..n]))
    ensures forall n :: Complete(msgs, n) && Distinct(Works(msgs[..n])) ==>
      mc.db.current
      == old(mc.db.current).(work := Installed(Carried(Works(msgs[..n]))),
                             sendToSlave := AllFlagged(old(mc.db.current.sendToSlave)),
                             sendToMaster := mc.sendUpdatesToMaster,
                             total := TotalWork(Installed(Carried(Works(msgs[..n]))), ECM))
  {
    hide Complete, Distinct, Installed, Carried, TotalWork, AllFlagged, Works;
    mc.DeleteWorkDone();
    success, fatal := InsertRows(mc, msgs);
    if success {
      mc.SendUpdatesToAllSlaves();
      mc.FinalizeChanges();
    }
  }

  lemma OneMoreWork(works: seq<SyncMessage>, m: SyncMessage)
    requires m.Work? && forall i :: 0 <= i < |works| ==> works[i].Work?
    ensures Distinct(works + [m]) <==> Distinct(works) && forall j :: 0 <= j < |works| ==> works[j].key != m.key
    ensures Distinct(works + [m]) ==> Carried(works + [m]) == Carried(works)[m.key := m.curves]
  {
    var long := works + [m];
    assert long[..|works|] == works && long[|works|] == m;
    assert forall j :: 0 <= j < |works| ==> long[j] == works[j];
  }

  // ---------------------------------------------------------------- the two phases, cut before the last answer or not

  lemma WholeStream(msgs: seq<SyncMessage>)
    requires Distinct(msgs)
    ensures Complete(msgs + [EndOfComposite], |msgs|) && Works((msgs + [EndOfComposite])[..|msgs|]) == msgs
  {
    assert (msgs + [EndOfComposite])[..|msgs|] == msgs;
    OnlyWorks(msgs);
  }

  lemma ClearedAndFlagged(flags: map<string, bool>, slave: string)
    ensures AllFlagged(if slave in flags then flags[slave := false] else flags) == AllFlagged(flags)
  {
  }

  /**
   * Phase 1: the slave reports, the master merges and answers with all its rows, the master commits, then the slave; or
   * the slave rolls back when the last answer of the master does not come.
   */
  method ReportRound(slave: Database, master: Database, slaveId: string, answered: bool)
    requires slave != master && slave.current == slave.committed && master.current == master.committed
    modifies slave, master
    ensures master.current == master.committed && slave.current == slave.committed
    ensures master.committed.work == Merged(old(master.committed.work), Pending(old(slave.committed.work)))
    ensures master.committed.sendToSlave == AllFlagged(old(master.committed.sendToSlave))
    ensures master.committed.sendToMaster && master.committed.total == TotalWork(master.committed.work, ECM)
    ensures answered ==>
      && slave.committed.work == Installed(Totals(master.committed.work)) && !slave.committed.sendToMaster
      && slave.committed.total == TotalWork(slave.committed.work, ECM)
    ensures !answered ==> slave.committed == old(slave.committed)
  {
    hide Pending, Merged, Totals, Installed, Carried, Distinct, TotalWork, Complete, Applied, AllFlagged, Works;
    ClearedAndFlagged(master.committed.sendToSlave, slaveId);
    var onSlave := new MasterComposite(slave);
    var onMaster := new MasterComposite(master);
    var report := SendWorkToMaster(slave);
    WholeStream(report);
    AppliedIsMerged(master.committed.work, report);
    var ok, fatal := ReceiveWorkFromSlave(onMaster, report + [EndOfComposite]);
    var rows := SendWorkToSlave(master);
    WholeStream(rows);
    ok, fatal := ReceiveWorkFromMaster(onSlave, rows + [EndOfComposite]);
    onMaster.SentUpdateToSlave(slaveId);
    onMaster.EndSync(ok);
    if answered {
      onSlave.SetSendUpdatesToMaster(false);
      onSlave.FinalizeChanges();
      slave.Commit();
    } else {
      slave.Rollback();
    }
  }

  /**
   * Phase 2: the slave replaces its rows and commits, then the master clears the flag of that slave and commits; or
   * rolls back when the last answer of the slave does not come.
   */
  method RefreshRound(slave: Database, master: Database, slaveId: string, answered: bool)
    requires slave != master && slave.current == slave.committed && master.current == master.committed
    modifies slave, master
    ensures master.current == master.committed && slave.current == slave.committed
    ensures
      var flags := old(master.committed.sendToSlave);
      master.committed
      == old(master.committed).(sendToSlave := if answered && slaveId in flags then flags[slaveId := false] else flags)
    ensures slave.committed.work == Installed(Totals(master.committed.work))
    ensures slave.committed.sendToMaster == old(slave.committed.sendToMaster)
  {
    hide Totals, Installed, Carried, Distinct, TotalWork, Complete, Works;
    var onSlave := new MasterComposite(slave);
    var onMaster := new MasterComposite(master);
    var rows := SendWorkToSlave(master);
    WholeStream(rows);
    var ok, fatal := ReceiveWorkFromMaster(onSlave, rows + [EndOfComposite]);
    slave.Commit();
    if answered {
      onMaster.SentUpdateToSlave(slaveId);
      master.Commit();
    } else {
      master.Rollback();
    }
  }
}
