/**
 * Master and slaves of one composite as a state machine over committed states (source/IAmASlave.cpp,
 * source/IAmAMaster.cpp, source/WorkReceiver.cpp): clients return curves anywhere, sessions are opened one at a time as
 * far as the master's lock excludes, every message can be lost and either side can give up at any point. In every run
 * the curves add up.
 */
module SyncProtocol {
  import opened CurveTables

  // ---------------------------------------------------------------- states

  /**
   * What the thread of the master that serves one slave waits for. It holds its lock on the composite until it is
   * idle again, or, with the rows of the report merged, has released it in front of its commit.
   */
  datatype MasterSide = MIdle | MAwaitWork | MMerged(report: Counts, released: bool) | MAwaitOk2

  /** The slave holds its lock while it reports and while it has replaced rows; it too releases it before its commit. */
  datatype SlaveSide =
    | SIdle
    | SOpening
    | SReporting(report: Counts)
    | SReplaced(report: Counts, rows: Counts, counted: bool, released: bool)
    | SListening

  datatype ToSlave = NoneToSlave | Found | Rows1(rows: Counts) | Done1 | Rows2(rows: Counts)

  datatype ToMaster = NoneToMaster | Report1(report: Counts) | Ok1 | Ok2

  /** A slave, the messages under way between it and the master, and the master's side of their session. */
  datatype Slave = Slave(
    work: Table, dirty: bool, side: SlaveSide, inbox: ToSlave, outbox: ToMaster, session: MasterSide)

  /** History: what there was at the start, what clients returned, what was reported twice, what was overwritten. */
  datatype Ledger = Ledger(start: Key -> int, returned: Key -> int, resent: Key -> int, lost: Key -> int)

  datatype State = State(work: Table, flags: map<nat, bool>, slaves: seq<Slave>, ledger: Ledger)

  datatype Action =
    | ReturnToMaster(k: Key, n: int)
    | ReturnToSlave(i: nat, k: Key, n: int)
    | Register(i: nat)
    | Open(i: nat)
    | SendReport(i: nat)
    | Merge(i: nat)
    | Replace(i: nat)
    | TakeOk(i: nat)
    | CommitMaster(i: nat)
    | TakeDone(i: nat)
    | CommitSlave(i: nat)
    | OpenRefresh(i: nat)
    | Refresh(i: nat)
    | Clear(i: nat)
    | DropToMaster(i: nat)
    | DropToSlave(i: nat)
    | AbortMaster(i: nat)
    | AbortSlave(i: nat)

  /**
   * What the lock on the composite excludes: nothing, as every object has a mutex of its own; every other holder until
   * it is released, as the code means it; or every other holder until the changes are committed too.
   */
  datatype Lock = Absent | UntilRelease | UntilCommit

  /** The master believes that the slave has its latest rows. */
  predicate Clean(s: State, i: nat) {
    i in s.flags && !s.flags[i]
  }

  function AllDirty(flags: map<nat, bool>): map<nat, bool> {
    map i | i in flags :: true
  }

  function Plus(f: Key -> int, c: Counts): Key -> int {
    k => f(k) + Count(c, k)
  }

  /** What a slave that installs rows drops of the curves it had not reported. */
  function PlusDropped(f: Key -> int, work: Table, report: Counts): Key -> int {
    k => f(k) + Since(work, k) - Count(report, k)
  }

  function SetSlave(s: State, i: nat, v: Slave): State
    requires i < |s.slaves|
  {
    s.(slaves := s.slaves[i := v])
  }

  // ---------------------------------------------------------------- steps

  /** No session is open on the master. */
  predicate MasterUnlocked(s: State) {
    forall i :: 0 <= i < |s.slaves| ==> s.slaves[i].session.MIdle?
  }

  /** The lock is not held for this session of the master. */
  predicate SessionFree(session: MasterSide, lock: Lock) {
    session.MIdle? || (lock.UntilRelease? && session.MMerged? && session.released)
  }

  predicate MasterFree(s: State, lock: Lock) {
    lock.Absent? || forall i :: 0 <= i < |s.slaves| ==> SessionFree(s.slaves[i].session, lock)
  }

  predicate SlaveFree(v: Slave, lock: Lock) {
    || lock.Absent? || v.side.SIdle? || v.side.SOpening? || v.side.SListening?
    || (lock.UntilRelease? && v.side.SReplaced? && v.side.released)
  }

  /** Client returns and the opening of a session wait for the lock on the composite. */
  predicate Enabled(a: Action, s: State, lock: Lock) {
    match a
    case ReturnToMaster(_, _) => MasterFree(s, lock)
    case ReturnToSlave(i, _, _) => i < |s.slaves| && SlaveFree(s.slaves[i], lock)
    case Register(i) => i < |s.slaves| && i !in s.flags
    case Open(i) =>
      && i < |s.slaves| && s.slaves[i].session.MIdle? && s.slaves[i].side.SIdle? && s.slaves[i].dirty
      && MasterFree(s, lock)
    case SendReport(i) => i < |s.slaves| && s.slaves[i].side.SOpening? && s.slaves[i].inbox.Found?
    case Merge(i) => i < |s.slaves| && s.slaves[i].session.MAwaitWork? && s.slaves[i].outbox.Report1?
    case Replace(i) => i < |s.slaves| && s.slaves[i].side.SReporting? && s.slaves[i].inbox.Rows1?
    case TakeOk(i) =>
      i < |s.slaves| && s.slaves[i].session.MMerged? && !s.slaves[i].session.released && s.slaves[i].outbox.Ok1?
    case CommitMaster(i) => i < |s.slaves| && s.slaves[i].session.MMerged? && s.slaves[i].session.released
    case TakeDone(i) =>
      i < |s.slaves| && s.slaves[i].side.SReplaced? && !s.slaves[i].side.released && s.slaves[i].inbox.Done1?
    case CommitSlave(i) => i < |s.slaves| && s.slaves[i].side.SReplaced? && s.slaves[i].side.released
    case OpenRefresh(i) =>
      && i < |s.slaves| && s.slaves[i].session.MIdle? && s.slaves[i].side.SIdle? && i in s.flags && s.flags[i]
      && MasterFree(s, lock)
    case Refresh(i) => i < |s.slaves| && s.slaves[i].side.SListening? && s.slaves[i].inbox.Rows2?
    case Clear(i) => i < |s.slaves| && s.slaves[i].session.MAwaitOk2? && s.slaves[i].outbox.Ok2?
    case DropToMaster(i) => i < |s.slaves|
    case DropToSlave(i) => i < |s.slaves|
    case AbortMaster(i) => i < |s.slaves|
    case AbortSlave(i) => i < |s.slaves|
  }

  function Do(a: Action, s: State): State
    requires Enabled(a, s, Absent)
  {
    match a
    case ReturnToMaster(k, n) =>
      s.(work := AddWork(s.work, k, n), flags := AllDirty(s.flags),
         ledger := s.ledger.(returned := Plus(s.ledger.returned, map[k := n])))
    case ReturnToSlave(i, k, n) =>
      SetSlave(s, i, s.slaves[i].(work := AddWork(s.slaves[i].work, k, n), dirty := true))
        .(ledger := s.ledger.(returned := Plus(s.ledger.returned, map[k := n])))
    case Register(i) => s.(flags := s.flags[i := true])
    case Open(i) =>
      SetSlave(s, i, s.slaves[i].(side := SOpening, inbox := Found, outbox := NoneToMaster, session := MAwaitWork))
    case SendReport(i) =>
      var report := Pending(s.slaves[i].work);
      SetSlave(s, i, s.slaves[i].(side := SReporting(report), inbox := NoneToSlave, outbox := Report1(report)))
    case Merge(i) =>
      var report := s.slaves[i].outbox.report;
      SetSlave(s, i, s.slaves[i].(inbox := Rows1(Totals(Merged(s.work, report))), outbox := NoneToMaster,
                                  session := MMerged(report, false)))
    case Replace(i) =>
      var v := s.slaves[i];
      SetSlave(s, i, v.(side := SReplaced(v.side.report, v.inbox.rows, false, false), inbox := NoneToSlave,
                        outbox := Ok1))
    case TakeOk(i) =>
      SetSlave(s, i, s.slaves[i].(outbox := NoneToMaster, session := s.slaves[i].session.(released := true)))
    case CommitMaster(i) => DoCommitMaster(s, i)
    case TakeDone(i) =>
      SetSlave(s, i, s.slaves[i].(side := s.slaves[i].side.(released := true), inbox := NoneToSlave))
    case CommitSlave(i) =>
      var v := s.slaves[i];
      SetSlave(s, i, v.(work := Installed(v.side.rows), dirty := false, side := SIdle))
        .(ledger := s.ledger.(lost := PlusDropped(s.ledger.lost, v.work, v.side.report)))
    case OpenRefresh(i) =>
      SetSlave(s, i, s.slaves[i].(side := SListening, inbox := Rows2(Totals(s.work)), outbox := NoneToMaster,
                                  session := MAwaitOk2))
    case Refresh(i) =>
      var v := s.slaves[i];
      SetSlave(s, i, v.(work := Installed(v.inbox.rows), side := SIdle, inbox := NoneToSlave, outbox := Ok2))
        .(ledger := s.ledger.(lost := PlusDropped(s.ledger.lost, v.work, map[])))
    case Clear(i) =>
      SetSlave(s, i, s.slaves[i].(outbox := NoneToMaster, session := MIdle))
        .(flags := if i in s.flags then s.flags[i := false] else s.flags)
    case DropToMaster(i) => SetSlave(s, i, s.slaves[i].(outbox := NoneToMaster))
    case DropToSlave(i) => SetSlave(s, i, s.slaves[i].(inbox := NoneToSlave))
    case AbortMaster(i) => SetSlave(s, i, s.slaves[i].(session := MIdle))
    case AbortSlave(i) => DoAbortSlave(s, i)
  }

  /**
   * The master commits before the slave: until the slave commits too, or gives up, its report is counted twice. The
   * rows are raised by what was reported, whatever they were when the session began.
   */
  function DoCommitMaster(s: State, i: nat): State
    requires i < |s.slaves| && s.slaves[i].session.MMerged?
  {
    var v, report := s.slaves[i], s.slaves[i].session.report;
    var side := if v.side.SReplaced? then v.side.(counted := true) else v.side;
    SetSlave(s, i, v.(side := side, inbox := Done1, session := MIdle))
      .(work := Merged(s.work, report), flags := AllDirty(s.flags),
        ledger := if v.side.SReplaced? then s.ledger else s.ledger.(resent := Plus(s.ledger.resent, report)))
  }

  /** The slave rolls back. */
  function DoAbortSlave(s: State, i: nat): State
    requires i < |s.slaves|
  {
    var v := s.slaves[i];
    SetSlave(s, i, v.(side := SIdle, inbox := NoneToSlave))
      .(ledger := if v.side.SReplaced? && v.side.counted
                  then s.ledger.(resent := Plus(s.ledger.resent, v.side.report)) else s.ledger)
  }

  // ---------------------------------------------------------------- the invariant

  /** For every method and bound the slave has what the master has and what it has not yet reported. */
  ghost predicate Coherent(master: Table, slave: Table) {
    forall k :: Local(slave, k) == Local(master, k) + Since(slave, k)
  }

  ghost predicate NothingPending(slave: Table) {
    forall k :: Since(slave, k) == 0
  }

  /** What one slave and the master's thread know of each other. It holds without any lock. */
  ghost predicate InSession(registered: bool, clean: bool, v: Slave) {
    && (clean ==> !v.side.SListening? && !(v.side.SReplaced? && v.side.counted))
    && (!v.dirty ==> NothingPending(v.work))
    && (v.side.SReplaced? && (v.inbox.Done1? || v.side.released) ==> v.side.counted)
    && (v.session.MAwaitWork? ==>
        && !v.side.SReplaced? && !v.side.SListening?
        && (v.side.SOpening? ==> !v.outbox.Report1?)
        && (v.side.SReporting? ==> !v.inbox.Rows1?)
        && (v.side.SReporting? && v.outbox.Report1? ==> v.outbox.report == v.side.report))
    && (v.session.MMerged? ==>
        && !v.side.SOpening? && !v.side.SListening?
        && (v.side.SReporting? ==> v.side.report == v.session.report)
        && (v.side.SReplaced? ==> v.side.report == v.session.report && !v.side.counted))
    && (v.session.MAwaitOk2? ==>
        && registered && (v.side.SIdle? || v.side.SListening?)
        && (v.outbox.Ok2? ==> v.side.SIdle?))
  }

  ghost predicate RowsMatch(rows: Counts, work: Table) {
    forall k :: Count(rows, k) == Local(work, k)
  }

  /** A clean slave is coherent, and so is one whose flag is about to be cleared. */
  ghost predicate InStep(work: Table, clean: bool, v: Slave) {
    && (clean ==> Coherent(work, v.work))
    && (v.session.MAwaitOk2? && v.side.SListening? && v.inbox.Rows2? ==> RowsMatch(v.inbox.rows, work))
    && (v.session.MAwaitOk2? && v.outbox.Ok2? ==> Coherent(work, v.work))
  }

  /** While a slave reports and replaces its rows its report stays what it owes. */
  ghost predicate ReportStands(v: Slave) {
    v.side.SReporting? || v.side.SReplaced? ==> v.side.report == Pending(v.work)
  }

  /** Curves of a slave that the master does not have yet. */
  function Owed(v: Slave, k: Key): int {
    Since(v.work, k) - (if v.side.SReplaced? && v.side.counted then Count(v.side.report, k) else 0)
  }

  function AllOwed(slaves: seq<Slave>, k: Key): int {
    if |slaves| == 0 then 0 else AllOwed(slaves[..|slaves| - 1], k) + Owed(slaves[|slaves| - 1], k)
  }

  /** Nothing is lost and nothing counted twice, except what the ledger says. */
  ghost predicate Conserved(s: State, k: Key) {
    Local(s.work, k) + AllOwed(s.slaves, k) + s.ledger.lost(k)
      == s.ledger.start(k) + s.ledger.returned(k) + s.ledger.resent(k)
  }

  ghost predicate SessionAt(s: State, i: nat)
    requires i < |s.slaves|
  {
    InSession(i in s.flags, Clean(s, i), s.slaves[i])
  }

  ghost predicate StepAt(s: State, i: nat)
    requires i < |s.slaves|
  {
    InStep(s.work, Clean(s, i), s.slaves[i])
  }

  /** What holds in every run. */
  ghost predicate Balanced(s: State) {
    && (forall i :: 0 <= i < |s.slaves| ==> SessionAt(s, i))
    && forall k :: Conserved(s, k)
  }

  /** What holds as long as no total moves while a refresh is under way. */
  ghost predicate AllInStep(s: State) {
    forall i :: 0 <= i < |s.slaves| ==> StepAt(s, i)
  }

  /** What locks held until the commit add: reports stay what is owed, and one session is open at a time. */
  ghost predicate Locked(s: State) {
    && (forall i :: 0 <= i < |s.slaves| ==> ReportStands(s.slaves[i]))
    && forall i, j :: 0 <= i < j < |s.slaves| ==> s.slaves[i].session.MIdle? || s.slaves[j].session.MIdle?
  }

  ghost predicate Invariant(s: State) {
    Balanced(s) && AllInStep(s) && Locked(s)
  }

  // ---------------------------------------------------------------- tables under the steps

  lemma CoherentReturn(m: Table, v: Table, k: Key, n: int)
    requires Coherent(m, v)
    ensures Coherent(m, AddWork(v, k, n))
  {
  }

  lemma TotalsMatch(m: Table)
    ensures RowsMatch(Totals(m), m)
  {
  }

  lemma CoherentInstalled(m: Table)
    ensures Coherent(m, Installed(Totals(m))) && NothingPending(Installed(Totals(m)))
  {
  }

  lemma MatchingRowsInstalled(rows: Counts, m: Table)
    ensures NothingPending(Installed(rows)) && (RowsMatch(rows, m) ==> Coherent(m, Installed(rows)))
  {
  }

  lemma {:induction false} OwedSplits(slaves: seq<Slave>, i: nat, v: Slave, k: Key)
    requires i < |slaves|
    ensures AllOwed(slaves[i := v], k) == AllOwed(slaves, k) - Owed(slaves[i], k) + Owed(v, k)
  {
    var n := |slaves| - 1;
    if i == n {
      assert slaves[i := v][..n] == slaves[..n];
    } else {
      OwedSplits(slaves[..n], i, v, k);
      assert slaves[i := v][..n] == slaves[..n][i := v];
    }
  }

  // ---------------------------------------------------------------- what every step keeps

  lemma StepKeepsSession(a: Action, s: State, j: nat)
    requires Enabled(a, s, Absent) && j < |s.slaves| && SessionAt(s, j)
    ensures |Do(a, s).slaves| == |s.slaves| && SessionAt(Do(a, s), j)
  {
    hide NothingPending, Pending, Merged, Totals, AddWork, Installed;
    if a.CommitSlave? {
      MatchingRowsInstalled(s.slaves[a.i].side.rows, s.work);
    } else if a.Refresh? {
      MatchingRowsInstalled(s.slaves[a.i].inbox.rows, s.work);
    }
  }

  /** The slave that a step changes, or none. */
  function Touched(a: Action): int {
    match a
    case ReturnToMaster(_, _) => -1
    case Register(_) => -1
    case ReturnToSlave(i, _, _) => i
    case Open(i) => i
    case SendReport(i) => i
    case Merge(i) => i
    case Replace(i) => i
    case TakeOk(i) => i
    case CommitMaster(i) => i
    case TakeDone(i) => i
    case CommitSlave(i) => i
    case OpenRefresh(i) => i
    case Refresh(i) => i
    case Clear(i) => i
    case DropToMaster(i) => i
    case DropToSlave(i) => i
    case AbortMaster(i) => i
    case AbortSlave(i) => i
  }

  /** Both sides of the balance move by the same amount. */
  lemma StepConserves(a: Action, s: State, k: Key)
    requires Enabled(a, s, Absent) && Conserved(s, k)
    requires forall i :: 0 <= i < |s.slaves| ==> SessionAt(s, i)
    ensures Conserved(Do(a, s), k)
  {
    var i := Touched(a);
    if i >= 0 {
      assert SessionAt(s, i);
      var v := Do(a, s).slaves[i];
      OwedSplits(s.slaves, i, v, k);
      assert Do(a, s).slaves == s.slaves[i := v];
      BalanceOfStep(a, s, k);
    } else if a.ReturnToMaster? {
      AddWorkCounts(s.work, a.k, a.n, k);
    }
  }

  lemma BalanceOfStep(a: Action, s: State, k: Key)
    requires Enabled(a, s, Absent) && Touched(a) >= 0 && SessionAt(s, Touched(a))
    ensures
      var i, s' := Touched(a), Do(a, s);
      Local(s'.work, k) - Local(s.work, k) + Owed(s'.slaves[i], k) - Owed(s.slaves[i], k)
        + s'.ledger.lost(k) - s.ledger.lost(k)
      == s'.ledger.returned(k) - s.ledger.returned(k) + s'.ledger.resent(k) - s.ledger.resent(k)
    ensures Do(a, s).ledger.start == s.ledger.start
  {
    var i := Touched(a);
    var v := s.slaves[i];
    hide AddWork, Merged, Installed, Pending, Totals, InSession;
    if a.ReturnToSlave? {
      AddWorkCounts(v.work, a.k, a.n, k);
    } else if a.CommitMaster? {
      MergedCounts(s.work, v.session.report, k);
      SessionFacts(s, i);
    } else if a.CommitSlave? {
      SessionFacts(s, i);
      InstalledSince(v.side.rows, k);
    } else if a.Refresh? {
      InstalledSince(v.inbox.rows, k);
    }
  }

  lemma InstalledSince(rows: Counts, k: Key)
    ensures Since(Installed(rows), k) == 0
  {
  }

  lemma SessionFacts(s: State, i: nat)
    requires i < |s.slaves| && SessionAt(s, i)
    ensures
      var v := s.slaves[i];
      && (v.side.SReplaced? && (v.inbox.Done1? || v.side.released) ==> v.side.counted)
      && (v.session.MMerged? && v.side.SReplaced? ==> v.side.report == v.session.report && !v.side.counted)
  {
  }

  /** No step needs a lock to keep the sessions in order and the curves in balance. */
  lemma StepKeepsBalance(a: Action, s: State)
    requires Enabled(a, s, Absent) && Balanced(s)
    ensures Balanced(Do(a, s))
  {
    var s' := Do(a, s);
    assert forall i :: 0 <= i < |s.slaves| ==> SessionAt(s, i);
    assert forall k :: Conserved(s, k);
    hide Conserved, Enabled, Do, SessionAt;
    forall i | 0 <= i < |s'.slaves|
      ensures SessionAt(s', i)
    {
      SlavesStay(a, s);
      StepKeepsSession(a, s, i);
    }
    forall k
      ensures Conserved(s', k)
    {
      StepConserves(a, s, k);
    }
  }

  lemma SlavesStay(a: Action, s: State)
    requires Enabled(a, s, Absent)
    ensures |Do(a, s).slaves| == |s.slaves|
  {
  }

  // ---------------------------------------------------------------- runs

  /** Nobody is in a session, every slave that counts as clean is coherent, and nothing unreported is hidden. */
  ghost predicate Start(s: State) {
    && (forall i :: 0 <= i < |s.slaves| ==>
         var v := s.slaves[i];
         && v.side.SIdle? && v.inbox.NoneToSlave? && v.outbox.NoneToMaster? && v.session.MIdle?
         && (Clean(s, i) ==> Coherent(s.work, v.work)) && (!v.dirty ==> NothingPending(v.work)))
    && (forall k :: s.ledger.returned(k) == 0 && s.ledger.resent(k) == 0 && s.ledger.lost(k) == 0)
    && (forall k :: s.ledger.start(k) == Local(s.work, k) + AllOwed(s.slaves, k))
  }

  predicate CanRun(s: State, run: seq<Action>, lock: Lock)
    decreases |run|
  {
    |run| == 0 || (Enabled(run[0], s, lock) && CanRun(Do(run[0], s), run[1..], lock))
  }

  function Run(s: State, run: seq<Action>): State
    requires CanRun(s, run, Absent)
    decreases |run|
  {
    if |run| == 0 then s else Run(Do(run[0], s), run[1..])
  }

  lemma StartHolds(s: State)
    requires Start(s)
    ensures Invariant(s)
  {
  }

  lemma {:induction false} RunKeepsBalance(s: State, run: seq<Action>)
    requires Balanced(s) && CanRun(s, run, Absent)
    ensures Balanced(Run(s, run))
    decreases |run|
  {
    if |run| > 0 {
      hide Balanced, Enabled, Do;
      StepKeepsBalance(run[0], s);
      RunKeepsBalance(Do(run[0], s), run[1..]);
    }
  }

  /** In every run, with or without locks, the curves add up row by row, and a slave that is not dirty owes nothing. */
  lemma Conservation(s: State, run: seq<Action>)
    requires Start(s) && CanRun(s, run, Absent)
    ensures
      var e := Run(s, run);
      && (forall k :: Conserved(e, k))
      && (forall i :: 0 <= i < |e.slaves| && !e.slaves[i].dirty ==> NothingPending(e.slaves[i].work))
  {
    StartHolds(s);
    RunKeepsBalance(s, run);
    var e := Run(s, run);
    forall i | 0 <= i < |e.slaves| && !e.slaves[i].dirty
      ensures NothingPending(e.slaves[i].work)
    {
      assert SessionAt(e, i);
    }
  }

  lemma LaxerLock(a: Action, s: State)
    ensures Enabled(a, s, UntilCommit) ==> Enabled(a, s, UntilRelease)
    ensures Enabled(a, s, UntilRelease) ==> Enabled(a, s, Absent)
  {
  }

  lemma {:induction false} LaxerRun(s: State, run: seq<Action>)
    ensures CanRun(s, run, UntilCommit) ==> CanRun(s, run, UntilRelease)
    ensures CanRun(s, run, UntilRelease) ==> CanRun(s, run, Absent)
    decreases |run|
  {
    if |run| > 0 {
      LaxerLock(run[0], s);
      if Enabled(run[0], s, Absent) {
        hide Enabled, Do;
        LaxerRun(Do(run[0], s), run[1..]);
      }
    }
  }

  lemma AnyLock(s: State, run: seq<Action>)
    requires CanRun(s, run, UntilCommit)
    ensures forall lock :: CanRun(s, run, lock)
  {
    forall lock
      ensures CanRun(s, run, lock)
    {
      LaxerRun(s, run);
      match lock
      case Absent =>
      case UntilRelease =>
      case UntilCommit =>
    }
  }

  // ---------------------------------------------------------------- putting runs together

  lemma UnrollUnder(s: State, run: seq<Action>, lock: Lock)
    requires |run| > 0 && Enabled(run[0], s, lock) && Enabled(run[0], s, Absent)
    requires CanRun(Do(run[0], s), run[1..], lock) && CanRun(Do(run[0], s), run[1..], Absent)
    ensures CanRun(s, run, lock) && CanRun(s, run, Absent) && Run(s, run) == Run(Do(run[0], s), run[1..])
  {
  }

  lemma UnrollUnlocked(s: State, run: seq<Action>)
    requires |run| > 0 && Enabled(run[0], s, Absent) && CanRun(Do(run[0], s), run[1..], Absent)
    ensures CanRun(s, run, Absent) && Run(s, run) == Run(Do(run[0], s), run[1..])
  {
  }

  /** One step of a run. */
  lemma Unroll(s: State, run: seq<Action>)
    requires |run| > 0 && Enabled(run[0], s, UntilCommit) && CanRun(Do(run[0], s), run[1..], UntilCommit)
    requires CanRun(Do(run[0], s), run[1..], Absent)
    ensures CanRun(s, run, UntilCommit) && CanRun(s, run, Absent) && Run(s, run) == Run(Do(run[0], s), run[1..])
  {
  }

  lemma UnrollLast(s: State, a: Action)
    requires Enabled(a, s, UntilCommit)
    ensures CanRun(s, [a], UntilCommit) && CanRun(s, [a], Absent) && Run(s, [a]) == Do(a, s)
  {
    Unroll(s, [a]);
  }

  lemma EmptyRun(s: State)
    ensures CanRun(s, [], UntilCommit) && CanRun(s, [], Absent) && Run(s, []) == s
  {
  }

  lemma Unfold(s: State, run: seq<Action>, lock: Lock)
    requires |run| > 0 && CanRun(s, run, lock) && CanRun(s, run, Absent)
    ensures Enabled(run[0], s, lock) && Enabled(run[0], s, Absent)
    ensures CanRun(Do(run[0], s), run[1..], lock) && CanRun(Do(run[0], s), run[1..], Absent)
    ensures Run(s, run) == Run(Do(run[0], s), run[1..])
  {
  }

  lemma {:induction false} RunsAppendUnder(s: State, first: seq<Action>, second: seq<Action>, lock: Lock)
    requires CanRun(s, first, lock) && CanRun(s, first, Absent)
    requires CanRun(Run(s, first), second, lock) && CanRun(Run(s, first), second, Absent)
    ensures CanRun(s, first + second, lock) && CanRun(s, first + second, Absent)
    ensures Run(s, first + second) == Run(Run(s, first), second)
    decreases |first|
  {
    hide CanRun, Run, Do, Enabled;
    if |first| == 0 {
      assert first == [] && first + second == second;
      EmptyRun(s);
    } else {
      Unfold(s, first, lock);
      RunsAppendUnder(Do(first[0], s), first[1..], second, lock);
      assert (first + second)[0] == first[0] && (first + second)[1..] == first[1..] + second;
      UnrollUnder(s, first + second, lock);
    }
  }

  lemma RunsAppend(s: State, first: seq<Action>, second: seq<Action>)
    requires CanRun(s, first, UntilCommit) && CanRun(s, first, Absent)
    requires CanRun(Run(s, first), second, UntilCommit) && CanRun(Run(s, first), second, Absent)
    ensures CanRun(s, first + second, UntilCommit) && CanRun(s, first + second, Absent)
    ensures Run(s, first + second) == Run(Run(s, first), second)
  {
    hide CanRun, Run;
    RunsAppendUnder(s, first, second, UntilCommit);
  }
}
