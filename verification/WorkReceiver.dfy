/**
 * The messages with which a client returns work (source/WorkReceiver.cpp). A unit is opened by a Return Work message,
 * its curves stay in the open transaction while factor messages follow, and the message that closes it commits or
 * rolls back.
 */
module WorkReceiver {
  import opened Wrappers
  import opened CurveTables

  /**
   * A Return Work message: what it says, the master composite that the database has for its composite, whether it
   * matches the database, and whether the database takes the rows at once and the final updates later.
   */
  datatype WorkUnit = WorkUnit(
    name: string, master: string, key: Key, curves: int, accepted: bool, finalizes: bool)

  /** readable tells whether the fields could be scanned. */
  datatype Message =
    | EndOfReturnWork
    | EndReturnWork(name: string)
    | AbandonWork
    | ReturnWork(readable: bool, unit: WorkUnit)
    | FactorEvent(readable: bool, name: string)
    | FactorEventDetail(readable: bool, name: string)
    | Unknown

  /** Rows by master composite. */
  type Rows = map<string, Table>

  function RowsOf(db: Rows, master: string): Table {
    if master in db then db[master] else map[]
  }

  function AddUnit(db: Rows, u: WorkUnit): Rows {
    db[u.master := AddWork(RowsOf(db, u.master), u.key, u.curves)]
  }

  function AddUnits(db: Rows, units: seq<WorkUnit>): Rows {
    if |units| == 0 then db else AddUnit(AddUnits(db, units[..|units| - 1]), units[|units| - 1])
  }

  /** The unit whose objects are open, and whether a factor event has been created for it. */
  datatype Open = Open(unit: WorkUnit, hasEvent: bool)

  /**
   * replies holds the composites named in the Accepted Work messages; crashed: an object that is not there was used.
   */
  datatype Session = Session(
    committed: Rows, current: Rows, open: Option<Open>, success: bool, goodMessage: Option<string>,
    accepted: nat, replies: seq<string>, crashed: bool)

  // ---------------------------------------------------------------- the receiver

  class Receiver {
    var committed: Rows
    var current: Rows
    var open: Option<Open>
    var workAccepted: nat
    var replies: seq<string>

    constructor (db: Rows)
      ensures committed == current == db && open == None && workAccepted == 0 && replies == []
    {
      committed, current, open, workAccepted, replies := db, db, None, 0, [];
    }

    ghost function Snapshot(success: bool, goodMessage: Option<string>, crashed: bool): Session
      reads this
    {
      Session(committed, current, open, success, goodMessage, workAccepted, replies, crashed)
    }

    /** Commits the open unit when everything went well and rolls it back when not; without a unit it does nothing. */
    method EndWork(success: bool, ghost goodMessage: Option<string>) returns (done: bool)
      modifies this
      ensures Snapshot(success, goodMessage, false) == Ended(old(Snapshot(success, goodMessage, false)), success)
      ensures done == (old(open) == None || (success && old(open).value.unit.finalizes))
    {
      if open == None {
        return true;
      }
      done := success && open.value.unit.finalizes;
      if done {
        workAccepted := workAccepted + 1;
        committed := current;
        replies := replies + [open.value.unit.name];
      } else {
        current := committed;
      }
      open := None;
    }

    /** StartWork, then the rows of the unit, if the composite is known and its value matches. */
    method ProcessWork(readable: bool, unit: WorkUnit) returns (success: bool)
      requires open == None
      modifies this
      ensures committed == old(committed) && workAccepted == old(workAccepted) && replies == old(replies)
      ensures success == (readable && unit.accepted)
      ensures open == if readable then Some(Open(unit, false)) else None
      ensures current == if success then AddUnit(old(current), unit) else old(current)
    {
      if !readable {
        return false;
      }
      open := Some(Open(unit, false));
      success := unit.accepted;
      if success {
        current := current[unit.master := AddWork(RowsOf(current, unit.master), unit.key, unit.curves)];
      }
    }

    /** The message loop. It ends with the last message, with the message that says so, or in a crash. */
    method ProcessMessages(msgs: seq<Message>) returns (crashed: bool)
      requires open == None && current == committed
      modifies this
      ensures
        var e := Received(old(Snapshot(true, None, false)), msgs);
        && crashed == e.crashed && committed == e.committed && workAccepted == e.accepted && replies == e.replies
      ensures !crashed ==> current == committed
    {
      ghost var start := Snapshot(true, None, false);
      var success, goodMessage: Option<string> := true, None;
      var i := 0;
      while i < |msgs| && !msgs[i].EndOfReturnWork?
        invariant 0 <= i <= |msgs|
        invariant Received(start, msgs) == Received(Snapshot(success, goodMessage, false), msgs[i..])
        decreases |msgs| - i
      {
        ghost var before := Snapshot(success, goodMessage, false);
        var message := msgs[i];
        assert msgs[i..][0] == message && msgs[i..][1..] == msgs[i + 1..];
        crashed := false;
        match message {
          case EndReturnWork(name) =>
            if goodMessage == Some(name) {
              var done := EndWork(success, goodMessage);
            } else {
              success := false;
            }
          case AbandonWork =>
            var done := EndWork(success, goodMessage);
          case ReturnWork(readable, unit) =>
            var done := EndWork(false, goodMessage);
            success := ProcessWork(readable, unit);
            goodMessage := if success then Some(unit.name) else None;
          case FactorEvent(readable, name) =>
            if success {
              crashed := readable && open == None;
              success := readable && open != None && open.value.unit.name == name;
              if success {
                open := Some(open.value.(hasEvent := true));
              }
            }
          case FactorEventDetail(readable, name) =>
            if success {
              crashed := readable && (open == None || (open.value.unit.name == name && !open.value.hasEvent));
              success := readable && !crashed && open.value.unit.name == name;
            }
          case Unknown =>
            success := false;
        }
        assert Snapshot(success, goodMessage, crashed) == Handled(before, message);
        if crashed {
          return;
        }
        i := i + 1;
      }
      crashed := false;
      current := committed;
    }
  }

  // ---------------------------------------------------------------- the receiver as a function

  function Ended(s: Session, success: bool): Session {
    match s.open
    case None => s
    case Some(o) =>
      if success && o.unit.finalizes
      then s.(committed := s.current, open := None, accepted := s.accepted + 1, replies := s.replies + [o.unit.name])
      else s.(current := s.committed, open := None)
  }

  function Handled(s: Session, m: Message): Session {
    match m
    case EndOfReturnWork => s
    case EndReturnWork(name) => if s.goodMessage == Some(name) then Ended(s, s.success) else s.(success := false)
    case AbandonWork => Ended(s, s.success)
    case ReturnWork(readable, unit) =>
      var e := Ended(s, false);
      if !readable then e.(success := false, goodMessage := None)
      else if !unit.accepted then e.(success := false, goodMessage := None, open := Some(Open(unit, false)))
      else
        e.(success := true, goodMessage := Some(unit.name), open := Some(Open(unit, false)),
           current := AddUnit(e.current, unit))
    case FactorEvent(readable, name) =>
      if !s.success || !readable then s.(success := false)
      else (match s.open
            case None => s.(success := false, crashed := true)
            case Some(o) =>
              if o.unit.name == name then s.(open := Some(o.(hasEvent := true))) else s.(success := false))
    case FactorEventDetail(readable, name) =>
      if !s.success || !readable then s.(success := false)
      else (match s.open
            case None => s.(success := false, crashed := true)
            case Some(o) =>
              if o.unit.name != name then s.(success := false)
              else if o.hasEvent then s
              else s.(success := false, crashed := true))
    case Unknown => s.(success := false)
  }

  function Received(s: Session, msgs: seq<Message>): Session
    decreases |msgs|
  {
    if |msgs| == 0 || msgs[0].EndOfReturnWork? || s.crashed then s else Received(Handled(s, msgs[0]), msgs[1..])
  }

  // ---------------------------------------------------------------- which units are accepted

  function Fresh(db: Rows): Session {
    Session(db, db, None, true, None, 0, [], false)
  }

  /** The session after the first n messages. */
  function After(s: Session, msgs: seq<Message>, n: nat): Session
    requires n <= |msgs|
  {
    if n == 0 then s else Handled(After(s, msgs, n - 1), msgs[n - 1])
  }

  predicate EventBetween(msgs: seq<Message>, i: int, n: int)
    requires -1 <= i && n <= |msgs|
  {
    exists k :: i < k < n && msgs[k].FactorEvent?
  }

  /** A readable factor message about the unit of message i; a detail needs an event before it. */
  predicate GoodFactor(msgs: seq<Message>, i: int, j: int)
    requires 0 <= i < j < |msgs| && msgs[i].ReturnWork?
  {
    && (msgs[j].FactorEvent? || msgs[j].FactorEventDetail?)
    && msgs[j].readable && msgs[j].name == msgs[i].unit.name
    && (msgs[j].FactorEventDetail? ==> EventBetween(msgs, i, j))
  }

  /** Message i returns a unit that is in order, and so is everything that follows it before message n. */
  predicate InOrder(msgs: seq<Message>, i: int, n: int)
    requires n <= |msgs|
  {
    && 0 <= i < n && msgs[i].ReturnWork? && msgs[i].readable && msgs[i].unit.accepted
    && forall j :: i < j < n ==> GoodFactor(msgs, i, j)
  }

  /** Message n closes the unit of message i, and the database takes the final updates. */
  predicate Accepts(msgs: seq<Message>, i: int, n: int)
    requires n < |msgs|
  {
    && InOrder(msgs, i, n) && msgs[i].unit.finalizes
    && (msgs[n].AbandonWork? || msgs[n] == EndReturnWork(msgs[i].unit.name))
  }

  ghost function AcceptedAt(msgs: seq<Message>, n: int): seq<WorkUnit>
    requires 0 <= n < |msgs|
  {
    if i :| Accepts(msgs, i, n) then [msgs[i].unit] else []
  }

  /** The units that are accepted within the first n messages, in the order in which they are closed. */
  ghost function AcceptedUnits(msgs: seq<Message>, n: nat): seq<WorkUnit>
    requires n <= |msgs|
  {
    if n == 0 then [] else AcceptedUnits(msgs, n - 1) + AcceptedAt(msgs, n - 1)
  }

  function Names(units: seq<WorkUnit>): seq<string> {
    seq(|units|, i requires 0 <= i < |units| => units[i].name)
  }

  lemma OneInOrder(msgs: seq<Message>, i: int, j: int, n: int)
    requires n <= |msgs| && InOrder(msgs, i, n) && InOrder(msgs, j, n)
    ensures i == j
  {
    assert i < j ==> GoodFactor(msgs, i, j);
    assert j < i ==> GoodFactor(msgs, j, i);
  }

  /** The session and the messages so far agree on the unit that is open and in order. */
  ghost predicate Agrees(s: Session, msgs: seq<Message>, n: nat)
    requires n <= |msgs|
  {
    && (s.open == None ==> s.current == s.committed)
    && (s.open != None && s.success ==> exists i :: InOrder(msgs, i, n))
    && forall i :: InOrder(msgs, i, n) ==>
         && s.success && s.open == Some(Open(msgs[i].unit, EventBetween(msgs, i, n)))
         && s.goodMessage == Some(msgs[i].unit.name)
         && s.current == AddUnit(s.committed, msgs[i].unit)
  }

  /** A message that keeps the unit in order, one that breaks it, and one that opens a new unit. */
  lemma InOrderStep(msgs: seq<Message>, i: int, n: nat)
    requires n < |msgs|
    ensures InOrder(msgs, i, n + 1) <==>
      || (InOrder(msgs, i, n) && GoodFactor(msgs, i, n))
      || (i == n && msgs[n].ReturnWork? && msgs[n].readable && msgs[n].unit.accepted)
    ensures InOrder(msgs, i, n) && msgs[n].FactorEvent? ==> EventBetween(msgs, i, n + 1)
    ensures InOrder(msgs, i, n) && !msgs[n].FactorEvent? ==>
      (EventBetween(msgs, i, n + 1) <==> EventBetween(msgs, i, n))
    ensures !EventBetween(msgs, n, n + 1)
  {
    if InOrder(msgs, i, n) && msgs[n].FactorEvent? {
      assert i < n < n + 1;
    }
  }

  lemma ReturnKeepsAgreement(s: Session, msgs: seq<Message>, n: nat)
    requires n < |msgs| && Agrees(s, msgs, n) && msgs[n].ReturnWork?
    ensures Agrees(Handled(s, msgs[n]), msgs, n + 1)
  {
    var m := n + 1;
    forall i | InOrder(msgs, i, m)
      ensures i == n && msgs[n].readable && msgs[n].unit.accepted
    {
      InOrderStep(msgs, i, n);
    }
    InOrderStep(msgs, n, n);
    hide InOrder, EventBetween, AddUnit;
  }

  lemma FactorKeepsAgreement(s: Session, msgs: seq<Message>, n: nat)
    requires n < |msgs| && Agrees(s, msgs, n) && (msgs[n].FactorEvent? || msgs[n].FactorEventDetail?)
    requires !Handled(s, msgs[n]).crashed && !s.crashed
    ensures Agrees(Handled(s, msgs[n]), msgs, n + 1)
  {
    forall i
      ensures InOrder(msgs, i, n + 1) <==> InOrder(msgs, i, n) && GoodFactor(msgs, i, n)
      ensures InOrder(msgs, i, n) ==>
        (EventBetween(msgs, i, n + 1) <==> EventBetween(msgs, i, n) || msgs[n].FactorEvent?)
    {
      InOrderStep(msgs, i, n);
    }
    hide InOrder, EventBetween, AddUnit, RowsOf;
  }

  lemma ClosingKeepsAgreement(s: Session, msgs: seq<Message>, n: nat)
    requires n < |msgs| && Agrees(s, msgs, n)
    requires msgs[n].EndReturnWork? || msgs[n].AbandonWork? || msgs[n].Unknown?
    ensures Agrees(Handled(s, msgs[n]), msgs, n + 1)
  {
    var m := n + 1;
    forall i
      ensures !InOrder(msgs, i, m)
    {
      InOrderStep(msgs, i, n);
    }
    hide InOrder, EventBetween, AddUnit, RowsOf;
  }

  lemma HandledKeepsAgreement(s: Session, msgs: seq<Message>, n: nat)
    requires n < |msgs| && Agrees(s, msgs, n)
    requires !msgs[n].EndOfReturnWork? && !Handled(s, msgs[n]).crashed && !s.crashed
    ensures Agrees(Handled(s, msgs[n]), msgs, n + 1)
  {
    hide Agrees, Handled;
    if msgs[n].ReturnWork? {
      ReturnKeepsAgreement(s, msgs, n);
    } else if msgs[n].FactorEvent? || msgs[n].FactorEventDetail? {
      FactorKeepsAgreement(s, msgs, n);
    } else {
      ClosingKeepsAgreement(s, msgs, n);
    }
  }

  /** What a message commits is what closes at it. */
  lemma HandledCommits(s: Session, msgs: seq<Message>, n: nat)
    requires n < |msgs| && Agrees(s, msgs, n)
    requires !msgs[n].EndOfReturnWork? && !s.crashed
    ensures
      var e := Handled(s, msgs[n]);
      var units := AcceptedAt(msgs, n);
      && e.committed == AddUnits(s.committed, units)
      && e.accepted == s.accepted + |units| && e.replies == s.replies + Names(units)
  {
    var units := AcceptedAt(msgs, n);
    if i :| Accepts(msgs, i, n) {
      var u := msgs[i].unit;
      forall j | Accepts(msgs, j, n)
        ensures j == i
      {
        OneInOrder(msgs, i, j, n);
      }
      assert units == [u];
      assert units[..0] == [] && AddUnits(s.committed, units) == AddUnit(s.committed, u);
      assert Names(units) == [u.name];
    } else {
      assert units == [] && Names(units) == [];
      hide InOrder, EventBetween;
      if s.open != None && s.success {
        var i :| InOrder(msgs, i, n);
        assert !Accepts(msgs, i, n);
      }
    }
  }

  lemma AddUnitsAppend(db: Rows, a: seq<WorkUnit>, b: seq<WorkUnit>)
    requires |b| <= 1
    ensures AddUnits(AddUnits(db, a), b) == AddUnits(db, a + b)
    ensures Names(a + b) == Names(a) + Names(b)
  {
    hide AddUnit;
    if |b| == 1 {
      assert (a + b)[..|a|] == a && b[..0] == [];
    } else {
      assert b == [] && a + b == a;
    }
  }

  predicate RunsThrough(s: Session, msgs: seq<Message>, n: nat)
    requires n <= |msgs|
  {
    && (forall k :: 0 <= k < n ==> !msgs[k].EndOfReturnWork?)
    && forall k: nat :: k <= n ==> !After(s, msgs, k).crashed
  }

  /** What is committed is what was there and the accepted units, and the client has been told so unit by unit. */
  ghost predicate Accounted(db: Rows, s: Session, msgs: seq<Message>, n: nat)
    requires n <= |msgs|
  {
    var units := AcceptedUnits(msgs, n);
    s.committed == AddUnits(db, units) && s.accepted == |units| && s.replies == Names(units)
  }

  lemma AccountedStep(db: Rows, s: Session, msgs: seq<Message>, n: nat)
    requires n < |msgs| && Agrees(s, msgs, n) && Accounted(db, s, msgs, n)
    requires !msgs[n].EndOfReturnWork? && !s.crashed
    ensures Accounted(db, Handled(s, msgs[n]), msgs, n + 1)
  {
    hide Handled, Agrees, AddUnits, AcceptedAt, Names;
    HandledCommits(s, msgs, n);
    AtMostOne(msgs, n);
    AddUnitsAppend(db, AcceptedUnits(msgs, n), AcceptedAt(msgs, n));
  }

  lemma FreshAgrees(db: Rows, msgs: seq<Message>)
    ensures Agrees(Fresh(db), msgs, 0) && Accounted(db, Fresh(db), msgs, 0)
  {
  }

  /** For every stream of messages, and at every point of it that is reached. */
  lemma {:induction false} CommittedExactlyAccepted(db: Rows, msgs: seq<Message>, n: nat)
    requires n <= |msgs| && RunsThrough(Fresh(db), msgs, n)
    ensures Agrees(After(Fresh(db), msgs, n), msgs, n) && Accounted(db, After(Fresh(db), msgs, n), msgs, n)
    decreases n
  {
    hide Agrees, Accounted, Handled;
    if n == 0 {
      FreshAgrees(db, msgs);
    } else {
      RunsThroughPrefix(Fresh(db), msgs, n);
      CommittedExactlyAccepted(db, msgs, n - 1);
      hide RunsThrough;
      var s := After(Fresh(db), msgs, n - 1);
      HandledKeepsAgreement(s, msgs, n - 1);
      AccountedStep(db, s, msgs, n - 1);
    }
  }

  lemma RunsThroughPrefix(s: Session, msgs: seq<Message>, n: nat)
    requires 0 < n <= |msgs| && RunsThrough(s, msgs, n)
    ensures RunsThrough(s, msgs, n - 1) && !msgs[n - 1].EndOfReturnWork?
    ensures !After(s, msgs, n - 1).crashed && !After(s, msgs, n).crashed
  {
    hide After;
  }

  lemma AtMostOne(msgs: seq<Message>, n: nat)
    requires n < |msgs|
    ensures |AcceptedAt(msgs, n)| <= 1
  {
  }

  /** The loop gets to message n in the session After says. */
  lemma {:induction false} ReceivedReaches(s: Session, msgs: seq<Message>, n: nat)
    requires n <= |msgs| && RunsThrough(s, msgs, n)
    ensures Received(s, msgs) == Received(After(s, msgs, n), msgs[n..])
    decreases n
  {
    if n == 0 {
      assert msgs[0..] == msgs;
    } else {
      hide Handled;
      RunsThroughPrefix(s, msgs, n);
      ReceivedReaches(s, msgs, n - 1);
      assert msgs[n - 1..][0] == msgs[n - 1] && msgs[n - 1..][1..] == msgs[n..];
    }
  }

  lemma CrashCommitsNothing(s: Session, m: Message)
    requires !s.crashed && Handled(s, m).crashed
    ensures Handled(s, m).committed == s.committed && Handled(s, m).accepted == s.accepted
    ensures Handled(s, m).replies == s.replies
  {
  }

  /**
   * The whole stream: when the loop ends, with the last message, with the message that says so, or in a crash, exactly
   * the units accepted up to there are committed, counted and replied to.
   */
  lemma StreamCommitsAccepted(db: Rows, msgs: seq<Message>) returns (n: nat)
    ensures n <= |msgs|
    ensures
      var e := Received(Fresh(db), msgs);
      && Accounted(db, e, msgs, n)
      && (n == |msgs| || msgs[n].EndOfReturnWork? || e.crashed)
  {
    n := 0;
    while n < |msgs| && !msgs[n].EndOfReturnWork? && !Handled(After(Fresh(db), msgs, n), msgs[n]).crashed
      invariant n <= |msgs| && RunsThrough(Fresh(db), msgs, n)
      decreases |msgs| - n
    {
      n := n + 1;
    }
    var s := After(Fresh(db), msgs, n);
    CommittedExactlyAccepted(db, msgs, n);
    ReceivedReaches(Fresh(db), msgs, n);
    hide Agrees, Handled, AddUnits, Names, AcceptedUnits;
    assert !s.crashed;
    if n < |msgs| && !msgs[n].EndOfReturnWork? {
      CrashCommitsNothing(s, msgs[n]);
      assert msgs[n..][0] == msgs[n];
      assert Received(s, msgs[n..]) == Received(Handled(s, msgs[n]), msgs[n..][1..]);
    }
  }

  function CurvesOf(units: seq<WorkUnit>, master: string, k: Key): int {
    if |units| == 0 then 0
    else
      var u := units[|units| - 1];
      CurvesOf(units[..|units| - 1], master, k) + (if u.master == master && u.key == k then u.curves else 0)
  }

  /**
   * Row by row of every master composite: the committed curves grow by the curves of the accepted units for its
   * composites, no more and no less.
   */
  lemma {:induction false} CurvesAdded(db: Rows, units: seq<WorkUnit>, master: string, k: Key)
    ensures Local(RowsOf(AddUnits(db, units), master), k) == Local(RowsOf(db, master), k) + CurvesOf(units, master, k)
  {
    if |units| > 0 {
      var u := units[|units| - 1];
      CurvesAdded(db, units[..|units| - 1], master, k);
      AddWorkCounts(RowsOf(AddUnits(db, units[..|units| - 1]), u.master), u.key, u.curves, k);
      hide AddWork;
    }
  }
}
