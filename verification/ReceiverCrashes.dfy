/**
 * Which streams of returned work make the receiver use an object that does not exist (source/WorkReceiver.cpp): said
 * of the messages alone, and proved to be exactly those in which the message loop crashes.
 */
module ReceiverCrashes {
  import opened Wrappers
  import opened WorkReceiver

  // ---------------------------------------------------------------- the condition on the messages

  predicate IsFactor(m: Message) {
    m.FactorEvent? || m.FactorEventDetail?
  }

  /** Nothing but Abandon Work has come before message n. */
  predicate OnlyAbandoned(msgs: seq<Message>, n: int)
    requires n <= |msgs|
  {
    forall j :: 0 <= j < n ==> msgs[j].AbandonWork?
  }

  /** The unit of message i is closed by message m, in order, and nothing but closing messages has come since. */
  predicate ClosedSince(msgs: seq<Message>, i: int, m: int, n: int)
    requires n <= |msgs|
  {
    && 0 <= m < n && InOrder(msgs, i, m)
    && forall j :: m <= j < n ==> msgs[j].AbandonWork? || msgs[j] == EndReturnWork(msgs[i].unit.name)
  }

  /** No unit is open and nothing has gone wrong since the last one. */
  ghost predicate Idle(msgs: seq<Message>, n: int)
    requires n <= |msgs|
  {
    OnlyAbandoned(msgs, n) || exists i, m :: ClosedSince(msgs, i, m, n)
  }

  /** Message n details a factor of the unit of message i before any factor event of that unit. */
  predicate EventMissing(msgs: seq<Message>, i: int, n: int)
    requires n < |msgs|
  {
    && InOrder(msgs, i, n) && !EventBetween(msgs, i, n)
    && msgs[n].FactorEventDetail? && msgs[n].name == msgs[i].unit.name
  }

  /** Message n is reached and is a readable factor message for which the unit or its event is missing. */
  ghost predicate UsesMissingObject(msgs: seq<Message>, n: int) {
    && 0 <= n < |msgs| && (forall k :: 0 <= k <= n ==> !msgs[k].EndOfReturnWork?)
    && IsFactor(msgs[n]) && msgs[n].readable
    && (Idle(msgs, n) || exists i :: EventMissing(msgs, i, n))
  }

  // ---------------------------------------------------------------- the session knows when it is idle

  ghost predicate KnowsIdle(s: Session, msgs: seq<Message>, n: nat)
    requires n <= |msgs|
  {
    && (s.success && s.open == None <==> Idle(msgs, n))
    && (OnlyAbandoned(msgs, n) ==> s.goodMessage == None)
    && forall i, m :: ClosedSince(msgs, i, m, n) ==> s.goodMessage == Some(msgs[i].unit.name)
  }

  lemma ClosedStep(msgs: seq<Message>, i: int, m: int, n: nat)
    requires n < |msgs|
    ensures ClosedSince(msgs, i, m, n + 1) <==>
      && (ClosedSince(msgs, i, m, n) || (m == n && InOrder(msgs, i, n)))
      && (msgs[n].AbandonWork? || msgs[n] == EndReturnWork(msgs[i].unit.name))
    ensures OnlyAbandoned(msgs, n + 1) <==> OnlyAbandoned(msgs, n) && msgs[n].AbandonWork?
  {
    hide InOrder;
  }

  /** A message that closes nothing ends the idleness, and starts none. */
  lemma BusyStep(s: Session, msgs: seq<Message>, n: nat)
    requires n < |msgs| && Agrees(s, msgs, n) && KnowsIdle(s, msgs, n) && !s.crashed
    requires !msgs[n].AbandonWork? && !msgs[n].EndReturnWork? && !msgs[n].EndOfReturnWork?
    requires !Handled(s, msgs[n]).crashed
    ensures KnowsIdle(Handled(s, msgs[n]), msgs, n + 1)
  {
    var e := n + 1;
    forall i, m
      ensures !ClosedSince(msgs, i, m, e)
    {
      ClosedStep(msgs, i, m, n);
    }
    ClosedStep(msgs, 0, 0, n);
    hide InOrder, EventBetween, ClosedSince, OnlyAbandoned, AddUnit;
  }

  /** A closing message keeps the session idle, or makes it so when a unit in order was open. */
  lemma ClosingStep(s: Session, msgs: seq<Message>, n: nat)
    requires n < |msgs| && Agrees(s, msgs, n) && KnowsIdle(s, msgs, n)
    requires msgs[n].AbandonWork? || msgs[n].EndReturnWork?
    ensures KnowsIdle(Handled(s, msgs[n]), msgs, n + 1)
  {
    var h, e := Handled(s, msgs[n]), n + 1;
    forall i, m
      ensures ClosedSince(msgs, i, m, e) <==>
        && (ClosedSince(msgs, i, m, n) || (m == n && InOrder(msgs, i, n)))
        && (msgs[n].AbandonWork? || msgs[n] == EndReturnWork(msgs[i].unit.name))
    {
      ClosedStep(msgs, i, m, n);
    }
    ClosedStep(msgs, 0, 0, n);
    hide InOrder, EventBetween, ClosedSince, OnlyAbandoned, AddUnit;
    if h.success {
      if s.open != None {
        var i :| InOrder(msgs, i, n);
        assert ClosedSince(msgs, i, n, e);
      } else if !OnlyAbandoned(msgs, n) {
        var i, m :| ClosedSince(msgs, i, m, n);
        assert ClosedSince(msgs, i, m, e);
      }
    }
  }

  lemma HandledKnowsIdle(s: Session, msgs: seq<Message>, n: nat)
    requires n < |msgs| && Agrees(s, msgs, n) && KnowsIdle(s, msgs, n) && !s.crashed
    requires !msgs[n].EndOfReturnWork? && !Handled(s, msgs[n]).crashed
    ensures KnowsIdle(Handled(s, msgs[n]), msgs, n + 1)
  {
    hide Agrees, KnowsIdle, Handled;
    if msgs[n].AbandonWork? || msgs[n].EndReturnWork? {
      ClosingStep(s, msgs, n);
    } else {
      BusyStep(s, msgs, n);
    }
  }

  lemma FreshKnowsIdle(db: Rows, msgs: seq<Message>)
    ensures KnowsIdle(Fresh(db), msgs, 0)
  {
  }

  lemma {:induction false} ReachedKnowsIdle(db: Rows, msgs: seq<Message>, n: nat)
    requires n <= |msgs| && RunsThrough(Fresh(db), msgs, n)
    ensures Agrees(After(Fresh(db), msgs, n), msgs, n) && KnowsIdle(After(Fresh(db), msgs, n), msgs, n)
    decreases n
  {
    hide Agrees, Handled, Accounted, KnowsIdle;
    CommittedExactlyAccepted(db, msgs, n);
    if n == 0 {
      FreshKnowsIdle(db, msgs);
    } else {
      RunsThroughPrefix(Fresh(db), msgs, n);
      ReachedKnowsIdle(db, msgs, n - 1);
      hide RunsThrough;
      HandledKnowsIdle(After(Fresh(db), msgs, n - 1), msgs, n - 1);
    }
  }

  // ---------------------------------------------------------------- exactly these streams crash

  lemma CrashesHere(s: Session, msgs: seq<Message>, n: nat)
    requires n < |msgs| && Agrees(s, msgs, n) && KnowsIdle(s, msgs, n) && !s.crashed
    requires forall k :: 0 <= k <= n ==> !msgs[k].EndOfReturnWork?
    ensures Handled(s, msgs[n]).crashed <==> UsesMissingObject(msgs, n)
  {
    hide EventBetween, Idle, AddUnit;
    if s.success && s.open != None {
      var i :| InOrder(msgs, i, n);
      assert 0 <= i < n && msgs[i].ReturnWork?;
      hide InOrder;
      assert EventMissing(msgs, i, n) <==>
        msgs[n].FactorEventDetail? && msgs[n].name == msgs[i].unit.name && !EventBetween(msgs, i, n);
    }
  }

  /** Where the loop stops, and that it stops in a crash exactly when the message there uses a missing object. */
  lemma StopsAt(db: Rows, msgs: seq<Message>) returns (n: nat)
    ensures n <= |msgs| && RunsThrough(Fresh(db), msgs, n)
    ensures n < |msgs| && !msgs[n].EndOfReturnWork? ==> UsesMissingObject(msgs, n)
    ensures Received(Fresh(db), msgs).crashed <==> n < |msgs| && !msgs[n].EndOfReturnWork?
  {
    n := 0;
    while n < |msgs| && !msgs[n].EndOfReturnWork? && !Handled(After(Fresh(db), msgs, n), msgs[n]).crashed
      invariant n <= |msgs| && RunsThrough(Fresh(db), msgs, n)
      decreases |msgs| - n
    {
      n := n + 1;
    }
    var s := After(Fresh(db), msgs, n);
    assert !s.crashed;
    ReachedKnowsIdle(db, msgs, n);
    ReceivedReaches(Fresh(db), msgs, n);
    hide Agrees, KnowsIdle, Handled, After;
    if n < |msgs| && !msgs[n].EndOfReturnWork? {
      CrashesHere(s, msgs, n);
      assert msgs[n..][0] == msgs[n];
      assert Received(s, msgs[n..]) == Received(Handled(s, msgs[n]), msgs[n..][1..]);
    }
  }

  lemma NoCrashBefore(db: Rows, msgs: seq<Message>, n: nat, k: nat)
    requires k < n <= |msgs| && RunsThrough(Fresh(db), msgs, n)
    ensures !UsesMissingObject(msgs, k)
  {
    var s := Fresh(db);
    assert !After(s, msgs, k + 1).crashed && !After(s, msgs, k).crashed;
    assert RunsThrough(s, msgs, k);
    ReachedKnowsIdle(db, msgs, k);
    hide Agrees, KnowsIdle, Handled;
    CrashesHere(After(s, msgs, k), msgs, k);
    assert After(s, msgs, k + 1) == Handled(After(s, msgs, k), msgs[k]);
  }

  /** For every stream: the receiver crashes if and only if some message that it reaches uses a missing object. */
  lemma CrashesExactly(db: Rows, msgs: seq<Message>)
    ensures Received(Fresh(db), msgs).crashed <==> exists n :: UsesMissingObject(msgs, n)
  {
    var stop := StopsAt(db, msgs);
    hide Received;
    if n :| UsesMissingObject(msgs, n) {
      if n < stop {
        NoCrashBefore(db, msgs, stop, n);
      }
      assert stop < |msgs| && !msgs[stop].EndOfReturnWork?;
    }
  }

  /** The three kinds: before any unit, after a closed one, and a detail before its event. */
  lemma ThreeKindsOfCrash(db: Rows, u: WorkUnit)
    requires u.accepted
    ensures Received(Fresh(db), [FactorEvent(true, u.name)]).crashed
    ensures Received(Fresh(db), [ReturnWork(true, u), EndReturnWork(u.name), FactorEvent(true, u.name)]).crashed
    ensures Received(Fresh(db), [ReturnWork(true, u), FactorEventDetail(true, u.name)]).crashed
  {
    var a := [FactorEvent(true, u.name)];
    var b := [ReturnWork(true, u), EndReturnWork(u.name), FactorEvent(true, u.name)];
    var c := [ReturnWork(true, u), FactorEventDetail(true, u.name)];
    assert UsesMissingObject(a, 0);
    assert ClosedSince(b, 0, 1, 2);
    assert UsesMissingObject(b, 2);
    assert EventMissing(c, 0, 1);
    assert UsesMissingObject(c, 1);
    CrashesExactly(db, a);
    CrashesExactly(db, b);
    CrashesExactly(db, c);
  }
}
