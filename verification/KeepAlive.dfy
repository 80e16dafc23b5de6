/**
 * The handshake between the thread that sends keepalives (source/KeepAliveThread.cpp) and the sender that waits for it
 * to end (source/WorkSender.cpp), over a cell whose every access takes its lock (source/SharedMemoryItem.cpp). A step
 * is one acquisition, one access or one release.
 */
module KeepAlive {

  const WAITING: int := 1
  const TERMINATE: int := 5
  const TERMINATED: int := 9

  datatype Holder = Free | BySender | ByThread

  /** TCheck, TSend, TGoOn, TLeave, TWrite and TFree hold the lock. */
  datatype ThreadAt = TNone | TSleep | TWant | TCheck | TSend | TGoOn | TLeave | TWantLast | TWrite | TFree | TDone

  /** SSet, SSetDone, SLook, SStore, SAgain and SLeave hold the lock; at SDelete the thread object is deleted. */
  datatype SenderAt =
    | SBegin | SSet | SSetDone | SStart | SWork | SWant | SLook | SStore | SAgain | SSleep | SLeave | SDelete

  datatype State = State(value: int, holder: Holder, thread: ThreadAt, sender: SenderAt, counter: nat, sent: nat)

  datatype Who = Thread | Sender

  predicate ThreadHolds(t: ThreadAt) {
    t.TCheck? || t.TSend? || t.TGoOn? || t.TLeave? || t.TWrite? || t.TFree?
  }

  predicate SenderHolds(p: SenderAt) {
    p.SSet? || p.SSetDone? || p.SLook? || p.SStore? || p.SAgain? || p.SLeave?
  }

  /** A thread that wants the lock waits until it is free; nobody else waits. */
  predicate Enabled(w: Who, s: State) {
    match w
    case Thread => !s.thread.TNone? && !s.thread.TDone? && (s.thread.TWant? || s.thread.TWantLast? ==> s.holder.Free?)
    case Sender => s.sender.SBegin? || s.sender.SWant? ==> s.holder.Free?
  }

  function Step(w: Who, s: State): State
    requires Enabled(w, s)
  {
    if w.Thread? then ThreadStep(s) else SenderStep(s)
  }

  /** One second of sleep, then a look at the cell with the lock held, until it says something other than WAITING. */
  function ThreadStep(s: State): State
    requires Enabled(Thread, s)
  {
    match s.thread
    case TSleep => s.(thread := TWant)
    case TWant => s.(thread := TCheck, holder := ByThread, counter := s.counter + 1)
    case TCheck =>
      if s.value != WAITING then s.(thread := TLeave)
      else if s.counter % 4 == 0 then s.(thread := TSend)
      else s.(thread := TGoOn)
    case TSend => s.(thread := TGoOn, sent := s.sent + 1)
    case TGoOn => s.(thread := TSleep, holder := Free)
    case TLeave => s.(thread := TWantLast, holder := Free)
    case TWantLast => s.(thread := TWrite, holder := ByThread)
    case TWrite => s.(thread := TFree, value := TERMINATED)
    case TFree => s.(thread := TDone, holder := Free)
  }

  /** Sets WAITING, starts the thread, works, then stores TERMINATE every second until it reads TERMINATED. */
  function SenderStep(s: State): State
    requires Enabled(Sender, s)
  {
    match s.sender
    case SBegin => s.(sender := SSet, holder := BySender)
    case SSet => s.(sender := SSetDone, value := WAITING)
    case SSetDone => s.(sender := SStart, holder := Free)
    case SStart => s.(sender := SWork, thread := TSleep, counter := 0, sent := 0)
    case SWork => s.(sender := SWant)
    case SWant => s.(sender := SLook, holder := BySender)
    case SLook => if s.value == TERMINATED then s.(sender := SLeave) else s.(sender := SStore)
    case SStore => s.(sender := SAgain, value := TERMINATE)
    case SAgain => s.(sender := SSleep, holder := Free)
    case SSleep => s.(sender := SWant)
    case SLeave => s.(sender := SDelete, holder := Free)
    case SDelete => s.(sender := SBegin, thread := TNone)
  }

  predicate Start(s: State) {
    s.holder.Free? && s.thread.TNone? && s.sender.SBegin?
  }

  /** The sender is between the start of the thread and its deletion. */
  predicate Running(p: SenderAt) {
    !(p.SBegin? || p.SSet? || p.SSetDone? || p.SStart?)
  }

  predicate ThreadOver(t: ThreadAt) {
    t.TFree? || t.TDone?
  }

  predicate Invariant(s: State) {
    && s.holder == (if ThreadHolds(s.thread) then ByThread else if SenderHolds(s.sender) then BySender else Free)
    && !(ThreadHolds(s.thread) && SenderHolds(s.sender))
    && (s.thread.TNone? <==> !Running(s.sender))
    && (s.sender.SSetDone? || s.sender.SStart? || s.sender.SWork? ==> s.value == WAITING)
    && (Running(s.sender) ==> s.value == WAITING || s.value == TERMINATE || s.value == TERMINATED)
    && (Running(s.sender) ==> (ThreadOver(s.thread) <==> s.value == TERMINATED))
    && (s.thread.TLeave? || s.thread.TWantLast? || s.thread.TWrite? ==> s.value == TERMINATE)
    && (s.thread.TSend? || s.thread.TGoOn? ==> s.value == WAITING)
    && (s.sender.SStore? ==> s.value != TERMINATED)
    && (s.sender.SAgain? ==> s.value == TERMINATE)
    && (s.sender.SLeave? || s.sender.SDelete? ==> s.thread.TDone?)
    && (Running(s.sender) ==> KeepalivesCounted(s))
  }

  /** One keepalive at every fourth look at the cell. */
  predicate KeepalivesCounted(s: State) {
    if s.thread.TSend? then s.counter % 4 == 0 && s.counter > 0 && s.sent == s.counter / 4 - 1
    else if s.thread.TCheck? then s.counter > 0 && s.sent == (s.counter - 1) / 4
    else if s.thread.TSleep? || s.thread.TWant? || s.thread.TGoOn? then s.sent == s.counter / 4
    else true
  }

  lemma StartHolds(s: State)
    requires Start(s)
    ensures Invariant(s)
  {
  }

  lemma StepKeepsInvariant(w: Who, s: State)
    requires Invariant(s) && Enabled(w, s)
    ensures Invariant(Step(w, s))
  {
  }

  // ---------------------------------------------------------------- every interleaving

  predicate CanRun(s: State, run: seq<Who>)
    decreases |run|
  {
    |run| == 0 || (Enabled(run[0], s) && CanRun(Step(run[0], s), run[1..]))
  }

  function Run(s: State, run: seq<Who>): State
    requires CanRun(s, run)
    decreases |run|
  {
    if |run| == 0 then s else Run(Step(run[0], s), run[1..])
  }

  lemma {:induction false} RunKeepsInvariant(s: State, run: seq<Who>)
    requires Invariant(s) && CanRun(s, run)
    ensures Invariant(Run(s, run))
    decreases |run|
  {
    if |run| > 0 {
      StepKeepsInvariant(run[0], s);
      RunKeepsInvariant(Step(run[0], s), run[1..]);
    }
  }

  /** TERMINATED stays until the thread object is deleted. */
  lemma TerminatedStays(w: Who, s: State)
    requires Invariant(s) && Enabled(w, s) && Running(s.sender) && s.value == TERMINATED
    ensures Step(w, s).value == TERMINATED
  {
  }

  /** A keepalive is only sent while the cell says WAITING, and never when the sender is past its loop. */
  lemma KeepaliveOnlyWhileWaiting(w: Who, s: State)
    requires Invariant(s) && Enabled(w, s) && Step(w, s).sent > s.sent
    ensures w == Thread && s.value == WAITING && s.counter % 4 == 0
    ensures !s.sender.SLeave? && !s.sender.SDelete? && !s.sender.SAgain?
  {
  }

  /** In every interleaving: when the sender deletes the thread object, the thread has no step left to take. */
  lemma DeletedThreadIsOver(s: State, run: seq<Who>)
    requires Start(s) && CanRun(s, run) && Run(s, run).sender.SDelete?
    ensures Run(s, run).thread.TDone? && Run(s, run).value == TERMINATED && !Enabled(Thread, Run(s, run))
  {
    StartHolds(s);
    RunKeepsInvariant(s, run);
  }

  /** Whoever holds the lock can go on, and somebody always can. */
  lemma NobodyBlocks(s: State)
    requires Invariant(s)
    ensures Enabled(Sender, s) || Enabled(Thread, s)
    ensures s.holder.BySender? ==> Enabled(Sender, s)
    ensures s.holder.ByThread? ==> Enabled(Thread, s)
  {
  }

  // ---------------------------------------------------------------- bounded termination

  /** Steps of its own that the thread still takes once TERMINATE is stored. */
  function ThreadLeft(t: ThreadAt): nat {
    match t
    case TSleep => 7
    case TWant => 6
    case TCheck => 5
    case TLeave => 4
    case TWantLast => 3
    case TWrite => 2
    case TFree => 1
    case _ => 0
  }

  /** Steps of its own that the sender still takes once TERMINATED is stored. */
  function SenderLeft(p: SenderAt): nat {
    match p
    case SSleep => 4
    case SWant => 3
    case SLook => 2
    case SLeave => 1
    case _ => 0
  }

  function Steps(run: seq<Who>, w: Who): nat {
    if |run| == 0 then 0 else Steps(run[1..], w) + (if run[0] == w then 1 else 0)
  }

  /** The sender does not delete the thread object during the run. */
  predicate WithinRound(s: State, run: seq<Who>)
    requires CanRun(s, run)
    decreases |run|
  {
    && Running(s.sender)
    && (|run| == 0 || (!(s.sender.SDelete? && run[0] == Sender) && WithinRound(Step(run[0], s), run[1..])))
  }

  lemma CountdownStep(w: Who, s: State)
    requires Invariant(s) && Enabled(w, s) && Running(s.sender) && s.value != WAITING
    requires !(s.sender.SDelete? && w == Sender)
    ensures Step(w, s).value != WAITING
    ensures ThreadLeft(Step(w, s).thread) == ThreadLeft(s.thread) - (if w == Thread then 1 else 0)
  {
  }

  /**
   * Once TERMINATE is stored, the thread takes at most seven more steps, whatever the sender does; after as many as
   * ThreadLeft says it is over and the cell says TERMINATED.
   */
  lemma {:induction false} ThreadEnds(s: State, run: seq<Who>)
    requires Invariant(s) && CanRun(s, run) && WithinRound(s, run) && s.value != WAITING
    ensures Steps(run, Thread) <= ThreadLeft(s.thread) <= 7
    ensures Steps(run, Thread) == ThreadLeft(s.thread) ==>
      Run(s, run).thread.TDone? && Run(s, run).value == TERMINATED
    decreases |run|
  {
    if |run| > 0 {
      CountdownStep(run[0], s);
      StepKeepsInvariant(run[0], s);
      ThreadEnds(Step(run[0], s), run[1..]);
    }
  }

  /** Once TERMINATED is stored, the sender leaves its loop within four of its own steps. */
  lemma {:induction false} SenderLeaves(s: State, run: seq<Who>)
    requires Invariant(s) && CanRun(s, run) && WithinRound(s, run) && s.value == TERMINATED
    ensures Steps(run, Sender) <= SenderLeft(s.sender) <= 4
    ensures Steps(run, Sender) == SenderLeft(s.sender) ==> Run(s, run).sender.SDelete?
    decreases |run|
  {
    if |run| > 0 {
      TerminatedStays(run[0], s);
      StepKeepsInvariant(run[0], s);
      SenderLeaves(Step(run[0], s), run[1..]);
    }
  }
}
