/** The inductive invariant of the main thread and the system call thread. */
module SyscallThreadSafety {
  import opened Bytes
  import opened SyscallThread

  predicate MainHolds(pc: MainPc) {
    match pc
    case MInIdleWait(_) => false
    case MIdleRelock(_, _) => false
    case MInDequeuedWait => false
    case MDequeuedRelock => false
    case MPollUnlocked => false
    case MPollRelock(_) => false
    case MAsleep => false
    case MActRelock => false
    case MJoin => false
    case MJoinRelock => false
    case _ => true
  }

  predicate ThreadHolds(pc: CallPc) {
    pc == THead || pc == TInvoke || pc == TBeginUnlock || pc == TVerify || pc == TSignalIdle || pc == TExit
  }

  /** The run.h rule: at most one thread is inside, and the mutex says which. */
  ghost predicate LockInv(s: State) {
    && !(MainHolds(s.main) && ThreadHolds(s.thread))
    && s.owner == (if MainHolds(s.main) then Some(MainThread)
                   else if ThreadHolds(s.thread) then Some(CallThread) else None)
  }

  /** The goal the main thread is waiting for the call thread to be idle for. */
  ghost predicate AwaitsFor(events: seq<Event>, s: State, goal: Goal) {
    match goal
    case ToEnqueue => s.event < |events| && events[s.event] == BlockingCall
    case ToInvoke => s.event < |events| && events[s.event] == PlainCall
    case ToExit => s.event == |events|
  }

  predicate AfterEnqueue(pc: MainPc) {
    pc == MSignalEnqueued || pc == MCheckDequeued || pc == MInDequeuedWait || pc == MDequeuedRelock
    || pc == MPoll || pc == MPollUnlocked || pc.MPollRelock?
  }

  predicate WaitsForDequeue(pc: MainPc) {
    pc == MCheckDequeued || pc == MInDequeuedWait || pc == MDequeuedRelock
  }

  predicate AfterExit(pc: MainPc) {
    pc == MSignalExit || pc == MExitUnlock || pc == MJoin || pc == MJoinRelock || pc == MFinished
  }

  ghost predicate MainInv(events: seq<Event>, s: State) {
    && s.event <= |events|
    && (s.condsReady <==> s.main != MCreate && s.main != MInitConds)
    && (s.thread == TNotCreated <==> s.main == MCreate)
    && (s.main == MInitConds ==> s.thread == TFirstLock)
    && (s.call == Exiting <==> AfterExit(s.main))
    && (AfterExit(s.main) ==> s.event == |events|)
    && (s.call == Enqueued ==> s.main == MSignalEnqueued || WaitsForDequeue(s.main))
    && (AfterEnqueue(s.main) || s.main == MEnqueue ==> s.event < |events| && events[s.event] == BlockingCall)
    && match s.main
       case MCreate => s.call == Idle
       case MInitConds => s.call == Idle
       case MAwaitIdle(goal) => AwaitsFor(events, s, goal)
       case MInIdleWait(goal) => AwaitsFor(events, s, goal)
       case MIdleRelock(goal, _) => AwaitsFor(events, s, goal)
       case MEnqueue => s.call == Idle
       case MSignalEnqueued => s.call == Enqueued
       case MActing => s.event < |events| && events[s.event] != BlockingCall
       case MAsleep => s.event < |events| && events[s.event] != BlockingCall
       case MActRelock => s.event < |events| && events[s.event] != BlockingCall
       case MExit => s.call == Idle && s.event == |events|
       case MJoinRelock => s.thread == TTerminated
       case MFinished => s.thread == TTerminated
       case _ => true
  }

  /** What the state field can be at each point of the call thread. */
  ghost predicate ThreadInv(s: State) {
    match s.thread
    case TNotCreated => s.call == Idle
    case TFirstLock => s.call == Idle || s.call == Enqueued || s.call == Exiting
    case THead => s.call == Idle || s.call == Enqueued || s.call == Exiting
    case TInEnqueuedWait => s.call == Idle || s.call == Enqueued || s.call == Exiting
    case TEnqueuedRelock => s.call == Idle || s.call == Enqueued || s.call == Exiting
    case TInvoke => s.call == Enqueued && s.mine == s.event && WaitsForDequeue(s.main)
    case TAsleep => s.call == Enqueued && s.mine == s.event && WaitsForDequeue(s.main)
    case TInvokeRelock => s.call == Enqueued && s.mine == s.event && WaitsForDequeue(s.main)
    case TBeginUnlock => s.call == Running
    case TSignalDequeued => s.call == Running
    case TInCall => s.call == Running
    case TEndLock => s.call == Running
    case TVerify => s.call == Done && s.liveEnd >= 0
    case TSignalIdle => s.call == Idle
    case TExit => s.call == Exiting
    case TTerminated => s.call == Exiting
    case TAssertFailed => false
  }

  /** A thread asleep on a condition that has come true is about to be signalled. */
  ghost predicate NoLostWakeup(s: State) {
    && (s.main == MInDequeuedWait && s.call != Enqueued ==> s.thread == TBeginUnlock || s.thread == TSignalDequeued)
    && (s.main.MInIdleWait? && s.call == Idle ==> s.thread == TSignalIdle)
    && (s.thread == TInEnqueuedWait && s.call == Enqueued ==> s.main == MSignalEnqueued)
    && (s.thread == TInEnqueuedWait && s.call == Exiting ==> s.main == MSignalExit)
  }

  /** Events the main thread has put behind it, as far as enqueuing goes. */
  function Passed(s: State): nat {
    s.event + if AfterEnqueue(s.main) then 1 else 0
  }

  /** Calls are enqueued in script order, each is begun before the next is
      enqueued, and at most the last one is under way. */
  ghost predicate LogInv(events: seq<Event>, s: State) {
    && Passed(s) <= |events| && s.enqueued == BlockingCalls(events, Passed(s))
    && (match s.call
        case Enqueued => s.enqueued == s.begun + [s.event] && s.ended == s.begun
        case Running => s.begun == s.enqueued && s.begun == s.ended + [s.mine]
        case Done => s.begun == s.enqueued && s.begun == s.ended + [s.mine]
        case _ => s.begun == s.enqueued && s.ended == s.begun)
  }

  ghost predicate Alive(events: seq<Event>, s: State) {
    LockInv(s) && MainInv(events, s) && ThreadInv(s) && NoLostWakeup(s) && LogInv(events, s)
  }

  ghost predicate Inv(events: seq<Event>, s: State) {
    s.dead || Alive(events, s)
  }

  // ---------------------------------------------------------------------
  // Each part of the invariant survives each thread's steps
  // ---------------------------------------------------------------------

  lemma MainKeepsLock(events: seq<Event>, s: State, s': State, choice: Choice)
    requires LockInv(s)
    requires MainStep(events, s, choice) == Some(s') && !s'.dead
    ensures LockInv(s')
  {
    match s.main
    case MCreate =>
    case MInitConds =>
    case MHead =>
    case MAwaitIdle(_) =>
    case MInIdleWait(_) =>
    case MIdleRelock(_, _) =>
    case MEnqueue =>
    case MSignalEnqueued =>
    case MCheckDequeued =>
    case MInDequeuedWait =>
    case MDequeuedRelock =>
    case MPoll =>
    case MPollUnlocked =>
    case MPollRelock(_) =>
    case MActing =>
    case MAsleep =>
    case MActRelock =>
    case MExit =>
    case MSignalExit =>
    case MExitUnlock =>
    case MJoin =>
    case MJoinRelock =>
    case MFinished =>
  }

  lemma MainKeepsMain(events: seq<Event>, s: State, s': State, choice: Choice)
    requires MainInv(events, s)
    requires MainStep(events, s, choice) == Some(s') && !s'.dead
    ensures MainInv(events, s')
  {
  }

  lemma MainKeepsThread(events: seq<Event>, s: State, s': State, choice: Choice)
    requires LockInv(s) && MainInv(events, s) && ThreadInv(s)
    requires MainStep(events, s, choice) == Some(s') && !s'.dead
    ensures ThreadInv(s')
  {
  }

  lemma MainKeepsWakeups(events: seq<Event>, s: State, s': State, choice: Choice)
    requires MainInv(events, s) && NoLostWakeup(s)
    requires MainStep(events, s, choice) == Some(s') && !s'.dead
    ensures NoLostWakeup(s')
  {
  }

  /** The main thread touches the log and the state field in two places. */
  lemma MainTouches(events: seq<Event>, s: State, s': State, choice: Choice)
    requires MainInv(events, s)
    requires MainStep(events, s, choice) == Some(s') && !s'.dead
    ensures s'.begun == s.begun && s'.ended == s.ended && s'.mine == s.mine
    ensures s.main == MEnqueue ==>
      s'.call == Enqueued && s'.event == s.event && s'.enqueued == s.enqueued + [s.event]
      && s.call == Idle && s.event < |events| && events[s.event] == BlockingCall
      && Passed(s) == s.event && Passed(s') == s.event + 1
    ensures s.main != MEnqueue ==>
      s'.enqueued == s.enqueued && (s'.call == s.call || (s.call == Idle && s'.call == Exiting))
    ensures s.main != MEnqueue ==>
      Passed(s') == Passed(s)
      || (Passed(s') == Passed(s) + 1 && Passed(s) < |events| && events[Passed(s)] != BlockingCall)
    ensures s.call == Enqueued ==> s'.event == s.event
  {
  }

  lemma MainKeepsLog(events: seq<Event>, s: State, s': State, choice: Choice)
    requires MainInv(events, s) && LogInv(events, s)
    requires MainStep(events, s, choice) == Some(s') && !s'.dead
    ensures LogInv(events, s')
  {
    hide MainStep, MainInv, AfterEnqueue;
    MainTouches(events, s, s', choice);
  }

  lemma MainKeepsInv(events: seq<Event>, s: State, s': State, choice: Choice)
    requires Inv(events, s) && MainStep(events, s, choice) == Some(s')
    ensures Inv(events, s')
  {
    hide LockInv, MainInv, ThreadInv, NoLostWakeup, LogInv;
    if !s'.dead {
      MainKeepsLock(events, s, s', choice);
      MainKeepsMain(events, s, s', choice);
      MainKeepsThread(events, s, s', choice);
      MainKeepsWakeups(events, s, s', choice);
      MainKeepsLog(events, s, s', choice);
    }
  }

  /** None of the thread's assertions fires, and it never meets RUNNING or DONE
      at the head of its loop. */
  lemma NoAssertFires(events: seq<Event>, s: State, s': State, choice: Choice, now: nat)
    requires LockInv(s) && MainInv(events, s) && ThreadInv(s)
    requires CallStep(events, s, choice, now) == Some(s')
    ensures s'.thread != TAssertFailed
  {
  }

  lemma CallKeepsLock(events: seq<Event>, s: State, s': State, choice: Choice, now: nat)
    requires LockInv(s) && s'.thread != TAssertFailed
    requires CallStep(events, s, choice, now) == Some(s') && !s'.dead
    ensures LockInv(s')
  {
    match s.thread
    case TNotCreated =>
    case TFirstLock =>
    case THead =>
    case TInEnqueuedWait =>
    case TEnqueuedRelock =>
    case TInvoke =>
    case TAsleep =>
    case TInvokeRelock =>
    case TBeginUnlock =>
    case TSignalDequeued =>
    case TInCall =>
    case TEndLock =>
    case TVerify =>
    case TSignalIdle =>
    case TExit =>
    case TTerminated =>
    case TAssertFailed =>
  }

  lemma CallKeepsMain(events: seq<Event>, s: State, s': State, choice: Choice, now: nat)
    requires LockInv(s) && MainInv(events, s) && ThreadInv(s)
    requires CallStep(events, s, choice, now) == Some(s') && !s'.dead
    ensures MainInv(events, s')
  {
  }

  lemma CallKeepsThread(events: seq<Event>, s: State, s': State, choice: Choice, now: nat)
    requires LockInv(s) && MainInv(events, s) && ThreadInv(s) && s'.thread != TAssertFailed
    requires CallStep(events, s, choice, now) == Some(s') && !s'.dead
    ensures ThreadInv(s')
  {
  }

  lemma CallKeepsWakeups(events: seq<Event>, s: State, s': State, choice: Choice, now: nat)
    requires ThreadInv(s) && NoLostWakeup(s)
    requires CallStep(events, s, choice, now) == Some(s') && !s'.dead
    ensures NoLostWakeup(s')
  {
  }

  lemma CallKeepsLog(events: seq<Event>, s: State, s': State, choice: Choice, now: nat)
    requires ThreadInv(s) && LogInv(events, s)
    requires CallStep(events, s, choice, now) == Some(s') && !s'.dead
    ensures LogInv(events, s')
  {
  }

  lemma CallKeepsInv(events: seq<Event>, s: State, s': State, choice: Choice, now: nat)
    requires Inv(events, s) && CallStep(events, s, choice, now) == Some(s')
    ensures Inv(events, s')
  {
    hide LockInv, MainInv, ThreadInv, NoLostWakeup, LogInv;
    if !s'.dead {
      NoAssertFires(events, s, s', choice, now);
      CallKeepsLock(events, s, s', choice, now);
      CallKeepsMain(events, s, s', choice, now);
      CallKeepsThread(events, s, s', choice, now);
      CallKeepsWakeups(events, s, s', choice, now);
      CallKeepsLog(events, s, s', choice, now);
    }
  }

}
