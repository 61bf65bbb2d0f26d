/**
The main thread and the thread that executes blocking system calls
(run_system_call.c, locking rules in run.h). They share one mutex, three
condition variables and a five-valued state field. A step is one lock, unlock,
wait, signal or one access to the shared fields; the threads interleave freely.
A handler is the bracket begin_syscall .. the call itself .. end_syscall.
 */
module SyscallThread {
  import opened Bytes

  /** The events the main thread walks: blocking system calls, the others, and
      everything that is not a system call. */
  datatype Event = BlockingCall | PlainCall | OtherEvent

  datatype CallState = Idle | Enqueued | Running | Done | Exiting

  datatype Thread = MainThread | CallThread

  /** What the main thread does once the call thread is idle. */
  datatype Goal = ToEnqueue | ToInvoke | ToExit

  datatype MainPc =
    | MCreate | MInitConds
    | MHead
    | MAwaitIdle(goal: Goal) | MInIdleWait(goal: Goal) | MIdleRelock(goal: Goal, timedOut: bool)
    | MEnqueue | MSignalEnqueued
    | MCheckDequeued | MInDequeuedWait | MDequeuedRelock
    | MPoll | MPollUnlocked | MPollRelock(sleeping: bool)
    | MActing | MAsleep | MActRelock
    | MExit | MSignalExit | MExitUnlock | MJoin | MJoinRelock | MFinished

  datatype CallPc =
    | TNotCreated | TFirstLock
    | THead | TInEnqueuedWait | TEnqueuedRelock
    | TInvoke | TAsleep | TInvokeRelock
    | TBeginUnlock | TSignalDequeued | TInCall | TEndLock
    | TVerify | TSignalIdle
    | TExit | TTerminated
    | TAssertFailed

  /** `event` is state->event as an index; `mine` is the call thread's own copy
      and `returned` the time at which its call came back; `liveEnd` is live_end_usecs.
      The three logs record which events were enqueued, begun and ended. */
  datatype State = State(
    owner: Option<Thread>, call: CallState, condsReady: bool, event: nat,
    main: MainPc, thread: CallPc, mine: nat, returned: nat, liveEnd: int, dead: bool,
    enqueued: seq<nat>, begun: seq<nat>, ended: seq<nat>)

  /** What the environment decides at a step. Go is the step the code takes by
      itself; everything else is interference: a wakeup without a signal, the
      one-second timeout, a sleep until an event's time, the call thread not yet
      seen asleep, or a runtime error that ends the process. */
  datatype Choice = Go | Spurious | Timeout | Sleep | NotYet | Die

  function Init(): State {
    State(Some(MainThread), Idle, false, 0, MCreate, TNotCreated, 0, 0, -1, false, [], [], [])
  }

  // pthread_cond_signal: whoever waits on the condition starts relocking.

  function WakeEnqueued(s: State): State {
    if s.thread == TInEnqueuedWait then s.(thread := TEnqueuedRelock) else s
  }

  function WakeDequeued(s: State): State {
    if s.main == MInDequeuedWait then s.(main := MDequeuedRelock) else s
  }

  function WakeIdle(s: State): State {
    if s.main.MInIdleWait? then s.(main := MIdleRelock(s.main.goal, false)) else s
  }

  function NextEvent(s: State): State {
    s.(main := MHead, event := s.event + 1)
  }

  // ---------------------------------------------------------------------
  // The main thread
  // ---------------------------------------------------------------------

  function Proceed(s: State, goal: Goal): State {
    s.(main := match goal case ToEnqueue => MEnqueue case ToInvoke => MActing case ToExit => MExit)
  }

  /** await_idle_thread timed out: enqueuing and exiting die, a plain call goes
      ahead regardless. */
  function TimedOut(s: State, goal: Goal): State {
    if goal == ToInvoke then s.(main := MActing) else s.(dead := true)
  }

  function MainStep(events: seq<Event>, s: State, choice: Choice): Option<State> {
    if s.dead then None else
    match s.main
    case MCreate => if choice == Go then Some(s.(thread := TFirstLock, main := MInitConds)) else None
    case MInitConds => if choice == Go then Some(s.(condsReady := true, main := MHead)) else None
    case MHead =>
      if choice != Go then None
      else if s.event >= |events| then Some(s.(main := MAwaitIdle(ToExit)))
      else (
        match events[s.event]
        case BlockingCall => Some(s.(main := MAwaitIdle(ToEnqueue)))
        case PlainCall => Some(s.(main := MAwaitIdle(ToInvoke)))
        case OtherEvent => Some(s.(main := MActing))
      )
    case MAwaitIdle(goal) =>
      if choice != Go then None
      else if s.call == Idle then Some(Proceed(s, goal))
      else Some(s.(main := MInIdleWait(goal), owner := None))
    case MInIdleWait(goal) =>
      (match choice
       case Spurious => Some(s.(main := MIdleRelock(goal, false)))
       case Timeout => Some(s.(main := MIdleRelock(goal, true)))
       case _ => None)
    case MIdleRelock(goal, timedOut) =>
      if choice != Go || s.owner != None then None
      else
        var locked := s.(owner := Some(MainThread));
        Some(if timedOut then TimedOut(locked, goal) else locked.(main := MAwaitIdle(goal)))
    case MEnqueue =>
      if choice != Go then None
      else Some(s.(call := Enqueued, enqueued := s.enqueued + [s.event], main := MSignalEnqueued))
    case MSignalEnqueued =>
      if choice == Go then Some(WakeEnqueued(s).(main := MCheckDequeued)) else None
    case MCheckDequeued =>
      if choice != Go then None
      else if s.call == Enqueued then Some(s.(main := MInDequeuedWait, owner := None))
      else Some(s.(main := MPoll))
    case MInDequeuedWait =>
      if choice == Spurious then Some(s.(main := MDequeuedRelock)) else None
    case MDequeuedRelock =>
      if choice == Go && s.owner == None then Some(s.(owner := Some(MainThread), main := MCheckDequeued)) else None
    case MPoll =>
      if choice == Go then Some(s.(owner := None, main := MPollUnlocked)) else None
    case MPollUnlocked =>
      if choice == Go then Some(s.(main := MPollRelock(true)))
      else if choice == NotYet then Some(s.(main := MPollRelock(false)))
      else None
    case MPollRelock(sleeping) =>
      if choice != Go || s.owner != None then None
      else
        var locked := s.(owner := Some(MainThread));
        Some(if sleeping || s.call == Idle then NextEvent(locked) else locked.(main := MPoll))
    case MActing =>
      (match choice
       case Go => Some(NextEvent(s))
       case Sleep => Some(s.(owner := None, main := MAsleep))
       case Die => Some(s.(dead := true))
       case _ => None)
    case MAsleep => if choice == Go then Some(s.(main := MActRelock)) else None
    case MActRelock =>
      if choice == Go && s.owner == None then Some(s.(owner := Some(MainThread), main := MActing)) else None
    case MExit => if choice == Go then Some(s.(call := Exiting, main := MSignalExit)) else None
    case MSignalExit => if choice == Go then Some(WakeEnqueued(s).(main := MExitUnlock)) else None
    case MExitUnlock => if choice == Go then Some(s.(owner := None, main := MJoin)) else None
    case MJoin => if choice == Go && s.thread == TTerminated then Some(s.(main := MJoinRelock)) else None
    case MJoinRelock =>
      if choice == Go && s.owner == None then Some(s.(owner := Some(MainThread), main := MFinished)) else None
    case MFinished => None
  }

  // ---------------------------------------------------------------------
  // The system call thread
  // ---------------------------------------------------------------------

  function CallStep(events: seq<Event>, s: State, choice: Choice, now: nat): Option<State> {
    if s.dead then None else
    match s.thread
    case TNotCreated => None
    case TFirstLock =>
      if choice == Go && s.owner == None then Some(s.(owner := Some(CallThread), thread := THead)) else None
    case THead =>
      if choice != Go then None
      else (
        match s.call
        case Idle =>
          Some(if s.condsReady then s.(thread := TInEnqueuedWait, owner := None) else s.(thread := TAssertFailed))
        case Running => Some(s.(thread := TAssertFailed))
        case Done => Some(s.(thread := TAssertFailed))
        case Enqueued =>
          Some(if s.event < |events| && events[s.event] == BlockingCall
               then s.(mine := s.event, liveEnd := -1, thread := TInvoke)
               else s.(thread := TAssertFailed))
        case Exiting => Some(s.(thread := TExit))
      )
    case TInEnqueuedWait =>
      if choice == Spurious then Some(s.(thread := TEnqueuedRelock)) else None
    case TEnqueuedRelock =>
      if choice == Go && s.owner == None then Some(s.(owner := Some(CallThread), thread := THead)) else None
    case TInvoke =>
      (match choice
       case Go =>
         Some(if s.call == Enqueued
              then s.(call := Running, begun := s.begun + [s.mine], thread := TBeginUnlock)
              else s.(thread := TAssertFailed))
       case Sleep => Some(s.(owner := None, thread := TAsleep))
       case Die => Some(s.(dead := true))
       case _ => None)
    case TAsleep => if choice == Go then Some(s.(thread := TInvokeRelock)) else None
    case TInvokeRelock =>
      if choice == Go && s.owner == None then Some(s.(owner := Some(CallThread), thread := TInvoke)) else None
    case TBeginUnlock => if choice == Go then Some(s.(owner := None, thread := TSignalDequeued)) else None
    case TSignalDequeued => if choice == Go then Some(WakeDequeued(s).(thread := TInCall)) else None
    case TInCall => if choice == Go then Some(s.(returned := now, thread := TEndLock)) else None
    case TEndLock =>
      if choice != Go || s.owner != None then None
      else Some(if s.call == Running
                then s.(owner := Some(CallThread), liveEnd := s.returned, call := Done, thread := TVerify)
                else s.(thread := TAssertFailed))
    case TVerify =>
      (match choice
       case Go =>
         Some(if s.liveEnd >= 0 && s.call == Done
              then s.(call := Idle, liveEnd := -1, ended := s.ended + [s.mine], thread := TSignalIdle)
              else s.(thread := TAssertFailed))
       case Die => Some(s.(dead := true))
       case _ => None)
    case TSignalIdle => if choice == Go then Some(WakeIdle(s).(thread := THead)) else None
    case TExit => if choice == Go then Some(s.(owner := None, thread := TTerminated)) else None
    case TTerminated => None
    case TAssertFailed => None
  }

  // ---------------------------------------------------------------------
  // Runs
  // ---------------------------------------------------------------------

  /** `now` is what the clock shows. */
  datatype Move = Move(who: Thread, choice: Choice, now: nat)

  function Step(events: seq<Event>, s: State, m: Move): Option<State> {
    if m.who == MainThread then MainStep(events, s, m.choice) else CallStep(events, s, m.choice, m.now)
  }

  /** An interleaving: run[i + 1] is what moves[i] makes of run[i]. */
  ghost predicate IsRun(events: seq<Event>, run: seq<State>, moves: seq<Move>) {
    && |run| == |moves| + 1 && run[0] == Init()
    && forall i | 0 <= i < |moves| :: Step(events, run[i], moves[i]) == Some(run[i + 1])
  }

  /** The blocking calls among the first k events. */
  function BlockingCalls(events: seq<Event>, k: nat): seq<nat>
    requires k <= |events|
  {
    if k == 0 then []
    else BlockingCalls(events, k - 1) + if events[k - 1] == BlockingCall then [k - 1] else []
  }
}
