/** What every interleaving of main thread and system call thread guarantees. */
module SyscallThreadTheorems {
  import opened Bytes
  import opened SyscallThread
  import opened SyscallThreadSafety

  lemma StepKeepsInv(events: seq<Event>, s: State, s': State, m: Move)
    requires Inv(events, s) && Step(events, s, m) == Some(s')
    ensures Inv(events, s')
  {
    hide Inv, MainStep, CallStep;
    if m.who == MainThread {
      MainKeepsInv(events, s, s', m.choice);
    } else {
      CallKeepsInv(events, s, s', m.choice, m.now);
    }
  }

  lemma {:induction false} RunKeepsInv(events: seq<Event>, run: seq<State>, moves: seq<Move>, i: nat)
    requires IsRun(events, run, moves) && i < |run|
    ensures Inv(events, run[i])
  {
    if i > 0 {
      RunKeepsInv(events, run, moves, i - 1);
      StepKeepsInv(events, run[i - 1], run[i], moves[i - 1]);
    }
  }

  /** Calls begin and end in the order in which they were enqueued, and only the
      last enqueued one may not have ended. */
  ghost predicate OneInFlight(s: State) {
    && s.ended <= s.begun <= s.enqueued
    && |s.enqueued| <= |s.ended| + 1
  }

  /** At every point of every run, also when it dies: the calls enqueued are the
      blocking calls of the script up to where the main thread is, or was before it
      died, and at most one is in flight. */
  lemma {:induction false} CallsInOrder(events: seq<Event>, run: seq<State>, moves: seq<Move>, i: nat)
    returns (k: nat)
    requires IsRun(events, run, moves) && i < |run|
    ensures OneInFlight(run[i])
    ensures k <= |events| && run[i].enqueued == BlockingCalls(events, k)
    ensures k == Passed(run[if run[i].dead then i - 1 else i])
  {
    RunKeepsInv(events, run, moves, i);
    if run[i].dead {
      k := CallsInOrder(events, run, moves, i - 1);
      DyingLogsNothing(events, run[i - 1], run[i], moves[i - 1]);
    } else {
      k := Passed(run[i]);
    }
  }

  lemma DyingLogsNothing(events: seq<Event>, s: State, s': State, m: Move)
    requires Step(events, s, m) == Some(s') && s'.dead
    ensures s'.enqueued == s.enqueued && s'.begun == s.begun && s'.ended == s.ended
  {
  }

  /** The call thread's assertions never fire, it owns the mutex when and only
      when its code says so, it works on the very event that was enqueued, it
      touches no condition variable before it is initialised, and no thread
      sleeps on a condition that has come true unless its signal is still to come. */
  lemma ThreadsAreSafe(events: seq<Event>, run: seq<State>, moves: seq<Move>, i: nat)
    requires IsRun(events, run, moves) && i < |run| && !run[i].dead
    ensures run[i].thread != TAssertFailed
    ensures run[i].thread == THead ==> run[i].call != Running && run[i].call != Done
    ensures LockInv(run[i]) && NoLostWakeup(run[i])
    ensures run[i].thread == TInEnqueuedWait || run[i].thread == TSignalDequeued ==> run[i].condsReady
    ensures run[i].call == Running || run[i].call == Done || run[i].thread == TInvoke ==>
              |run[i].enqueued| > 0 && run[i].mine == run[i].enqueued[|run[i].enqueued| - 1]
  {
    RunKeepsInv(events, run, moves, i);
  }

  // ---------------------------------------------------------------------
  // Progress
  // ---------------------------------------------------------------------

  /** A main thread that gets through has seen every blocking call of the script
      begin and end, and the call thread exit. */
  lemma FinishedMeansDone(events: seq<Event>, run: seq<State>, moves: seq<Move>, i: nat)
    requires IsRun(events, run, moves) && i < |run| && !run[i].dead && run[i].main == MFinished
    ensures run[i].ended == BlockingCalls(events, |events|) && run[i].thread == TTerminated
  {
    RunKeepsInv(events, run, moves, i);
    InvIsDone(events, run[i]);
  }

  lemma InvIsDone(events: seq<Event>, s: State)
    requires Inv(events, s) && !s.dead && s.main == MFinished
    ensures s.ended == BlockingCalls(events, |events|) && s.thread == TTerminated
  {
    hide LockInv, NoLostWakeup;
  }

  /** Without any spurious wakeup or timeout, some thread can always go on. */
  lemma NoDeadlock(events: seq<Event>, run: seq<State>, moves: seq<Move>, i: nat)
    requires IsRun(events, run, moves) && i < |run| && !run[i].dead && run[i].main != MFinished
    ensures MainStep(events, run[i], Go) != None || CallStep(events, run[i], Go, 0) != None
  {
    RunKeepsInv(events, run, moves, i);
    SomeoneCanGo(events, run[i]);
  }

  lemma SomeoneCanGo(events: seq<Event>, s: State)
    requires Alive(events, s) && !s.dead && s.main != MFinished
    ensures MainStep(events, s, Go) != None || CallStep(events, s, Go, 0) != None
  {
    hide LogInv;
  }

  function MainRank(pc: MainPc, call: CallState): nat {
    match pc
    case MCreate => 45
    case MInitConds => 40
    case MHead => 30
    case MAwaitIdle(_) => if call == Idle then 25 else 28
    case MInIdleWait(_) => 27
    case MIdleRelock(_, timedOut) => if timedOut || call == Idle then 26 else 29
    case MEnqueue => 24
    case MSignalEnqueued => 12
    case MCheckDequeued => if call == Enqueued then 10 else 7
    case MInDequeuedWait => 9
    case MDequeuedRelock => if call == Enqueued then 11 else 8
    case MPoll => 6
    case MPollUnlocked => 5
    case MPollRelock(sleeping) => if sleeping then 4 else 7
    case MActing => 3
    case MAsleep => 5
    case MActRelock => 4
    case MExit => 24
    case MSignalExit => 12
    case MExitUnlock => 11
    case MJoin => 10
    case MJoinRelock => 9
    case MFinished => 0
  }

  function ThreadRank(pc: CallPc, call: CallState): nat {
    var called := call == Enqueued || call == Exiting;
    match pc
    case TNotCreated => 0
    case TFirstLock => if called then 11 else 3
    case TEnqueuedRelock => if called then 11 else 3
    case TInEnqueuedWait => if called then 12 else 1
    case THead => if called then 10 else 2
    case TInvoke => 9
    case TAsleep => 11
    case TInvokeRelock => 10
    case TBeginUnlock => 8
    case TSignalDequeued => 7
    case TInCall => 6
    case TEndLock => 5
    case TVerify => 4
    case TSignalIdle => 3
    case TExit => 9
    case TTerminated => 0
    case TAssertFailed => 0
  }

  /** What is still to do: a Go move lowers it, interference raises it by at most 2. */
  function Work(events: seq<Event>, s: State): int {
    31 * (|events| - s.event) + MainRank(s.main, s.call) + ThreadRank(s.thread, s.call)
  }

  /** Where the main thread leaves the call thread and the state field alone. */
  predicate KeepsToItself(pc: MainPc) {
    pc != MCreate && pc != MEnqueue && pc != MSignalEnqueued && pc != MExit && pc != MSignalExit
  }

  lemma MainWorksAlone(events: seq<Event>, s: State, s': State, choice: Choice)
    requires KeepsToItself(s.main) && MainStep(events, s, choice) == Some(s')
    ensures s'.thread == s.thread && s'.call == s.call
    ensures MainRank(s'.main, s.call) <= MainRank(s.main, s.call) + 31 * (s'.event - s.event)
                                         + if choice == Go && !s'.dead then -1 else 2
  {
  }

  lemma MainWorks(events: seq<Event>, s: State, s': State, choice: Choice)
    requires MainInv(events, s) && ThreadInv(s)
    requires MainStep(events, s, choice) == Some(s')
    ensures Work(events, s') <= Work(events, s) + if choice == Go && !s'.dead then -1 else 2
  {
    if KeepsToItself(s.main) {
      hide MainStep, MainInv, ThreadInv, MainRank, ThreadRank;
      MainWorksAlone(events, s, s', choice);
    }
  }

  lemma CallWorks(events: seq<Event>, s: State, s': State, choice: Choice, now: nat)
    requires LockInv(s) && ThreadInv(s)
    requires CallStep(events, s, choice, now) == Some(s')
    ensures Work(events, s') <= Work(events, s) + if choice == Go && !s'.dead then -1 else 2
  {
  }

  function Interference(moves: seq<Move>): nat {
    if moves == [] then 0
    else Interference(moves[..|moves| - 1]) + if moves[|moves| - 1].choice == Go then 0 else 1
  }

  /** Nothing but the environment keeps a run going: its length is bounded by the
      script and by how often the environment interfered. */
  lemma {:induction false} RunsEnd(events: seq<Event>, run: seq<State>, moves: seq<Move>)
    requires IsRun(events, run, moves)
    ensures Work(events, run[|moves|]) + |moves| <= 31 * |events| + 45
        + 3 * (Interference(moves) + if run[|moves|].dead then 1 else 0)
    ensures |moves| <= 31 * |events| + 48 + 3 * Interference(moves)
  {
    var n := |moves|;
    RunKeepsInv(events, run, moves, n);
    if n > 0 {
      var before := moves[..n - 1];
      RunsEnd(events, run[..n], before);
      RunKeepsInv(events, run, moves, n - 1);
      OneMove(events, run[n - 1], run[n], moves[n - 1]);
    }
  }

  lemma OneMove(events: seq<Event>, s: State, s': State, m: Move)
    requires Inv(events, s) && Step(events, s, m) == Some(s')
    ensures !s.dead && (s'.dead || 0 <= Work(events, s'))
    ensures Work(events, s') <= Work(events, s) + if m.choice == Go && !s'.dead then -1 else 2
  {
    hide MainRank, ThreadRank, LogInv, NoLostWakeup;
    if m.who == MainThread {
      MainWorks(events, s, s', m.choice);
    } else {
      CallWorks(events, s, s', m.choice, m.now);
    }
    StepKeepsInv(events, s, s', m);
  }
}
