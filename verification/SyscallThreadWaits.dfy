/** Who waits for whom, and why a run ends early, said of events, moves and logs. */
module SyscallThreadWaits {
  import opened Bytes
  import opened SyscallThread
  import opened SyscallThreadSafety
  import opened SyscallThreadTheorems

  // ---------------------------------------------------------------------
  // What has happened since an event was fetched
  // ---------------------------------------------------------------------

  /** While at the event it is at in run[i], the main thread has met this choice. */
  ghost predicate Met(run: seq<State>, moves: seq<Move>, i: nat, choice: Choice)
    requires i < |run| && |run| == |moves| + 1
  {
    exists j | 0 <= j < i :: MetAt(run[j], moves[j], run[i].event, choice)
  }

  predicate MetAt(s: State, m: Move, event: nat, choice: Choice) {
    s.event == event && m.who == MainThread && m.choice == choice
  }

  /** The main thread has looked at the call thread and found it sleeping. */
  ghost predicate SeenAsleep(run: seq<State>, moves: seq<Move>, i: nat)
    requires i < |run| && |run| == |moves| + 1
  {
    exists j | 0 <= j < i :: LooksAt(run[j], moves[j], run[i].event)
  }

  predicate LooksAt(s: State, m: Move, event: nat) {
    s.main == MPollUnlocked && MetAt(s, m, event, Go)
  }

  predicate Acts(pc: MainPc) {
    pc == MActing || pc == MAsleep || pc == MActRelock
  }

  predicate Polls(pc: MainPc) {
    pc == MPoll || pc == MPollUnlocked || pc.MPollRelock?
  }

  predicate IsEvent(events: seq<Event>, k: nat, e: Event) {
    k < |events| && events[k] == e
  }

  /** What holds at each point of the main thread's code because of what has happened. */
  ghost predicate Waited(events: seq<Event>, s: State, timeout: bool, asleep: bool) {
    && (Acts(s.main) && IsEvent(events, s.event, PlainCall) ==> s.ended == s.enqueued || timeout)
    && (s.main.MIdleRelock? && s.main.timedOut ==> timeout)
    && (s.main.MPollRelock? && s.main.sleeping ==> asleep)
    && (Polls(s.main) ==> s.begun == s.enqueued)
  }

  lemma MetLater(run: seq<State>, moves: seq<Move>, i: nat, choice: Choice)
    requires |run| == |moves| + 1 && i < |moves| && run[i + 1].event == run[i].event
    ensures Met(run, moves, i, choice) ==> Met(run, moves, i + 1, choice)
    ensures SeenAsleep(run, moves, i) ==> SeenAsleep(run, moves, i + 1)
    ensures MetAt(run[i], moves[i], run[i].event, choice) ==> Met(run, moves, i + 1, choice)
    ensures LooksAt(run[i], moves[i], run[i].event) ==> SeenAsleep(run, moves, i + 1)
  {
    if Met(run, moves, i, choice) {
      var j :| 0 <= j < i && MetAt(run[j], moves[j], run[i].event, choice);
      assert MetAt(run[j], moves[j], run[i + 1].event, choice);
    }
    if SeenAsleep(run, moves, i) {
      var j :| 0 <= j < i && LooksAt(run[j], moves[j], run[i].event);
      assert LooksAt(run[j], moves[j], run[i + 1].event);
    }
  }

  /** What the state field says about the logs. */
  ghost predicate LogFacts(s: State) {
    && (s.call == Enqueued ==> s.begun != s.enqueued) && (s.call == Done ==> s.ended != s.enqueued)
    && (s.call != Enqueued ==> s.begun == s.enqueued) && (s.call == Idle ==> s.ended == s.enqueued)
  }

  lemma LogsSay(events: seq<Event>, s: State)
    requires LogInv(events, s)
    ensures LogFacts(s)
  {
    hide BlockingCalls, Passed;
    assert s.call == Enqueued ==> |s.enqueued| == |s.begun| + 1;
    assert s.call == Done ==> |s.enqueued| == |s.ended| + 1;
  }

  predicate SameMain(s: State, s': State) {
    && s'.event == s.event && s'.enqueued == s.enqueued
    && (|| s'.main == s.main
        || (s.main == MInDequeuedWait && s'.main == MDequeuedRelock)
        || (s.main.MInIdleWait? && s'.main == MIdleRelock(s.main.goal, false)))
  }

  /** The call thread ends what was enqueued, and no more. */
  lemma CallLogs(events: seq<Event>, s: State, s': State, choice: Choice, now: nat)
    requires LogFacts(s) && CallStep(events, s, choice, now) == Some(s')
    ensures SameMain(s, s')
    ensures s.begun == s.enqueued ==> s'.begun == s.begun
    ensures s.ended == s.enqueued ==> s'.ended == s.ended
  {
    hide SameMain;
    CallSparesMain(events, s, s', choice, now);
  }

  lemma CallSparesMain(events: seq<Event>, s: State, s': State, choice: Choice, now: nat)
    requires CallStep(events, s, choice, now) == Some(s')
    ensures SameMain(s, s')
  {
  }

  lemma CallKeepsWaited(events: seq<Event>, s: State, s': State, choice: Choice, now: nat, timeout: bool, asleep: bool)
    requires LogFacts(s) && Waited(events, s, timeout, asleep) && CallStep(events, s, choice, now) == Some(s')
    ensures s'.event == s.event && Waited(events, s', timeout, asleep)
  {
    hide CallStep, LogFacts;
    CallLogs(events, s, s', choice, now);
  }

  lemma ProceedWaits(events: seq<Event>, s: State, s': State, choice: Choice)
    requires LogFacts(s) && (s.main.MAwaitIdle? || s.main.MInIdleWait? || s.main.MIdleRelock?)
    requires MainStep(events, s, choice) == Some(s')
    ensures s'.event == s.event && s'.ended == s.ended && s'.enqueued == s.enqueued && !Polls(s'.main)
    ensures Acts(s'.main) ==> s.ended == s.enqueued || (s.main.MIdleRelock? && s.main.timedOut)
    ensures s'.main.MIdleRelock? && s'.main.timedOut ==> choice == Timeout || s'.main == s.main
  {
  }

  predicate Enqueues(pc: MainPc) {
    WaitsForDequeue(pc) || pc == MEnqueue || pc == MSignalEnqueued
  }

  lemma EnqueueWaits(events: seq<Event>, s: State, s': State, choice: Choice)
    requires LogFacts(s) && Enqueues(s.main) && MainStep(events, s, choice) == Some(s')
    ensures s'.event == s.event && !Acts(s'.main) && !s'.main.MIdleRelock? && !s'.main.MPollRelock?
    ensures Polls(s'.main) ==> s'.begun == s'.enqueued
  {
  }

  lemma PollWaits(events: seq<Event>, s: State, s': State, choice: Choice)
    requires Polls(s.main) && MainStep(events, s, choice) == Some(s')
    ensures s'.event == s.event || (s'.event == s.event + 1 && s'.main == MHead)
    ensures !Acts(s'.main) && !s'.main.MIdleRelock? && s'.begun == s.begun && s'.enqueued == s.enqueued
    ensures s'.main.MPollRelock? && s'.main.sleeping ==> s.main == MPollUnlocked && choice == Go
  {
  }

  lemma OtherWaits(events: seq<Event>, s: State, s': State, choice: Choice)
    requires !(s.main.MAwaitIdle? || s.main.MInIdleWait? || s.main.MIdleRelock?)
    requires !Enqueues(s.main) && !Polls(s.main)
    requires MainStep(events, s, choice) == Some(s')
    ensures s'.event == s.event || (s'.event == s.event + 1 && s'.main == MHead)
    ensures !Polls(s'.main) && !s'.main.MIdleRelock? && s'.ended == s.ended && s'.enqueued == s.enqueued
    ensures Acts(s'.main) ==> s'.event == s.event && (Acts(s.main) || !IsEvent(events, s.event, PlainCall))
  {
  }

  lemma MainKeepsWaited(events: seq<Event>, s: State, s': State, choice: Choice, timeout: bool, asleep: bool)
    requires LogFacts(s) && Waited(events, s, timeout, asleep) && MainStep(events, s, choice) == Some(s')
    ensures s'.event == s.event || (s'.event == s.event + 1 && s'.main == MHead)
    ensures Waited(events, s', timeout || choice == Timeout, asleep || (s.main == MPollUnlocked && choice == Go))
  {
    hide MainStep, LogFacts;
    if s.main.MAwaitIdle? || s.main.MInIdleWait? || s.main.MIdleRelock? {
      ProceedWaits(events, s, s', choice);
    } else if Enqueues(s.main) {
      EnqueueWaits(events, s, s', choice);
    } else if Polls(s.main) {
      PollWaits(events, s, s', choice);
    } else {
      OtherWaits(events, s, s', choice);
    }
  }

  lemma {:induction false} RunWaits(events: seq<Event>, run: seq<State>, moves: seq<Move>, i: nat)
    requires IsRun(events, run, moves) && i < |run| && !run[i].dead
    ensures Waited(events, run[i], Met(run, moves, i, Timeout), SeenAsleep(run, moves, i))
  {
    if i > 0 {
      hide Waited, Met, SeenAsleep, Inv, MainStep, CallStep;
      var s, m, s' := run[i - 1], moves[i - 1], run[i];
      assert Step(events, run[i - 1], moves[i - 1]) == Some(run[i - 1 + 1]);
      StepFromAlive(events, s, m);
      RunWaits(events, run, moves, i - 1);
      RunKeepsInv(events, run, moves, i - 1);
      WaitsStep(events, run, moves, i - 1);
    }
  }

  lemma StepFromAlive(events: seq<Event>, s: State, m: Move)
    requires Step(events, s, m).Some?
    ensures !s.dead
  {
  }

  lemma WaitsStep(events: seq<Event>, run: seq<State>, moves: seq<Move>, i: nat)
    requires |run| == |moves| + 1 && i < |moves| && Step(events, run[i], moves[i]) == Some(run[i + 1])
    requires Inv(events, run[i]) && !run[i].dead
    requires Waited(events, run[i], Met(run, moves, i, Timeout), SeenAsleep(run, moves, i))
    ensures Waited(events, run[i + 1], Met(run, moves, i + 1, Timeout), SeenAsleep(run, moves, i + 1))
  {
    hide Waited, Met, SeenAsleep, MainStep, CallStep, LogInv, LogFacts, MainInv, ThreadInv, LockInv, NoLostWakeup;
    var s, m, s' := run[i], moves[i], run[i + 1];
    var timeout, asleep := Met(run, moves, i, Timeout), SeenAsleep(run, moves, i);
    LogsSay(events, s);
    if m.who == MainThread {
      MainKeepsWaited(events, s, s', m.choice, timeout, asleep);
      if s'.event == s.event {
        MetLater(run, moves, i, Timeout);
        WaitedMore(events, s', timeout || m.choice == Timeout, asleep || (s.main == MPollUnlocked && m.choice == Go),
                   Met(run, moves, i + 1, Timeout), SeenAsleep(run, moves, i + 1));
      } else {
        HeadWaited(events, s', Met(run, moves, i + 1, Timeout), SeenAsleep(run, moves, i + 1));
      }
    } else {
      CallKeepsWaited(events, s, s', m.choice, m.now, timeout, asleep);
      MetLater(run, moves, i, Timeout);
      WaitedMore(events, s', timeout, asleep, Met(run, moves, i + 1, Timeout), SeenAsleep(run, moves, i + 1));
    }
  }

  lemma WaitedMore(events: seq<Event>, s: State, timeout: bool, asleep: bool, timeout': bool, asleep': bool)
    requires Waited(events, s, timeout, asleep) && (timeout ==> timeout') && (asleep ==> asleep')
    ensures Waited(events, s, timeout', asleep')
  {
  }

  lemma HeadWaited(events: seq<Event>, s: State, timeout: bool, asleep: bool)
    requires s.main == MHead
    ensures Waited(events, s, timeout, asleep)
  {
  }

  // ---------------------------------------------------------------------
  // The main thread waits
  // ---------------------------------------------------------------------

  /** The move takes the main thread past the event it is at. */
  ghost predicate PassesEvent(run: seq<State>, moves: seq<Move>, i: nat, events: seq<Event>, e: Event)
    requires |run| == |moves| + 1 && i < |moves|
  {
    moves[i].who == MainThread && run[i + 1].event == run[i].event + 1 && IsEvent(events, run[i].event, e)
  }

  lemma PassingFrom(events: seq<Event>, s: State, s': State, choice: Choice)
    requires MainInv(events, s) && MainStep(events, s, choice) == Some(s') && s'.event == s.event + 1
    ensures !s.dead && choice == Go && s.event < |events|
    ensures events[s.event] != BlockingCall ==> s.main == MActing
    ensures events[s.event] == BlockingCall ==> s.main.MPollRelock? && (s.main.sleeping || s.call == Idle)
  {
  }

  lemma PassingFacts(events: seq<Event>, run: seq<State>, moves: seq<Move>, i: nat, e: Event)
    requires IsRun(events, run, moves) && i < |moves| && PassesEvent(run, moves, i, events, e)
    ensures !run[i].dead && Alive(events, run[i]) && MainStep(events, run[i], moves[i].choice) == Some(run[i + 1])
    ensures Waited(events, run[i], Met(run, moves, i, Timeout), SeenAsleep(run, moves, i))
  {
    hide MainStep, CallStep, Waited, Met, SeenAsleep, Alive;
    assert Step(events, run[i], moves[i]) == Some(run[i + 1]);
    StepFromAlive(events, run[i], moves[i]);
    RunKeepsInv(events, run, moves, i);
    RunWaits(events, run, moves, i);
  }

  /** A plain call is done only when every blocking call that was enqueued has ended, or after
      a wait for that has timed out. */
  lemma PlainCallsWait(events: seq<Event>, run: seq<State>, moves: seq<Move>, i: nat)
    requires IsRun(events, run, moves) && i < |moves| && PassesEvent(run, moves, i, events, PlainCall)
    ensures run[i].ended == run[i].enqueued || Met(run, moves, i, Timeout)
  {
    hide MainStep, CallStep, Met, SeenAsleep, LogInv, ThreadInv, LockInv, NoLostWakeup, MainInv;
    PassingFacts(events, run, moves, i, PlainCall);
    PassingFrom(events, run[i], run[i + 1], moves[i].choice);
  }

  /** The main thread goes on from a blocking call only when the call has begun, and has ended
      or its thread has been seen sleeping. */
  lemma BlockingCallsStart(events: seq<Event>, run: seq<State>, moves: seq<Move>, i: nat)
    requires IsRun(events, run, moves) && i < |moves| && PassesEvent(run, moves, i, events, BlockingCall)
    ensures run[i].begun != [] && run[i].begun[|run[i].begun| - 1] == run[i].event
    ensures run[i].ended == run[i].begun || SeenAsleep(run, moves, i)
  {
    hide MainStep, CallStep, Met, SeenAsleep, ThreadInv, LockInv, NoLostWakeup, MainInv;
    PassingFacts(events, run, moves, i, BlockingCall);
    PassingFrom(events, run[i], run[i + 1], moves[i].choice);
  }

  // ---------------------------------------------------------------------
  // Why a run dies
  // ---------------------------------------------------------------------

  /** A run dies of a runtime error, or because a wait for the call thread timed out where it
      was to be given another call or told to exit. */
  lemma DiesFor(events: seq<Event>, run: seq<State>, moves: seq<Move>, i: nat)
    requires IsRun(events, run, moves) && i < |moves| && run[i + 1].dead
    ensures moves[i].choice == Die || (Met(run, moves, i, Timeout) && !IsEvent(events, run[i].event, PlainCall))
  {
    hide Met, SeenAsleep, LogInv, ThreadInv, LockInv, NoLostWakeup;
    assert Step(events, run[i], moves[i]) == Some(run[i + 1]);
    StepFromAlive(events, run[i], moves[i]);
    RunKeepsInv(events, run, moves, i);
    RunWaits(events, run, moves, i);
  }

  predicate Lost(s: State, event: nat, enqueued: seq<nat>) {
    && s.event == event && s.enqueued == enqueued
    && (s.dead || (s.main.MIdleRelock? && s.main.timedOut && s.main.goal != ToInvoke))
  }

  lemma LostStays(events: seq<Event>, s: State, s': State, m: Move)
    requires Lost(s, s.event, s.enqueued) && Step(events, s, m) == Some(s')
    ensures Lost(s', s.event, s.enqueued)
  {
  }

  lemma TimeoutLoses(events: seq<Event>, s: State, s': State)
    requires MainInv(events, s) && MainStep(events, s, Timeout) == Some(s')
    ensures IsEvent(events, s.event, PlainCall) || Lost(s', s.event, s.enqueued)
  {
  }

  /** After such a timeout nothing more is enqueued and no event is passed. */
  lemma {:induction false} TimeoutIsFatal(events: seq<Event>, run: seq<State>, moves: seq<Move>, j: nat, k: nat)
    requires IsRun(events, run, moves) && j < k < |run| && moves[j].who == MainThread && moves[j].choice == Timeout
    requires !IsEvent(events, run[j].event, PlainCall)
    ensures Lost(run[k], run[j].event, run[j].enqueued)
  {
    hide MainStep, CallStep, LogInv, ThreadInv, LockInv, NoLostWakeup, MainInv, Lost;
    assert Step(events, run[k - 1], moves[k - 1]) == Some(run[k - 1 + 1]);
    if k == j + 1 {
      StepFromAlive(events, run[j], moves[j]);
      RunKeepsInv(events, run, moves, j);
      TimeoutLoses(events, run[j], run[k]);
    } else {
      TimeoutIsFatal(events, run, moves, j, k - 1);
      LostFields(run[k - 1], run[j].event, run[j].enqueued);
      LostStays(events, run[k - 1], run[k], moves[k - 1]);
    }
  }

  lemma LostFields(s: State, event: nat, enqueued: seq<nat>)
    requires Lost(s, event, enqueued)
    ensures s.event == event && s.enqueued == enqueued
  {
  }

  // ---------------------------------------------------------------------
  // When a call ended
  // ---------------------------------------------------------------------

  /** The call came back in this move. */
  predicate Returns(s: State, m: Move, begun: seq<nat>, time: nat) {
    m.who == CallThread && s.thread == TInCall && s.begun == begun && m.now == time
  }

  ghost predicate Returned(run: seq<State>, moves: seq<Move>, i: nat, time: nat)
    requires i < |run| && |run| == |moves| + 1
  {
    exists j | 0 <= j < i :: Returns(run[j], moves[j], run[i].begun, time)
  }

  lemma ReturnTimeStep(events: seq<Event>, s: State, s': State, m: Move)
    requires Step(events, s, m) == Some(s') && !s'.dead && (s'.thread == TEndLock || s'.thread == TVerify)
    ensures s'.begun == s.begun
    ensures || (Returns(s, m, s'.begun, s'.returned) && s'.thread == TEndLock)
            || (&& s'.returned == s.returned && (s.thread == TEndLock || s.thread == TVerify)
                && (s'.thread == TVerify ==> s'.liveEnd == if s.thread == TEndLock then s.returned else s.liveEnd))
  {
    hide CallStep;
    if m.who == MainThread {
      MainLeavesCall(events, s, s', m.choice);
    } else {
      CallEndStep(events, s, s', m.choice, m.now);
    }
  }

  lemma MainLeavesCall(events: seq<Event>, s: State, s': State, choice: Choice)
    requires MainStep(events, s, choice) == Some(s') && (s'.thread == TEndLock || s'.thread == TVerify)
    ensures s'.begun == s.begun && s'.returned == s.returned && s'.liveEnd == s.liveEnd && s'.thread == s.thread
  {
  }

  lemma CallEndStep(events: seq<Event>, s: State, s': State, choice: Choice, now: nat)
    requires CallStep(events, s, choice, now) == Some(s') && !s'.dead && (s'.thread == TEndLock || s'.thread == TVerify)
    ensures s'.begun == s.begun
    ensures s'.thread == TEndLock ==> s.thread == TInCall && s'.returned == now
    ensures s'.thread == TVerify ==> s.thread == TEndLock && s'.returned == s.returned == s'.liveEnd
  {
  }

  /** The end time of a call is what the clock showed when that call came back. */
  lemma {:induction false} EndTimeIsReturnTime(events: seq<Event>, run: seq<State>, moves: seq<Move>, i: nat)
    requires IsRun(events, run, moves) && i < |run| && !run[i].dead
    requires run[i].thread == TEndLock || run[i].thread == TVerify
    ensures Returned(run, moves, i, run[i].returned) && (run[i].thread == TVerify ==> run[i].liveEnd == run[i].returned)
  {
    hide MainStep, CallStep;
    var s, m, s' := run[i - 1], moves[i - 1], run[i];
    assert Step(events, run[i - 1], moves[i - 1]) == Some(run[i - 1 + 1]);
    StepFromAlive(events, s, m);
    ReturnTimeStep(events, s, s', m);
    if Returns(s, m, s'.begun, s'.returned) && s'.thread == TEndLock {
      assert Returned(run, moves, i, s'.returned);
    } else {
      EndTimeIsReturnTime(events, run, moves, i - 1);
      var j :| 0 <= j < i - 1 && Returns(run[j], moves[j], run[i - 1].begun, run[i - 1].returned);
      assert Returns(run[j], moves[j], run[i].begun, run[i].returned);
    }
  }
}
