/** The two threads as code: shared fields updated in place, one step at a time. */
module SyscallThreadImpl {
  import opened Bytes
  import opened SyscallThread
  import opened SyscallThreadSafety
  import opened SyscallThreadTheorems

  /** struct syscalls, the mutex, the event both threads look at, and where each thread
      is in its code. */
  class Threads {
    const events: seq<Event>
    var owner: Option<Thread>
    var call: CallState
    var condsReady: bool
    var event: nat
    var main: MainPc
    var thread: CallPc
    var mine: nat
    var returned: nat
    var liveEnd: int
    var dead: bool
    var enqueued: seq<nat>
    var begun: seq<nat>
    var ended: seq<nat>

    function Snapshot(): State
      reads this
    {
      State(owner, call, condsReady, event, main, thread, mine, returned, liveEnd, dead, enqueued, begun, ended)
    }

    /** What a step that can be taken or not leaves. */
    twostate predicate Stepped(moved: bool, next: Option<State>)
      reads this
    {
      (moved <==> next.Some?) && Snapshot() == if moved then next.value else old(Snapshot())
    }

    constructor (events: seq<Event>)
      ensures this.events == events && Snapshot() == Init()
    {
      this.events := events;
      owner, call, condsReady, event := Some(MainThread), Idle, false, 0;
      main, thread, mine, returned, liveEnd, dead := MCreate, TNotCreated, 0, 0, -1, false;
      enqueued, begun, ended := [], [], [];
    }

    /** pthread_cond_signal on the enqueued condition. */
    method SignalEnqueued()
      modifies this`thread
      ensures Snapshot() == WakeEnqueued(old(Snapshot()))
    {
      if thread == TInEnqueuedWait {
        thread := TEnqueuedRelock;
      }
    }

    /** syscalls_new */
    method SyscallsNew(choice: Choice) returns (moved: bool)
      requires !dead && (main == MCreate || main == MInitConds)
      modifies this
      ensures Stepped(moved, MainStep(events, old(Snapshot()), choice))
    {
      if choice != Go {
        return false;
      }
      if main == MCreate {
        thread, main := TFirstLock, MInitConds;
      } else {
        condsReady, main := true, MHead;
      }
      return true;
    }

    /** The interpreter loop fetches an event. */
    method FetchEvent(choice: Choice) returns (moved: bool)
      requires !dead && main == MHead
      modifies this
      ensures Stepped(moved, MainStep(events, old(Snapshot()), choice))
    {
      if choice != Go {
        return false;
      }
      if event >= |events| {
        main := MAwaitIdle(ToExit);
      } else {
        main := match events[event]
                case BlockingCall => MAwaitIdle(ToEnqueue)
                case PlainCall => MAwaitIdle(ToInvoke)
                case OtherEvent => MActing;
      }
      return true;
    }

    /** The interpreter loop acts on an event, sleeping until its time if need be. */
    method RunEvent(choice: Choice) returns (moved: bool)
      requires !dead && (main == MActing || main == MAsleep || main == MActRelock)
      modifies this
      ensures Stepped(moved, MainStep(events, old(Snapshot()), choice))
    {
      if main == MActing {
        match choice {
          case Go => main, event := MHead, event + 1;
          case Sleep => owner, main := None, MAsleep;
          case Die => dead := true;
          case _ => return false;
        }
        return true;
      }
      if choice != Go {
        return false;
      }
      if main == MAsleep {
        main := MActRelock;
        return true;
      }
      if owner != None {
        return false;
      }
      owner, main := Some(MainThread), MActing;
      return true;
    }

    /** await_idle_thread, and what its caller does when it returns. */
    method AwaitIdle(choice: Choice) returns (moved: bool)
      requires !dead && (main.MAwaitIdle? || main.MInIdleWait? || main.MIdleRelock?)
      modifies this
      ensures Stepped(moved, MainStep(events, old(Snapshot()), choice))
    {
      var goal := main.goal;
      match main {
        case MAwaitIdle(_) =>
          if choice != Go {
            return false;
          }
          if call == Idle {
            main := match goal case ToEnqueue => MEnqueue case ToInvoke => MActing case ToExit => MExit;
          } else {
            owner, main := None, MInIdleWait(goal);
          }
        case MInIdleWait(_) =>
          if choice != Spurious && choice != Timeout {
            return false;
          }
          main := MIdleRelock(goal, choice == Timeout);
        case MIdleRelock(_, timedOut) =>
          if choice != Go || owner != None {
            return false;
          }
          owner := Some(MainThread);
          if !timedOut {
            main := MAwaitIdle(goal);
          } else if goal == ToInvoke {
            main := MActing;
          } else {
            dead := true;
          }
      }
      return true;
    }

    /** enqueue_system_call sets the state and signals the thread. */
    method Enqueue(choice: Choice) returns (moved: bool)
      requires !dead && (main == MEnqueue || main == MSignalEnqueued)
      modifies this
      ensures Stepped(moved, MainStep(events, old(Snapshot()), choice))
    {
      if choice != Go {
        return false;
      }
      if main == MEnqueue {
        call, enqueued, main := Enqueued, enqueued + [event], MSignalEnqueued;
      } else {
        SignalEnqueued();
        main := MCheckDequeued;
      }
      return true;
    }

    /** enqueue_system_call waits for the call to be dequeued. */
    method AwaitDequeue(choice: Choice) returns (moved: bool)
      requires !dead && WaitsForDequeue(main)
      modifies this
      ensures Stepped(moved, MainStep(events, old(Snapshot()), choice))
    {
      if main == MInDequeuedWait {
        if choice != Spurious {
          return false;
        }
        main := MDequeuedRelock;
        return true;
      }
      if choice != Go {
        return false;
      }
      if main == MCheckDequeued {
        if call == Enqueued {
          owner, main := None, MInDequeuedWait;
        } else {
          main := MPoll;
        }
        return true;
      }
      if owner != None {
        return false;
      }
      owner, main := Some(MainThread), MCheckDequeued;
      return true;
    }

    /** enqueue_system_call, waiting until the call blocks or is over. */
    method Poll(choice: Choice) returns (moved: bool)
      requires !dead && (main == MPoll || main == MPollUnlocked || main.MPollRelock?)
      modifies this
      ensures Stepped(moved, MainStep(events, old(Snapshot()), choice))
    {
      match main {
        case MPoll =>
          if choice != Go {
            return false;
          }
          owner, main := None, MPollUnlocked;
        case MPollUnlocked =>
          if choice != Go && choice != NotYet {
            return false;
          }
          main := MPollRelock(choice == Go);
        case MPollRelock(sleeping) =>
          if choice != Go || owner != None {
            return false;
          }
          owner := Some(MainThread);
          if sleeping || call == Idle {
            main, event := MHead, event + 1;
          } else {
            main := MPoll;
          }
      }
      return true;
    }

    /** syscalls_free */
    method SyscallsFree(choice: Choice) returns (moved: bool)
      requires !dead
      requires main == MExit || main == MSignalExit || main == MExitUnlock || main == MJoin || main == MJoinRelock
      modifies this
      ensures Stepped(moved, MainStep(events, old(Snapshot()), choice))
    {
      if choice != Go {
        return false;
      }
      if main == MExit {
        call, main := Exiting, MSignalExit;
      } else if main == MSignalExit {
        SignalEnqueued();
        main := MExitUnlock;
      } else if main == MExitUnlock {
        owner, main := None, MJoin;
      } else if main == MJoin {
        if thread != TTerminated {
          return false;
        }
        main := MJoinRelock;
      } else {
        if owner != None {
          return false;
        }
        owner, main := Some(MainThread), MFinished;
      }
      return true;
    }

    /** A step of the main thread. */
    method MainMoves(choice: Choice) returns (moved: bool)
      modifies this
      ensures Stepped(moved, MainStep(events, old(Snapshot()), choice))
    {
      hide MainStep;
      if dead || main == MFinished {
        NoMainStep(events, Snapshot(), choice);
        return false;
      }
      if main == MCreate || main == MInitConds {
        moved := SyscallsNew(choice);
      } else if main == MHead {
        moved := FetchEvent(choice);
      } else if main == MActing || main == MAsleep || main == MActRelock {
        moved := RunEvent(choice);
      } else if main.MAwaitIdle? || main.MInIdleWait? || main.MIdleRelock? {
        moved := AwaitIdle(choice);
      } else if main == MEnqueue || main == MSignalEnqueued {
        moved := Enqueue(choice);
      } else if WaitsForDequeue(main) {
        moved := AwaitDequeue(choice);
      } else if main == MPoll || main == MPollUnlocked || main.MPollRelock? {
        moved := Poll(choice);
      } else {
        moved := SyscallsFree(choice);
      }
    }

    // -------------------------------------------------------------------
    // The system call thread
    // -------------------------------------------------------------------

    /** The head of the loop of system_call_thread. */
    method LoopHead(choice: Choice) returns (moved: bool)
      requires !dead && thread == THead
      modifies this
      ensures forall now :: Stepped(moved, CallStep(events, old(Snapshot()), choice, now))
    {
      if choice != Go {
        return false;
      }
      match call {
        case Idle =>
          if condsReady {
            thread, owner := TInEnqueuedWait, None;
          } else {
            thread := TAssertFailed;
          }
        case Enqueued =>
          if event < |events| && events[event] == BlockingCall {
            mine, liveEnd, thread := event, -1, TInvoke;
          } else {
            thread := TAssertFailed;
          }
        case Exiting => thread := TExit;
        case Running => thread := TAssertFailed;
        case Done => thread := TAssertFailed;
      }
      return true;
    }

    /** A thread that needs the mutex to go on to the next point of its code. */
    method Relock(next: CallPc, choice: Choice) returns (moved: bool)
      modifies this`owner, this`thread
      ensures moved <==> choice == Go && old(owner) == None
      ensures Snapshot() == if moved then old(Snapshot()).(owner := Some(CallThread), thread := next)
          else old(Snapshot())
    {
      if choice != Go || owner != None {
        return false;
      }
      owner, thread := Some(CallThread), next;
      return true;
    }

    /** invoke_system_call up to begin_syscall, sleeping until the event's time if need be. */
    method Invoke(choice: Choice) returns (moved: bool)
      requires !dead && (thread == TInvoke || thread == TAsleep)
      modifies this
      ensures forall now :: Stepped(moved, CallStep(events, old(Snapshot()), choice, now))
    {
      if thread == TAsleep {
        if choice != Go {
          return false;
        }
        thread := TInvokeRelock;
        return true;
      }
      match choice {
        case Go =>
          if call == Enqueued {
            call, begun, thread := Running, begun + [mine], TBeginUnlock;
          } else {
            thread := TAssertFailed;
          }
        case Sleep => owner, thread := None, TAsleep;
        case Die => dead := true;
        case _ => return false;
      }
      return true;
    }

    /** begin_syscall behind its assert, the call itself, and end_syscall up to its lock. */
    method Bracket(choice: Choice, now: nat) returns (moved: bool)
      requires !dead && (thread == TBeginUnlock || thread == TSignalDequeued || thread == TInCall || thread == TEndLock)
      modifies this
      ensures Stepped(moved, CallStep(events, old(Snapshot()), choice, now))
    {
      if choice != Go {
        return false;
      }
      if thread == TBeginUnlock {
        owner, thread := None, TSignalDequeued;
      } else if thread == TSignalDequeued {
        if main == MInDequeuedWait {
          main := MDequeuedRelock;
        }
        thread := TInCall;
      } else if thread == TInCall {
        returned, thread := now, TEndLock;
      } else {
        if owner != None {
          return false;
        }
        if call == Running {
          owner, liveEnd, call, thread := Some(CallThread), returned, Done, TVerify;
        } else {
          thread := TAssertFailed;
        }
      }
      return true;
    }

    /** end_syscall's checks, the way back to idle, and the way out. */
    method Conclude(choice: Choice) returns (moved: bool)
      requires !dead && (thread == TVerify || thread == TSignalIdle || thread == TExit)
      modifies this
      ensures forall now :: Stepped(moved, CallStep(events, old(Snapshot()), choice, now))
    {
      if thread == TVerify {
        if choice == Die {
          dead := true;
          return true;
        }
        if choice != Go {
          return false;
        }
        if liveEnd >= 0 && call == Done {
          call, liveEnd, ended, thread := Idle, -1, ended + [mine], TSignalIdle;
        } else {
          thread := TAssertFailed;
        }
        return true;
      }
      if choice != Go {
        return false;
      }
      if thread == TSignalIdle {
        if main.MInIdleWait? {
          main := MIdleRelock(main.goal, false);
        }
        thread := THead;
      } else {
        owner, thread := None, TTerminated;
      }
      return true;
    }

    /** A step of the system call thread. */
    method CallMoves(choice: Choice, now: nat) returns (moved: bool)
      modifies this
      ensures Stepped(moved, CallStep(events, old(Snapshot()), choice, now))
    {
      if dead || thread == TNotCreated || thread == TTerminated || thread == TAssertFailed {
        return false;
      }
      if thread == TFirstLock || thread == TEnqueuedRelock {
        moved := Relock(THead, choice);
      } else if thread == TInvokeRelock {
        moved := Relock(TInvoke, choice);
      } else if thread == THead {
        moved := LoopHead(choice);
      } else if thread == TInEnqueuedWait {
        if choice != Spurious {
          return false;
        }
        thread := TEnqueuedRelock;
        return true;
      } else if thread == TInvoke || thread == TAsleep {
        moved := Invoke(choice);
      } else if thread == TVerify || thread == TSignalIdle || thread == TExit {
        moved := Conclude(choice);
      } else {
        moved := Bracket(choice, now);
      }
    }

    /** A move, if the thread can make it. */
    method Try(m: Move) returns (moved: bool)
      modifies this
      ensures Stepped(moved, Step(events, old(Snapshot()), m))
    {
      hide MainStep, CallStep;
      if m.who == MainThread {
        moved := MainMoves(m.choice);
      } else {
        moved := CallMoves(m.choice, m.now);
      }
    }
  }

  lemma NoMainStep(events: seq<Event>, s: State, choice: Choice)
    requires s.dead || s.main == MFinished
    ensures MainStep(events, s, choice) == None
  {
  }

  /** Any schedule: `schedule` says which thread is tried next and what the environment
      does, and the environment interferes at most `patience` times. A move that is not
      possible is made up for by one that is. Whatever the schedule, the process dies of a
      runtime error or both threads get through, with every blocking call of the script
      begun and ended in order. */
  method RunThreads(events: seq<Event>, schedule: nat -> Move, patience: nat) returns (threads: Threads)
    ensures Inv(events, threads.Snapshot()) && (threads.dead || threads.main == MFinished)
    ensures !threads.dead ==> threads.thread == TTerminated && threads.ended == BlockingCalls(events, |events|)
  {
    hide MainStep, CallStep, Inv, Work;
    threads := new Threads(events);
    StartInv(events);
    var i, left := 0, patience;
    while !threads.dead && threads.main != MFinished
      invariant threads.events == events && fresh(threads) && Inv(events, threads.Snapshot())
      decreases left, if threads.dead then 0 else Work(events, threads.Snapshot()) + 1
    {
      ghost var s := threads.Snapshot();
      WorkIsLeft(events, s);
      var m := schedule(i);
      i := i + 1;
      var moved := false;
      if m.choice == Go || left > 0 {
        moved := threads.Try(m);
      }
      if moved {
        OneMove(events, s, threads.Snapshot(), m);
        StepKeepsInv(events, s, threads.Snapshot(), m);
        if m.choice != Go {
          left := left - 1;
        }
      } else {
        InvIsAlive(events, s);
        SomeoneCanGo(events, s);
        m := Move(MainThread, Go, 0);
        moved := threads.Try(m);
        if !moved {
          m := Move(CallThread, Go, 0);
          moved := threads.Try(m);
        }
        OneMove(events, s, threads.Snapshot(), m);
        StepKeepsInv(events, s, threads.Snapshot(), m);
      }
    }
    if !threads.dead {
      InvIsDone(events, threads.Snapshot());
    }
  }

  lemma StartInv(events: seq<Event>)
    ensures Inv(events, Init())
  {
    RunKeepsInv(events, [Init()], [], 0);
  }

  lemma WorkIsLeft(events: seq<Event>, s: State)
    requires Inv(events, s) && !s.dead
    ensures 0 <= Work(events, s)
  {
    hide MainRank, ThreadRank, LogInv, NoLostWakeup;
  }

  lemma InvIsAlive(events: seq<Event>, s: State)
    requires Inv(events, s) && !s.dead
    ensures Alive(events, s)
  {
    hide Alive;
  }
}
