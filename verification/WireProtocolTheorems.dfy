/** What every interleaving of wire client and wire server guarantees. */
module WireProtocolTheorems {
  import opened Bytes
  import opened WireProtocol
  import opened WireProtocolSafety

  // ---------------------------------------------------------------------
  // The one-process interpreter that the two nodes must refine
  // ---------------------------------------------------------------------

  /** run_script in local mode: the events executed so far, and whether a packet
      error has ended the run. */
  datatype Interpreter = Interpreter(executed: seq<Executed>, failed: bool)

  ghost predicate InterpreterNext(script: seq<EventType>, q: Interpreter, q': Interpreter) {
    var k := |q.executed|;
    && !q.failed && k < |script|
    && q'.executed
       == q.executed + [Executed(k, script[k], if script[k] == PacketEvent then OnServer else OnClient)]
    && (q'.failed ==> script[k] == PacketEvent)
  }

  function Abstract(s: State): Interpreter {
    Interpreter(s.trace, s.server.phase.SDead? && s.server.phase.why.PacketError?)
  }

  // ---------------------------------------------------------------------
  // Safety
  // ---------------------------------------------------------------------

  lemma {:induction false} RunKeepsInv(cfg: Config, run: seq<State>, i: nat)
    requires ValidConfig(cfg) && IsRun(cfg, run) && i < |run|
    ensures Inv(cfg, run[i])
  {
    if i == 0 {
      assert InvIn(cfg, run[0], Greeting(0, 0));
    } else {
      RunKeepsInv(cfg, run, i - 1);
      StepKeepsInv(cfg, run[i - 1], run[i]);
    }
  }

  /** Executed events are exactly the first ones of the script, each once, in
      order and at the right node, and neither node ever takes the other's
      messages for malformed or miscounted. */
  lemma TraceIsScriptPrefix(cfg: Config, run: seq<State>, i: nat) returns (k: nat)
    requires ValidConfig(cfg) && IsRun(cfg, run) && i < |run|
    ensures k <= |cfg.parse(cfg.text)| && run[i].trace == TraceTo(cfg.parse(cfg.text), k)
    ensures run[i].client.phase != CDead(BadPeer) && run[i].server.phase != SDead(BadPeer)
  {
    RunKeepsInv(cfg, run, i);
    var s := run[i];
    var mode :| InvIn(cfg, s, mode);
    match mode
    case Greeting(_, _) => k := 0;
    case Starting => k := 0;
    case ClientTurn => k := s.client.pos;
    case Requested(a) => k := a;
    case Serving(_) => k := s.server.pos;
    case Reported(_, b) => k := b;
    case Failing(_, j, _) => k := j + 1;
    case Failed(j, _) => k := j + 1;
  }

  /** A server that is past the greeting has the client's script, command line, script path
      and hardware address. */
  lemma ServerIsTold(cfg: Config, run: seq<State>, i: nat)
    requires ValidConfig(cfg) && IsRun(cfg, run) && i < |run| && !run[i].server.phase.SGreeting?
    ensures run[i].server.text == cfg.text
    ensures run[i].server.peer == Peer(cfg.args, UpToNul(cfg.path), cfg.hw)
  {
    RunKeepsInv(cfg, run, i);
    var mode :| InvIn(cfg, run[i], mode);
  }

  /** A step of either node that executes nothing is invisible; one that does is
      the interpreter's next step. */
  lemma StepRefines(cfg: Config, run: seq<State>, i: nat)
    requires ValidConfig(cfg) && IsRun(cfg, run) && i + 1 < |run|
    ensures Abstract(run[i + 1]) == Abstract(run[i])
         || InterpreterNext(cfg.parse(cfg.text), Abstract(run[i]), Abstract(run[i + 1]))
  {
    var s, s' := run[i], run[i + 1];
    var k := TraceIsScriptPrefix(cfg, run, i);
    var k' := TraceIsScriptPrefix(cfg, run, i + 1);
    RunKeepsInv(cfg, run, i);
    TraceStep(cfg, s, s');
    if |s'.trace| == |s.trace| + 1 {
      assert s'.trace[k] == TraceTo(cfg.parse(cfg.text), k')[k];
    }
  }

  /** A node about to execute is in its own turn. */
  lemma ExecutesInTurn(cfg: Config, s: State)
    requires Inv(cfg, s)
    ensures s.client.phase == CExec ==> !Abstract(s).failed
    ensures s.server.phase == SExec ==>
              s.server.pos < |cfg.parse(s.server.text)| && cfg.parse(s.server.text)[s.server.pos] == PacketEvent
  {
    var mode :| InvIn(cfg, s, mode);
  }

  /** One step appends at most one event, and fails only while appending a packet. */
  lemma TraceStep(cfg: Config, s: State, s': State)
    requires Inv(cfg, s) && Next(cfg, s, s')
    ensures if |s'.trace| == |s.trace| then Abstract(s') == Abstract(s)
            else |s'.trace| == |s.trace| + 1 && s'.trace[..|s.trace|] == s.trace && !Abstract(s).failed
                 && (Abstract(s').failed ==> s'.trace[|s.trace|].event == PacketEvent)
  {
    hide Inv, Be16, Be32, Enc16, Enc32;
    ExecutesInTurn(cfg, s);
    if ClientStep(cfg, s) == Some(s') {
      assert s'.server == s.server;
    } else {
      var outcome :| ServerStep(cfg, s, outcome) == Some(s');
    }
  }

  // ---------------------------------------------------------------------
  // Progress
  // ---------------------------------------------------------------------

  /** How many more moves each node can make, plus the messages still to read. */
  function ClientBudget(n: nat, c: Client): int {
    match c.phase
    case CGreeting(k) => 4 * n + 9 - k
    case CAwaitReady => 4 * n + 5
    case CStarting => 4 * n + 4
    case CHead => 4 * (n - c.pos) + 3
    case CAwaitDone => 4 * (n - c.pos) + 2
    case CExec => 4 * (n - c.pos) + 1
    case CFinished => 0
    case CDead(_) => 0
  }

  function ServerBudget(n: nat, v: Server): int {
    match v.phase
    case SGreeting(k) => 6 * n + 11 - k
    case SReady => 6 * n + 7
    case SAwaitStarting => 6 * n + 5
    case SHead => 6 * (n - v.pos) + 4
    case SAwaitStart => 6 * (n - v.pos) + 3
    case SExec => 6 * (n - v.pos) + 2
    case SFinished => 0
    case SDead(_) => 0
  }

  function Budget(cfg: Config, s: State): int {
    var n := |cfg.parse(cfg.text)|;
    ClientBudget(n, s.client) + ServerBudget(n, s.server) + |s.s2c|
  }

  ghost predicate ClientInside(cfg: Config, c: Client) {
    match c.phase
    case CGreeting(k) => k <= 4
    case CHead => c.pos <= |cfg.parse(cfg.text)|
    case CAwaitDone => c.pos <= |cfg.parse(cfg.text)|
    case CExec => c.pos < |cfg.parse(cfg.text)|
    case _ => true
  }

  ghost predicate ServerInside(cfg: Config, v: Server) {
    match v.phase
    case SGreeting(k) => k < 4
    case SHead => v.text == cfg.text && v.pos <= |cfg.parse(cfg.text)|
    case SAwaitStart => v.text == cfg.text && v.pos < |cfg.parse(cfg.text)|
    case SExec => v.text == cfg.text && v.pos < |cfg.parse(cfg.text)|
    case _ => true
  }

  /** Positions stay inside the script each node walks. */
  lemma InsideScript(cfg: Config, s: State)
    requires Inv(cfg, s)
    ensures ClientInside(cfg, s.client) && ServerInside(cfg, s.server)
  {
    hide Be16, Be32, Enc16, Enc32;
    var mode :| InvIn(cfg, s, mode);
  }

  lemma BudgetIsNotNegative(cfg: Config, s: State)
    requires ClientInside(cfg, s.client) && ServerInside(cfg, s.server)
    ensures 0 <= Budget(cfg, s)
  {
  }

  lemma ClientBudgetFalls(cfg: Config, s: State, s': State)
    requires ClientInside(cfg, s.client) && ClientInside(cfg, s'.client) && ClientStep(cfg, s) == Some(s')
    ensures Budget(cfg, s') < Budget(cfg, s)
  {
    hide GreetingMsg, StartMsg, CheckDone, ServerBudget;
    assert s'.server == s.server;
  }

  lemma ServerBudgetFalls(cfg: Config, s: State, s': State, outcome: Outcome)
    requires ServerInside(cfg, s.server) && ServerInside(cfg, s'.server) && ServerStep(cfg, s, outcome) == Some(s')
    ensures Budget(cfg, s') < Budget(cfg, s)
  {
    hide GoodGreeting, GoodStart, UpToNul, DoneMsg, ClientBudget;
    assert s'.client == s.client;
  }

  lemma BudgetFalls(cfg: Config, s: State, s': State)
    requires Inv(cfg, s) && Next(cfg, s, s')
    ensures 0 <= Budget(cfg, s') < Budget(cfg, s)
  {
    hide Inv, Budget, ClientStep, ServerStep, ClientInside, ServerInside;
    StepKeepsInv(cfg, s, s');
    InsideScript(cfg, s);
    InsideScript(cfg, s');
    BudgetIsNotNegative(cfg, s');
    if ClientStep(cfg, s) == Some(s') {
      ClientBudgetFalls(cfg, s, s');
    } else {
      var outcome :| ServerStep(cfg, s, outcome) == Some(s');
      ServerBudgetFalls(cfg, s, s', outcome);
    }
  }

  /** Every interleaving is over within a bound that the script length fixes. */
  lemma {:induction false} RunsAreFinite(cfg: Config, run: seq<State>)
    requires ValidConfig(cfg) && IsRun(cfg, run)
    ensures |run| <= 10 * |cfg.parse(cfg.text)| + 21
    ensures 0 <= Budget(cfg, run[|run| - 1]) <= 10 * |cfg.parse(cfg.text)| + 21 - |run|
  {
    hide Inv, Next, Budget, ValidConfig;
    if |run| > 1 {
      var before := run[..|run| - 1];
      RunsAreFinite(cfg, before);
      RunKeepsInv(cfg, run, |run| - 2);
      BudgetFalls(cfg, run[|run| - 2], run[|run| - 1]);
    } else {
      StartBudget(cfg);
    }
  }

  lemma StartBudget(cfg: Config)
    ensures Budget(cfg, Init()) == 10 * |cfg.parse(cfg.text)| + 20
  {
  }

  /** Both nodes are through: every event executed, or the packet error that
      stopped the server delivered to the client. */
  ghost predicate Settled(cfg: Config, s: State) {
    var script := cfg.parse(cfg.text);
    && s.c2s == [] && s.s2c == []
    && ((s.client.phase == CFinished && s.server.phase == SFinished && s.trace == TraceTo(script, |script|))
        || (exists k: nat, text :: k < |script| && script[k] == PacketEvent
              && s.client.phase == CDead(PacketError(text)) && s.server.phase == SDead(PacketError(text))
              && s.trace == TraceTo(script, k + 1)))
  }

  lemma ClientCanMove(cfg: Config, s: State)
    requires ClientStep(cfg, s) != None
    ensures !Stuck(cfg, s)
  {
    assert Next(cfg, s, ClientStep(cfg, s).value);
  }

  lemma ServerCanMove(cfg: Config, s: State)
    requires ServerStep(cfg, s, Ok) != None
    ensures !Stuck(cfg, s)
  {
    var s' := ServerStep(cfg, s, Ok).value;
    assert ServerMoves(cfg, s, s');
    assert Next(cfg, s, s');
  }

  /** No reachable state with an unfinished node is deadlocked. */
  lemma NoDeadlock(cfg: Config, s: State)
    requires Inv(cfg, s) && Stuck(cfg, s)
    ensures Settled(cfg, s)
  {
    var mode :| InvIn(cfg, s, mode);
    if ClientStep(cfg, s) != None {
      ClientCanMove(cfg, s);
    }
    if ServerStep(cfg, s, Ok) != None {
      ServerCanMove(cfg, s);
    }
    BlockedIsSettled(cfg, s, mode);
  }

  lemma BlockedIsSettled(cfg: Config, s: State, mode: Mode)
    requires InvIn(cfg, s, mode) && ClientStep(cfg, s) == None && ServerStep(cfg, s, Ok) == None
    ensures Settled(cfg, s)
  {
    hide Be16, Be32, Enc16, Enc32;
  }

  /** A run that cannot be extended has executed the whole script on both nodes,
      or has died on both of the same packet error. */
  lemma EveryRunSettles(cfg: Config, run: seq<State>)
    requires ValidConfig(cfg) && IsRun(cfg, run) && Stuck(cfg, run[|run| - 1])
    ensures Settled(cfg, run[|run| - 1])
  {
    RunKeepsInv(cfg, run, |run| - 1);
    NoDeadlock(cfg, run[|run| - 1]);
  }
}
