/** The inductive invariant of the two-node wire protocol. */
module WireProtocolSafety {
  import opened Bytes
  import opened WireProtocol

  /** Where the two nodes stand with respect to each other. `a` is the index of
      the packet event whose START the client last sent, `b` the first index
      after the run of packets that starts there. */
  datatype Mode =
    | Greeting(sent: nat, got: nat)   // handshake up to SERVER_READY
    | Starting                        // the client is about to start
    | ClientTurn                      // no request outstanding
    | Requested(a: nat)               // START in flight
    | Serving(a: nat)                 // the server executes packets
    | Reported(a: nat, b: nat)        // DONE in flight
    | Failing(a: nat, k: nat, text: seq<byte>)  // DONE with an error in flight
    | Failed(k: nat, text: seq<byte>)           // the error has reached the client

  ghost predicate Quiet(script: seq<EventType>, lo: nat, hi: nat)
    requires hi <= |script|
  {
    forall i | lo <= i < hi :: script[i] != PacketEvent
  }

  ghost predicate Busy(script: seq<EventType>, lo: nat, hi: nat)
    requires hi <= |script|
  {
    forall i | lo <= i < hi :: script[i] == PacketEvent
  }

  ghost predicate AllWarn(ms: seq<Msg>) {
    forall i | 0 <= i < |ms| :: ms[i].op == PacketsWarn
  }

  ghost predicate LastIs(script: seq<EventType>, num: nat, last: Option<EventType>) {
    num <= |script| && last == (if num == 0 then None else Some(script[num - 1]))
  }

  /** CLIENT_STARTING stays at the head of the channel until the server takes it. */
  function Pending(v: Server): seq<Msg> {
    if v.phase == SAwaitStarting then [Msg(ClientStarting, [])] else []
  }

  /** The server is not executing and owes the client nothing. */
  ghost predicate ServerIdle(script: seq<EventType>, v: Server) {
    && !AfterPacket(v.last)
    && match v.phase
       case SAwaitStarting => v.pos == 0
       case SHead => true
       case SAwaitStart => v.pos < |script| && script[v.pos] == PacketEvent
       case _ => false
  }

  ghost predicate ServerAhead(script: seq<EventType>, v: Server) {
    ServerIdle(script, v) || (v.phase == SFinished && v.pos == |script|)
  }

  /** The client has asked for the packets from `a` and not yet seen DONE. */
  ghost predicate ClientAsked(script: seq<EventType>, c: Client, a: nat) {
    && a < c.pos <= |script| && Busy(script, a, c.pos)
    && (c.phase == CHead
        || (c.phase == CAwaitDone && (c.pos == |script| || script[c.pos] != PacketEvent)))
  }

  /** What the server has been told by the first k messages. */
  ghost predicate Told(cfg: Config, peer: Peer, k: nat) {
    && (k >= 1 ==> peer.args == cfg.args)
    && (k >= 2 ==> peer.path == UpToNul(cfg.path))
    && (k >= 4 ==> peer.hw == cfg.hw)
  }

  ghost predicate GreetingInv(cfg: Config, s: State, sent: nat, got: nat) {
    var c, v := s.client, s.server;
    && got <= sent <= 4
    && c.pos == 0 && v.pos == 0 && c.num == 0 && v.num == 0 && c.last == None && v.last == None
    && c.phase == (if sent == 4 then CAwaitReady else CGreeting(sent))
    && s.c2s == seq(sent - got, i requires 0 <= i < sent - got => GreetingMsg(cfg, got + i))
    && (got >= 3 ==> v.text == cfg.text) && Told(cfg, v.peer, got)
    && (if v.phase == SAwaitStarting then got == 4 && s.s2c == [Msg(ServerReady, [])]
        else s.s2c == [] && v.phase == if got == 4 then SReady else SGreeting(got))
    && s.trace == []
  }

  /** Both nodes are inside their event loops. */
  ghost predicate InLoop(script: seq<EventType>, s: State) {
    var c, v := s.client, s.server;
    && c.num == (if c.phase == CExec then c.pos + 1 else c.pos)
    && v.num == (if v.phase == SExec || v.phase.SDead? then v.pos + 1 else v.pos)
    && LastIs(script, c.num, c.last)
    && LastIs(script, v.num, v.last)
  }

  ghost predicate StartingInv(script: seq<EventType>, s: State) {
    && InLoop(script, s)
    && s.client.phase == CStarting && s.server.phase == SAwaitStarting
    && s.client.pos == 0 && s.server.pos == 0
    && s.c2s == [] && s.s2c == [] && s.trace == []
  }

  ghost predicate TurnInv(script: seq<EventType>, s: State) {
    var c, v := s.client, s.server;
    && InLoop(script, s)
    && ((c.phase == CFinished && c.pos == |script|)
        || (!AfterPacket(c.last) && (c.phase == CHead || c.phase == CExec)))
    && ServerAhead(script, v)
    && s.c2s == Pending(v) && s.s2c == []
    && Quiet(script, c.pos, v.pos) && Quiet(script, v.pos, c.pos)
    && s.trace == TraceTo(script, c.pos)
  }

  ghost predicate RequestedInv(script: seq<EventType>, s: State, a: nat) {
    && InLoop(script, s)
    && ClientAsked(script, s.client, a)
    && ServerIdle(script, s.server) && s.server.pos <= a && Quiet(script, s.server.pos, a)
    && s.c2s == Pending(s.server) + [StartMsg(U32(a))] && s.s2c == []
    && s.trace == TraceTo(script, a)
  }

  ghost predicate ServingInv(script: seq<EventType>, s: State, a: nat) {
    var v := s.server;
    && InLoop(script, s)
    && ClientAsked(script, s.client, a)
    && s.c2s == [] && AllWarn(s.s2c)
    && (v.phase == SExec || (v.phase == SHead && a < v.pos))
    && a <= v.pos && Busy(script, a, v.num)
    && s.trace == TraceTo(script, v.pos)
  }

  /** The client will read warnings and then `done`. */
  ghost predicate EndsWith(ms: seq<Msg>, done: Msg) {
    |ms| > 0 && ms[|ms| - 1] == done && AllWarn(ms[..|ms| - 1])
  }

  ghost predicate ReportedInv(script: seq<EventType>, s: State, a: nat, b: nat) {
    var v := s.server;
    && InLoop(script, s)
    && ClientAsked(script, s.client, a) && s.client.pos <= b <= v.pos
    && (if b == |script| then v.phase == SFinished else script[b] != PacketEvent && b < v.pos)
    && Busy(script, a, b) && Quiet(script, b, v.pos)
    && ServerAhead(script, v)
    && s.c2s == [] && EndsWith(s.s2c, DoneMsg(STATUS_OK, U32(b), []))
    && s.trace == TraceTo(script, b)
  }

  ghost predicate FailingInv(script: seq<EventType>, s: State, a: nat, k: nat, text: seq<byte>) {
    && InLoop(script, s)
    && ClientAsked(script, s.client, a)
    && s.server.phase == SDead(PacketError(text)) && k == s.server.pos
    && a <= k < |script| && script[k] == PacketEvent
    && s.c2s == [] && EndsWith(s.s2c, DoneMsg(STATUS_ERR, U32(k + 1), text))
    && s.trace == TraceTo(script, k + 1)
  }

  ghost predicate FailedInv(script: seq<EventType>, s: State, k: nat, text: seq<byte>) {
    && s.client.phase == CDead(PacketError(text)) && s.server.phase == SDead(PacketError(text))
    && k < |script| && script[k] == PacketEvent
    && s.c2s == [] && s.s2c == []
    && s.trace == TraceTo(script, k + 1)
  }

  ghost predicate InvIn(cfg: Config, s: State, mode: Mode) {
    && ValidConfig(cfg)
    && (!mode.Greeting? ==> s.server.text == cfg.text && Told(cfg, s.server.peer, 4))
    && var script := cfg.parse(cfg.text);
       match mode
       case Greeting(sent, got) => GreetingInv(cfg, s, sent, got)
       case Starting => StartingInv(script, s)
       case ClientTurn => TurnInv(script, s)
       case Requested(a) => RequestedInv(script, s, a)
       case Serving(a) => ServingInv(script, s, a)
       case Reported(a, b) => ReportedInv(script, s, a, b)
       case Failing(a, k, text) => FailingInv(script, s, a, k, text)
       case Failed(k, text) => FailedInv(script, s, k, text)
  }

  ghost predicate Inv(cfg: Config, s: State) {
    exists mode :: InvIn(cfg, s, mode)
  }

  // ---------------------------------------------------------------------
  // One step keeps the invariant
  // ---------------------------------------------------------------------

  lemma GreetingClient(cfg: Config, s: State, s': State, sent: nat, got: nat) returns (mode': Mode)
    requires InvIn(cfg, s, Greeting(sent, got)) && ClientStep(cfg, s) == Some(s')
    ensures InvIn(cfg, s', mode')
  {
    if sent < 4 {
      mode' := Greeting(sent + 1, got);
      assert s'.c2s == s.c2s + [GreetingMsg(cfg, sent)];
    } else {
      mode' := Starting;
    }
  }

  lemma GreetingServer(cfg: Config, s: State, s': State, sent: nat, got: nat, outcome: Outcome)
    returns (mode': Mode)
    requires InvIn(cfg, s, Greeting(sent, got)) && ServerStep(cfg, s, outcome) == Some(s')
    ensures InvIn(cfg, s', mode')
  {
    if got < 4 {
      assert s.c2s[0] == GreetingMsg(cfg, got);
      mode' := Greeting(sent, got + 1);
    } else {
      mode' := Greeting(sent, got);
    }
  }

  lemma TraceGrows(script: seq<EventType>, k: nat)
    requires k < |script|
    ensures TraceTo(script, k + 1)
         == TraceTo(script, k) + [Executed(k, script[k], if script[k] == PacketEvent then OnServer else OnClient)]
  {
  }

  /** The DONE the server sends is one the client accepts exactly when the two
      counts agree, and its error text survives the trip. */
  lemma DoneChecked(result: u32, num: u32, text: seq<byte>, mine: nat)
    ensures CheckDone(DoneMsg(result, num, text).body, mine)
         == if result == STATUS_ERR then Some(PacketError(text))
            else if num != U32(mine) then Some(BadPeer) else None
  {
    var body := DoneMsg(result, num, text).body;
    assert body[..4] == Enc32(result);
    assert body[4..8] == Enc32(num);
    assert body[8..|body| - 1] == text;
  }

  // Each lemma below is one kind of move: where the invariant stood and where
  // the move takes it. `script` is the script both nodes parsed.

  ghost predicate ClientMove(cfg: Config, script: seq<EventType>, s: State, s': State) {
    script == cfg.parse(cfg.text) && ClientStep(cfg, s) == Some(s')
  }

  ghost predicate ServerMove(cfg: Config, script: seq<EventType>, s: State, s': State, outcome: Outcome) {
    script == cfg.parse(cfg.text) && s.server.text == cfg.text && ServerStep(cfg, s, outcome) == Some(s')
  }

  lemma ClientRequests(cfg: Config, script: seq<EventType>, s: State, s': State)
    requires TurnInv(script, s) && ClientMove(cfg, script, s, s')
    requires s.client.phase == CHead && s.client.pos < |script| && script[s.client.pos] == PacketEvent
    ensures RequestedInv(script, s', s.client.pos)
  {
    hide Be16, Be32, Enc16, Enc32;
    assert s'.client == CountClient(s.client, PacketEvent, CHead).(pos := s.client.pos + 1);
  }

  lemma ClientExecutes(cfg: Config, script: seq<EventType>, s: State, s': State)
    requires TurnInv(script, s) && ClientMove(cfg, script, s, s') && s.client.phase == CExec
    ensures TurnInv(script, s')
  {
    TraceGrows(script, s.client.pos);
  }

  lemma ClientAdvances(cfg: Config, script: seq<EventType>, s: State, s': State)
    requires TurnInv(script, s) && ClientMove(cfg, script, s, s') && s.client.phase == CHead
    requires s.client.pos < |script| ==> script[s.client.pos] != PacketEvent
    ensures TurnInv(script, s')
  {
  }

  lemma ClientInTurn(cfg: Config, script: seq<EventType>, s: State, s': State)
    requires TurnInv(script, s) && ClientMove(cfg, script, s, s')
    ensures TurnInv(script, s') || RequestedInv(script, s', s.client.pos)
  {
    hide Be16, Be32, Enc16, Enc32;
    if s.client.phase == CExec {
      ClientExecutes(cfg, script, s, s');
    } else if s.client.pos < |script| && script[s.client.pos] == PacketEvent {
      ClientRequests(cfg, script, s, s');
    } else {
      ClientAdvances(cfg, script, s, s');
    }
  }

  lemma ClientAsks(cfg: Config, script: seq<EventType>, s: State, s': State, a: nat)
    requires InLoop(script, s) && ClientAsked(script, s.client, a) && ClientMove(cfg, script, s, s')
    requires s.client.phase == CHead
    ensures InLoop(script, s') && ClientAsked(script, s'.client, a)
    ensures s' == s.(client := s'.client)
  {
  }

  lemma ClientReadsWarning(cfg: Config, script: seq<EventType>, s: State, s': State)
    requires ClientMove(cfg, script, s, s') && s.client.phase == CAwaitDone
    requires |s.s2c| > 0 && s.s2c[0].op == PacketsWarn
    ensures s' == s.(s2c := s.s2c[1..], printed := s'.printed)
  {
  }

  lemma ClientInRequested(cfg: Config, script: seq<EventType>, s: State, s': State, a: nat)
    requires RequestedInv(script, s, a) && ClientMove(cfg, script, s, s')
    ensures RequestedInv(script, s', a)
  {
    ClientAsks(cfg, script, s, s', a);
  }

  lemma ClientInServing(cfg: Config, script: seq<EventType>, s: State, s': State, a: nat)
    requires ServingInv(script, s, a) && ClientMove(cfg, script, s, s')
    ensures ServingInv(script, s', a)
  {
    if s.client.phase == CHead {
      ClientAsks(cfg, script, s, s', a);
    } else {
      ClientReadsWarning(cfg, script, s, s');
    }
  }

  lemma EndsWithTail(ms: seq<Msg>, done: Msg)
    requires EndsWith(ms, done) && |ms| > 1
    ensures ms[0].op == PacketsWarn && EndsWith(ms[1..], done)
  {
    assert ms[0] == ms[..|ms| - 1][0];
    assert ms[1..][..|ms| - 2] == ms[..|ms| - 1][1..];
  }

  lemma ClientReadsDone(cfg: Config, script: seq<EventType>, s: State, s': State, a: nat, b: nat)
    requires ReportedInv(script, s, a, b) && ClientMove(cfg, script, s, s')
    requires s.client.phase == CAwaitDone && |s.s2c| == 1
    ensures TurnInv(script, s')
  {
    assert s.client.pos == b;
    DoneChecked(STATUS_OK, U32(b), [], s.client.num);
    assert s.s2c[0] == DoneMsg(STATUS_OK, U32(b), []);
    assert CheckDone(s.s2c[0].body, s.client.num) == None;
    assert s'.s2c == [];
  }

  lemma ClientInReported(cfg: Config, script: seq<EventType>, s: State, s': State, a: nat, b: nat)
    requires ReportedInv(script, s, a, b) && ClientMove(cfg, script, s, s')
    ensures ReportedInv(script, s', a, b) || TurnInv(script, s')
  {
    if s.client.phase == CHead {
      ClientAsks(cfg, script, s, s', a);
      assert s'.client.pos <= b;
    } else if |s.s2c| == 1 {
      ClientReadsDone(cfg, script, s, s', a, b);
    } else {
      EndsWithTail(s.s2c, DoneMsg(STATUS_OK, U32(b), []));
      ClientReadsWarning(cfg, script, s, s');
    }
  }

  lemma ClientInFailing(cfg: Config, script: seq<EventType>, s: State, s': State, a: nat, k: nat, text: seq<byte>)
    requires FailingInv(script, s, a, k, text) && ClientMove(cfg, script, s, s')
    ensures FailingInv(script, s', a, k, text) || FailedInv(script, s', k, text)
  {
    if s.client.phase == CHead {
      ClientAsks(cfg, script, s, s', a);
    } else if |s.s2c| == 1 {
      DoneChecked(STATUS_ERR, U32(k + 1), text, s.client.num);
      assert CheckDone(s.s2c[0].body, s.client.num) == Some(PacketError(text));
    } else {
      EndsWithTail(s.s2c, DoneMsg(STATUS_ERR, U32(k + 1), text));
      ClientReadsWarning(cfg, script, s, s');
    }
  }

  lemma ServerInTurn(cfg: Config, script: seq<EventType>, s: State, s': State, outcome: Outcome)
    requires TurnInv(script, s) && ServerMove(cfg, script, s, s', outcome)
    ensures TurnInv(script, s')
  {
    hide Be16, Be32, Enc16, Enc32;
  }

  lemma ServerApproaches(cfg: Config, script: seq<EventType>, s: State, s': State, a: nat, outcome: Outcome)
    requires RequestedInv(script, s, a) && ServerMove(cfg, script, s, s', outcome)
    requires s.server.phase != SAwaitStart
    ensures RequestedInv(script, s', a)
  {
    hide Be16, Be32, Enc16, Enc32;
    if s.server.phase == SAwaitStarting {
      assert s.c2s[1..] == [StartMsg(U32(a))];
    }
  }

  lemma ServerStarts(cfg: Config, script: seq<EventType>, s: State, s': State, a: nat, outcome: Outcome)
    requires RequestedInv(script, s, a) && ServerMove(cfg, script, s, s', outcome)
    requires s.server.phase == SAwaitStart
    ensures ServingInv(script, s', a)
  {
    hide Be16, Be32, Enc16, Enc32;
    assert s.server.pos == a;
    assert GoodStart(s.c2s[0], s.server.num);
    assert s'.c2s == [];
  }

  lemma ServerExecutes(cfg: Config, script: seq<EventType>, s: State, s': State, a: nat, outcome: Outcome)
    requires ServingInv(script, s, a) && ServerMove(cfg, script, s, s', outcome)
    requires s.server.phase == SExec && !outcome.Err?
    ensures ServingInv(script, s', a)
  {
    TraceGrows(script, s.server.pos);
  }

  lemma ServerFails(cfg: Config, script: seq<EventType>, s: State, s': State, a: nat, text: seq<byte>)
    requires ServingInv(script, s, a) && ServerMove(cfg, script, s, s', Err(text))
    requires s.server.phase == SExec
    ensures FailingInv(script, s', a, s.server.pos, text)
  {
    hide Be16, Be32, Enc16, Enc32;
    TraceGrows(script, s.server.pos);
    assert s'.s2c[..|s'.s2c| - 1] == s.s2c;
  }

  lemma ServerGoesOn(cfg: Config, script: seq<EventType>, s: State, s': State, a: nat, outcome: Outcome)
    requires ServingInv(script, s, a) && ServerMove(cfg, script, s, s', outcome)
    requires s.server.phase == SHead && s.server.pos < |script| && script[s.server.pos] == PacketEvent
    ensures ServingInv(script, s', a)
  {
  }

  lemma ServerReports(cfg: Config, script: seq<EventType>, s: State, s': State, a: nat, outcome: Outcome)
    requires ServingInv(script, s, a) && ServerMove(cfg, script, s, s', outcome)
    requires s.server.phase == SHead
    requires s.server.pos < |script| ==> script[s.server.pos] != PacketEvent
    ensures ReportedInv(script, s', a, s.server.pos)
  {
    hide Be16, Be32, Enc16, Enc32;
    var b := s.server.pos;
    assert s'.s2c == s.s2c + [DoneMsg(STATUS_OK, U32(b), [])];
    assert s'.s2c[..|s'.s2c| - 1] == s.s2c;
  }

  lemma ServerInReported(cfg: Config, script: seq<EventType>, s: State, s': State, a: nat, b: nat, outcome: Outcome)
    requires ReportedInv(script, s, a, b) && ServerMove(cfg, script, s, s', outcome)
    ensures ReportedInv(script, s', a, b)
  {
  }

  lemma ClientKeepsInv(cfg: Config, s: State, s': State, mode: Mode) returns (mode': Mode)
    requires InvIn(cfg, s, mode) && ClientStep(cfg, s) == Some(s')
    ensures InvIn(cfg, s', mode')
  {
    hide Be16, Be32, Enc16, Enc32;
    hide RequestedInv, ServingInv, ReportedInv, FailingInv, GreetingInv;
    var script := cfg.parse(cfg.text);
    assert s'.server == s.server;
    mode' := mode;
    match mode
    case Greeting(sent, got) => mode' := GreetingClient(cfg, s, s', sent, got);
    case Starting => mode' := ClientTurn;
    case ClientTurn =>
      ClientInTurn(cfg, script, s, s');
      if !TurnInv(script, s') {
        mode' := Requested(s.client.pos);
      }
    case Requested(a) => ClientInRequested(cfg, script, s, s', a);
    case Serving(a) => ClientInServing(cfg, script, s, s', a);
    case Reported(a, b) =>
      ClientInReported(cfg, script, s, s', a, b);
      if TurnInv(script, s') {
        mode' := ClientTurn;
      }
    case Failing(a, k, text) =>
      ClientInFailing(cfg, script, s, s', a, k, text);
      if FailedInv(script, s', k, text) {
        mode' := Failed(k, text);
      }
    case Failed(_, _) =>
  }

  /** The server does not forget what it was told. */
  lemma ServerRemembers(cfg: Config, s: State, s': State, outcome: Outcome)
    requires ServerStep(cfg, s, outcome) == Some(s') && !s.server.phase.SGreeting?
    ensures s'.server.text == s.server.text && s'.server.peer == s.server.peer
  {
    hide GoodStart, DoneMsg;
  }

  /** Outside the greeting the server is in one of its later phases, and where both nodes
      are starting or the server is dead it does not move. */
  lemma ServerPhases(cfg: Config, s: State, mode: Mode, outcome: Outcome)
    requires InvIn(cfg, s, mode) && !mode.Greeting?
    ensures !s.server.phase.SGreeting?
    ensures mode.Starting? || mode.Failing? || mode.Failed? ==> ServerStep(cfg, s, outcome) == None
  {
    hide Be16, Be32, Enc16, Enc32, TraceTo, DoneMsg;
  }

  lemma ServerInRequested(cfg: Config, script: seq<EventType>, s: State, s': State, a: nat, outcome: Outcome)
    requires RequestedInv(script, s, a) && ServerMove(cfg, script, s, s', outcome)
    ensures RequestedInv(script, s', a) || ServingInv(script, s', a)
  {
    hide RequestedInv, ServingInv, ServerMove;
    if s.server.phase == SAwaitStart {
      ServerStarts(cfg, script, s, s', a, outcome);
    } else {
      ServerApproaches(cfg, script, s, s', a, outcome);
    }
  }

  lemma ServerInServing(cfg: Config, script: seq<EventType>, s: State, s': State, a: nat, outcome: Outcome)
    returns (mode': Mode)
    requires ServingInv(script, s, a) && ServerMove(cfg, script, s, s', outcome)
    ensures match mode'
            case Serving(b) => ServingInv(script, s', b)
            case Reported(b, c) => ReportedInv(script, s', b, c)
            case Failing(b, k, text) => FailingInv(script, s', b, k, text)
            case _ => false
  {
    hide ReportedInv, FailingInv, ServerStep, Busy, AllWarn, ClientAsked, TraceTo;
    var v := s.server;
    mode' := Serving(a);
    if v.phase == SExec {
      if outcome.Err? {
        ServerFails(cfg, script, s, s', a, outcome.text);
        mode' := Failing(a, v.pos, outcome.text);
      } else {
        ServerExecutes(cfg, script, s, s', a, outcome);
      }
    } else if v.pos < |script| && script[v.pos] == PacketEvent {
      ServerGoesOn(cfg, script, s, s', a, outcome);
    } else {
      ServerReports(cfg, script, s, s', a, outcome);
      mode' := Reported(a, v.pos);
    }
  }

  lemma ServerKeepsInv(cfg: Config, s: State, s': State, mode: Mode, outcome: Outcome) returns (mode': Mode)
    requires InvIn(cfg, s, mode) && ServerStep(cfg, s, outcome) == Some(s')
    ensures InvIn(cfg, s', mode')
  {
    hide ServerStep, GreetingInv, StartingInv, TurnInv, RequestedInv, ServingInv, ReportedInv, FailingInv, FailedInv,
         Told, ValidConfig;
    var script := cfg.parse(cfg.text);
    mode' := mode;
    if mode.Greeting? {
      mode' := GreetingServer(cfg, s, s', mode.sent, mode.got, outcome);
      return;
    }
    ServerPhases(cfg, s, mode, outcome);
    ServerRemembers(cfg, s, s', outcome);
    match mode
    case ClientTurn => ServerInTurn(cfg, script, s, s', outcome);
    case Requested(a) =>
      ServerInRequested(cfg, script, s, s', a, outcome);
      if !RequestedInv(script, s', a) {
        mode' := Serving(a);
      }
    case Serving(a) => mode' := ServerInServing(cfg, script, s, s', a, outcome);
    case Reported(a, b) => ServerInReported(cfg, script, s, s', a, b, outcome);
    case _ =>
  }

  lemma StepKeepsInv(cfg: Config, s: State, s': State)
    requires Inv(cfg, s) && Next(cfg, s, s')
    ensures Inv(cfg, s')
  {
    var mode :| InvIn(cfg, s, mode);
    if ClientStep(cfg, s) == Some(s') {
      var mode' := ClientKeepsInv(cfg, s, s', mode);
    } else {
      var outcome :| ServerStep(cfg, s, outcome) == Some(s');
      var mode' := ServerKeepsInv(cfg, s, s', mode, outcome);
    }
  }
}
