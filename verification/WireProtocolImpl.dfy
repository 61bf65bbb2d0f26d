/** The two nodes as code: fields updated in place, one step at a time. */
module WireProtocolImpl {
  import opened Bytes
  import opened WireProtocol
  import opened WireProtocolSafety
  import opened WireProtocolTheorems
  import opened WireReports

  /** struct wire_client, struct wire_server and the two directions of the connection
      between them. */
  class WireRun {
    const cfg: Config
    var clientPhase: ClientPhase
    var clientPos: nat
    var clientEvents: nat                  // wire_client->num_events
    var clientLast: Option<EventType>      // wire_client->last_event_type
    var serverPhase: ServerPhase
    var serverText: seq<byte>
    var serverPeer: Peer
    var serverPos: nat
    var serverEvents: nat                  // wire_server->num_events
    var serverLast: Option<EventType>      // wire_server->last_event_type
    var c2s: seq<Msg>
    var s2c: seq<Msg>
    var trace: seq<Executed>
    var printed: seq<seq<byte>>            // what wire_client_receive_packets_done has written to stderr

    function Snapshot(): State
      reads this
    {
      State(Client(clientPhase, clientPos, clientEvents, clientLast),
            Server(serverPhase, serverText, serverPeer, serverPos, serverEvents, serverLast), c2s, s2c, trace, printed)
    }

    constructor (cfg: Config)
      ensures this.cfg == cfg && Snapshot() == Init()
    {
      this.cfg := cfg;
      clientPhase, clientPos, clientEvents, clientLast := CGreeting(0), 0, 0, None;
      serverPhase, serverText, serverPeer := SGreeting(0), [], Peer([], [], []);
      serverPos, serverEvents, serverLast := 0, 0, None;
      c2s, s2c, trace, printed := [], [], [], [];
    }

    /** wire_client_next_event moves its bookkeeping on to an event. */
    method CountClientEvent(e: EventType)
      modifies this`clientLast, this`clientEvents
      ensures clientLast == Some(e) && clientEvents == old(clientEvents) + 1
    {
      clientLast := Some(e);
      clientEvents := clientEvents + 1;
    }

    /** wire_client_next_event for the event at clientPos, or for the end of the script. */
    method ClientNextEvent()
      requires clientPhase == CHead
      modifies this
      ensures Some(Snapshot()) == ClientStep(cfg, old(Snapshot()))
    {
      var script := cfg.parse(cfg.text);
      if clientPos < |script| && script[clientPos] == PacketEvent {
        if !AfterPacket(clientLast) {
          c2s := c2s + [StartMsg(U32(clientEvents))];
        }
        CountClientEvent(PacketEvent);
        clientPos := clientPos + 1;
      } else if AfterPacket(clientLast) {
        clientPhase := CAwaitDone;
      } else if clientPos < |script| {
        CountClientEvent(script[clientPos]);
        clientPhase := CExec;
      } else {
        clientPhase := CFinished;
      }
    }

    /** One round of wire_client_receive_packets_done. */
    method ClientReceiveDone() returns (moved: bool)
      requires clientPhase == CAwaitDone
      modifies this
      ensures moved <==> ClientStep(cfg, old(Snapshot())).Some?
      ensures Snapshot() == if moved then ClientStep(cfg, old(Snapshot())).value else old(Snapshot())
    {
      hide Be32;
      if s2c == [] {
        return false;
      }
      var m := s2c[0];
      if m.op == PacketsWarn {
        s2c := s2c[1..];
        printed := printed + [UpToNul(m.body)];
      } else if m.op != PacketsDone {
        clientPhase := CDead(BadPeer);
      } else {
        s2c := s2c[1..];
        var why := CheckDone(m.body, clientEvents);
        var script := cfg.parse(cfg.text);
        if why.Some? {
          clientPhase := CDead(why.value);
        } else if clientPos >= |script| {
          clientPhase := CFinished;
        } else {
          CountClientEvent(script[clientPos]);
          clientPhase := CExec;
        }
      }
      return true;
    }

    /** A step of the client: wire_client_init, then run_script with
        wire_client_next_event before every event. */
    method ClientMoves() returns (moved: bool)
      modifies this
      ensures moved <==> ClientStep(cfg, old(Snapshot())).Some?
      ensures Snapshot() == if moved then ClientStep(cfg, old(Snapshot())).value else old(Snapshot())
    {
      hide Be32, Enc32, CheckDone, StartMsg;
      match clientPhase {
        case CGreeting(k) =>
          if k >= 4 {
            return false;
          }
          c2s := c2s + [GreetingMsg(cfg, k)];
          clientPhase := if k == 3 then CAwaitReady else CGreeting(k + 1);
        case CAwaitReady =>
          if s2c == [] {
            return false;
          }
          if s2c[0] == Msg(ServerReady, []) {
            s2c := s2c[1..];
            clientPhase := CStarting;
          } else {
            clientPhase := CDead(BadPeer);
          }
        case CStarting =>
          c2s := c2s + [Msg(ClientStarting, [])];
          clientPhase := CHead;
        case CHead =>
          ClientNextEvent();
        case CAwaitDone =>
          moved := ClientReceiveDone();
          return;
        case CExec =>
          var script := cfg.parse(cfg.text);
          if clientPos >= |script| {
            return false;
          }
          trace := trace + [Executed(clientPos, script[clientPos], OnClient)];
          clientPos := clientPos + 1;
          clientPhase := CHead;
        case _ =>
          return false;
      }
      return true;
    }

    method CountServerEvent(e: EventType)
      modifies this`serverLast, this`serverEvents
      ensures serverLast == Some(e) && serverEvents == old(serverEvents) + 1
    {
      serverLast := Some(e);
      serverEvents := serverEvents + 1;
    }

    /** wire_server_next_event for the event at serverPos, or for the end of the script. */
    method ServerNextEvent(outcome: Outcome)
      requires serverPhase == SHead
      modifies this
      ensures Some(Snapshot()) == ServerStep(cfg, old(Snapshot()), outcome)
    {
      hide Enc32;
      var script := cfg.parse(serverText);
      if serverPos >= |script| || script[serverPos] != PacketEvent {
        if AfterPacket(serverLast) {
          s2c := s2c + [DoneMsg(STATUS_OK, U32(serverEvents), [])];
        }
        if serverPos >= |script| {
          serverPhase := SFinished;
        } else {
          CountServerEvent(script[serverPos]);
          serverPos := serverPos + 1;
        }
      } else if AfterPacket(serverLast) {
        CountServerEvent(PacketEvent);
        serverPhase := SExec;
      } else {
        serverPhase := SAwaitStart;
      }
    }

    /** wire_server_run_packet_event */
    method ServerRunPacket(outcome: Outcome) returns (moved: bool)
      requires serverPhase == SExec
      modifies this
      ensures moved <==> ServerStep(cfg, old(Snapshot()), outcome).Some?
      ensures Snapshot() == if moved then ServerStep(cfg, old(Snapshot()), outcome).value else old(Snapshot())
    {
      hide Enc32;
      var script := cfg.parse(serverText);
      if serverPos >= |script| {
        return false;
      }
      trace := trace + [Executed(serverPos, script[serverPos], OnServer)];
      if outcome.Err? {
        s2c := s2c + [DoneMsg(STATUS_ERR, U32(serverEvents), outcome.text)];
        serverPhase := SDead(PacketError(outcome.text));
        return true;
      }
      if outcome.Warn? {
        s2c := s2c + [Msg(PacketsWarn, outcome.text)];
      }
      serverPos := serverPos + 1;
      serverPhase := SHead;
      return true;
    }

    /** wire_server_receive_args, _script_path, _script and _hw_address */
    method ServerIsGreeted(k: nat, outcome: Outcome) returns (moved: bool)
      requires serverPhase == SGreeting(k)
      modifies this
      ensures moved <==> ServerStep(cfg, old(Snapshot()), outcome).Some?
      ensures Snapshot() == if moved then ServerStep(cfg, old(Snapshot()), outcome).value else old(Snapshot())
    {
      hide GoodGreeting, Learn, UpToNul;
      if c2s == [] {
        return false;
      }
      if !GoodGreeting(k, c2s[0]) {
        serverPhase := SDead(BadPeer);
        return true;
      }
      if k == 2 {
        serverText := UpToNul(c2s[0].body);
      }
      serverPeer := Learn(serverPeer, k, c2s[0].body);
      c2s := c2s[1..];
      serverPhase := if k >= 3 then SReady else SGreeting(k + 1);
      return true;
    }

    /** A step of the server: the handshake of wire_server_thread, then
        wire_server_run_script. */
    method ServerMoves(outcome: Outcome) returns (moved: bool)
      modifies this
      ensures moved <==> ServerStep(cfg, old(Snapshot()), outcome).Some?
      ensures Snapshot() == if moved then ServerStep(cfg, old(Snapshot()), outcome).value else old(Snapshot())
    {
      hide Be32, Enc32, GoodGreeting, GoodStart, DoneMsg, Learn, UpToNul;
      match serverPhase {
        case SGreeting(k) =>
          moved := ServerIsGreeted(k, outcome);
          return;
        case SReady =>
          s2c := s2c + [Msg(ServerReady, [])];
          serverPhase := SAwaitStarting;
        case SAwaitStarting =>
          if c2s == [] {
            return false;
          }
          if c2s[0] == Msg(ClientStarting, []) {
            c2s := c2s[1..];
            serverPhase := SHead;
          } else {
            serverPhase := SDead(BadPeer);
          }
        case SHead =>
          ServerNextEvent(outcome);
        case SAwaitStart =>
          if c2s == [] {
            return false;
          }
          if GoodStart(c2s[0], serverEvents) {
            c2s := c2s[1..];
            CountServerEvent(PacketEvent);
            serverPhase := SExec;
          } else {
            serverPhase := SDead(BadPeer);
          }
        case SExec =>
          moved := ServerRunPacket(outcome);
          return;
        case _ =>
          return false;
      }
      return true;
    }
  }

  /** Both nodes to the end of a run, under any scheduler: `clientFirst` says who is tried
      first at each step and `outcomes` what the packets do. The run always ends, and ends
      settled, with everything the packets did reported to the client. */
  method RunToEnd(cfg: Config, clientFirst: nat -> bool, outcomes: nat -> Outcome)
    returns (run: WireRun, ghost states: seq<State>, ghost moves: seq<WireMove>)
    requires ValidConfig(cfg)
    ensures Settled(cfg, run.Snapshot())
    ensures IsMovedRun(cfg, states, moves) && states[|moves|] == run.Snapshot()
    ensures forall i | 0 <= i < |moves| && moves[i].ByServer? :: moves[i].outcome == outcomes(i)
    ensures AllReported(run.Snapshot(), Outcomes(states, moves, |moves|))
  {
    hide ClientStep, ServerStep, Inv, Budget, Settled, ValidConfig, AllReported, Makes;
    run := new WireRun(cfg);
    StartInv(cfg);
    states, moves := [run.Snapshot()], [];
    var i := 0;
    while true
      invariant run.cfg == cfg && fresh(run) && Inv(cfg, run.Snapshot()) && 0 <= Budget(cfg, run.Snapshot())
      invariant IsMovedRun(cfg, states, moves) && states[|moves|] == run.Snapshot() && |moves| == i
      invariant forall k | 0 <= k < |moves| && moves[k].ByServer? :: moves[k].outcome == outcomes(k)
      decreases Budget(cfg, run.Snapshot())
    {
      ghost var s := run.Snapshot();
      var outcome := outcomes(i);
      var moved, byClient := false, clientFirst(i);
      if byClient {
        moved := run.ClientMoves();
      }
      if !moved {
        moved := run.ServerMoves(outcome);
        byClient := false;
      }
      if !moved {
        moved := run.ClientMoves();
        byClient := true;
      }
      if !moved {
        BlockedWhateverTheOutcome(cfg, s, outcome);
        NeitherMoves(cfg, s);
        EverythingIsReported(cfg, states, moves);
        return;
      }
      ghost var m := if byClient then ByClient else ByServer(outcome);
      assert Makes(cfg, s, m, run.Snapshot()) by {
        MakesIs(cfg, s, m, run.Snapshot());
      }
      assert (states + [run.Snapshot()])[..|states|] == states;
      MovesGrow(cfg, states + [run.Snapshot()], moves, m);
      states, moves := states + [run.Snapshot()], moves + [m];
      MovedIsNext(cfg, s, run.Snapshot(), outcome);
      StepKeepsInv(cfg, s, run.Snapshot());
      BudgetFalls(cfg, s, run.Snapshot());
      i := i + 1;
    }
  }

  lemma MakesIs(cfg: Config, s: State, m: WireMove, s': State)
    requires if m.ByClient? then ClientStep(cfg, s) == Some(s') else ServerStep(cfg, s, m.outcome) == Some(s')
    ensures Makes(cfg, s, m, s')
  {
    hide ClientStep, ServerStep;
  }

  lemma StartInv(cfg: Config)
    requires ValidConfig(cfg)
    ensures Inv(cfg, Init()) && 0 <= Budget(cfg, Init())
  {
    RunKeepsInv(cfg, [Init()], 0);
    StartBudget(cfg);
  }

  lemma MovedIsNext(cfg: Config, s: State, s': State, outcome: Outcome)
    requires ClientStep(cfg, s) == Some(s') || ServerStep(cfg, s, outcome) == Some(s')
    ensures Next(cfg, s, s')
  {
    hide ClientStep, ServerStep;
    if ClientStep(cfg, s) != Some(s') {
      assert ServerMoves(cfg, s, s');
    }
  }

  /** Whether the server can move does not depend on what the packet does. */
  lemma BlockedWhateverTheOutcome(cfg: Config, s: State, outcome: Outcome)
    requires ServerStep(cfg, s, outcome) == None
    ensures ServerStep(cfg, s, Ok) == None
  {
    hide Be32, Enc32, GoodGreeting, GoodStart, DoneMsg;
  }

  lemma NeitherMoves(cfg: Config, s: State)
    requires Inv(cfg, s) && ClientStep(cfg, s) == None && ServerStep(cfg, s, Ok) == None
    ensures Settled(cfg, s)
  {
    hide ClientStep, ServerStep, InvIn, Settled;
    var mode :| InvIn(cfg, s, mode);
    BlockedIsSettled(cfg, s, mode);
  }
}
