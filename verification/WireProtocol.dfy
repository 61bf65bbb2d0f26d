/**
The wire client and the wire server as two nodes joined by two FIFO message
channels. Each node walks its own copy of the script; the client executes the
events that are not packets, the server executes the packets. A step is one
message sent, one message received, one event executed or one local move, and
the two nodes interleave freely.
 */
module WireProtocol {
  import opened Bytes

  datatype EventType = PacketEvent | SyscallEvent | CommandEvent | CodeEvent

  datatype Op = CommandLineArgs | ScriptPath | Script | HardwareAddr | ServerReady
              | ClientStarting | PacketsStart | PacketsWarn | PacketsDone

  datatype Msg = Msg(op: Op, body: seq<byte>)

  /** What run_packet_event reports for one packet event. */
  datatype Outcome = Ok | Warn(text: seq<byte>) | Err(text: seq<byte>)

  /** The client's command line, script text and hardware address, and the
      script grammar that both nodes apply to the text they hold. */
  datatype Config = Config(
    args: seq<byte>, path: seq<byte>, text: seq<byte>, hw: seq<byte>,
    parse: seq<byte> -> seq<EventType>)

  /** A dead node either broke off over a malformed message or carries the
      server's packet error. */
  datatype Death = BadPeer | PacketError(text: seq<byte>)

  datatype ClientPhase = CGreeting(sent: nat) | CAwaitReady | CStarting
                       | CHead | CAwaitDone | CExec | CFinished | CDead(why: Death)
  datatype ServerPhase = SGreeting(got: nat) | SReady | SAwaitStarting
                       | SHead | SAwaitStart | SExec | SFinished | SDead(why: Death)

  /** `pos` counts the events this node has moved past, `num` is num_events and
      `last` is last_event_type. */
  datatype Client = Client(phase: ClientPhase, pos: nat, num: nat, last: Option<EventType>)
  datatype Server = Server(
    phase: ServerPhase, text: seq<byte>, peer: Peer, pos: nat, num: nat, last: Option<EventType>)

  /** What else the server is told about its client: command line, script path and hardware
      address. */
  datatype Peer = Peer(args: seq<byte>, path: seq<byte>, hw: seq<byte>)

  datatype Site = OnClient | OnServer
  datatype Executed = Executed(index: nat, event: EventType, site: Site)

  /** `printed` holds the warnings the client has shown to its user. */
  datatype State = State(
    client: Client, server: Server, c2s: seq<Msg>, s2c: seq<Msg>, trace: seq<Executed>, printed: seq<seq<byte>>)

  const STATUS_OK: u32 := 0
  const STATUS_ERR: u32 := 0xffff_ffff

  ghost predicate ValidConfig(cfg: Config) {
    |cfg.hw| == 6 && 0 !in cfg.text
  }

  /** strndup: the bytes before the first NUL. */
  function UpToNul(b: seq<byte>): (s: seq<byte>)
    ensures 0 !in b ==> s == b
    ensures s <= b && 0 !in s && (|s| < |b| ==> b[|s|] == 0)
  {
    if b == [] || b[0] == 0 then [] else [b[0]] + UpToNul(b[1..])
  }

  function GreetingMsg(cfg: Config, k: nat): Msg
    requires k < 4
  {
    match k
    case 0 => Msg(CommandLineArgs, cfg.args)
    case 1 => Msg(ScriptPath, cfg.path)
    case 2 => Msg(Script, cfg.text)
    case _ => Msg(HardwareAddr, cfg.hw)
  }

  function StartMsg(num: u32): Msg {
    Msg(PacketsStart, Enc32(num))
  }

  function DoneMsg(result: u32, num: u32, text: seq<byte>): Msg {
    Msg(PacketsDone, Enc32(result) + Enc32(num) + text + [0])
  }

  predicate AfterPacket(last: Option<EventType>) {
    last == Some(PacketEvent)
  }

  /** wire_client_next_event's bookkeeping, and the server's. */
  function CountClient(c: Client, e: EventType, phase: ClientPhase): Client {
    c.(phase := phase, num := c.num + 1, last := Some(e))
  }

  function CountServer(v: Server, e: EventType, phase: ServerPhase): Server {
    v.(phase := phase, num := v.num + 1, last := Some(e))
  }

  function U32(n: nat): u32 {
    n % 0x1_0000_0000
  }

  // ---------------------------------------------------------------------
  // The client
  // ---------------------------------------------------------------------

  /** The checks wire_client_receive_packets_done makes on a DONE body: nothing
      when the client may go on, else why it dies. */
  function CheckDone(body: seq<byte>, num: nat): Option<Death> {
    if |body| < 8 + 1 then Some(BadPeer)
    else if body[|body| - 1] != 0 then Some(BadPeer)
    else if Be32(body, 0) == STATUS_ERR then Some(PacketError(body[8..|body| - 1]))
    else if Be32(body, 4) != U32(num) then Some(BadPeer)
    else None
  }

  /** The client's next step, or None while it is blocked in a read or over. */
  function ClientStep(cfg: Config, s: State): Option<State> {
    var c := s.client;
    var script := cfg.parse(cfg.text);
    match c.phase
    case CGreeting(k) =>
      if k < 4 then
        Some(s.(client := c.(phase := if k == 3 then CAwaitReady else CGreeting(k + 1)),
                c2s := s.c2s + [GreetingMsg(cfg, k)]))
      else None
    case CAwaitReady =>
      if s.s2c == [] then None
      else if s.s2c[0] == Msg(ServerReady, []) then
        Some(s.(client := c.(phase := CStarting), s2c := s.s2c[1..]))
      else Some(s.(client := c.(phase := CDead(BadPeer))))
    case CStarting =>
      Some(s.(client := c.(phase := CHead), c2s := s.c2s + [Msg(ClientStarting, [])]))
    case CHead =>
      if c.pos >= |script| then
        Some(s.(client := c.(phase := if AfterPacket(c.last) then CAwaitDone else CFinished)))
      else if script[c.pos] == PacketEvent then
        Some(s.(client := CountClient(c, PacketEvent, CHead).(pos := c.pos + 1),
                c2s := if AfterPacket(c.last) then s.c2s else s.c2s + [StartMsg(U32(c.num))]))
      else if AfterPacket(c.last) then
        Some(s.(client := c.(phase := CAwaitDone)))
      else
        Some(s.(client := CountClient(c, script[c.pos], CExec)))
    case CAwaitDone =>
      if s.s2c == [] then None
      else if s.s2c[0].op == PacketsWarn then
        Some(s.(s2c := s.s2c[1..], printed := s.printed + [UpToNul(s.s2c[0].body)]))
      else if s.s2c[0].op != PacketsDone then Some(s.(client := c.(phase := CDead(BadPeer))))
      else (
        match CheckDone(s.s2c[0].body, c.num)
        case Some(why) => Some(s.(client := c.(phase := CDead(why)), s2c := s.s2c[1..]))
        case None =>
          if c.pos >= |script| then Some(s.(client := c.(phase := CFinished), s2c := s.s2c[1..]))
          else Some(s.(client := CountClient(c, script[c.pos], CExec), s2c := s.s2c[1..]))
      )
    case CExec =>
      if c.pos < |script| then
        Some(s.(client := c.(phase := CHead, pos := c.pos + 1),
                trace := s.trace + [Executed(c.pos, script[c.pos], OnClient)]))
      else None
    case CFinished => None
    case CDead(_) => None
  }

  // ---------------------------------------------------------------------
  // The server
  // ---------------------------------------------------------------------

  /** Whether the k-th greeting message has the op and the length the server
      insists on. */
  predicate GoodGreeting(k: nat, m: Msg) {
    match k
    case 0 => m.op == CommandLineArgs
    case 1 => m.op == ScriptPath
    case 2 => m.op == Script
    case _ => m.op == HardwareAddr && |m.body| == 6
  }

  /** What the server keeps of the k-th greeting message, besides the script. */
  function Learn(peer: Peer, k: nat, body: seq<byte>): Peer {
    match k
    case 0 => peer.(args := body)
    case 1 => peer.(path := UpToNul(body))
    case 2 => peer
    case _ => peer.(hw := body)
  }

  predicate GoodStart(m: Msg, num: nat) {
    m.op == PacketsStart && |m.body| == 4 && Be32(m.body, 0) == U32(num)
  }

  /** The server's next step, or None while it is blocked in a read or over;
      `outcome` is what the packet under test made of a packet event. */
  function ServerStep(cfg: Config, s: State, outcome: Outcome): Option<State> {
    var v := s.server;
    var script := cfg.parse(v.text);
    match v.phase
    case SGreeting(k) =>
      if s.c2s == [] then None
      else if !GoodGreeting(k, s.c2s[0]) then Some(s.(server := v.(phase := SDead(BadPeer))))
      else
        Some(s.(server := v.(phase := if k >= 3 then SReady else SGreeting(k + 1),
                             text := if k == 2 then UpToNul(s.c2s[0].body) else v.text,
                             peer := Learn(v.peer, k, s.c2s[0].body)),
                c2s := s.c2s[1..]))
    case SReady =>
      Some(s.(server := v.(phase := SAwaitStarting), s2c := s.s2c + [Msg(ServerReady, [])]))
    case SAwaitStarting =>
      if s.c2s == [] then None
      else if s.c2s[0] == Msg(ClientStarting, []) then
        Some(s.(server := v.(phase := SHead), c2s := s.c2s[1..]))
      else Some(s.(server := v.(phase := SDead(BadPeer))))
    case SHead =>
      if v.pos >= |script| then
        Some(s.(server := v.(phase := SFinished),
                s2c := if AfterPacket(v.last) then s.s2c + [DoneMsg(STATUS_OK, U32(v.num), [])] else s.s2c))
      else if script[v.pos] != PacketEvent then
        Some(s.(server := CountServer(v, script[v.pos], SHead).(pos := v.pos + 1),
                s2c := if AfterPacket(v.last) then s.s2c + [DoneMsg(STATUS_OK, U32(v.num), [])] else s.s2c))
      else if AfterPacket(v.last) then
        Some(s.(server := CountServer(v, PacketEvent, SExec)))
      else
        Some(s.(server := v.(phase := SAwaitStart)))
    case SAwaitStart =>
      if s.c2s == [] then None
      else if GoodStart(s.c2s[0], v.num) then
        Some(s.(server := CountServer(v, PacketEvent, SExec), c2s := s.c2s[1..]))
      else Some(s.(server := v.(phase := SDead(BadPeer))))
    case SExec =>
      if v.pos >= |script| then None
      else (
        var trace' := s.trace + [Executed(v.pos, script[v.pos], OnServer)];
        match outcome
        case Ok => Some(s.(server := v.(phase := SHead, pos := v.pos + 1), trace := trace'))
        case Warn(text) =>
          Some(s.(server := v.(phase := SHead, pos := v.pos + 1), trace := trace',
                  s2c := s.s2c + [Msg(PacketsWarn, text)]))
        case Err(text) =>
          Some(s.(server := v.(phase := SDead(PacketError(text))), trace := trace',
                  s2c := s.s2c + [DoneMsg(STATUS_ERR, U32(v.num), text)]))
      )
    case SFinished => None
    case SDead(_) => None
  }

  // ---------------------------------------------------------------------
  // Runs
  // ---------------------------------------------------------------------

  function Init(): State {
    State(Client(CGreeting(0), 0, 0, None), Server(SGreeting(0), [], Peer([], [], []), 0, 0, None), [], [], [], [])
  }

  ghost predicate ServerMoves(cfg: Config, s: State, s': State) {
    exists outcome :: ServerStep(cfg, s, outcome) == Some(s')
  }

  ghost predicate Next(cfg: Config, s: State, s': State) {
    ClientStep(cfg, s) == Some(s') || ServerMoves(cfg, s, s')
  }

  /** A finite interleaving of the two nodes from the initial state. */
  ghost predicate IsRun(cfg: Config, run: seq<State>) {
    && |run| > 0 && run[0] == Init()
    && forall i | 0 < i < |run| :: Next(cfg, run[i - 1], run[i])
  }

  ghost predicate Stuck(cfg: Config, s: State) {
    forall s' :: !Next(cfg, s, s')
  }

  /** The first k events, in script order, each executed at its own site. */
  function TraceTo(script: seq<EventType>, k: nat): seq<Executed>
    requires k <= |script|
  {
    seq(k, i requires 0 <= i < k =>
      Executed(i, script[i], if script[i] == PacketEvent then OnServer else OnClient))
  }
}
