/**
The two nodes over byte streams: the wire protocol with its messages framed and cut
into pieces as they go. A step is a step of a node, or a few bytes written to or read
from a connection. Seen from outside this is the protocol over message channels.
 */
module WireBytes {
  import opened Bytes
  import opened WireConn
  import opened WireProtocol
  import opened WireProtocolSafety
  import opened WireProtocolTheorems

  // ---------------------------------------------------------------------
  // Messages as bytes
  // ---------------------------------------------------------------------

  /** enum wire_op_t */
  function Code(op: Op): u32 {
    match op
    case CommandLineArgs => 1
    case ScriptPath => 2
    case Script => 3
    case HardwareAddr => 4
    case ServerReady => 5
    case ClientStarting => 6
    case PacketsStart => 7
    case PacketsWarn => 8
    case PacketsDone => 9
  }

  function Decoded(code: u32): Option<Op> {
    match code
    case 1 => Some(CommandLineArgs)
    case 2 => Some(ScriptPath)
    case 3 => Some(Script)
    case 4 => Some(HardwareAddr)
    case 5 => Some(ServerReady)
    case 6 => Some(ClientStarting)
    case 7 => Some(PacketsStart)
    case 8 => Some(PacketsWarn)
    case 9 => Some(PacketsDone)
    case _ => None
  }

  /** The reader takes the message. */
  predicate Small(m: Msg) {
    |m.body| <= MAX_MESSAGE_BYTES
  }

  predicate AllSmall(ms: seq<Msg>) {
    forall i | 0 <= i < |ms| :: Small(ms[i])
  }

  function FrameOf(m: Msg): (b: seq<byte>)
    requires Small(m)
    ensures |b| == HEADER_BYTES + |m.body|
  {
    Frame(Message(Code(m.op), m.body))
  }

  function Encode(ms: seq<Msg>): seq<byte>
    requires AllSmall(ms)
  {
    if ms == [] then [] else FrameOf(ms[0]) + Encode(ms[1..])
  }

  lemma {:induction false} EncodeAppend(ms: seq<Msg>, m: Msg)
    requires AllSmall(ms) && Small(m)
    ensures AllSmall(ms + [m]) && Encode(ms + [m]) == Encode(ms) + FrameOf(m)
    decreases |ms|
  {
    hide FrameOf;
    if ms == [] {
      assert Encode([m]) == FrameOf(m) + Encode([]);
    } else {
      assert (ms + [m])[1..] == ms[1..] + [m];
      EncodeAppend(ms[1..], m);
    }
  }

  // ---------------------------------------------------------------------
  // The system
  // ---------------------------------------------------------------------

  /** One direction of the connection: what wire_conn_write has not yet handed to the
      kernel, what is on its way, and what wire_conn_read has of the message it reads. */
  datatype Pipe = Pipe(unsent: seq<byte>, wire: seq<byte>, got: seq<byte>)

  datatype Net = Net(client: Client, server: Server, up: Pipe, down: Pipe, trace: seq<Executed>,
                     printed: seq<seq<byte>>)

  function Start(): Net {
    Net(Init().client, Init().server, Pipe([], [], []), Pipe([], [], []), [], [])
  }

  /** write(2) of k bytes. */
  function Push(p: Pipe, k: nat): Pipe
    requires k <= |p.unsent|
  {
    Pipe(p.unsent[k..], p.wire + p.unsent[..k], p.got)
  }

  /** How many bytes the reader asks for: the rest of the header, then the rest of the
      body. */
  function Wanted(got: seq<byte>): int {
    if |got| < HEADER_BYTES then HEADER_BYTES - |got|
    else HEADER_BYTES + BodyLength(Be32(got, 0)) - |got|
  }

  predicate CanTake(p: Pipe, k: nat) {
    k <= |p.wire| && k <= Wanted(p.got)
  }

  /** read(2) of k bytes. */
  function Take(p: Pipe, k: nat): Pipe
    requires k <= |p.wire|
  {
    Pipe(p.unsent, p.wire[k..], p.got + p.wire[..k])
  }

  /** The message that has been read, if it is complete. */
  function Inbox(p: Pipe): seq<Msg> {
    match ReadOne(p.got)
    case Got(m, rest) => if rest == [] && Decoded(m.op).Some? then [Msg(Decoded(m.op).value, m.body)] else []
    case _ => []
  }

  /** The pipe after a node that saw `inbox` left `rest` of it. */
  function Consume(p: Pipe, rest: seq<Msg>): Pipe {
    if Inbox(p) != [] && rest == [] then p.(got := []) else p
  }

  predicate ClientReads(c: Client) {
    c.phase == CAwaitReady || c.phase == CAwaitDone
  }

  predicate ServerReads(v: Server) {
    v.phase.SGreeting? || v.phase == SAwaitStarting || v.phase == SAwaitStart
  }

  /** A script that fits into messages, and a packet outcome that does. */
  predicate SmallConfig(cfg: Config) {
    |cfg.args| <= MAX_MESSAGE_BYTES && |cfg.path| <= MAX_MESSAGE_BYTES && |cfg.text| <= MAX_MESSAGE_BYTES
    && |cfg.hw| <= MAX_MESSAGE_BYTES
  }

  predicate SmallOutcome(outcome: Outcome) {
    outcome.Ok? || |outcome.text| + 9 <= MAX_MESSAGE_BYTES
  }

  /** What a node has in front of it when it takes a step of its own. */
  function ClientView(b: Net): State {
    State(b.client, b.server, [], Inbox(b.down), b.trace, b.printed)
  }

  function ServerView(b: Net): State {
    State(b.client, b.server, Inbox(b.up), [], b.trace, b.printed)
  }

  ghost predicate ClientActs(cfg: Config, b: Net, b': Net) {
    var r := ClientStep(cfg, ClientView(b));
    && b.up.unsent == [] && r.Some? && AllSmall(r.value.c2s)
    && b' == b.(client := r.value.client, trace := r.value.trace, printed := r.value.printed,
                up := b.up.(unsent := Encode(r.value.c2s)), down := Consume(b.down, r.value.s2c))
  }

  ghost predicate ServerActs(cfg: Config, b: Net, b': Net, outcome: Outcome) {
    var r := ServerStep(cfg, ServerView(b), outcome);
    && b.down.unsent == [] && r.Some? && AllSmall(r.value.s2c)
    && b' == b.(server := r.value.server, trace := r.value.trace, printed := r.value.printed,
                down := b.down.(unsent := Encode(r.value.s2c)), up := Consume(b.up, r.value.c2s))
  }

  /** A few bytes move. */
  ghost predicate BytesMove(b: Net, b': Net, k: nat) {
    && k > 0
    && (|| (k <= |b.up.unsent| && b' == b.(up := Push(b.up, k)))
        || (k <= |b.down.unsent| && b' == b.(down := Push(b.down, k)))
        || (ServerReads(b.server) && CanTake(b.up, k) && b' == b.(up := Take(b.up, k)))
        || (ClientReads(b.client) && CanTake(b.down, k) && b' == b.(down := Take(b.down, k))))
  }

  ghost predicate ByteNext(cfg: Config, b: Net, b': Net) {
    || ClientActs(cfg, b, b')
    || (exists outcome :: SmallOutcome(outcome) && ServerActs(cfg, b, b', outcome))
    || (exists k: nat :: BytesMove(b, b', k))
  }

  ghost predicate IsByteRun(cfg: Config, run: seq<Net>) {
    && |run| > 0 && run[0] == Start()
    && forall i | 0 < i < |run| :: ByteNext(cfg, run[i - 1], run[i])
  }

  // ---------------------------------------------------------------------
  // Bytes stand for messages
  // ---------------------------------------------------------------------

  /** The bytes of the pipe are those of the messages, and the reader is inside the first
      of them. */
  ghost predicate Holds(p: Pipe, ms: seq<Msg>) {
    && AllSmall(ms)
    && p.got + p.wire + p.unsent == Encode(ms)
    && (ms != [] ==> |p.got| <= |FrameOf(ms[0])|)
  }

  ghost predicate Abs(b: Net, s: State) {
    && s.client == b.client && s.server == b.server && s.trace == b.trace && s.printed == b.printed
    && Holds(b.up, s.c2s) && Holds(b.down, s.s2c)
  }

  lemma EmptyHolds(p: Pipe)
    requires Holds(p, [])
    ensures p == Pipe([], [], [])
  {
  }

  lemma FirstOf(p: Pipe, ms: seq<Msg>)
    requires Holds(p, ms) && ms != []
    ensures p.got == FrameOf(ms[0])[..|p.got|]
    ensures |p.got| == |FrameOf(ms[0])| ==> p.got == FrameOf(ms[0]) && p.wire + p.unsent == Encode(ms[1..])
    ensures |p.got| < |FrameOf(ms[0])| ==> p.wire != [] || p.unsent != []
  {
    hide FrameOf;
    var f, rest, n := FrameOf(ms[0]), Encode(ms[1..]), |p.got|;
    var all := p.got + p.wire + p.unsent;
    assert all == f + rest;
    assert p.got == all[..n] == f[..n];
    if n == |f| {
      assert p.wire + p.unsent == all[n..] == rest;
    }
  }

  /** The reader has the first message exactly when all its bytes have come. */
  lemma InboxIsFirst(p: Pipe, ms: seq<Msg>)
    requires Holds(p, ms)
    ensures Inbox(p) == if ms != [] && |p.got| == |FrameOf(ms[0])| then [ms[0]] else []
  {
    hide ReadOne, Frame, Encode;
    if ms == [] {
      EmptyHolds(p);
      ReadNothing();
    } else {
      FirstOf(p, ms);
      var m := Message(Code(ms[0].op), ms[0].body);
      if |p.got| == |FrameOf(ms[0])| {
        assert p.got == Frame(m) + [];
        ReadFrame(m, []);
      } else {
        ReadPartOfFrame(m, |p.got|);
      }
    }
  }

  /** The reader never asks for bytes of the next message. */
  lemma WantedStaysInside(p: Pipe, ms: seq<Msg>)
    requires Holds(p, ms) && ms != []
    ensures Wanted(p.got) <= |FrameOf(ms[0])| - |p.got|
    ensures |p.got| < |FrameOf(ms[0])| ==> Wanted(p.got) > 0
  {
    hide Encode, Be32;
    FirstOf(p, ms);
    var n := HEADER_BYTES + |ms[0].body|;
    if |p.got| >= HEADER_BYTES {
      assert p.got[..4] == FrameOf(ms[0])[..4] == Enc32(n);
      LengthOf(p.got, n);
      LengthAccepted(n);
    }
  }

  lemma LengthOf(b: seq<byte>, n: u32)
    requires |b| >= 4 && b[..4] == Enc32(n)
    ensures Be32(b, 0) == n
  {
    assert forall i | 0 <= i < 4 :: b[i] == b[..4][i];
  }

  lemma PushHolds(p: Pipe, ms: seq<Msg>, k: nat)
    requires Holds(p, ms) && k <= |p.unsent|
    ensures Holds(Push(p, k), ms)
  {
    hide FrameOf, Encode;
    assert p.unsent == p.unsent[..k] + p.unsent[k..];
  }

  lemma TakeHolds(p: Pipe, ms: seq<Msg>, k: nat)
    requires Holds(p, ms) && 0 < k <= |p.wire| && k <= Wanted(p.got)
    ensures Holds(Take(p, k), ms)
  {
    hide FrameOf, Wanted;
    assert p.wire == p.wire[..k] + p.wire[k..];
    assert p.got + p.wire[..k] + p.wire[k..] + p.unsent == p.got + p.wire + p.unsent;
    if ms != [] {
      WantedStaysInside(p, ms);
    }
  }

  /** A node that is not writing writes at most one message. */
  lemma SendHolds(p: Pipe, ms: seq<Msg>, sent: seq<Msg>)
    requires Holds(p, ms) && p.unsent == [] && |sent| <= 1 && AllSmall(sent)
    ensures Holds(p.(unsent := Encode(sent)), ms + sent)
  {
    hide FrameOf;
    if sent == [] {
      assert ms + sent == ms;
    } else {
      EncodeAppend(ms, sent[0]);
      assert sent == [sent[0]] && Encode(sent) == FrameOf(sent[0]) + Encode(sent[1..]);
      if ms == [] {
        EmptyHolds(p);
      }
    }
  }

  lemma ConsumeHolds(p: Pipe, ms: seq<Msg>, rest: seq<Msg>)
    requires Holds(p, ms)
    ensures Holds(Consume(p, rest), if Inbox(p) != [] && rest == [] then ms[1..] else ms)
  {
    hide FrameOf, Inbox, Encode;
    InboxIsFirst(p, ms);
    if Inbox(p) != [] && rest == [] {
      FirstOf(p, ms);
      assert [] + p.wire + p.unsent == p.wire + p.unsent;
    }
  }

  // ---------------------------------------------------------------------
  // A node only sees its inbox
  // ---------------------------------------------------------------------

  predicate SameLogs(s: State, s': State) {
    s.trace == s'.trace && s.printed == s'.printed
  }

  /** What a step of the client does with its inbox and its outbox. */
  lemma ClientIsLocal(cfg: Config, s: State, view: State)
    requires view.client == s.client && view.server == s.server && SameLogs(view, s) && view.c2s == []
    requires view.s2c == [] || (s.s2c != [] && view.s2c == [s.s2c[0]])
    requires ClientStep(cfg, view).Some?
    ensures var r := ClientStep(cfg, view).value;
            && |r.c2s| <= 1 && r.server == s.server
            && var s2c := if view.s2c != [] && r.s2c == [] then s.s2c[1..] else s.s2c;
               ClientStep(cfg, s) == Some(State(r.client, s.server, s.c2s + r.c2s, s2c, r.trace, r.printed))
  {
    hide GreetingMsg, StartMsg, CheckDone;
    var r := ClientStep(cfg, view).value;
    assert view.s2c != [] ==> view.s2c[1..] == [];
    assert r.c2s == [] || r.c2s == [r.c2s[0]];
    assert ClientStep(cfg, s).value.c2s == s.c2s + r.c2s;
  }

  lemma ServerIsLocal(cfg: Config, s: State, view: State, outcome: Outcome)
    requires view.client == s.client && view.server == s.server && SameLogs(view, s) && view.s2c == []
    requires view.c2s == [] || (s.c2s != [] && view.c2s == [s.c2s[0]])
    requires ServerStep(cfg, view, outcome).Some?
    ensures var r := ServerStep(cfg, view, outcome).value;
            && |r.s2c| <= 1 && r.client == s.client
            && ServerStep(cfg, s, outcome)
               == Some(State(s.client, r.server, if view.c2s != [] && r.c2s == [] then s.c2s[1..] else s.c2s,
                             s.s2c + r.s2c, r.trace, r.printed))
  {
    hide GoodGreeting, GoodStart, UpToNul, DoneMsg;
    var r := ServerStep(cfg, view, outcome).value;
    assert view.c2s != [] ==> view.c2s[1..] == [];
    assert r.s2c == [] || r.s2c == [r.s2c[0]];
    assert ServerStep(cfg, s, outcome).value.s2c == s.s2c + r.s2c;
  }

  // ---------------------------------------------------------------------
  // The byte system refines the message system
  // ---------------------------------------------------------------------

  /** Bytes still to be handed on. */
  function Flow(b: Net): nat {
    2 * |b.up.unsent| + |b.up.wire| + 2 * |b.down.unsent| + |b.down.wire|
  }

  const MAX_FRAME_BYTES := HEADER_BYTES + MAX_MESSAGE_BYTES

  lemma OneFrame(ms: seq<Msg>)
    requires AllSmall(ms) && |ms| <= 1
    ensures |Encode(ms)| <= MAX_FRAME_BYTES
  {
    hide FrameOf;
    assert ms != [] ==> ms[1..] == [] && Small(ms[0]);
  }

  lemma ClientActsRefines(cfg: Config, b: Net, b': Net, s: State) returns (s': State)
    requires Abs(b, s) && ClientActs(cfg, b, b')
    ensures Abs(b', s') && ClientStep(cfg, s) == Some(s') && Next(cfg, s, s')
    ensures Flow(b') <= Flow(b) + 2 * MAX_FRAME_BYTES
  {
    hide Holds, ClientStep, ServerStep, Inbox, Encode;
    InboxIsFirst(b.down, s.s2c);
    var view := ClientView(b);
    ClientIsLocal(cfg, s, view);
    var r := ClientStep(cfg, view).value;
    s' := ClientStep(cfg, s).value;
    SendHolds(b.up, s.c2s, r.c2s);
    OneFrame(r.c2s);
    ConsumeHolds(b.down, s.s2c, r.s2c);
  }

  lemma ServerActsRefines(cfg: Config, b: Net, b': Net, s: State, outcome: Outcome) returns (s': State)
    requires Abs(b, s) && ServerActs(cfg, b, b', outcome)
    ensures Abs(b', s') && ServerStep(cfg, s, outcome) == Some(s') && Next(cfg, s, s')
    ensures Flow(b') <= Flow(b) + 2 * MAX_FRAME_BYTES
  {
    hide Holds, ClientStep, ServerStep, Inbox, Encode;
    InboxIsFirst(b.up, s.c2s);
    var view := ServerView(b);
    ServerIsLocal(cfg, s, view, outcome);
    var r := ServerStep(cfg, view, outcome).value;
    s' := ServerStep(cfg, s, outcome).value;
    SendHolds(b.down, s.s2c, r.s2c);
    OneFrame(r.s2c);
    ConsumeHolds(b.up, s.c2s, r.c2s);
    assert ServerMoves(cfg, s, s');
  }

  lemma BytesMoveRefines(b: Net, b': Net, k: nat, s: State)
    requires Abs(b, s) && BytesMove(b, b', k)
    ensures Abs(b', s) && Flow(b') < Flow(b)
  {
    hide Holds, Wanted;
    if k <= |b.up.unsent| && b' == b.(up := Push(b.up, k)) {
      PushHolds(b.up, s.c2s, k);
    } else if k <= |b.down.unsent| && b' == b.(down := Push(b.down, k)) {
      PushHolds(b.down, s.s2c, k);
    } else if CanTake(b.up, k) && b' == b.(up := Take(b.up, k)) {
      TakeHolds(b.up, s.c2s, k);
    } else {
      TakeHolds(b.down, s.s2c, k);
    }
  }

  /** Every step over bytes is a step over messages, or moves bytes along that stand for
      the same messages. */
  lemma ByteStepRefines(cfg: Config, b: Net, b': Net, s: State) returns (s': State)
    requires Abs(b, s) && ByteNext(cfg, b, b')
    ensures Abs(b', s')
    ensures || (Next(cfg, s, s') && Flow(b') <= Flow(b) + 2 * MAX_FRAME_BYTES)
            || (s' == s && Flow(b') < Flow(b))
  {
    hide Abs, ClientActs, ServerActs, BytesMove, Next;
    if ClientActs(cfg, b, b') {
      s' := ClientActsRefines(cfg, b, b', s);
    } else if outcome :| SmallOutcome(outcome) && ServerActs(cfg, b, b', outcome) {
      s' := ServerActsRefines(cfg, b, b', s, outcome);
    } else {
      var k: nat :| BytesMove(b, b', k);
      BytesMoveRefines(b, b', k, s);
      s' := s;
    }
  }

  /** Every run over bytes is a run over messages. */
  lemma {:induction false} ByteRunRefines(cfg: Config, net: seq<Net>) returns (run: seq<State>)
    requires IsByteRun(cfg, net)
    ensures IsRun(cfg, run) && Abs(net[|net| - 1], run[|run| - 1])
    decreases |net|
  {
    hide Next, ByteNext;
    var n := |net|;
    if n == 1 {
      run := [Init()];
    } else {
      hide Abs;
      var before := ByteRunRefines(cfg, net[..n - 1]);
      var s := before[|before| - 1];
      var s' := ByteStepRefines(cfg, net[n - 2], net[n - 1], s);
      run := if Next(cfg, s, s') then before + [s'] else before;
    }
  }

  /** Over bytes, too: executed events are exactly the first ones of the script, each
      once, in order and at the right node, and no message is taken for malformed. */
  lemma BytesKeepOrder(cfg: Config, net: seq<Net>, i: nat) returns (k: nat)
    requires ValidConfig(cfg) && IsByteRun(cfg, net) && i < |net|
    ensures k <= |cfg.parse(cfg.text)| && net[i].trace == TraceTo(cfg.parse(cfg.text), k)
    ensures net[i].client.phase != CDead(BadPeer) && net[i].server.phase != SDead(BadPeer)
  {
    hide ValidConfig, ByteNext, TraceTo, Holds;
    var run := ByteRunRefines(cfg, net[..i + 1]);
    assert net[..i + 1][i] == net[i];
    k := TraceIsScriptPrefix(cfg, run, |run| - 1);
  }

  // ---------------------------------------------------------------------
  // Progress
  // ---------------------------------------------------------------------

  /** What is left to do: moves of the nodes, and between two of them bytes to hand on. */
  function Potential(cfg: Config, b: Net, s: State): int {
    (2 * MAX_FRAME_BYTES + 1) * Budget(cfg, s) + Flow(b)
  }

  lemma PotentialFalls(cfg: Config, b: Net, b': Net, s: State) returns (s': State)
    requires Abs(b, s) && Inv(cfg, s) && ByteNext(cfg, b, b')
    ensures Abs(b', s') && Inv(cfg, s') && Potential(cfg, b', s') < Potential(cfg, b, s)
  {
    hide Abs, Inv, ByteNext, Next, Budget, Flow;
    s' := ByteStepRefines(cfg, b, b', s);
    if Next(cfg, s, s') && Flow(b') <= Flow(b) + 2 * MAX_FRAME_BYTES {
      StepKeepsInv(cfg, s, s');
      BudgetFalls(cfg, s, s');
    }
  }

  /** Every run over bytes is over within a bound that the script length fixes. */
  lemma {:induction false} ByteRunsAreFinite(cfg: Config, net: seq<Net>) returns (s: State)
    requires ValidConfig(cfg) && IsByteRun(cfg, net)
    ensures Abs(net[|net| - 1], s) && Inv(cfg, s) && 0 <= Budget(cfg, s)
    ensures |net| + Potential(cfg, net[|net| - 1], s)
         <= (2 * MAX_FRAME_BYTES + 1) * (10 * |cfg.parse(cfg.text)| + 20) + 1
    ensures |net| <= (2 * MAX_FRAME_BYTES + 1) * (10 * |cfg.parse(cfg.text)| + 20) + 1
    decreases |net|
  {
    hide Inv, ByteNext, Budget, ValidConfig, Holds;
    var n := |net|;
    if n == 1 {
      s := Init();
      StartHolds();
      RunKeepsInv(cfg, [s], 0);
      StartBudget(cfg);
    } else {
      var before := ByteRunsAreFinite(cfg, net[..n - 1]);
      s := PotentialFalls(cfg, net[n - 2], net[n - 1], before);
    }
    InsideScript(cfg, s);
    BudgetIsNotNegative(cfg, s);
  }

  lemma StartHolds()
    ensures Abs(Start(), Init()) && Flow(Start()) == 0
  {
  }

  ghost predicate ByteStuck(cfg: Config, b: Net) {
    forall b' :: !ByteNext(cfg, b, b')
  }

  lemma StuckMovesNothing(cfg: Config, b: Net, b': Net, k: nat)
    requires ByteStuck(cfg, b)
    ensures !BytesMove(b, b', k)
  {
    hide BytesMove;
    assert !ByteNext(cfg, b, b');
  }

  lemma StuckHasWritten(cfg: Config, b: Net)
    requires ByteStuck(cfg, b)
    ensures b.up.unsent == [] && b.down.unsent == []
  {
    hide ByteStuck;
    if b.up.unsent != [] {
      StuckMovesNothing(cfg, b, b.(up := Push(b.up, 1)), 1);
    }
    if b.down.unsent != [] {
      StuckMovesNothing(cfg, b, b.(down := Push(b.down, 1)), 1);
    }
  }

  /** A reader that is stuck has read the message in front of it. */
  lemma StuckHasRead(cfg: Config, b: Net, s: State)
    requires ByteStuck(cfg, b) && Abs(b, s)
    ensures ClientReads(b.client) && s.s2c != [] ==> Inbox(b.down) == [s.s2c[0]]
    ensures ServerReads(b.server) && s.c2s != [] ==> Inbox(b.up) == [s.c2s[0]]
  {
    hide ByteStuck, Holds, Wanted, Inbox, FrameOf, Encode;
    StuckHasWritten(cfg, b);
    InboxIsFirst(b.down, s.s2c);
    InboxIsFirst(b.up, s.c2s);
    if ClientReads(b.client) && s.s2c != [] {
      FirstOf(b.down, s.s2c);
      WantedStaysInside(b.down, s.s2c);
      StuckMovesNothing(cfg, b, if b.down.wire != [] then b.(down := Take(b.down, 1)) else b, 1);
      InsideFirst(b.down, s.s2c);
    }
    if ServerReads(b.server) && s.c2s != [] {
      FirstOf(b.up, s.c2s);
      WantedStaysInside(b.up, s.c2s);
      StuckMovesNothing(cfg, b, if b.up.wire != [] then b.(up := Take(b.up, 1)) else b, 1);
      InsideFirst(b.up, s.c2s);
    }
  }

  lemma InsideFirst(p: Pipe, ms: seq<Msg>)
    requires Holds(p, ms) && ms != []
    ensures |p.got| <= |FrameOf(ms[0])|
  {
  }

  /** A node that could step over messages can step over bytes once it has read. */
  lemma ClientIsEnabled(cfg: Config, s: State, view: State)
    requires view.client == s.client && view.server == s.server && SameLogs(view, s) && view.c2s == []
    requires ClientReads(s.client) && s.s2c != [] ==> view.s2c == [s.s2c[0]]
    requires SmallConfig(cfg) && ClientStep(cfg, s).Some?
    ensures ClientStep(cfg, view).Some? && AllSmall(ClientStep(cfg, view).value.c2s)
  {
    hide CheckDone;
  }

  lemma ServerIsEnabled(cfg: Config, s: State, view: State)
    requires view.client == s.client && view.server == s.server && SameLogs(view, s) && view.s2c == []
    requires ServerReads(s.server) && s.c2s != [] ==> view.c2s == [s.c2s[0]]
    requires ServerStep(cfg, s, Ok).Some?
    ensures ServerStep(cfg, view, Ok).Some? && AllSmall(ServerStep(cfg, view, Ok).value.s2c)
  {
    hide GoodGreeting, GoodStart, UpToNul;
  }

  lemma StuckNodes(cfg: Config, b: Net, s: State)
    requires SmallConfig(cfg) && ByteStuck(cfg, b) && Abs(b, s)
    ensures ClientStep(cfg, s) == None && ServerStep(cfg, s, Ok) == None
  {
    hide ClientStep, ServerStep, Holds, Inbox, Encode, SmallConfig;
    StuckHasWritten(cfg, b);
    StuckHasRead(cfg, b, s);
    if ClientStep(cfg, s).Some? {
      ClientIsEnabled(cfg, s, ClientView(b));
      ClientGoesOn(cfg, b);
    }
    if ServerStep(cfg, s, Ok).Some? {
      ServerIsEnabled(cfg, s, ServerView(b));
      ServerGoesOn(cfg, b);
    }
  }

  lemma ClientGoesOn(cfg: Config, b: Net)
    requires b.up.unsent == [] && ClientStep(cfg, ClientView(b)).Some?
    requires AllSmall(ClientStep(cfg, ClientView(b)).value.c2s)
    ensures !ByteStuck(cfg, b)
  {
    hide ClientStep, Inbox, Encode;
    var r := ClientStep(cfg, ClientView(b)).value;
    var b' := b.(client := r.client, trace := r.trace, printed := r.printed,
                 up := b.up.(unsent := Encode(r.c2s)), down := Consume(b.down, r.s2c));
    assert ClientActs(cfg, b, b');
    assert ByteNext(cfg, b, b');
  }

  lemma ServerGoesOn(cfg: Config, b: Net)
    requires b.down.unsent == [] && ServerStep(cfg, ServerView(b), Ok).Some?
    requires AllSmall(ServerStep(cfg, ServerView(b), Ok).value.s2c)
    ensures !ByteStuck(cfg, b)
  {
    hide ServerStep, Inbox, Encode;
    var r := ServerStep(cfg, ServerView(b), Ok).value;
    var b' := b.(server := r.server, trace := r.trace, printed := r.printed,
                 down := b.down.(unsent := Encode(r.s2c)), up := Consume(b.up, r.c2s));
    assert SmallOutcome(Ok) && ServerActs(cfg, b, b', Ok);
    assert ByteNext(cfg, b, b');
  }

  /** A run over bytes that cannot be extended has nothing left on the connection and has
      executed the whole script, or has died on both nodes of the same packet error. */
  lemma ByteRunsSettle(cfg: Config, net: seq<Net>)
    requires ValidConfig(cfg) && SmallConfig(cfg) && IsByteRun(cfg, net) && ByteStuck(cfg, net[|net| - 1])
    ensures var b := net[|net| - 1];
            && b.up == Pipe([], [], []) && b.down == Pipe([], [], [])
            && Settled(cfg, State(b.client, b.server, [], [], b.trace, b.printed))
  {
    hide ValidConfig, SmallConfig, ByteStuck, Holds, ByteNext, Inv;
    var run := ByteRunRefines(cfg, net);
    var b, s := net[|net| - 1], run[|run| - 1];
    StuckNodes(cfg, b, s);
    RunKeepsInv(cfg, run, |run| - 1);
    BlockedSettles(cfg, s);
    SettledIsQuiet(cfg, s);
    EmptyHolds(b.up);
    EmptyHolds(b.down);
    assert s == State(b.client, b.server, [], [], b.trace, b.printed);
  }

  lemma BlockedSettles(cfg: Config, s: State)
    requires Inv(cfg, s) && ClientStep(cfg, s) == None && ServerStep(cfg, s, Ok) == None
    ensures Settled(cfg, s)
  {
    hide InvIn, Settled, ClientStep, ServerStep;
    var mode :| InvIn(cfg, s, mode);
    BlockedIsSettled(cfg, s, mode);
  }

  lemma SettledIsQuiet(cfg: Config, s: State)
    requires Settled(cfg, s)
    ensures s.c2s == [] && s.s2c == []
  {
  }
}
