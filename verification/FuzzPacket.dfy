/**
The packet a fuzz input turns into (fuzz_test_packet.c, fuzz_test_helper.c), as a
function of the input bytes, and why the parser always accepts it.
 */
module FuzzPacket {
  import opened Bytes
  import opened TcpOptions
  import opened Packet
  import opened PacketParser
  import opened PacketGrammar
  import opened PacketParserProofs

  const MAX_OPTIONS_LENGTH := 40
  const MAX_PACKET_DATA_LENGTH := 10000

  // ---------------------------------------------------------------------
  // Reading the input
  // ---------------------------------------------------------------------

  /** What read_byte returns at index i: zeros once the input is used up. */
  function ByteAt(file: seq<byte>, i: nat): byte {
    if i < |file| then file[i] else 0
  }

  /** fuzz_file_index after n more calls of read_byte. */
  function Skip(file: seq<byte>, i: nat, n: nat): nat {
    if i + n <= |file| then i + n else if i <= |file| then |file| else i
  }

  /** n bytes read from index i on. */
  function Read(file: seq<byte>, i: nat, n: nat): (b: seq<byte>)
    ensures |b| == n
    decreases n
  {
    if n == 0 then [] else [ByteAt(file, i)] + Read(file, Skip(file, i, 1), n - 1)
  }

  /** The remainder of a signed char by 17, truncated toward zero as in C. */
  function Choice(b: byte): int {
    if b < 0x80 then b % 17 else -((0x100 - b) % 17)
  }

  // ---------------------------------------------------------------------
  // Options
  // ---------------------------------------------------------------------

  /** The kind and the length drawn for an option, and how many bytes were read. */
  datatype Draw = Draw(kind: byte, length: byte, read: nat)

  function DrawKind(file: seq<byte>, i: nat): Draw {
    var b, more := ByteAt(file, i), ByteAt(file, i + 1);
    match Choice(b)
    case 0 => Draw(TCPOPT_EOL, 1, 1)
    case 1 => Draw(TCPOPT_NOP, 1, 1)
    case 2 => Draw(TCPOPT_MAXSEG, 4, 1)
    case 3 => Draw(TCPOPT_WINDOW, 3, 1)
    case 4 => Draw(TCPOPT_SACK_PERMITTED, 2, 1)
    case 5 => Draw(TCPOPT_SACK, (more % 4 + 1) * 8, 2)
    case 6 => Draw(TCPOPT_TIMESTAMP, 10, 1)
    case 7 => Draw(TCPOPT_FASTOPEN, more % MAX_OPTIONS_LENGTH, 2)
    case 8 => Draw(TCPOPT_EXP, more % MAX_OPTIONS_LENGTH, 2)
    case _ => Draw(b, if more == 0 then 2 else more, 2)
  }

  /** The number of data bytes behind kind and length. */
  function DataBytes(length: byte): nat {
    if length > 2 then length - 2 else 0
  }

  /** What is pushed for one option: the kind always, the length only when it is more
      than one. */
  function OptionBytes(file: seq<byte>, i: nat, d: Draw): seq<byte> {
    [d.kind] + (if d.length > 1 then [d.length] else []) + Read(file, i, DataBytes(d.length))
  }

  /** The options drawn: their bytes, the length counted for them, how many of them
      were drawn with length zero, and the index behind them. */
  datatype Options = Options(bytes: seq<byte>, counted: nat, zeros: nat, index: nat)

  function DrawOptions(file: seq<byte>, i: nat, count: nat, counted: nat): Options
    decreases count
  {
    if count == 0 then Options([], counted, 0, i)
    else
      var d := DrawKind(file, i);
      var j := Skip(file, i, d.read);
      if counted + d.length > MAX_OPTIONS_LENGTH then Options([], counted, 0, j)
      else
        var b := OptionBytes(file, j, d);
        var rest := DrawOptions(file, Skip(file, j, DataBytes(d.length)), count - 1, counted + d.length);
        rest.(bytes := b + rest.bytes, zeros := rest.zeros + if d.length == 0 then 1 else 0)
  }

  /** Counted and pushed bytes differ by one for each option of length zero. */
  lemma {:induction false} PushedAndCounted(file: seq<byte>, i: nat, count: nat, counted: nat)
    requires counted <= MAX_OPTIONS_LENGTH
    ensures var o := DrawOptions(file, i, count, counted);
            && counted <= o.counted <= MAX_OPTIONS_LENGTH
            && |o.bytes| == o.counted - counted + o.zeros
    decreases count
  {
    hide DrawKind, Skip, Read;
    if count > 0 {
      var d := DrawKind(file, i);
      var j := Skip(file, i, d.read);
      if counted + d.length <= MAX_OPTIONS_LENGTH {
        PushedAndCounted(file, Skip(file, j, DataBytes(d.length)), count - 1, counted + d.length);
      }
    }
  }

  // ---------------------------------------------------------------------
  // The packet
  // ---------------------------------------------------------------------

  /** What the caller and the configuration decide. */
  datatype Mode = Mode(options: bool, data: bool, withoutDependency: bool, packetSeq: u32)

  /** The IPv4 header with its length still to come. */
  const IP_START: seq<byte> := [0x45, 0, 0, 0, 0, 0, 0, 0, 0xff, 6, 0, 0, 0, 0, 0, 0, 0, 0, 0, 0]

  /** Everything that is drawn from the input, in the order it is read. */
  datatype Plan = Plan(seqNumber: seq<byte>, window: seq<byte>, urgent: seq<byte>, options: Options, dataLength: nat)

  function Draws(file: seq<byte>, i: nat, mode: Mode): (p: Plan)
    ensures |p.seqNumber| == 4 && |p.window| == 2 && |p.urgent| == 2
  {
    var i1 := if mode.withoutDependency then Skip(file, i, 4) else i;
    var i2 := Skip(file, i1, 4);
    var o := if mode.options then DrawOptions(file, Skip(file, i2, 1), ByteAt(file, i2) % 11, 0)
        else Options([], 0, 0, i2);
    Plan(if mode.withoutDependency then Read(file, i, 4) else Enc32(mode.packetSeq),
         Read(file, i1, 2), Read(file, Skip(file, i1, 2), 2), o,
         if mode.data then Be32(Read(file, o.index, 4), 0) % MAX_PACKET_DATA_LENGTH else 0)
  }

  /** Where the options are drawn: behind the sequence number, if there is one, the window and the
      urgent pointer. */
  function HeaderIndex(file: seq<byte>, i: nat, mode: Mode): nat {
    Skip(file, if mode.withoutDependency then Skip(file, i, 4) else i, 4)
  }

  /** Where the input is read next, with the index behind the options: the length of the data
      is drawn last. */
  function EndIndex(file: seq<byte>, i: nat, mode: Mode): nat {
    if mode.data then Skip(file, i, 4) else i
  }

  function Padding(counted: nat): nat {
    if counted % 4 == 0 then 0 else 4 - counted % 4
  }

  function TcpHeaderLength(p: Plan): nat {
    20 + p.options.counted + Padding(p.options.counted)
  }

  function IpLength(p: Plan): nat {
    20 + TcpHeaderLength(p) + p.dataLength
  }

  /** The TCP header up to its options, with the data offset still to come. */
  function TcpStart(p: Plan): seq<byte> {
    [0, 0, 0, 0] + p.seqNumber + [0, 0, 0, 1, 0, 0x10] + p.window + [0, 0] + p.urgent
  }

  function DataByte(packetSeq: u32, k: nat): byte {
    (packetSeq + k) % 0x1_0000_0000 % 10
  }

  function Data(packetSeq: u32, n: nat): (b: seq<byte>)
    ensures |b| == n
  {
    seq(n, k requires 0 <= k < n => DataByte(packetSeq, k))
  }

  /** All bytes in the order they are pushed. */
  function Pushed(p: Plan, packetSeq: u32): seq<byte> {
    IP_START + TcpStart(p) + p.options.bytes + ZeroBytes(Padding(p.options.counted)) + Data(packetSeq, p.dataLength)
  }

  /** What is known of a plan made from any input. */
  predicate Sound(p: Plan) {
    && |p.seqNumber| == 4 && |p.window| == 2 && |p.urgent| == 2
    && p.options.counted <= MAX_OPTIONS_LENGTH && |p.options.bytes| == p.options.counted + p.options.zeros
    && p.dataLength < MAX_PACKET_DATA_LENGTH
  }

  lemma DrawsAreSound(file: seq<byte>, i: nat, mode: Mode)
    ensures Sound(Draws(file, i, mode))
  {
    hide DrawOptions, Read, Be32;
    if mode.options {
      var i2 := Skip(file, if mode.withoutDependency then Skip(file, i, 4) else i, 4);
      PushedAndCounted(file, Skip(file, i2, 1), ByteAt(file, i2) % 11, 0);
    }
  }

  /** The data offset in both halves of its byte. */
  function OffsetByte(p: Plan): byte
    requires Sound(p)
  {
    TcpHeaderLength(p) / 4 * 16 + TcpHeaderLength(p) / 4
  }

  /** The finished bytes: data offset and IP length filled in. */
  function FuzzBytes(p: Plan, packetSeq: u32): (b: seq<byte>)
    requires Sound(p)
    ensures |b| == IpLength(p) + p.options.zeros
  {
    Pushed(p, packetSeq)[32 := OffsetByte(p)][2 := IpLength(p) / 0x100][3 := IpLength(p) % 0x100]
  }

  /** Header lengths and the datagram length of every fuzz packet. */
  lemma Lengths(p: Plan)
    requires Sound(p)
    ensures 5 <= TcpHeaderLength(p) / 4 <= 15 && TcpHeaderLength(p) % 4 == 0
    ensures IpLength(p) <= 10079
  {
  }

  /** The bytes the parser looks at. */
  lemma HeaderFields(p: Plan, packetSeq: u32)
    requires Sound(p)
    ensures var b := FuzzBytes(p, packetSeq);
            && |b| >= 40 && b[0] == 0x45 && b[9] == IPPROTO_TCP && b[32] == OffsetByte(p)
            && b[2] == IpLength(p) / 0x100 && b[3] == IpLength(p) % 0x100 && b[6] == 0 && b[7] == 0
  {
    hide TcpStart, Data, ZeroBytes, OffsetByte;
    var s := Pushed(p, packetSeq);
    assert |TcpStart(p)| == 20 by {
      TcpStartLength(p);
    }
    assert s[..20] == IP_START;
    assert s[0] == s[..20][0] && s[6] == s[..20][6] && s[7] == s[..20][7] && s[9] == s[..20][9];
  }

  lemma TcpStartLength(p: Plan)
    requires Sound(p)
    ensures |TcpStart(p)| == 20
  {
  }

  function FuzzTable(p: Plan): seq<Header> {
    [Header(IPV4, 0, 20, IpLength(p)), Header(TCP, 20, TcpHeaderLength(p), TcpHeaderLength(p) + p.dataLength)]
  }

  /** Whatever the input and wherever reading starts, the bytes are described by a
      table of an IPv4 and a TCP header. */
  lemma FuzzBytesHaveTable(p: Plan, packetSeq: u32, mem: seq<byte>)
    requires Sound(p) && FuzzBytes(p, packetSeq) < mem
    ensures Table(mem, FuzzTable(p), |FuzzBytes(p, packetSeq)|, IpLayer)
  {
    hide FuzzBytes;
    Lengths(p);
    HeaderFields(p, packetSeq);
    var b := FuzzBytes(p, packetSeq);
    assert forall k | k in {0, 2, 3, 6, 7, 9, 32} :: mem[k] == b[k];
    var hs := FuzzTable(p);
    assert hs[1..] == [hs[1]];
    assert HeaderOk(mem, hs[0], |b|) && HeaderOk(mem, hs[1], |b|);
    assert Chain(mem, hs[1..], |b|);
  }

  /** The parser accepts every fuzz packet: an IPv4 and a TCP header, a data offset
      between 5 and 15, a datagram of at most 10079 bytes that ends where the pushed
      bytes end unless options of length zero were drawn. */
  lemma FuzzPacketIsAccepted(file: seq<byte>, i: nat, mode: Mode, mem: seq<byte>)
    requires Sound(Draws(file, i, mode)) && FuzzBytes(Draws(file, i, mode), mode.packetSeq) < mem
    ensures var p := Draws(file, i, mode);
            var n := |FuzzBytes(p, mode.packetSeq)|;
            && ParsePacket(mem, n, n, IpLayer) == Parsed(OK, Describe(NewInfo(n), FuzzTable(p)))
            && 5 <= HighNibble(mem[32]) <= 15
            && Be16(mem, 2) == IpLength(p) <= 10079
            && n >= IpLength(p) && (n == IpLength(p) <==> p.options.zeros == 0)
  {
    hide Draws, FuzzBytes, ParsePacket;
    var p := Draws(file, i, mode);
    var n := |FuzzBytes(p, mode.packetSeq)|;
    Lengths(p);
    HeaderFields(p, mode.packetSeq);
    FuzzBytesHaveTable(p, mode.packetSeq, mem);
    ParserIsComplete(mem, n, FuzzTable(p), n, IpLayer);
    assert mem[2] == FuzzBytes(p, mode.packetSeq)[2] && mem[3] == FuzzBytes(p, mode.packetSeq)[3]
        && mem[32] == FuzzBytes(p, mode.packetSeq)[32];
  }

  /** Options of length zero do occur: the input 0, 0, 0, 0, 1, 7, 0 draws one. */
  lemma ZeroLengthIsDrawn()
    ensures var p := Draws([0, 0, 0, 0, 1, 7, 0], 0, Mode(true, false, false, 1));
            p.options == Options([TCPOPT_FASTOPEN], 0, 1, 7)
  {
    var file: seq<byte> := [0, 0, 0, 0, 1, 7, 0];
    assert DrawKind(file, 5) == Draw(TCPOPT_FASTOPEN, 0, 2);
    assert OptionBytes(file, 7, Draw(TCPOPT_FASTOPEN, 0, 2)) == [TCPOPT_FASTOPEN];
    assert DrawOptions(file, 7, 0, 0) == Options([], 0, 0, 7);
    assert DrawOptions(file, 5, 1, 0) == Options([TCPOPT_FASTOPEN] + [], 0, 1, 7);
  }
}
