/** Building TCP packets (tcp_packet.c, ip_packet.c). */
module PacketBuilders {
  import opened Arithmetic
  import opened Bytes
  import opened Splices
  import opened TcpOptions
  import opened Packet
  import opened PacketParser
  import opened PacketGrammar
  import opened PacketParserProofs
  import opened PacketParserImpl
  import opened Encapsulation
  import opened EncapsulationRoundTrip
  import SeqTranslation

  const MAX_TCP_HEADER_BYTES := 60
  const MAX_TCP_DATAGRAM_BYTES := 0x1_0000
  const VALID_TCP_FLAGS := "FSRP.EWCU"

  // ---------------------------------------------------------------------
  // IP headers
  // ---------------------------------------------------------------------

  datatype IpArgs = IpArgs(v6: bool, tos: byte, flowLabel: u32, ttl: byte)

  function Ttl(ttl: byte): byte {
    if ttl == 0 then TTL_CHECK_NONE else ttl
  }

  /** set_ipv4_header */
  function Ipv4Bytes(ipBytes: u16, tos: byte, ttl: byte, proto: byte): (b: seq<byte>)
    ensures |b| == 20
  {
    [0x45, tos] + Enc16(ipBytes) + [0, 0, 0, 0, Ttl(ttl), proto, 0, 0] + [0, 0, 0, 0, 0, 0, 0, 0]
  }

  /** set_ipv6_header */
  function Ipv6Bytes(ipBytes: u16, tos: byte, flowLabel: u32, ttl: byte, proto: byte): (b: seq<byte>)
    requires ipBytes >= 40
    ensures |b| == 40
  {
    [0x60 + tos / 16, tos % 16 * 16 + flowLabel / 0x1_0000 % 16] + Enc16(flowLabel % 0x1_0000)
    + Enc16(ipBytes - 40) + [proto, Ttl(ttl)] + ZeroBytes(32)
  }

  // ---------------------------------------------------------------------
  // TCP packets
  // ---------------------------------------------------------------------

  datatype TcpArgs = TcpArgs(
    ip: IpArgs, inbound: bool, srcPort: u16, dstPort: u16, flags: string, seqNumber: u32,
    payloadBytes: u16, ackNumber: u32, window: int, urgPtr: u16, options: seq<byte>)

  function IpHeaderBytes(a: TcpArgs): nat { if a.ip.v6 then 40 else 20 }

  function TcpHeaderBytes(a: TcpArgs): nat { 20 + |a.options| }

  function IpBytes(a: TcpArgs): nat { IpHeaderBytes(a) + TcpHeaderBytes(a) + a.payloadBytes }

  /** The checks new_tcp_packet makes before it writes anything. */
  predicate Checked(a: TcpArgs) {
    && |a.options| % 4 == 0 && TcpHeaderBytes(a) <= 60 && IpBytes(a) <= 65536
    && forall c | c in a.flags :: c in "FSRP.EWCU"
  }

  /** The arguments new_tcp_packet does not turn down. */
  predicate Buildable(a: TcpArgs) {
    Checked(a) && !(a.window == -1 && a.inbound)
  }

  /** The assert of set_ipv6_header, which is given the length as a u16. */
  predicate HeaderAssert(a: TcpArgs) {
    a.ip.v6 ==> IpBytes(a) % 0x1_0000 >= 40
  }

  function Bit(flag: char, flags: string, value: byte): int {
    if flag in flags then value else 0
  }

  function FlagsByte(flags: string): byte {
    Bit('F', flags, 1) + Bit('S', flags, 2) + Bit('R', flags, 4) + Bit('P', flags, 8)
    + Bit('.', flags, 16) + Bit('U', flags, 32) + Bit('E', flags, 64) + Bit('W', flags, 128)
  }

  function IpPart(a: TcpArgs): (b: seq<byte>)
    requires IpBytes(a) <= MAX_TCP_DATAGRAM_BYTES && (a.ip.v6 ==> IpBytes(a) <= 0xffff)
    ensures |b| == IpHeaderBytes(a)
  {
    if a.ip.v6 then Ipv6Bytes(IpBytes(a), a.ip.tos, a.ip.flowLabel, a.ip.ttl, IPPROTO_TCP)
    else Ipv4Bytes(IpBytes(a) % 0x1_0000, a.ip.tos, a.ip.ttl, IPPROTO_TCP)
  }

  /** The TCP header without its options. */
  function TcpPart(a: TcpArgs): (b: seq<byte>)
    requires |a.options| % 4 == 0 && |a.options| <= 40
    ensures |b| == 20
  {
    Enc16(a.srcPort) + Enc16(a.dstPort) + Enc32(a.seqNumber) + Enc32(a.ackNumber)
    + [TcpHeaderBytes(a) / 4 * 16, FlagsByte(a.flags)]
    + Enc16(if a.window == -1 then 0 else a.window % 0x1_0000) + [0, 0] + Enc16(a.urgPtr)
  }

  function PacketBytes(a: TcpArgs): (b: seq<byte>)
    requires Buildable(a) && (a.ip.v6 ==> IpBytes(a) <= 0xffff)
    ensures |b| == IpBytes(a)
  {
    IpPart(a) + TcpPart(a) + a.options + ZeroBytes(a.payloadBytes)
  }

  function IpKind(a: TcpArgs): Kind { if a.ip.v6 then IPV6 else IPV4 }

  function TcpTable(a: TcpArgs): seq<Header> {
    [Header(IpKind(a), 0, IpHeaderBytes(a), IpBytes(a) % 0x1_0000),
     Header(TCP, IpHeaderBytes(a), TcpHeaderBytes(a), TcpHeaderBytes(a) + a.payloadBytes)]
  }

  /** The metadata of the packet new_tcp_packet returns. */
  function TcpInfo(a: TcpArgs): Info {
    Info(IpBytes(a), 0, IpBytes(a), TcpTable(a),
         if a.ip.v6 then None else Some(0), if a.ip.v6 then Some(0) else None,
         Some(IpHeaderBytes(a)), None, None, None)
  }

  // ---------------------------------------------------------------------
  // What is in the bytes
  // ---------------------------------------------------------------------

  lemma Ipv4Fields(ipBytes: u16, tos: byte, ttl: byte, proto: byte)
    ensures var b := Ipv4Bytes(ipBytes, tos, ttl, proto);
            b[0] == 0x45 && b[1] == tos && Be16(b, 2) == ipBytes && b[6] == 0 && b[7] == 0 && b[8] == Ttl(ttl)
              && b[9] == proto
  {
  }

  lemma Ipv6Fields(ipBytes: u16, tos: byte, flowLabel: u32, ttl: byte, proto: byte)
    requires ipBytes >= 40
    ensures var b := Ipv6Bytes(ipBytes, tos, flowLabel, ttl, proto);
            && HighNibble(b[0]) == 6 && LowNibble(b[0]) * 16 + HighNibble(b[1]) == tos
            && LowNibble(b[1]) * 0x1_0000 + Be16(b, 2) as int == flowLabel % 0x10_0000
            && Be16(b, 4) == ipBytes - 40 && b[6] == proto && b[7] == Ttl(ttl)
  {
    hide Enc16, ZeroBytes;
    var b, low := Ipv6Bytes(ipBytes, tos, flowLabel, ttl, proto), flowLabel % 0x1_0000;
    assert b[2..4] == Enc16(low) && b[4..6] == Enc16(ipBytes - 40);
    assert Be16(b, 2) == Be16(b[2..4], 0) == low && Be16(b, 4) == Be16(b[4..6], 0) == ipBytes - 40;
    var x, y := tos % 16, flowLabel / 0x1_0000 % 16;
    assert b[0] == 0x60 + tos / 16 && b[1] == x * 16 + y;
    QuotientIs(b[0], 16, 6, tos / 16);
    QuotientIs(b[1], 16, x, y);
    FlowLabel(flowLabel);
  }

  lemma FlowLabel(x: u32)
    ensures x / 0x1_0000 % 16 * 0x1_0000 + x % 0x1_0000 == x % 0x10_0000
  {
    var h, l := x / 0x1_0000, x % 0x1_0000;
    QuotientIs(x, 0x10_0000, h / 16, h % 16 * 0x1_0000 + l);
  }

  /** Every field of the TCP header is read back as it was asked for. */
  lemma TcpFields(a: TcpArgs)
    requires |a.options| % 4 == 0 && |a.options| <= 40
    ensures var b := TcpPart(a);
            && Be16(b[0..2], 0) == a.srcPort && Be16(b[2..4], 0) == a.dstPort
            && Be32(b[4..8], 0) == a.seqNumber && Be32(b[8..12], 0) == a.ackNumber
            && HighNibble(b[12]) * 4 == TcpHeaderBytes(a) && LowNibble(b[12]) == 0 && b[13] == FlagsByte(a.flags)
            && Be16(b[14..16], 0) == (if a.window == -1 then 0 else a.window % 0x1_0000)
            && b[16] == 0 && b[17] == 0 && Be16(b[18..20], 0) == a.urgPtr
  {
    hide Enc16, Enc32, FlagsByte;
    var b := TcpPart(a);
    assert b[0..2] == Enc16(a.srcPort) && b[2..4] == Enc16(a.dstPort);
    assert b[4..8] == Enc32(a.seqNumber) && b[8..12] == Enc32(a.ackNumber);
    assert b[12] == TcpHeaderBytes(a) / 4 * 16 && b[13] == FlagsByte(a.flags);
    assert b[14..16] == Enc16(if a.window == -1 then 0 else a.window % 0x1_0000);
    assert b[16..18] == [0, 0] && b[18..20] == Enc16(a.urgPtr);
    assert b[16] == b[16..18][0] && b[17] == b[16..18][1];
  }

  /** The fields of an IP header, by their places, besides length, protocol and checksum: the hop
      limit is 255 if none is given, and there are no addresses yet. */
  ghost predicate HasIp(b: seq<byte>, ip: IpArgs) {
    var hops := if ip.ttl == 0 then 255 else ip.ttl;
    if ip.v6 then
      && |b| == 40 && HighNibble(b[0]) == 6 && LowNibble(b[0]) * 16 + HighNibble(b[1]) == ip.tos
      && LowNibble(b[1]) * 0x1_0000 + Be16(b, 2) as int == ip.flowLabel % 0x10_0000
      && b[7] == hops && forall k | 8 <= k < 40 :: b[k] == 0
    else
      && |b| == 20 && b[0] == 0x45 && b[1] == ip.tos && Be32(b, 4) == 0
      && b[8] == hops && forall k | 12 <= k < 20 :: b[k] == 0
  }

  lemma IpHasFields(a: TcpArgs)
    requires IpBytes(a) <= MAX_TCP_DATAGRAM_BYTES && (a.ip.v6 ==> IpBytes(a) <= 0xffff)
    ensures HasIp(IpPart(a), a.ip)
  {
    hide Enc16, Enc32;
    if a.ip.v6 {
      Ipv6Fields(IpBytes(a), a.ip.tos, a.ip.flowLabel, a.ip.ttl, IPPROTO_TCP);
    } else {
      Ipv4Fields(IpBytes(a) % 0x1_0000, a.ip.tos, a.ip.ttl, IPPROTO_TCP);
      assert Be16(IpPart(a), 4) == 0 && Be16(IpPart(a), 6) == 0;
    }
  }

  /** A TCP segment by the places of its fields, every one as it was asked for, then the options,
      then zeros. */
  ghost predicate HasTcp(b: seq<byte>, a: TcpArgs) {
    var n := 20 + |a.options|;
    && |b| == n + a.payloadBytes
    && Be16(b, 0) == a.srcPort && Be16(b, 2) == a.dstPort && Be32(b, 4) == a.seqNumber && Be32(b, 8) == a.ackNumber
    && HighNibble(b[12]) * 4 == n && LowNibble(b[12]) == 0 && b[13] == FlagsByte(a.flags)
    && Be16(b, 14) == (if a.window == -1 then 0 else a.window % 0x1_0000)
    && Be16(b, 16) == 0 && Be16(b, 18) == a.urgPtr && b[20..n] == a.options
    && forall k | n <= k < |b| :: b[k] == 0
  }

  lemma TcpHasFields(a: TcpArgs)
    requires |a.options| % 4 == 0 && |a.options| <= 40
    ensures HasTcp(TcpPart(a) + a.options + ZeroBytes(a.payloadBytes), a)
  {
    hide TcpPart, FlagsByte, ZeroBytes;
    TcpFields(a);
    var b := TcpPart(a) + a.options + ZeroBytes(a.payloadBytes);
    assert b[..20] == TcpPart(a) && b[20..20 + |a.options|] == a.options;
  }

  /** The fields of the whole packet that is built. */
  lemma BuiltFields(a: TcpArgs, mem: seq<byte>)
    requires Buildable(a) && (a.ip.v6 ==> IpBytes(a) <= 0xffff) && PacketBytes(a) < mem
    ensures var i := IpHeaderBytes(a); HasIp(mem[..i], a.ip) && HasTcp(mem[i..IpBytes(a)], a)
  {
    hide IpPart, TcpPart, HasIp, HasTcp, ZeroBytes;
    Parts(a, mem);
    BuildableFacts(a);
    IpHasFields(a);
    TcpHasFields(a);
    var b, i := PacketBytes(a), IpHeaderBytes(a);
    assert mem[i..IpBytes(a)] == b[i..] == TcpPart(a) + a.options + ZeroBytes(a.payloadBytes);
  }

  predicate BitSet(b: nat, m: nat)
    requires m > 0
  {
    b / m % 2 == 1
  }

  /** Each flag bit is set exactly when its character is in the string. */
  lemma FlagsReadBack(flags: string)
    ensures var b := FlagsByte(flags);
            && (BitSet(b, 1) <==> 'F' in flags) && (BitSet(b, 2) <==> 'S' in flags)
            && (BitSet(b, 4) <==> 'R' in flags) && (BitSet(b, 8) <==> 'P' in flags)
            && (BitSet(b, 16) <==> '.' in flags) && (BitSet(b, 32) <==> 'U' in flags)
            && (BitSet(b, 64) <==> 'E' in flags) && (BitSet(b, 128) <==> 'W' in flags)
  {
    hide BitSet, Bit, One;
    BitIsOne('F', flags, 1);
    BitIsOne('S', flags, 2);
    BitIsOne('R', flags, 4);
    BitIsOne('P', flags, 8);
    BitIsOne('.', flags, 16);
    BitIsOne('U', flags, 32);
    BitIsOne('E', flags, 64);
    BitIsOne('W', flags, 128);
    EightBits(One('F', flags), One('S', flags), One('R', flags), One('P', flags),
              One('.', flags), One('U', flags), One('E', flags), One('W', flags));
  }

  lemma BitIsOne(flag: char, flags: string, value: byte)
    ensures Bit(flag, flags, value) == value * One(flag, flags)
    ensures One(flag, flags) < 2 && (One(flag, flags) == 1 <==> flag in flags)
  {
  }

  lemma EightBits(f: nat, s: nat, r: nat, p: nat, d: nat, u: nat, e: nat, w: nat)
    requires f < 2 && s < 2 && r < 2 && p < 2 && d < 2 && u < 2 && e < 2 && w < 2
    ensures var b := f + 2 * s + 4 * r + 8 * p + 16 * d + 32 * u + 64 * e + 128 * w;
            && (BitSet(b, 1) <==> f == 1) && (BitSet(b, 2) <==> s == 1) && (BitSet(b, 4) <==> r == 1)
            && (BitSet(b, 8) <==> p == 1) && (BitSet(b, 16) <==> d == 1) && (BitSet(b, 32) <==> u == 1)
            && (BitSet(b, 64) <==> e == 1) && (BitSet(b, 128) <==> w == 1)
  {
    hide BitSet;
    var b := f + 2 * s + 4 * r + 8 * p + 16 * d + 32 * u + 64 * e + 128 * w;
    FlagBit(b, 1, s + 2 * r + 4 * p + 8 * d + 16 * u + 32 * e + 64 * w, f, 0);
    FlagBit(b, 2, r + 2 * p + 4 * d + 8 * u + 16 * e + 32 * w, s, f);
    FlagBit(b, 4, p + 2 * d + 4 * u + 8 * e + 16 * w, r, f + 2 * s);
    FlagBit(b, 8, d + 2 * u + 4 * e + 8 * w, p, f + 2 * s + 4 * r);
    FlagBit(b, 16, u + 2 * e + 4 * w, d, f + 2 * s + 4 * r + 8 * p);
    FlagBit(b, 32, e + 2 * w, u, f + 2 * s + 4 * r + 8 * p + 16 * d);
    FlagBit(b, 64, w, e, f + 2 * s + 4 * r + 8 * p + 16 * d + 32 * u);
    FlagBit(b, 128, 0, w, f + 2 * s + 4 * r + 8 * p + 16 * d + 32 * u + 64 * e);
  }

  function One(flag: char, flags: string): nat {
    if flag in flags then 1 else 0
  }

  lemma FlagBit(v: nat, m: nat, q: nat, x: nat, r: nat)
    requires m > 0 && r < m && x < 2 && v == (2 * q + x) * m + r
    ensures BitSet(v, m) <==> x == 1
  {
    QuotientIs(v, m, 2 * q + x, r);
  }

  /** The parts of the packet, wherever it lies in memory. */
  lemma Parts(a: TcpArgs, mem: seq<byte>)
    requires Buildable(a) && (a.ip.v6 ==> IpBytes(a) <= 0xffff) && PacketBytes(a) < mem
    ensures var i, e := IpHeaderBytes(a), IpHeaderBytes(a) + TcpHeaderBytes(a);
            && i + 20 <= e <= IpBytes(a) < |mem|
            && mem[..i] == IpPart(a) && mem[i..i + 20] == TcpPart(a) && mem[i + 20..e] == a.options
  {
    hide IpPart, TcpPart;
    var b, i, e := PacketBytes(a), IpHeaderBytes(a), IpHeaderBytes(a) + TcpHeaderBytes(a);
    assert b[..i] == IpPart(a) && b[i..i + 20] == TcpPart(a) && b[i + 20..e] == a.options;
    assert mem[..i] == b[..i] && mem[i..i + 20] == b[i..i + 20] && mem[i + 20..e] == b[i + 20..e];
  }

  /** The header fields the parser looks at. */
  lemma ParsedFields(a: TcpArgs, mem: seq<byte>)
    requires Buildable(a) && (a.ip.v6 ==> IpBytes(a) <= 0xffff) && PacketBytes(a) < mem
    ensures var i := IpHeaderBytes(a);
            && i + 20 <= IpBytes(a) < |mem| && HighNibble(mem[i + 12]) * 4 == TcpHeaderBytes(a)
            && (if a.ip.v6 then HighNibble(mem[0]) == 6 && Be16(mem, 4) == IpBytes(a) - 40 && mem[6] == IPPROTO_TCP
                else && mem[0] == 0x45 && Be16(mem, 2) == IpBytes(a) % 0x1_0000
                     && mem[6] == 0 && mem[7] == 0 && mem[9] == IPPROTO_TCP)
  {
    hide PacketBytes, TcpPart, Ipv4Bytes, Ipv6Bytes, Buildable;
    Parts(a, mem);
    BuildableFacts(a);
    var i := IpHeaderBytes(a);
    TcpFields(a);
    assert mem[i + 12] == mem[i..i + 20][12];
    var b := IpPart(a);
    assert forall k | 0 <= k < 10 :: mem[k] == mem[..i][k] == b[k];
    if a.ip.v6 {
      Ipv6Fields(IpBytes(a), a.ip.tos, a.ip.flowLabel, a.ip.ttl, IPPROTO_TCP);
    } else {
      Ipv4Fields(IpBytes(a) % 0x1_0000, a.ip.tos, a.ip.ttl, IPPROTO_TCP);
    }
  }

  lemma BuildableFacts(a: TcpArgs)
    requires Buildable(a)
    ensures |a.options| <= 40 && |a.options| % 4 == 0 && IpBytes(a) <= MAX_TCP_DATAGRAM_BYTES
  {
  }

  /** What the translation of sequence numbers goes by is what was asked for. */
  lemma BuiltForTranslation(a: TcpArgs, mem: seq<byte>)
    requires Buildable(a) && (a.ip.v6 ==> IpBytes(a) <= 0xffff) && PacketBytes(a) < mem
    ensures var i := IpHeaderBytes(a);
            && i + 20 <= |mem|
            && (SeqTranslation.IsSyn(mem, i) <==> 'S' in a.flags) && (SeqTranslation.IsAck(mem, i) <==> '.' in a.flags)
            && SeqTranslation.Seq(mem, i) == a.seqNumber && SeqTranslation.AckSeq(mem, i) == a.ackNumber
            && SeqTranslation.OptionsEnd(mem, i) == i + 20 + |a.options|
  {
    hide PacketBytes, Buildable, FlagsByte;
    BuiltFields(a, mem);
    FlagsReadBack(a.flags);
    var i := IpHeaderBytes(a);
    var b := mem[i..IpBytes(a)];
    assert forall k | 4 <= k < 14 :: b[k] == mem[i + k];
  }

  /** A packet of at most 65535 bytes is parsed back to the builder's own metadata. */
  lemma BuiltPacketParses(a: TcpArgs, mem: seq<byte>)
    requires Buildable(a) && IpBytes(a) <= 0xffff && PacketBytes(a) < mem
    ensures ParsePacket(mem, IpBytes(a), IpBytes(a), IpLayer) == Parsed(OK, TcpInfo(a))
  {
    hide Buildable, PacketBytes, ParsePacket;
    ParsedFields(a, mem);
    BuildableFacts(a);
    var hs, n := TcpTable(a), IpBytes(a);
    BuiltTable(a, mem);
    ParserIsComplete(mem, n, hs, n, IpLayer);
    BuiltInfo(a);
  }

  /** Outer headers can be put around any packet that is built. */
  lemma BuiltIsReady(a: TcpArgs, mem: seq<byte>)
    requires Buildable(a) && (a.ip.v6 ==> IpBytes(a) <= 0xffff) && PacketBytes(a) < mem
    ensures InnerReady(mem, TcpInfo(a))
  {
    hide Buildable, PacketBytes;
    ParsedFields(a, mem);
    BuiltComplete(a, mem);
  }

  lemma BuiltInfo(a: TcpArgs)
    requires IpBytes(a) <= 0xffff
    ensures Describe(NewInfo(IpBytes(a)), TcpTable(a)) == TcpInfo(a)
  {
    hide Describe;
    DescribeFields(IpBytes(a), TcpTable(a));
  }

  lemma BuiltTable(a: TcpArgs, mem: seq<byte>)
    requires IpBytes(a) <= 0xffff && IpBytes(a) < |mem|
    requires HighNibble(mem[IpHeaderBytes(a) + 12]) * 4 == TcpHeaderBytes(a)
    requires if a.ip.v6 then HighNibble(mem[0]) == 6 && Be16(mem, 4) == IpBytes(a) - 40 && mem[6] == IPPROTO_TCP
             else mem[0] == 0x45 && Be16(mem, 2) == IpBytes(a) && mem[6] == 0 && mem[7] == 0 && mem[9] == IPPROTO_TCP
    ensures Table(mem, TcpTable(a), IpBytes(a), IpLayer)
  {
    var hs, n := TcpTable(a), IpBytes(a);
    assert hs[1..] == [hs[1]];
    assert Be16(mem, 6) == 0 || a.ip.v6;
    assert HeaderOk(mem, hs[0], n) && HeaderOk(mem, hs[1], n);
    assert Chain(mem, hs[1..], n);
  }

  lemma BuiltComplete(a: TcpArgs, mem: seq<byte>)
    requires IpBytes(a) < |mem| && HighNibble(mem[IpHeaderBytes(a) + 12]) * 4 == TcpHeaderBytes(a)
    requires if a.ip.v6 then HighNibble(mem[0]) == 6 else mem[0] == 0x45 && mem[6] == 0 && mem[7] == 0
    ensures Complete(mem, TcpTable(a), IpBytes(a))
  {
    var hs := TcpTable(a);
    assert Be16(mem, 6) == 0 || a.ip.v6;
    assert HeaderRaw(mem, hs[0]) && HeaderRaw(mem, hs[1]);
  }

  /** A built packet is legal unless it is too long. */
  lemma BuiltIsLegal(a: TcpArgs, mem: seq<byte>)
    requires Buildable(a) && (a.ip.v6 ==> IpBytes(a) <= 0xffff) && PacketBytes(a) < mem
    ensures Versioned(mem, TcpTable(a)[0])
    ensures Nested(mem, TcpTable(a), IpBytes(a)) <==> IpBytes(a) <= 0xffff
  {
    hide Buildable, PacketBytes;
    ParsedFields(a, mem);
    assert HighNibble(0x45) == 4;
    if Nested(mem, TcpTable(a), IpBytes(a)) {
      assert HeaderLegal(mem, TcpTable(a)[0], IpBytes(a));
    }
  }

  /** The checks let one length through that trips the assert on IPv6 packets. */
  lemma AssertHoldsIff(a: TcpArgs)
    requires Checked(a)
    ensures HeaderAssert(a) <==> !(a.ip.v6 && IpBytes(a) == MAX_TCP_DATAGRAM_BYTES)
  {
  }

  lemma BuiltIpv4ParsesIff(a: TcpArgs, mem: seq<byte>)
    requires Buildable(a) && !a.ip.v6 && PacketBytes(a) < mem
    ensures ParsePacket(mem, IpBytes(a), IpBytes(a), IpLayer).result == OK <==> IpBytes(a) != MAX_TCP_DATAGRAM_BYTES
  {
    if IpBytes(a) == MAX_TCP_DATAGRAM_BYTES {
      hide Buildable, PacketBytes;
      ParsedFields(a, mem);
      assert LowNibble(0x45) == 5 && HighNibble(0x45) == 4;
    } else {
      BuiltPacketParses(a, mem);
    }
  }

  /** A packet with these arguments is built without an assert firing, and parsed back. */
  ghost predicate BuiltAndParsed(a: TcpArgs)
    requires Buildable(a)
  {
    && HeaderAssert(a)
    && forall mem | PacketBytes(a) < mem :: ParsePacket(mem, IpBytes(a), IpBytes(a), IpLayer) == Parsed(OK, TcpInfo(a))
  }

  /** The size check lets one length through that no IP length field can hold: an IPv6
      packet of that length trips the assert, and an IPv4 packet is refused by the
      parser. All others are built and parsed back. */
  lemma BuiltPacketParsesIff(a: TcpArgs)
    requires Buildable(a)
    ensures BuiltAndParsed(a) <==> IpBytes(a) != MAX_TCP_DATAGRAM_BYTES
  {
    hide ParsePacket, PacketBytes, TcpInfo, Buildable;
    CheckedFirst(a);
    AssertHoldsIff(a);
    if IpBytes(a) != MAX_TCP_DATAGRAM_BYTES {
      forall mem | PacketBytes(a) < mem
        ensures ParsePacket(mem, IpBytes(a), IpBytes(a), IpLayer) == Parsed(OK, TcpInfo(a))
      {
        BuiltPacketParses(a, mem);
      }
    } else if !a.ip.v6 {
      var mem := PacketBytes(a) + [0];
      assert PacketBytes(a) < mem;
      BuiltIpv4ParsesIff(a, mem);
    }
  }

  lemma CheckedFirst(a: TcpArgs)
    requires Buildable(a)
    ensures Checked(a) && IpBytes(a) <= MAX_TCP_DATAGRAM_BYTES
  {
  }

  /** There are such packets, of both versions. */
  lemma TooLongCanBeBuilt()
    ensures var a := TcpArgs(IpArgs(false, 0, 0, 0), true, 0, 0, ".", 1, 65496, 1, 100, 0, []);
            Buildable(a) && IpBytes(a) == MAX_TCP_DATAGRAM_BYTES && HeaderAssert(a) && !BuiltAndParsed(a)
    ensures var a := TcpArgs(IpArgs(true, 0, 0, 0), true, 0, 0, ".", 1, 65476, 1, 100, 0, []);
            Buildable(a) && IpBytes(a) == MAX_TCP_DATAGRAM_BYTES && !HeaderAssert(a)
  {
    hide BuiltAndParsed;
    assert '.' in VALID_TCP_FLAGS by {
      assert VALID_TCP_FLAGS[4] == '.';
    }
    BuiltPacketParsesIff(TcpArgs(IpArgs(false, 0, 0, 0), true, 0, 0, ".", 1, 65496, 1, 100, 0, []));
  }

  // ---------------------------------------------------------------------
  // Options
  // ---------------------------------------------------------------------

  /** The options of a built packet: iterating over them gives back the i-th option that
      was appended, and the packet is a segment with those options. */
  lemma BuiltOptionsReadBack(a: TcpArgs, os: seq<TcpOption>, mem: seq<byte>, i: nat)
    requires AllWellFormed(os) && a.options == WireAll(os)
    requires Buildable(a) && (a.ip.v6 ==> IpBytes(a) <= 0xffff) && PacketBytes(a) < mem
    ensures var start, end := IpHeaderBytes(a) + 20, IpHeaderBytes(a) + TcpHeaderBytes(a);
            && end <= |mem| && |Offsets(mem, start, end)| == |os|
            && (i < |os| ==> HasOption(mem, Offsets(mem, start, end)[i], end)
                             && OptionAt(mem, Offsets(mem, start, end)[i], end) == os[i])
    ensures SeqTranslation.SegmentAt(mem, IpHeaderBytes(a), os)
  {
    hide Buildable, PacketBytes, WireAll, AllWellFormed, Offsets, HasOption, OptionAt, TcpPart, IpPart;
    Parts(a, mem);
    ParsedFields(a, mem);
    var start, end := IpHeaderBytes(a) + 20, IpHeaderBytes(a) + TcpHeaderBytes(a);
    IterationReadsBack(mem, start, end, os, i);
  }

  // ---------------------------------------------------------------------
  // The code
  // ---------------------------------------------------------------------

  /** set_ipv4_header */
  method SetIpv4Header(mem: array<byte>, ipBytes: u16, tos: byte, ttl: byte, proto: byte)
    requires mem.Length >= 20
    modifies mem
    ensures mem[..] == Splice(old(mem[..]), 0, Ipv4Bytes(ipBytes, tos, ttl, proto))
  {
    hide Splice, Enc16;
    ghost var m := mem[..];
    var first, rest := [0x45, tos], [0, 0, 0, 0, Ttl(ttl), proto, 0, 0];
    Write(mem, 0, first);
    WriteNext(mem, 0, Enc16(ipBytes), m, first);
    WriteNext(mem, 0, rest, m, first + Enc16(ipBytes));
    WriteNext(mem, 0, [0, 0, 0, 0, 0, 0, 0, 0], m, first + Enc16(ipBytes) + rest);
  }

  /** The next field of a header that is written field by field: `done` holds the fields
      written so far, over the buffer m. */
  method WriteNext(mem: array<byte>, at: nat, field: seq<byte>, ghost m: seq<byte>, done: seq<byte>)
    requires |m| == mem.Length && at + |done| + |field| <= mem.Length && mem[..] == Splice(m, at, done)
    modifies mem
    ensures mem[..] == Splice(m, at, done + field)
  {
    hide Splice;
    SpliceJoin(m, at, done, field);
    Write(mem, at + |done|, field);
  }

  /** set_ipv6_header */
  method SetIpv6Header(mem: array<byte>, ipBytes: u16, tos: byte, flowLabel: u32, ttl: byte, proto: byte)
    requires mem.Length >= 40 && ipBytes >= 40
    modifies mem
    ensures mem[..] == Splice(old(mem[..]), 0, Ipv6Bytes(ipBytes, tos, flowLabel, ttl, proto))
  {
    var low := flowLabel % 0x1_0000;
    mem[0], mem[1] := 0x60 + tos / 16, tos % 16 * 16 + flowLabel / 0x1_0000 % 16;
    mem[2], mem[3] := low / 0x100, low % 0x100;
    mem[4], mem[5] := (ipBytes - 40) / 0x100, (ipBytes - 40) % 0x100;
    mem[6], mem[7] := proto, if ttl != 0 then ttl else TTL_CHECK_NONE;
    forall i | 8 <= i < 40 {
      mem[i] := 0;
    }
    assert mem[8..40] == ZeroBytes(32);
    assert mem[0..40] == Ipv6Bytes(ipBytes, tos, flowLabel, ttl, proto);
  }

  /** The fields of the TCP header. */
  method SetTcpHeader(mem: array<byte>, at: nat, a: TcpArgs)
    requires Buildable(a) && at + 20 <= mem.Length
    modifies mem
    ensures mem[..] == Splice(old(mem[..]), at, TcpPart(a))
  {
    hide Splice, Enc16, Enc32, FlagsByte;
    ghost var m := mem[..];
    var window := Enc16(if a.window == -1 then 0 else a.window % 0x1_0000);
    var bits := [TcpHeaderBytes(a) / 4 * 16, FlagsByte(a.flags)];
    var ports := Enc16(a.srcPort) + Enc16(a.dstPort);
    Write(mem, at, ports);
    WriteNext(mem, at, Enc32(a.seqNumber), m, ports);
    var numbers := ports + Enc32(a.seqNumber) + Enc32(a.ackNumber);
    WriteNext(mem, at, Enc32(a.ackNumber), m, ports + Enc32(a.seqNumber));
    WriteNext(mem, at, bits, m, numbers);
    WriteNext(mem, at, window, m, numbers + bits);
    WriteNext(mem, at, [0, 0], m, numbers + bits + window);
    WriteNext(mem, at, Enc16(a.urgPtr), m, numbers + bits + window + [0, 0]);
  }

  /** The parts written one behind the other over zeroed memory are the packet. */
  lemma WrittenParts(a: TcpArgs, m: seq<byte>)
    requires Buildable(a) && (a.ip.v6 ==> IpBytes(a) <= 0xffff) && m == ZeroBytes(IpBytes(a) + 1)
    ensures var i := IpHeaderBytes(a);
            PacketBytes(a) < Splice(Splice(Splice(m, 0, IpPart(a)), i, TcpPart(a)), i + 20, a.options)
  {
    hide IpPart, TcpPart;
    var i := IpHeaderBytes(a);
    SpliceJoin(m, 0, IpPart(a), TcpPart(a));
    SpliceJoin(m, 0, IpPart(a) + TcpPart(a), a.options);
    var b := IpPart(a) + TcpPart(a) + a.options;
    assert m[|b|..] == ZeroBytes(a.payloadBytes) + [0];
    assert Splice(m, 0, b) == PacketBytes(a) + [0];
  }

  /** is_tcp_flags_spec_valid */
  method FlagsValid(flags: string) returns (ok: bool)
    ensures ok <==> forall c | c in flags :: c in VALID_TCP_FLAGS
  {
    var i := 0;
    while i < |flags|
      invariant i <= |flags| && forall k | 0 <= k < i :: flags[k] in VALID_TCP_FLAGS
    {
      if flags[i] !in VALID_TCP_FLAGS {
        return false;
      }
      i := i + 1;
    }
    return true;
  }

  /** new_tcp_packet: its checks, the assert on the IPv6 header, the check on the window. */
  method NewTcpPacket(a: TcpArgs) returns (r: BuildOutcome)
    ensures r.AssertFails? <==> Checked(a) && !HeaderAssert(a)
    ensures r.Built? <==> Buildable(a) && HeaderAssert(a)
    ensures r.Built? ==> fresh(r.packet) && fresh(r.packet.mem)
    ensures r.Built? ==> IpBytes(a) == r.packet.bufferBytes < r.packet.mem.Length
    ensures r.Built? ==> PacketBytes(a) < r.packet.mem[..] && r.packet.Meta() == TcpInfo(a)
  {
    hide PacketBytes, TcpInfo;
    if |a.options| % 4 != 0 {
      return Refused;
    }
    if TcpHeaderBytes(a) > MAX_TCP_HEADER_BYTES {
      return Refused;
    }
    if IpBytes(a) > MAX_TCP_DATAGRAM_BYTES {
      return Refused;
    }
    var valid := FlagsValid(a.flags);
    if !valid {
      return Refused;
    }
    if a.ip.v6 && IpBytes(a) % 0x1_0000 < 40 {
      return AssertFails;
    }
    if a.window == -1 && a.inbound {
      return Refused;
    }
    var packet := Build(a);
    return Built(packet);
  }

  /** The part of new_tcp_packet behind its checks. */
  method Build(a: TcpArgs) returns (packet: PacketObject)
    requires Buildable(a) && (a.ip.v6 ==> IpBytes(a) <= 0xffff)
    ensures fresh(packet) && fresh(packet.mem) && IpBytes(a) == packet.bufferBytes < packet.mem.Length
    ensures PacketBytes(a) < packet.mem[..] && packet.Meta() == TcpInfo(a)
  {
    hide Splice, TcpPart, Ipv4Bytes, Ipv6Bytes, PacketBytes;
    var n, i := IpBytes(a), IpHeaderBytes(a);
    var mem := new byte[n + 1](k => 0);
    ghost var m := mem[..];
    assert m == ZeroBytes(n + 1);
    packet := new PacketObject(mem, n);
    if a.ip.v6 {
      packet.ipv6 := Some(0);
      SetIpv6Header(mem, n, a.ip.tos, a.ip.flowLabel, a.ip.ttl, IPPROTO_TCP);
    } else {
      packet.ipv4 := Some(0);
      SetIpv4Header(mem, n % 0x1_0000, a.ip.tos, a.ip.ttl, IPPROTO_TCP);
    }
    var ok := packet.AppendHeader(IpKind(a), i, n % 0x1_0000);
    ok := packet.AppendHeader(TCP, TcpHeaderBytes(a), TcpHeaderBytes(a) + a.payloadBytes);
    packet.tcp := Some(i);
    SetTcpHeader(mem, i, a);
    Write(mem, i + 20, a.options);
    packet.ipBytes := n;
    WrittenParts(a, m);
  }
}
