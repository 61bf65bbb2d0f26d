/** Inputs on which aggregation does not do what it is for. */
module AggregationExamples {
  import opened Bytes
  import opened Packet
  import opened PacketParser
  import opened PacketGrammar
  import opened PacketParserProofs
  import opened Encapsulation
  import opened EncapsulationRoundTrip
  import opened EncapsulationImpl
  import opened SeqTranslation
  import opened Aggregation
  import opened AggregationTheorems
  import opened AggregationImpl
  import opened PacketBuilders

  /** Two parsed packets that the loop accepts where so many bytes are expected. */
  ghost predicate AreAccepted(a: Fragment, b: Fragment, expected: nat) {
    && AllSniffed([Got(a), Got(b)]) && AllParsed([Got(a), Got(b)]) && IntStream([Got(a), Got(b)], expected)
    && Collect([Got(a), Got(b)], [], expected, false, true) == Accepted([a, b])
    && IsFragment(a) && IsFragment(b) && AllFragments([a, b])
  }

  /** Two fragments of which the second continues the first and makes up what is expected. */
  lemma TwoAreAccepted(a: Fragment, b: Fragment, expected: nat)
    requires IsFragment(a) && IsFragment(b) && TupleOf(a) == TupleOf(b) && HeadersAgree(b, a)
    requires PayloadLen(a) < expected && PayloadLen(a) + PayloadLen(b) == expected
    ensures AllSniffed([Got(a), Got(b)]) && AllFragments([a, b]) && Total([a, b]) == expected
    ensures Collect([Got(a), Got(b)], [], expected, false, true) == Accepted([a, b])
  {
    hide IsFragment, TupleOf, HeadersAgree, PayloadLen, Total, Collect;
    var fs := [a, b];
    TotalOfNothing(fs);
    TotalStep(fs, 0);
    TotalStep(fs, 1);
    assert fs[..2] == fs && fs[..0] == [];
    assert Link(fs, 1, expected);
    RunIsAccepted([Got(a), Got(b)], fs, 0, expected, false, true);
  }

  // ---------------------------------------------------------------------
  // Datagrams
  // ---------------------------------------------------------------------

  /** A UDP datagram with one byte of payload. */
  function Datagram(): Fragment {
    Fragment([0x45, 0, 0, 29, 0, 0, 0, 0, 64, IPPROTO_UDP, 0, 0, 192, 0, 2, 1, 192, 0, 2, 2]
             + [0, 80, 0, 81, 0, 9, 0, 0] + [7] + [0],
             Describe(NewInfo(29), DatagramTable()))
  }

  function DatagramTable(): seq<Header> {
    [Header(IPV4, 0, 20, 29), Header(UDP, 20, 8, 9)]
  }

  lemma DatagramFields()
    ensures var m := Datagram().mem;
            && |m| == 30 && m[0] == 0x45 && Be16(m, 2) == 29 && Be16(m, 6) == 0 && m[9] == IPPROTO_UDP
            && Be16(m, 24) == 9
    ensures var info := Datagram().info;
            info.headers == DatagramTable() && info.bufferBytes == 29 && info.ipBytes == 29
  {
  }

  lemma DatagramIsParsed()
    ensures IsParsed(Datagram()) && IsFragment(Datagram()) && PayloadLen(Datagram()) == 1
  {
    hide Datagram, Be16, ParsePacket, Describe;
    DatagramFields();
    var f := Datagram();
    var hs := f.info.headers;
    assert hs[1..] == [hs[1]];
    assert LowNibble(0x45) == 5 && HighNibble(0x45) == 4;
    assert HeaderOk(f.mem, hs[0], 29) && HeaderOk(f.mem, hs[1], 29);
    assert Chain(f.mem, hs[1..], 29);
    ParserIsComplete(f.mem, 29, hs, 29, IpLayer);
    assert f.info == Describe(NewInfo(29), hs) by {
      DatagramInfo();
    }
  }

  lemma DatagramInfo()
    ensures Datagram().info == Describe(NewInfo(29), DatagramTable())
  {
    hide Describe;
  }

  lemma DatagramsAgree()
    requires IsFragment(Datagram())
    ensures HeadersAgree(Datagram(), Datagram())
  {
    hide Datagram, Be16, PayloadLen;
    DatagramFields();
  }

  /** Two of them are accepted where two bytes are expected and are aggregated without a
      failing assert, but the aggregate is not parsed back. */
  lemma TwoDatagramsAreAggregated() returns (d: Fragment)
    ensures AreAccepted(d, d, 2) && AllPayloads([d, d]) && Last(d).kind == UDP
    ensures AssertsHold(Enlarged(d.info.headers, Extra([d, d]))) && !Reparses(d, Extra([d, d]))
  {
    hide Datagram, IsParsed, IsFragment, HeadersAgree, TupleOf, PayloadLen, Collect, Total, Be16;
    d := Datagram();
    DatagramIsParsed();
    DatagramFields();
    DatagramsAgree();
    TwoAreAccepted(d, d, 2);
  }

  // ---------------------------------------------------------------------
  // A tunnel whose outer header is too short
  // ---------------------------------------------------------------------

  /** TCP in IP in IP, with the given lengths and sequence number. */
  function Tunnel(outer: byte, inner: byte, sq: byte, data: nat): seq<byte> {
    [0x45, 0, 0, outer, 0, 0, 0, 0, 64, IPPROTO_IPIP, 0, 0, 192, 0, 2, 1, 192, 0, 2, 2]
    + [0x45, 0, 0, inner, 0, 0, 0, 0, 64, IPPROTO_TCP, 0, 0, 192, 0, 2, 3, 192, 0, 2, 4]
    + [0, 80, 0, 81, 0, 0, 0, sq, 0, 0, 0, 0, 0x50, 0x10, 0, 0, 0, 0, 0, 0]
    + ZeroBytes(data + 1)
  }

  function TunnelTable(outer: byte, inner: byte): seq<Header>
    requires inner >= 40
  {
    [Header(IPV4, 0, 20, outer), Header(IPV4, 20, 20, inner), Header(TCP, 40, 20, inner - 20)]
  }

  function TunnelPacket(outer: byte, inner: byte, sq: byte): Fragment
    requires inner >= 40
  {
    Fragment(Tunnel(outer, inner, sq, inner - 40), Describe(NewInfo(20 + inner), TunnelTable(outer, inner)))
  }

  /** The fields of the two IP headers. */
  ghost predicate TunnelIp(m: seq<byte>, outer: byte, inner: byte) {
    && |m| >= 61 && m[0] == 0x45 && m[8] == 64 && m[9] == IPPROTO_IPIP && Be16(m, 2) == outer && Be16(m, 6) == 0
    && m[20] == 0x45 && m[28] == 64 && m[29] == IPPROTO_TCP && Be16(m, 22) == inner && Be16(m, 26) == 0
    && m[32..36] == [192, 0, 2, 3] && m[36..40] == [192, 0, 2, 4]
  }

  /** The fields of the TCP header. */
  ghost predicate TunnelTcp(m: seq<byte>, sq: byte) {
    && |m| >= 61 && m[40..42] == [0, 80] && m[42..44] == [0, 81] && Be32(m, 44) == sq && Be32(m, 48) == 0
    && m[52] == 0x50 && m[53] == 0x10 && Be16(m, 54) == 0 && Be16(m, 58) == 0
  }

  lemma TunnelFields(outer: byte, inner: byte, sq: byte, data: nat)
    ensures var m := Tunnel(outer, inner, sq, data); |m| == 61 + data && TunnelIp(m, outer, inner) && TunnelTcp(m, sq)
  {
    hide ZeroBytes;
    var m := Tunnel(outer, inner, sq, data);
    assert m[32..36] == [192, 0, 2, 3] && m[36..40] == [192, 0, 2, 4];
    assert m[40..42] == [0, 80] && m[42..44] == [0, 81];
  }

  lemma TunnelInfo(outer: byte, inner: byte, sq: byte)
    requires inner >= 40
    ensures var info := TunnelPacket(outer, inner, sq).info;
            && info == Describe(NewInfo(20 + inner), TunnelTable(outer, inner))
            && info.headers == TunnelTable(outer, inner) && info.bufferBytes == 20 + inner && info.ipBytes == outer
  {
    hide Describe;
    DescribeFields(20 + inner, TunnelTable(outer, inner));
  }

  lemma TunnelChain(m: seq<byte>, outer: byte, inner: byte, sq: byte)
    requires TunnelIp(m, outer, inner) && TunnelTcp(m, sq) && |m| == 21 + inner
    requires 20 <= outer <= 20 + inner && inner >= 40
    ensures Chain(m, TunnelTable(outer, inner), 20 + inner)
  {
    hide Be16, Be32;
    var hs, end := TunnelTable(outer, inner), 20 + inner;
    assert LowNibble(0x45) == 5 && HighNibble(0x50) == 5;
    assert HeaderOk(m, hs[2], end) && HeaderOk(m, hs[1], end) && HeaderOk(m, hs[0], end);
    assert hs[2..] == [hs[2]] && hs[1..] == [hs[1], hs[2]];
    assert Chain(m, [hs[2]], end);
    assert [hs[1], hs[2]][1..] == [hs[2]];
    assert Chain(m, [hs[1], hs[2]], end);
  }

  /** The parser takes the packet even if the outer header ends before the inner one. */
  lemma TunnelIsParsed(outer: byte, inner: byte, sq: byte)
    requires 20 <= outer <= 20 + inner && inner >= 40
    ensures var f := TunnelPacket(outer, inner, sq);
            IsParsed(f) && IsFragment(f) && PayloadLen(f) == outer as int - 60
  {
    hide Tunnel, TunnelPacket, Describe, ParsePacket, Chain, TunnelIp, TunnelTcp, IsFragment;
    var f, end := TunnelPacket(outer, inner, sq), 20 + inner;
    TunnelFields(outer, inner, sq, inner - 40);
    TunnelInfo(outer, inner, sq);
    TunnelMem(outer, inner, sq);
    TunnelChain(f.mem, outer, inner, sq);
    TunnelVersion(f.mem, outer, inner);
    ParserIsComplete(f.mem, end, TunnelTable(outer, inner), end, IpLayer);
    ParsedIsFragment(f);
  }

  lemma TunnelMem(outer: byte, inner: byte, sq: byte)
    requires inner >= 40
    ensures TunnelPacket(outer, inner, sq).mem == Tunnel(outer, inner, sq, inner - 40)
  {
    hide Tunnel, Describe;
  }

  lemma TunnelVersion(m: seq<byte>, outer: byte, inner: byte)
    requires TunnelIp(m, outer, inner) && inner >= 40
    ensures VersionIs(m, TunnelTable(outer, inner)[0])
  {
    assert HighNibble(0x45) == 4;
  }

  /** The second packet continues the first if its sequence number does. */
  lemma TunnelsAgree(a: Fragment, outer: byte, inner: byte, sq: byte,
                     b: Fragment, outer': byte, inner': byte, sq': byte)
    requires IsFragment(a) && IsFragment(b) && inner >= 40 && inner' >= 40
    requires a.info.headers == TunnelTable(outer, inner) && TunnelIp(a.mem, outer, inner) && TunnelTcp(a.mem, sq)
    requires b.info.headers == TunnelTable(outer', inner') && TunnelIp(b.mem, outer', inner') && TunnelTcp(b.mem, sq')
    requires (sq + PayloadLen(a)) % 0x1_0000_0000 == sq'
    ensures HeadersAgree(b, a) && TupleOf(a) == TupleOf(b)
  {
    hide IsFragment, PayloadLen, Be16, Be32;
    assert Add(sq, PayloadLen(a) % 0x1_0000_0000) == sq';
  }

  /** A packet of -40 bytes of payload and one of 41 behind it are accepted where one byte is
      expected, and not every copy stays inside the buffer. */
  lemma NegativePayloadIsAccepted() returns (a: Fragment, b: Fragment)
    ensures AreAccepted(a, b, 1) && Ints([a, b])
    ensures PayloadLen(a) == -40 && PayloadLen(b) == 41 && !AllPayloads([a, b])
    ensures exists i | 0 <= i < 2 :: !CopyInside([a, b], i)
  {
    hide Tunnel, TunnelPacket, TunnelTable, TunnelIp, TunnelTcp, IsParsed, IsFragment, HeadersAgree, TupleOf,
         PayloadLen, Collect, Total, CopyInside;
    a, b := TunnelPacket(20, 40, 40), TunnelPacket(101, 81, 0);
    TunnelIsParsed(20, 40, 40);
    TunnelIsParsed(101, 81, 0);
    TunnelFields(20, 40, 40, 0);
    TunnelFields(101, 81, 0, 41);
    TunnelInfo(20, 40, 40);
    TunnelInfo(101, 81, 0);
    TunnelMem(20, 40, 40);
    TunnelMem(101, 81, 0);
    TunnelsAgree(a, 20, 40, 40, b, 101, 81, 0);
    TwoAreAccepted(a, b, 1);
    assert [a, b][0] == a;
    CopiesInsideIff([a, b]);
  }

  // ---------------------------------------------------------------------
  // IPv6 segments that are too long together
  // ---------------------------------------------------------------------

  /** A segment with 40000 bytes of payload over IPv6. */
  function LongArgs(sq: u32): TcpArgs {
    TcpArgs(IpArgs(true, 0, 0, 64), false, 80, 81, ".", sq, 40000, 0, 100, 0, [])
  }

  lemma LongIsBuildable(sq: u32)
    ensures var a := LongArgs(sq); Buildable(a) && IpBytes(a) == 40060
  {
    assert '.' in VALID_TCP_FLAGS by {
      assert VALID_TCP_FLAGS[4] == '.';
    }
  }

  function LongSegment(sq: u32): Fragment {
    LongIsBuildable(sq);
    Fragment(PacketBytes(LongArgs(sq)) + [0], TcpInfo(LongArgs(sq)))
  }

  /** What two such segments have in common. */
  ghost predicate LongFields(m: seq<byte>, sq: u32) {
    && |m| == 40061 && m[..40] == IpPart(LongArgs(0)) && m[40..42] == Enc16(80) && m[42..44] == Enc16(81)
    && Be32(m, 44) == sq && Be32(m, 48) == 0 && m[52] == 0x50 && m[53] == FlagsByte(".")
    && Be16(m, 54) == 100 && Be16(m, 58) == 0
  }

  lemma LongIpPart(sq: u32)
    ensures IpPart(LongArgs(sq)) == IpPart(LongArgs(0))
  {
    LongIsBuildable(sq);
    LongIsBuildable(0);
  }

  lemma LongTcpPart(b: seq<byte>, sq: u32)
    requires b == TcpPart(LongArgs(sq))
    ensures |b| == 20 && b[0..2] == Enc16(80) && b[2..4] == Enc16(81) && Be32(b, 4) == sq && Be32(b, 8) == 0
    ensures b[12] == 0x50 && b[13] == FlagsByte(".") && Be16(b, 14) == 100 && Be16(b, 18) == 0
  {
    hide Enc16, Enc32, FlagsByte, Be32, Be16, TcpPart;
    TcpFields(LongArgs(sq));
    Be32Slice(b, 4);
    Be32Slice(b, 8);
    Be16Slice(b, 14);
    Be16Slice(b, 18);
    LongTcpBytes(sq);
  }

  lemma LongTcpBytes(sq: u32)
    ensures var b := TcpPart(LongArgs(sq)); b[0..2] == Enc16(80) && b[2..4] == Enc16(81) && b[12] == 0x50
  {
    hide Enc16, Enc32, FlagsByte;
  }

  lemma Be16Slice(s: seq<byte>, i: nat)
    requires i + 2 <= |s|
    ensures Be16(s, i) == Be16(s[i..i + 2], 0)
  {
  }

  lemma LongSegmentFields(sq: u32)
    ensures LongFields(LongSegment(sq).mem, sq)
  {
    hide PacketBytes, IpPart, TcpPart, Enc16, Enc32, FlagsByte, Be16, Be32, Buildable;
    LongIsBuildable(sq);
    var a, m := LongArgs(sq), LongSegment(sq).mem;
    assert PacketBytes(a) < m;
    Parts(a, m);
    LongIpPart(sq);
    var b := m[40..60];
    LongTcpPart(b, sq);
    assert m[40..42] == b[0..2] && m[42..44] == b[2..4] && m[52] == b[12] && m[53] == b[13];
    assert m[44..48] == b[4..8] && m[48..52] == b[8..12] && m[54..56] == b[14..16] && m[58..60] == b[18..20];
    Be32Slice(m, 44);
    Be32Slice(m, 48);
    Be32Slice(b, 4);
    Be32Slice(b, 8);
    Be16Slice(m, 54);
    Be16Slice(m, 58);
    Be16Slice(b, 14);
    Be16Slice(b, 18);
  }

  lemma LongIsParsed(sq: u32)
    ensures var f := LongSegment(sq);
            && IsParsed(f) && IsFragment(f) && PayloadLen(f) == 40000
            && f.info.headers == [Header(IPV6, 0, 40, 40060), Header(TCP, 40, 20, 40020)]
  {
    hide PacketBytes, ParsePacket, IsFragment, Buildable;
    LongIsBuildable(sq);
    var a, f := LongArgs(sq), LongSegment(sq);
    assert PacketBytes(a) < f.mem;
    BuiltPacketParses(a, f.mem);
    ParsedIsFragment(f);
  }

  lemma LongSegmentsAgree(a: Fragment, b: Fragment)
    requires IsFragment(a) && IsFragment(b) && LongFields(a.mem, 0) && LongFields(b.mem, 40000)
    requires a.info.headers == [Header(IPV6, 0, 40, 40060), Header(TCP, 40, 20, 40020)] == b.info.headers
    requires PayloadLen(a) == 40000
    ensures HeadersAgree(b, a) && TupleOf(a) == TupleOf(b)
  {
    hide IsFragment, PayloadLen, Be16, Be32, IpPart, Enc16, FlagsByte;
    assert forall i | 0 <= i < 40 :: a.mem[i] == a.mem[..40][i] == b.mem[..40][i] == b.mem[i];
    assert a.mem[8..24] == b.mem[8..24] && a.mem[24..40] == b.mem[24..40];
  }

  /** Two IPv6 segments of 40000 bytes each are accepted where 80000 bytes are expected, and
      the assert of ipv6_header_finish fires. */
  lemma LongSegmentsAssert() returns (a: Fragment, b: Fragment)
    ensures AreAccepted(a, b, 80000) && AllPayloads([a, b])
    ensures !AssertsHold(Enlarged(b.info.headers, Extra([a, b])))
  {
    hide LongSegment, LongFields, IsParsed, IsFragment, HeadersAgree, TupleOf, PayloadLen, Collect, Total;
    a, b := LongSegment(0), LongSegment(40000);
    LongIsParsed(0);
    LongIsParsed(40000);
    LongSegmentFields(0);
    LongSegmentFields(40000);
    LongLength(a.mem, 0);
    LongLength(b.mem, 40000);
    LongSegmentsAgree(a, b);
    TwoAreAccepted(a, b, 80000);
    var hs := Enlarged(b.info.headers, 40000);
    assert hs[0].kind == IPV6 && hs[1..] == [hs[1]] && Extent(hs[0 + 1..]) == 80020;
  }

  lemma LongLength(m: seq<byte>, sq: u32)
    requires LongFields(m, sq)
    ensures |m| == 40061
  {
  }
}
