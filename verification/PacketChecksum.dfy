/** Filling in the checksums of a packet (packet_checksum.c). */
module PacketChecksum {
  import opened Bytes
  import opened Packet
  import opened Checksum
  import opened PacketParser
  import opened PacketGrammar
  import opened PacketParserProofs
  import opened PacketParserImpl

  // ---------------------------------------------------------------------
  // What has to be true of a packet
  // ---------------------------------------------------------------------

  /** Where a layer 4 header has its checksum. */
  function FieldOffset(kind: Kind): nat
    requires IsLayer4(kind)
  {
    match kind
    case TCP => 16
    case UDP => 6
    case _ => 2
  }

  /** The layer 4 header the code looks at, in the order it looks. */
  function Layer4Of(info: Info, icmp: Kind): (l4: Option<(Kind, nat)>)
    requires icmp == ICMPV4 || icmp == ICMPV6
    ensures l4.Some? ==> IsLayer4(l4.value.0)
  {
    if info.tcp.Some? then Some((TCP, info.tcp.value))
    else if info.udp.Some? then Some((UDP, info.udp.value))
    else if icmp == ICMPV4 && info.icmpv4.Some? then Some((ICMPV4, info.icmpv4.value))
    else if icmp == ICMPV6 && info.icmpv6.Some? then Some((ICMPV6, info.icmpv6.value))
    else None
  }

  /** The pseudo-header of RFC 793, section 3.1; ICMP has none. */
  function Pseudo4(m: seq<byte>, ip: nat, kind: Kind, len: u16): (b: seq<byte>)
    requires ip + 20 <= |m|
    ensures |b| % 2 == 0 && |b| <= 12
  {
    if kind == ICMPV4 then [] else m[ip + 12..ip + 20] + [0, IpProto(kind)] + Enc16(len)
  }

  /** The pseudo-header of RFC 2460, section 8.1. */
  function Pseudo6(m: seq<byte>, ip: nat, kind: Kind, len: u32): (b: seq<byte>)
    requires ip + 40 <= |m|
    ensures |b| == 40
  {
    m[ip + 8..ip + 40] + Enc32(len) + [0, 0, 0, IpProto(kind)]
  }

  function HeaderLen4(m: seq<byte>, ip: nat): nat
    requires ip < |m|
  {
    LowNibble(m[ip]) * 4
  }

  /** What the code and its asserts ask of an IPv4 packet. A datagram without payload
      is fine; one with payload has a whole layer 4 header in it. */
  predicate Ready4(m: seq<byte>, info: Info) {
    && info.ipv4.Some?
    && var ip := info.ipv4.value;
       && ip + 20 <= |m| && 20 <= HeaderLen4(m, ip) && ip + HeaderLen4(m, ip) <= |m|
       && Be16(m, ip + 2) <= info.ipBytes
       && (Be16(m, ip + 2) > HeaderLen4(m, ip) ==>
             Layer4Fits(m, Layer4Of(info, ICMPV4), ip + HeaderLen4(m, ip), ip + Be16(m, ip + 2)))
  }

  predicate Ready6(m: seq<byte>, info: Info) {
    && info.ipv6.Some?
    && var ip := info.ipv6.value;
       && ip + 40 <= |m| && 40 + Be16(m, ip + 4) <= info.ipBytes
       && Layer4Fits(m, Layer4Of(info, ICMPV6), ip + 40, ip + 40 + Be16(m, ip + 4))
  }

  predicate Layer4Fits(m: seq<byte>, l4: Option<(Kind, nat)>, start: nat, end: nat) {
    && l4.Some? && l4.value.1 == start && IsLayer4(l4.value.0)
    && start + FieldOffset(l4.value.0) + 2 <= end <= |m|
  }

  /** Recomputing the IPv4 header checksum by the RFC gives zero. */
  predicate HeaderVerifies(m: seq<byte>, ip: nat)
    requires ip + 20 <= |m| && ip + HeaderLen4(m, ip) <= |m|
  {
    RfcChecksum(m[ip..ip + HeaderLen4(m, ip)]) == 0
  }

  /** Recomputing the layer 4 checksum by the RFC gives zero. */
  predicate Layer4Verifies(m: seq<byte>, pseudo: seq<byte>, start: nat, end: nat)
    requires start <= end <= |m|
  {
    RfcChecksum(pseudo + m[start..end]) == 0
  }

  /** No byte outside the given two-byte fields has changed. */
  predicate OnlyFields(m: seq<byte>, m': seq<byte>, f: nat, g: nat) {
    && |m'| == |m|
    && forall i | 0 <= i < |m| && !(f <= i < f + 2) && !(g <= i < g + 2) :: m'[i] == m[i]
  }

  // ---------------------------------------------------------------------
  // One field
  // ---------------------------------------------------------------------

  lemma ZeroIsZero(b: seq<byte>)
    requires Checksum16(Sum32(b)) == 0
    ensures RfcChecksum(b) == 0
  {
    hide Folded, Sum32, RfcSum, Enc16, Checksum16;
    ChecksumIsRfc(b);
    assert Enc16(RfcChecksum(b)) == [0, 0] && Be16(Enc16(RfcChecksum(b)), 0) == 0;
  }

  /** A message whose stored checksum was computed with the field zeroed and a
      pseudo-header summed before it verifies together with the pseudo-header. */
  lemma FilledVerifies(pre: seq<byte>, b: seq<byte>, at: nat, b': seq<byte>)
    requires |pre| % 2 == 0 && at % 2 == 0 && at + 2 <= |b| && b[at] == 0 && b[at + 1] == 0
    requires var check := Checksum16(Sum32(pre) + Sum32(b)); b' == b[at := check % 0x100][at + 1 := check / 0x100]
    ensures RfcChecksum(pre + b') == 0
  {
    hide Folded, Sum32, RfcSum, Enc16, Checksum16, RfcChecksum;
    StoredChecksumVerifies(b, at, b', Sum32(pre));
    ChecksumOfParts(pre, b');
    ZeroIsZero(pre + b');
  }

  /** x->check = 0; x->check = ip_checksum_fold(ip_checksum_partial(x, len, sum)). */
  method FillField(mem: array<byte>, start: nat, len: nat, at: nat, sum: u64, ghost pre: seq<byte>)
    requires start + len <= mem.Length && len < 0x1_0000_0000 && at % 2 == 0 && at + 2 <= len
    requires |pre| % 2 == 0 && |pre| <= 40 && sum == Sum32(pre)
    modifies mem
    ensures RfcChecksum(pre + mem[..][start..start + len]) == 0
    ensures OnlyFields(old(mem[..]), mem[..], start + at, start + at)
  {
    hide Folded, Sum32, Sum16, RfcSum, Enc16, Checksum16, RfcChecksum;
    SumBound(pre);
    mem[start + at], mem[start + at + 1] := 0, 0;
    ghost var b := mem[start..start + len];
    assert b[at] == 0 && b[at + 1] == 0;
    var partial := ChecksumPartial(mem, start, len, sum);
    var c := ChecksumFold(partial);
    mem[start + at], mem[start + at + 1] := c % 0x100, c / 0x100;
    ghost var b' := mem[..][start..start + len];
    assert b' == b[at := c % 0x100][at + 1 := c / 0x100];
    FilledVerifies(pre, b, at, b');
  }

  /** tcp_udp_v4_header_checksum_partial */
  method PseudoSum4(mem: array<byte>, ip: nat, kind: Kind, len: u16) returns (sum: u64)
    requires ip + 20 <= mem.Length && (kind == TCP || kind == UDP)
    ensures sum == Sum32(Pseudo4(mem[..], ip, kind, len))
  {
    hide Sum32, Sum16;
    var pseudo := new byte[12];
    pseudo[0], pseudo[1], pseudo[2], pseudo[3] := mem[ip + 12], mem[ip + 13], mem[ip + 14], mem[ip + 15];
    pseudo[4], pseudo[5], pseudo[6], pseudo[7] := mem[ip + 16], mem[ip + 17], mem[ip + 18], mem[ip + 19];
    pseudo[8], pseudo[9], pseudo[10], pseudo[11] := 0, IpProto(kind), len / 0x100, len % 0x100;
    assert pseudo[0..12] == Pseudo4(mem[..], ip, kind, len);
    sum := ChecksumPartial(pseudo, 0, 12, 0);
  }

  /** tcp_udp_v6_header_checksum_partial */
  method PseudoSum6(mem: array<byte>, ip: nat, kind: Kind, len: u32) returns (sum: u64)
    requires ip + 40 <= mem.Length
    ensures sum == Sum32(Pseudo6(mem[..], ip, kind, len))
  {
    hide Sum32, Sum16, Enc32;
    var pseudo := new byte[40];
    forall i | 0 <= i < 32 {
      pseudo[i] := mem[ip + 8 + i];
    }
    assert pseudo[0..32] == mem[ip + 8..ip + 40];
    var e := Enc32(len);
    pseudo[32], pseudo[33], pseudo[34], pseudo[35] := e[0], e[1], e[2], e[3];
    pseudo[36], pseudo[37], pseudo[38], pseudo[39] := 0, 0, 0, IpProto(kind);
    assert pseudo[0..32] == mem[ip + 8..ip + 40] && pseudo[32..36] == e;
    assert pseudo[0..40] == Pseudo6(mem[..], ip, kind, len);
    sum := ChecksumPartial(pseudo, 0, 40, 0);
  }

  // ---------------------------------------------------------------------
  // Whole packets
  // ---------------------------------------------------------------------

  /** The checksum fields of an IPv4 packet. */
  function Field4(m: seq<byte>, info: Info): nat
    requires Ready4(m, info)
  {
    var ip := info.ipv4.value;
    if Be16(m, ip + 2) > HeaderLen4(m, ip)
    then ip + HeaderLen4(m, ip) + FieldOffset(Layer4Of(info, ICMPV4).value.0) else ip + 10
  }

  /** Both checksums of an IPv4 packet verify. */
  predicate Verifies4(m: seq<byte>, info: Info)
    requires Ready4(m, info)
  {
    var ip, len, total := info.ipv4.value, HeaderLen4(m, info.ipv4.value), Be16(m, info.ipv4.value + 2);
    && HeaderVerifies(m, ip)
    && (total > len ==>
          var pseudo := Pseudo4(m, ip, Layer4Of(info, ICMPV4).value.0, total - len);
          Layer4Verifies(m, pseudo, ip + len, ip + total))
  }

  predicate Verifies6(m: seq<byte>, info: Info)
    requires Ready6(m, info)
  {
    var ip, bytes := info.ipv6.value, Be16(m, info.ipv6.value + 4);
    Layer4Verifies(m, Pseudo6(m, ip, Layer4Of(info, ICMPV6).value.0, bytes), ip + 40, ip + 40 + bytes)
  }

  /** Changing checksum fields leaves the fields the checksums depend on alone. */
  lemma Stays4(m: seq<byte>, m': seq<byte>, info: Info, g: nat)
    requires Ready4(m, info) && OnlyFields(m, m', info.ipv4.value + 10, g)
    requires g == info.ipv4.value + 10 || info.ipv4.value + 20 <= g
    ensures var ip := info.ipv4.value;
            && HeaderLen4(m', ip) == HeaderLen4(m, ip) && Be16(m', ip + 2) == Be16(m, ip + 2)
            && m'[ip + 12..ip + 20] == m[ip + 12..ip + 20] && Ready4(m', info) && Field4(m', info) == Field4(m, info)
  {
  }

  /** checksum_ipv4_packet: fill in the header checksum, then the layer 4 checksum when
      there is anything behind the header. */
  method ChecksumIpv4Packet(packet: PacketObject)
    requires Ready4(packet.mem[..], packet.Meta())
    modifies packet.mem
    ensures Ready4(packet.mem[..], packet.Meta()) && Verifies4(packet.mem[..], packet.Meta())
    ensures var field := old(Field4(packet.mem[..], packet.Meta()));
            OnlyFields(old(packet.mem[..]), packet.mem[..], packet.ipv4.value + 10, field)
  {
    hide Be16, RfcChecksum, Sum32, OnlyFields, Layer4Of, FieldOffset, Pseudo4, Field4, Layer4Fits, Layer4Verifies;
    var mem, ip := packet.mem, packet.ipv4.value;
    ghost var m, info := mem[..], packet.Meta();
    var len := LowNibble(mem[ip]) * 4;
    SumOfNothing();
    FillField(mem, ip, len, 10, 0, []);
    ghost var m1 := mem[..];
    Stays4(m, m1, info, ip + 10);
    assert [] + m1[ip..ip + len] == m1[ip..ip + len];
    var total := packet.Word(ip + 2);
    if total <= len {
      NoLayer4Field(m, info);
      return;
    }
    FillLayer4(packet, ip, len, total);
    BothVerify(m1, mem[..], info);
    FieldsAdd(m, m1, mem[..], ip + 10, Field4(m, info));
  }

  lemma NoLayer4Field(m: seq<byte>, info: Info)
    requires Ready4(m, info) && Be16(m, info.ipv4.value + 2) <= HeaderLen4(m, info.ipv4.value)
    ensures Field4(m, info) == info.ipv4.value + 10
  {
  }

  /** Of the layer 4 header and what is behind it, filling in a checksum spares all but two bytes:
      16 and 17 of TCP, 6 and 7 of UDP, 2 and 3 of ICMP. */
  lemma ChecksumSpares(m: seq<byte>, m': seq<byte>, f: nat, p: nat, kind: Kind)
    requires IsLayer4(kind) && p + 8 <= |m| && (kind == TCP ==> p + 20 <= |m|)
    requires (f + 2 <= p || f == p + FieldOffset(kind)) && OnlyFields(m, m', f, p + FieldOffset(kind))
    ensures |m'| == |m|
    ensures match kind
            case TCP => m'[p..p + 16] == m[p..p + 16] && m'[p + 18..] == m[p + 18..]
            case UDP => m'[p..p + 6] == m[p..p + 6] && m'[p + 8..] == m[p + 8..]
            case _ => m'[p..p + 2] == m[p..p + 2] && m'[p + 4..] == m[p + 4..]
  {
  }

  /** Filling in the layer 4 checksum leaves the header checksum right. */
  lemma BothVerify(m: seq<byte>, m': seq<byte>, info: Info)
    requires Ready4(m, info) && Be16(m, info.ipv4.value + 2) > HeaderLen4(m, info.ipv4.value)
    requires HeaderVerifies(m, info.ipv4.value) && OnlyFields(m, m', Field4(m, info), Field4(m, info))
    requires var ip, len, total := info.ipv4.value, HeaderLen4(m, info.ipv4.value), Be16(m, info.ipv4.value + 2);
             Layer4Verifies(m', Pseudo4(m, ip, Layer4Of(info, ICMPV4).value.0, total - len), ip + len, ip + total)
    ensures Ready4(m', info) && Verifies4(m', info)
  {
    hide RfcChecksum, Be16, Layer4Of, FieldOffset;
    var ip, len, f := info.ipv4.value, HeaderLen4(m, info.ipv4.value), Field4(m, info);
    Stays4(m, m', info, f);
    assert m'[ip..ip + len] == m[ip..ip + len];
  }

  lemma FieldsAdd(m: seq<byte>, m1: seq<byte>, m2: seq<byte>, f: nat, g: nat)
    requires OnlyFields(m, m1, f, f) && OnlyFields(m1, m2, g, g)
    ensures OnlyFields(m, m2, f, g)
  {
  }

  /** The layer 4 part of checksum_ipv4_packet. */
  method FillLayer4(packet: PacketObject, ip: nat, len: nat, total: u16)
    requires Ready4(packet.mem[..], packet.Meta()) && ip == packet.ipv4.value
    requires len == HeaderLen4(packet.mem[..], ip) < total == Be16(packet.mem[..], ip + 2)
    modifies packet.mem
    ensures var kind := Layer4Of(packet.Meta(), ICMPV4).value.0;
            var field := ip + len + FieldOffset(kind);
            && Field4(old(packet.mem[..]), packet.Meta()) == field
            && Layer4Verifies(packet.mem[..], Pseudo4(old(packet.mem[..]), ip, kind, total - len), ip + len, ip + total)
            && OnlyFields(old(packet.mem[..]), packet.mem[..], field, field)
  {
    hide Be16, RfcChecksum, Sum32, HeaderVerifies;
    var mem, l4 := packet.mem, total - len;
    ghost var m := mem[..];
    if packet.tcp.Some? {
      var sum := PseudoSum4(mem, ip, TCP, l4);
      FillField(mem, packet.tcp.value, l4, 16, sum, Pseudo4(m, ip, TCP, l4));
    } else if packet.udp.Some? {
      var sum := PseudoSum4(mem, ip, UDP, l4);
      FillField(mem, packet.udp.value, l4, 6, sum, Pseudo4(m, ip, UDP, l4));
    } else {
      SumOfNothing();
      FillField(mem, packet.icmpv4.value, l4, 2, 0, Pseudo4(m, ip, ICMPV4, l4));
    }
  }

  lemma SumOfNothing()
    ensures Sum32([]) == 0
  {
  }

  /** checksum_ipv6_packet */
  method ChecksumIpv6Packet(packet: PacketObject)
    requires Ready6(packet.mem[..], packet.Meta())
    modifies packet.mem
    ensures Ready6(packet.mem[..], packet.Meta()) && Verifies6(packet.mem[..], packet.Meta())
    ensures var f := packet.ipv6.value + 40 + FieldOffset(Layer4Of(packet.Meta(), ICMPV6).value.0);
            OnlyFields(old(packet.mem[..]), packet.mem[..], f, f)
  {
    hide Be16, RfcChecksum, Sum32, OnlyFields;
    var mem, ip := packet.mem, packet.ipv6.value;
    ghost var m, info := mem[..], packet.Meta();
    var bytes := packet.Word(ip + 4);
    if packet.tcp.Some? {
      var sum := PseudoSum6(mem, ip, TCP, bytes);
      FillField(mem, packet.tcp.value, bytes, 16, sum, Pseudo6(m, ip, TCP, bytes));
    } else if packet.udp.Some? {
      var sum := PseudoSum6(mem, ip, UDP, bytes);
      FillField(mem, packet.udp.value, bytes, 6, sum, Pseudo6(m, ip, UDP, bytes));
    } else {
      var sum := PseudoSum6(mem, ip, ICMPV6, bytes);
      FillField(mem, packet.icmpv6.value, bytes, 2, sum, Pseudo6(m, ip, ICMPV6, bytes));
    }
    Stays6(m, mem[..], info);
  }

  /** Changing the layer 4 checksum leaves the IPv6 header alone. */
  lemma Stays6(m: seq<byte>, m': seq<byte>, info: Info)
    requires Ready6(m, info)
    requires var f := info.ipv6.value + 40 + FieldOffset(Layer4Of(info, ICMPV6).value.0); OnlyFields(m, m', f, f)
    ensures var ip, kind := info.ipv6.value, Layer4Of(info, ICMPV6).value.0;
            && Be16(m', ip + 4) == Be16(m, ip + 4) && Ready6(m', info)
            && Pseudo6(m', ip, kind, Be16(m, ip + 4)) == Pseudo6(m, ip, kind, Be16(m, ip + 4))
  {
    var ip := info.ipv6.value;
    assert m'[ip + 8..ip + 40] == m[ip + 8..ip + 40];
  }

  /** checksum_packet */
  method ChecksumPacket(packet: PacketObject)
    requires if packet.ipv4.Some? then Ready4(packet.mem[..], packet.Meta()) else Ready6(packet.mem[..], packet.Meta())
    modifies packet.mem
    ensures packet.ipv4.Some? ==> Ready4(packet.mem[..], packet.Meta()) && Verifies4(packet.mem[..], packet.Meta())
    ensures packet.ipv4.None? ==> Ready6(packet.mem[..], packet.Meta()) && Verifies6(packet.mem[..], packet.Meta())
  {
    if packet.ipv4.Some? {
      ChecksumIpv4Packet(packet);
    } else {
      ChecksumIpv6Packet(packet);
    }
  }

  // ---------------------------------------------------------------------
  // Packets that were parsed
  // ---------------------------------------------------------------------

  /** The last two headers of a table. */
  lemma {:induction false} InnermostPair(mem: seq<byte>, hs: seq<Header>, end: nat)
    requires end < |mem| && Chain(mem, hs, end) && |hs| > 1
    ensures var ip, l4 := hs[|hs| - 2], hs[|hs| - 1];
            && HeaderOk(mem, ip, end) && HeaderOk(mem, l4, end) && IsIp(ip.kind) && IsLayer4(l4.kind)
            && l4.start <= end && Follows(mem, ip, l4, end)
  {
    hide HeaderOk, Follows;
    IpBeforeLayer4(mem, hs, end);
    if |hs| > 2 {
      InnermostPair(mem, hs[1..], end);
    }
  }

  /** A header that was parsed covers its own checksum field. */
  lemma FieldIsInside(mem: seq<byte>, h: Header, end: nat)
    requires end < |mem| && HeaderOk(mem, h, end) && IsLayer4(h.kind)
    ensures FieldOffset(h.kind) + 2 <= h.totalBytes
  {
  }

  /** A packet the parser accepted has its checksums filled in without an assert firing
      exactly when ICMP goes with its own IP version and the innermost datagram is not
      longer than the outermost length. */
  lemma ParsedIsReady(mem: seq<byte>, bufferBytes: nat, end: nat, layer: Layer)
    requires end <= bufferBytes && end < |mem|
    requires ParsePacket(mem, bufferBytes, end, layer).result == OK
    ensures var info := ParsePacket(mem, bufferBytes, end, layer).info;
            && (info.ipv4.Some? <==> info.ipv6.None?)
            && (info.ipv4.Some? ==>
                  && info.ipv4.value + 4 <= |mem|
                  && (Ready4(mem, info) <==> info.icmpv6.None? && Be16(mem, info.ipv4.value + 2) <= info.ipBytes))
            && (info.ipv6.Some? ==>
                  && info.ipv6.value + 6 <= |mem|
                  && (Ready6(mem, info) <==> info.icmpv4.None? && 40 + Be16(mem, info.ipv6.value + 4) <= info.ipBytes))
  {
    hide ParsePacket, Be16, Chain;
    ParserIsSound(mem, bufferBytes, end, layer);
    var info := ParsePacket(mem, bufferBytes, end, layer).info;
    var hs := info.headers;
    TableIsNested(mem, hs, end, layer);
    InnermostPair(mem, hs, end);
    FieldIsInside(mem, hs[|hs| - 1], end);
  }

  lemma TableIsNested(mem: seq<byte>, hs: seq<Header>, end: nat, layer: Layer)
    requires end < |mem| && Table(mem, hs, end, layer)
    ensures |hs| > 1
  {
  }

  /** Without encapsulation the lengths always agree. */
  lemma PlainIsReady(mem: seq<byte>, bufferBytes: nat, end: nat)
    requires end <= bufferBytes && end < |mem|
    requires ParsePacket(mem, bufferBytes, end, IpLayer).result == OK
    requires |ParsePacket(mem, bufferBytes, end, IpLayer).info.headers| == 2
    ensures var info := ParsePacket(mem, bufferBytes, end, IpLayer).info;
            && (info.ipv4.Some? && info.icmpv6.None? ==> Ready4(mem, info))
            && (info.ipv6.Some? && info.icmpv4.None? ==> Ready6(mem, info))
  {
    hide ParsePacket, Be16, Chain, Ready4, Ready6;
    ParsedIsReady(mem, bufferBytes, end, IpLayer);
    ParserIsSound(mem, bufferBytes, end, IpLayer);
    InnermostPair(mem, ParsePacket(mem, bufferBytes, end, IpLayer).info.headers, end);
  }

  /** An outer datagram that claims to end after its own header, with a whole TCP
      datagram behind it. */
  function Overlong(): seq<byte> {
    [0x45, 0, 0, 20, 0, 0, 0, 0, 64, IPPROTO_IPIP, 0, 0, 192, 0, 2, 1, 192, 0, 2, 2]
    + [0x45, 0, 0, 40, 0, 0, 0, 0, 64, IPPROTO_TCP, 0, 0, 192, 0, 2, 3, 192, 0, 2, 4]
    + [0, 80, 0, 81, 0, 0, 0, 0, 0, 0, 0, 0, 0x50, 2, 0, 0, 0, 0, 0, 0]
    + [0]
  }

  /** The second condition can fail: this packet is accepted, since an inner datagram is
      held against the end of the buffer only, and its checksums cannot be filled in. */
  lemma OverlongIsNotReady()
    ensures var r := ParsePacket(Overlong(), 60, 60, IpLayer);
            r.result == OK && r.info.ipv4.Some? && r.info.icmpv6.None? && !Ready4(Overlong(), r.info)
  {
    hide Overlong, Be16, ParsePacket, Chain, PacketParser.ParseLayer3;
    OverlongBytes();
    var m := Overlong();
    OverlongChain(m);
    var hs := [Header(IPV4, 0, 20, 20), Header(IPV4, 20, 20, 40), Header(TCP, 40, 20, 20)];
    ParserIsComplete(m, 60, hs, 60, IpLayer);
    assert ParsePacket(m, 60, 60, IpLayer).info.ipBytes == 20;
  }

  predicate OverlongFacts(m: seq<byte>) {
    && |m| == 61
    && m[0] == 0x45 && m[9] == IPPROTO_IPIP && Be16(m, 2) == 20 && Be16(m, 6) == 0
    && m[20] == 0x45 && m[29] == IPPROTO_TCP && Be16(m, 22) == 40 && Be16(m, 26) == 0
    && m[52] == 0x50
  }

  lemma OverlongBytes()
    ensures OverlongFacts(Overlong())
  {
  }

  lemma OverlongChain(m: seq<byte>)
    requires OverlongFacts(m)
    ensures Chain(m, [Header(IPV4, 0, 20, 20), Header(IPV4, 20, 20, 40), Header(TCP, 40, 20, 20)], 60)
  {
    hide Be16;
    var outer, inner, tcp := Header(IPV4, 0, 20, 20), Header(IPV4, 20, 20, 40), Header(TCP, 40, 20, 20);
    assert HeaderOk(m, tcp, 60) && HeaderOk(m, inner, 60) && HeaderOk(m, outer, 60);
    assert Chain(m, [tcp], 60);
    assert [inner, tcp][1..] == [tcp];
    assert Chain(m, [inner, tcp], 60);
    assert [outer, inner, tcp][1..] == [inner, tcp];
  }

  /** An ICMPv6 message without data in an IPv4 datagram. */
  function Mismatched(): seq<byte> {
    [0x45, 0, 0, 28, 0, 0, 0, 0, 64, IPPROTO_ICMPV6, 0, 0, 192, 0, 2, 1, 192, 0, 2, 2] + [128, 0, 0, 0, 0, 0, 0, 0]
      + [0]
  }

  /** The first condition can fail too: the parser takes ICMP of either version in IP of
      either version, and checksum_ipv4_packet asserts that it is one of its own. */
  lemma MismatchedIsNotReady()
    ensures var r := ParsePacket(Mismatched(), 28, 28, IpLayer);
            && r.result == OK && r.info.ipv4.Some? && r.info.icmpv6.Some? && Be16(Mismatched(), 2) <= r.info.ipBytes
            && !Ready4(Mismatched(), r.info)
  {
    hide Mismatched, Be16, ParsePacket, Ready4;
    MismatchedBytes();
    var m, hs := Mismatched(), [Header(IPV4, 0, 20, 28), Header(ICMPV6, 20, 8, 8)];
    assert LowNibble(0x45) == 5 && HighNibble(0x45) == 4;
    assert HeaderOk(m, hs[0], 28) && HeaderOk(m, hs[1], 28);
    assert hs[1..] == [hs[1]];
    assert Chain(m, hs[1..], 28);
    ParserIsComplete(m, 28, hs, 28, IpLayer);
    ParsedIsReady(m, 28, 28, IpLayer);
  }

  lemma MismatchedBytes()
    ensures var m := Mismatched();
            |m| == 29 && m[0] == 0x45 && m[9] == IPPROTO_ICMPV6 && Be16(m, 2) == 28 && Be16(m, 6) == 0
  {
  }
}
