/** The parser accepts exactly the packets that have a table, and returns it. */
module PacketParserProofs {
  import opened Bytes
  import opened Packet
  import opened PacketParser
  import opened PacketGrammar

  /** On the way in: the headers so far end at p and no pointer is set. */
  ghost predicate Descending(info: Info, p: nat, end: nat) {
    && info.l2Bytes + info.ipBytes == p <= end <= info.bufferBytes
    && info.ipv4 == None && info.ipv6 == None
    && info.tcp == None && info.udp == None && info.icmpv4 == None && info.icmpv6 == None
  }

  /** How the metadata of a table builds up from the inside out. */
  lemma DescribeCons(info: Info, h: Header, tail: seq<Header>, end: nat)
    requires Descending(info, h.start, end) && |tail| > 0 && |info.headers| < PACKET_MAX_HEADERS
    requires 0 < h.headerBytes && h.start + h.headerBytes <= end
    requires |tail| == 1 ==> IsIp(h.kind) && IsLayer4(tail[0].kind)
    requires |tail| > 1 ==> IsIp(tail[|tail| - 2].kind)
    ensures var inner := Append(info, h.kind, h.headerBytes, h.totalBytes);
            inner.Some?
            && Descending(inner.value, h.start + h.headerBytes, end)
            && inner.value.headers == info.headers + [h]
            && Describe(info, [h] + tail)
               == match h.kind
                  case IPV4 => SetLength(SetIpv4(Describe(inner.value, tail), h.start), info.ipBytes == 0, h.totalBytes)
                  case IPV6 => SetLength(SetIpv6(Describe(inner.value, tail), h.start), info.ipBytes == 0, h.totalBytes)
                  case _ => Describe(inner.value, tail)
  {
    var hs := [h] + tail;
    assert hs[1..] == tail;
    assert info.headers + [h] + tail == info.headers + hs;
  }

  lemma DescribeLayer4(info: Info, h: Header, end: nat)
    requires Descending(info, h.start, end) && |info.headers| < PACKET_MAX_HEADERS
    requires 0 < h.headerBytes && h.start + h.headerBytes <= end
    ensures Append(info, h.kind, h.headerBytes, h.totalBytes)
         == Some(info.(headers := info.headers + [h], ipBytes := info.ipBytes + h.headerBytes))
    ensures HeaderBytes([h]) == h.headerBytes
  {
  }

  /** Just before the layer 4 header of a table there is an IP header. */
  lemma {:induction false} IpBeforeLayer4(mem: seq<byte>, hs: seq<Header>, end: nat)
    requires end < |mem| && Chain(mem, hs, end)
    ensures IsLayer4(hs[|hs| - 1].kind)
    ensures |hs| > 1 ==> IsIp(hs[|hs| - 2].kind)
    ensures |hs| > 1 ==> !IsLayer4(hs[0].kind)
  {
    if |hs| > 1 {
      IpBeforeLayer4(mem, hs[1..], end);
    }
  }

  lemma ChainCons(mem: seq<byte>, h: Header, tail: seq<Header>, end: nat)
    requires end < |mem| && HeaderOk(mem, h, end) && Chain(mem, tail, end) && tail[0].start <= end
    requires Follows(mem, h, tail[0], end)
    ensures Chain(mem, [h] + tail, end)
    ensures |tail| == 1 ==> IsIp(h.kind) && IsLayer4(tail[0].kind)
    ensures |tail| > 1 ==> IsIp(tail[|tail| - 2].kind)
  {
    assert ([h] + tail)[1..] == tail;
    IpBeforeLayer4(mem, [h] + tail, end);
  }

  // ---------------------------------------------------------------------
  // Soundness: what the parser returns describes the bytes
  // ---------------------------------------------------------------------

  lemma SoundStack(mem: seq<byte>, p: nat, end: nat)
    requires p <= end < |mem| && StackEnd(mem, p, end).Some?
    ensures var q := StackEnd(mem, p, end).value; q == end || StackOf(mem, p, q - p)
    decreases end - p
  {
    if !MplsBottom(mem, p) && p + 4 < end {
      SoundStack(mem, p + 4, end);
      var q := StackEnd(mem, p, end).value;
      if q != end {
        forall i: nat | i < (q - p) / 4
          ensures MplsBottom(mem, p + 4 * i) <==> i == (q - p) / 4 - 1
        {
          if i > 0 {
            assert p + 4 * i == p + 4 + 4 * (i - 1);
          }
        }
      }
    }
  }

  lemma SoundIpv4(mem: seq<byte>, info: Info, p: nat, end: nat) returns (hs: seq<Header>)
    requires end < |mem| && Descending(info, p, end) && ParseIpv4(mem, info, p, end).result == OK
    ensures Chain(mem, hs, end) && hs[0].start == p && hs[0].kind == IPV4
    ensures ParseIpv4(mem, info, p, end).info == Describe(info, hs) && |info.headers| + |hs| <= PACKET_MAX_HEADERS
    decreases end - p, 0
  {
    hide Chain, Describe;
    var len, total := LowNibble(mem[p]) * 4, Be16(mem, p + 2);
    var h := Header(IPV4, p, len, total);
    var info1 := Append(info, IPV4, len, total).value;
    var tail := SoundLayer4(mem, info1, p + len, mem[p + 9], total - len, end);
    hs := [h] + tail;
    ChainCons(mem, h, tail, end);
    DescribeCons(info, h, tail, end);
  }

  lemma SoundIpv6(mem: seq<byte>, info: Info, p: nat, end: nat) returns (hs: seq<Header>)
    requires end < |mem| && Descending(info, p, end) && ParseIpv6(mem, info, p, end).result == OK
    ensures Chain(mem, hs, end) && hs[0].start == p && hs[0].kind == IPV6
    ensures ParseIpv6(mem, info, p, end).info == Describe(info, hs) && |info.headers| + |hs| <= PACKET_MAX_HEADERS
    decreases end - p, 0
  {
    hide Chain, Describe;
    var total := 40 + Be16(mem, p + 4);
    var h := Header(IPV6, p, 40, total);
    var info1 := Append(info, IPV6, 40, total).value;
    var tail := SoundLayer4(mem, info1, p + 40, mem[p + 6], total - 40, end);
    hs := [h] + tail;
    ChainCons(mem, h, tail, end);
    DescribeCons(info, h, tail, end);
  }

  lemma SoundGre(mem: seq<byte>, info: Info, p: nat, l4: nat, end: nat) returns (hs: seq<Header>)
    requires p + l4 <= end < |mem| && Descending(info, p, end) && ParseGre(mem, info, p, l4, end).result == OK
    ensures Chain(mem, hs, end) && hs[0].start == p && hs[0].kind == GRE && hs[0].totalBytes == l4
    ensures ParseGre(mem, info, p, l4, end).info == Describe(info, hs) && |info.headers| + |hs| <= PACKET_MAX_HEADERS
    decreases end - p, 1
  {
    hide Chain, Describe;
    var len := GreLen(mem[p]);
    var h := Header(GRE, p, len, l4);
    var info1 := Append(info, GRE, len, l4).value;
    var tail := SoundByProto(mem, info1, Be16(mem, p + 2), p + len, end);
    hs := [h] + tail;
    ChainCons(mem, h, tail, end);
    DescribeCons(info, h, tail, end);
  }

  lemma SoundMpls(mem: seq<byte>, info: Info, p: nat, end: nat) returns (hs: seq<Header>)
    requires end < |mem| && Descending(info, p, end) && ParseMpls(mem, info, p, end).result == OK
    ensures Chain(mem, hs, end) && hs[0].start == p && hs[0].kind == MPLS
    ensures ParseMpls(mem, info, p, end).info == Describe(info, hs) && |info.headers| + |hs| <= PACKET_MAX_HEADERS
    decreases end - p, 1
  {
    hide Chain, Describe;
    var q := StackEnd(mem, p, end).value;
    SoundStack(mem, p, end);
    var h := Header(MPLS, p, q - p, end - p);
    var info1 := Append(info, MPLS, q - p, end - p).value;
    var tail := SoundLayer3(mem, info1, q, end);
    hs := [h] + tail;
    ChainCons(mem, h, tail, end);
    DescribeCons(info, h, tail, end);
  }

  lemma SoundLayer4(mem: seq<byte>, info: Info, p: nat, proto: byte, l4: nat, end: nat) returns (hs: seq<Header>)
    requires p + l4 <= end < |mem| && Descending(info, p, end)
    requires ParseLayer4(mem, info, p, proto, l4, end).result == OK
    ensures Chain(mem, hs, end) && hs[0].start == p && IpFollows(proto, l4, hs[0])
    ensures ParseLayer4(mem, info, p, proto, l4, end).info == Describe(info, hs)
    ensures |info.headers| + |hs| <= PACKET_MAX_HEADERS
    decreases end - p, 2
  {
    var h;
    if proto == IPPROTO_GRE {
      hs := SoundGre(mem, info, p, l4, end);
      return;
    } else if proto == IPPROTO_IPIP {
      hs := SoundIpv4(mem, info, p, end);
      return;
    } else if proto == IPPROTO_IPV6 {
      hs := SoundIpv6(mem, info, p, end);
      return;
    } else if proto == IPPROTO_TCP {
      h := Header(TCP, p, HighNibble(mem[p + 12]) * 4, l4);
    } else if proto == IPPROTO_UDP {
      h := Header(UDP, p, 8, l4);
    } else if proto == IPPROTO_ICMP {
      h := Header(ICMPV4, p, 8, l4);
    } else {
      h := Header(ICMPV6, p, 8, l4);
    }
    hs := [h];
    DescribeLayer4(info, h, end);
  }

  lemma SoundByProto(mem: seq<byte>, info: Info, proto: u16, p: nat, end: nat) returns (hs: seq<Header>)
    requires end < |mem| && Descending(info, p, end) && ParseByProto(mem, info, proto, p, end).result == OK
    ensures Chain(mem, hs, end) && hs[0].start == p && EthFollows(mem, proto, hs[0])
    ensures ParseByProto(mem, info, proto, p, end).info == Describe(info, hs)
    ensures |info.headers| + |hs| <= PACKET_MAX_HEADERS
    decreases end - p, 2
  {
    if proto == ETHERTYPE_IP {
      hs := SoundIpv4(mem, info, p, end);
    } else if proto == ETHERTYPE_IPV6 {
      hs := SoundIpv6(mem, info, p, end);
    } else {
      hs := SoundMpls(mem, info, p, end);
    }
  }

  lemma SoundLayer3(mem: seq<byte>, info: Info, p: nat, end: nat) returns (hs: seq<Header>)
    requires end < |mem| && Descending(info, p, end) && ParseLayer3(mem, info, p, end).result == OK
    ensures Chain(mem, hs, end) && hs[0].start == p && VersionIs(mem, hs[0])
    ensures ParseLayer3(mem, info, p, end).info == Describe(info, hs) && |info.headers| + |hs| <= PACKET_MAX_HEADERS
    decreases end - p, 2
  {
    if HighNibble(mem[p]) == 4 {
      hs := SoundIpv4(mem, info, p, end);
    } else {
      hs := SoundIpv6(mem, info, p, end);
    }
  }

  // ---------------------------------------------------------------------
  // Completeness: bytes that have a table are accepted with that table
  // ---------------------------------------------------------------------

  /** The parse function for a header of the given table entry. */
  function ParseHead(mem: seq<byte>, info: Info, h: Header, end: nat): Parsed
    requires h.start + h.totalBytes <= end < |mem|
  {
    match h.kind
    case IPV4 => ParseIpv4(mem, info, h.start, end)
    case IPV6 => ParseIpv6(mem, info, h.start, end)
    case GRE => ParseGre(mem, info, h.start, h.totalBytes, end)
    case MPLS => ParseMpls(mem, info, h.start, end)
    case TCP => ParseTcp(mem, info, h.start, h.totalBytes)
    case UDP => ParseUdp(mem, info, h.start, h.totalBytes)
    case ICMPV4 => ParseIcmpv4(info, h.start, h.totalBytes)
    case ICMPV6 => ParseIcmpv6(info, h.start, h.totalBytes)
  }

  lemma CompleteStack(mem: seq<byte>, p: nat, bytes: nat, end: nat)
    requires p + bytes <= end < |mem| && StackOf(mem, p, bytes)
    ensures StackEnd(mem, p, end) == Some(p + bytes)
    decreases bytes
  {
    assert MplsBottom(mem, p + 4 * 0) <==> 0 == bytes / 4 - 1;
    if bytes > 4 {
      forall i: nat | i < (bytes - 4) / 4
        ensures MplsBottom(mem, p + 4 + 4 * i) <==> i == (bytes - 4) / 4 - 1
      {
        assert p + 4 + 4 * i == p + 4 * (i + 1);
      }
      CompleteStack(mem, p + 4, bytes - 4, end);
    }
  }

  lemma CompleteLayer4(mem: seq<byte>, info: Info, h: Header, end: nat)
    requires end < |mem| && HeaderOk(mem, h, end) && IsLayer4(h.kind)
    requires Descending(info, h.start, end) && |info.headers| < PACKET_MAX_HEADERS
    ensures ParseHead(mem, info, h, end) == Parsed(OK, Describe(info, [h]))
  {
    var info1 := match h.kind
      case TCP => info.(tcp := Some(h.start))
      case UDP => info.(udp := Some(h.start))
      case ICMPV4 => info.(icmpv4 := Some(h.start))
      case _ => info.(icmpv6 := Some(h.start));
    assert Append(info1, h.kind, h.headerBytes, h.totalBytes)
        == Some(info1.(headers := info.headers + [h], ipBytes := info.ipBytes + h.headerBytes));
    assert HeaderBytes([h]) == h.headerBytes;
  }

  /** The dispatch after header `a` reaches the parse function of header `b`. */
  lemma EnterNext(mem: seq<byte>, info: Info, a: Header, b: Header, end: nat)
    requires end < |mem| && HeaderOk(mem, a, end) && HeaderOk(mem, b, end) && Follows(mem, a, b, end)
    ensures match a.kind
            case IPV4 => ParseLayer4(mem, info, b.start, mem[a.start + 9], a.totalBytes - a.headerBytes, end)
                         == ParseHead(mem, info, b, end)
            case IPV6 => ParseLayer4(mem, info, b.start, mem[a.start + 6], a.totalBytes - a.headerBytes, end)
                         == ParseHead(mem, info, b, end)
            case GRE => ParseByProto(mem, info, Be16(mem, a.start + 2), b.start, end) == ParseHead(mem, info, b, end)
            case MPLS => ParseLayer3(mem, info, b.start, end) == ParseHead(mem, info, b, end)
            case _ => true
  {
  }

  /** The parse of an IP header around that of what it carries. */
  lemma ParseAroundIp(mem: seq<byte>, info: Info, a: Header, end: nat)
    requires end < |mem| && HeaderOk(mem, a, end) && IsIp(a.kind)
    requires Append(info, a.kind, a.headerBytes, a.totalBytes).Some?
    ensures var info1, s, n := Append(info, a.kind, a.headerBytes, a.totalBytes).value, a.start, a.headerBytes;
            var proto := if a.kind == IPV4 then mem[s + 9] else mem[s + 6];
            var inner := ParseLayer4(mem, info1, s + n, proto, a.totalBytes - n, end);
            var ip := if a.kind == IPV4 then SetIpv4(inner.info, s) else SetIpv6(inner.info, s);
            ParseHead(mem, info, a, end) == Parsed(inner.result, SetLength(ip, info.ipBytes == 0, a.totalBytes))
  {
    hide ParseLayer4, Append;
  }

  /** The same for GRE and MPLS. */
  lemma ParseAroundTunnel(mem: seq<byte>, info: Info, a: Header, end: nat)
    requires end < |mem| && HeaderOk(mem, a, end) && (a.kind == GRE || a.kind == MPLS)
    requires Append(info, a.kind, a.headerBytes, a.totalBytes).Some?
    ensures var info1, p := Append(info, a.kind, a.headerBytes, a.totalBytes).value, a.start + a.headerBytes;
            ParseHead(mem, info, a, end)
            == if a.kind == GRE then ParseByProto(mem, info1, Be16(mem, a.start + 2), p, end)
               else ParseLayer3(mem, info1, p, end)
  {
    hide ParseByProto, ParseLayer3, Append;
    if a.kind == MPLS {
      CompleteStack(mem, a.start, a.headerBytes, end);
    }
  }

  /** One level of the parser: what surrounds the parse of the next header. */
  lemma ParseOuter(mem: seq<byte>, info: Info, a: Header, b: Header, end: nat)
    requires end < |mem| && HeaderOk(mem, a, end) && HeaderOk(mem, b, end) && Follows(mem, a, b, end)
    requires Append(info, a.kind, a.headerBytes, a.totalBytes).Some?
    ensures var inner := ParseHead(mem, Append(info, a.kind, a.headerBytes, a.totalBytes).value, b, end);
            ParseHead(mem, info, a, end)
            == Parsed(inner.result,
                 match a.kind
                 case IPV4 => SetLength(SetIpv4(inner.info, a.start), info.ipBytes == 0, a.totalBytes)
                 case IPV6 => SetLength(SetIpv6(inner.info, a.start), info.ipBytes == 0, a.totalBytes)
                 case _ => inner.info)
  {
    hide HeaderOk, ParseHead, ParseLayer4, ParseByProto, ParseLayer3, IpFollows, EthFollows, VersionIs;
    EnterNext(mem, Append(info, a.kind, a.headerBytes, a.totalBytes).value, a, b, end);
    if IsIp(a.kind) {
      ParseAroundIp(mem, info, a, end);
    } else {
      ParseAroundTunnel(mem, info, a, end);
    }
  }

  lemma {:induction false} ParseComplete(mem: seq<byte>, info: Info, hs: seq<Header>, end: nat)
    requires end < |mem| && Chain(mem, hs, end) && Descending(info, hs[0].start, end)
    requires |info.headers| + |hs| <= PACKET_MAX_HEADERS
    ensures ParseHead(mem, info, hs[0], end) == Parsed(OK, Describe(info, hs))
    decreases |hs|
  {
    hide ParseHead, Describe;
    var h, tail := hs[0], hs[1..];
    if tail == [] {
      assert hs == [h];
      CompleteLayer4(mem, info, h, end);
    } else {
      assert hs == [h] + tail;
      ChainCons(mem, h, tail, end);
      DescribeCons(info, h, tail, end);
      ParseComplete(mem, Append(info, h.kind, h.headerBytes, h.totalBytes).value, tail, end);
      ParseOuter(mem, info, h, tail[0], end);
    }
  }

  // ---------------------------------------------------------------------
  // The theorems
  // ---------------------------------------------------------------------

  /** A fresh packet that the capture layer has been recorded in. */
  function Fresh(bufferBytes: nat, layer: Layer): Info {
    if layer == Ethernet then NewInfo(bufferBytes).(l2Bytes := ETHER_BYTES) else NewInfo(bufferBytes)
  }

  /** parse_packet returns PACKET_OK only with a table of at most six headers that
      describes the bytes, and with exactly the metadata that goes with it. */
  lemma ParserIsSound(mem: seq<byte>, bufferBytes: nat, end: nat, layer: Layer)
    requires end <= bufferBytes && end < |mem|
    requires ParsePacket(mem, bufferBytes, end, layer).result == OK
    ensures var info := ParsePacket(mem, bufferBytes, end, layer).info;
            && Table(mem, info.headers, end, layer) && |info.headers| <= PACKET_MAX_HEADERS
            && info == Describe(Fresh(bufferBytes, layer), info.headers)
  {
    var info := Fresh(bufferBytes, layer);
    var hs;
    if layer == Ethernet {
      hs := SoundByProto(mem, info, Be16(mem, 12), ETHER_BYTES, end);
    } else {
      hs := SoundLayer3(mem, info, 0, end);
    }
    assert Describe(info, hs).headers == hs;
  }

  /** Bytes described by a table of at most six headers are accepted with it. */
  lemma ParserIsComplete(mem: seq<byte>, bufferBytes: nat, hs: seq<Header>, end: nat, layer: Layer)
    requires end <= bufferBytes && end < |mem|
    requires Table(mem, hs, end, layer) && |hs| <= PACKET_MAX_HEADERS
    ensures ParsePacket(mem, bufferBytes, end, layer) == Parsed(OK, Describe(Fresh(bufferBytes, layer), hs))
  {
    ParseComplete(mem, Fresh(bufferBytes, layer), hs, end);
  }

  /** The headers of a table lie back to back, nested inside the packet, with the
      bottom bit of a label stack on its last entry only, one layer 4 header at
      the end and an IP header right before it. */
  lemma {:induction false} TableShape(mem: seq<byte>, hs: seq<Header>, end: nat, i: nat)
    requires end < |mem| && Chain(mem, hs, end) && i < |hs|
    ensures hs[i].headerBytes <= hs[i].totalBytes && hs[i].start + hs[i].totalBytes <= end
    ensures i + 1 < |hs| ==> hs[i + 1].start == hs[i].start + hs[i].headerBytes
    ensures IsLayer4(hs[i].kind) <==> i == |hs| - 1
    ensures i == |hs| - 2 ==> IsIp(hs[i].kind)
    ensures hs[i].kind == MPLS ==> StackOf(mem, hs[i].start, hs[i].headerBytes)
  {
    IpBeforeLayer4(mem, hs, end);
    if i > 0 {
      TableShape(mem, hs[1..], end, i - 1);
    }
  }
}
