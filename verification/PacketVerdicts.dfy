/** Which of its three verdicts the parser gives, said of the grammar. */
module PacketVerdicts {
  import opened Bytes
  import opened Packet
  import opened PacketParser
  import opened PacketGrammar
  import opened PacketParserProofs

  // ---------------------------------------------------------------------
  // Packets that end in something unknown
  // ---------------------------------------------------------------------

  /** ICMP, IP in IP, TCP, UDP, IPv6, GRE and ICMPv6, by the numbers IANA assigned. */
  predicate KnownIp(proto: byte) {
    proto == 1 || proto == 4 || proto == 6 || proto == 17 || proto == 41 || proto == 47 || proto == 58
  }

  /** IPv4, IPv6 and the two Ethernet types of MPLS. */
  predicate KnownEther(proto: u16) {
    proto == 0x0800 || proto == 0x86dd || proto == 0x8847 || proto == 0x8848
  }

  /** The header announces something the parser does not know. */
  predicate AnnouncesUnknown(mem: seq<byte>, h: Header) {
    match h.kind
    case IPV4 => h.start + 10 <= |mem| && !KnownIp(mem[h.start + 9])
    case IPV6 => h.start + 7 <= |mem| && !KnownIp(mem[h.start + 6])
    case GRE => h.start + 4 <= |mem| && !KnownEther(Be16(mem, h.start + 2))
    case _ => false
  }

  /** Each header is right and announces the next, down to one that announces something
      unknown. */
  ghost predicate Dangling(mem: seq<byte>, hs: seq<Header>, end: nat)
    requires end < |mem|
  {
    && |hs| > 0 && HeaderOk(mem, hs[0], end)
    && if |hs| == 1 then AnnouncesUnknown(mem, hs[0])
       else hs[1].start <= end && Follows(mem, hs[0], hs[1], end) && Dangling(mem, hs[1..], end)
  }

  /** The same for a whole packet; an Ethernet frame can announce something unknown itself. */
  ghost predicate UnknownTable(mem: seq<byte>, hs: seq<Header>, end: nat, layer: Layer)
    requires end < |mem|
  {
    if layer == Ethernet then
      && ETHER_BYTES <= end
      && if hs == [] then !KnownEther(Be16(mem, 12))
         else Dangling(mem, hs, end) && hs[0].start == ETHER_BYTES && EthFollows(mem, Be16(mem, 12), hs[0])
    else
      hs != [] && Dangling(mem, hs, end) && hs[0].start == 0 && VersionIs(mem, hs[0])
  }

  // ---------------------------------------------------------------------
  // UNKNOWN_L4 is given for these packets only
  // ---------------------------------------------------------------------

  lemma DanglingCons(mem: seq<byte>, h: Header, tail: seq<Header>, end: nat)
    requires end < |mem| && HeaderOk(mem, h, end)
    requires if tail == [] then AnnouncesUnknown(mem, h)
             else Dangling(mem, tail, end) && tail[0].start <= end && Follows(mem, h, tail[0], end)
    ensures Dangling(mem, [h] + tail, end)
  {
    hide HeaderOk, Follows, AnnouncesUnknown;
    assert ([h] + tail)[1..] == tail;
  }

  /** Where the headers inside `info` end once one more is appended. */
  lemma AppendDescends(info: Info, h: Header, end: nat)
    requires Descending(info, h.start, end) && h.start + h.headerBytes <= end
    ensures var inner := Append(info, h.kind, h.headerBytes, h.totalBytes);
            && (inner.Some? <==> |info.headers| < PACKET_MAX_HEADERS)
            && (inner.Some? ==> && Descending(inner.value, h.start + h.headerBytes, end)
                                && |inner.value.headers| == |info.headers| + 1)
  {
  }

  lemma UnknownIpv4(mem: seq<byte>, info: Info, p: nat, end: nat) returns (hs: seq<Header>)
    requires end < |mem| && Descending(info, p, end) && ParseIpv4(mem, info, p, end).result == UNKNOWN_L4
    ensures hs != [] && Dangling(mem, hs, end) && hs[0].start == p && hs[0].kind == IPV4
    ensures |info.headers| + |hs| <= PACKET_MAX_HEADERS
    decreases end - p, 0
  {
    hide Dangling;
    var len, total := LowNibble(mem[p]) * 4, Be16(mem, p + 2);
    var h := Header(IPV4, p, len, total);
    AppendDescends(info, h, end);
    var tail := UnknownLayer4(mem, Append(info, IPV4, len, total).value, p + len, mem[p + 9], total - len, end);
    hs := [h] + tail;
    DanglingHead(mem, tail, end);
    DanglingCons(mem, h, tail, end);
  }

  lemma DanglingHead(mem: seq<byte>, hs: seq<Header>, end: nat)
    requires end < |mem| && (hs != [] ==> Dangling(mem, hs, end))
    ensures hs != [] ==> HeaderOk(mem, hs[0], end) && hs[0].start <= end
  {
  }

  lemma UnknownIpv6(mem: seq<byte>, info: Info, p: nat, end: nat) returns (hs: seq<Header>)
    requires end < |mem| && Descending(info, p, end) && ParseIpv6(mem, info, p, end).result == UNKNOWN_L4
    ensures hs != [] && Dangling(mem, hs, end) && hs[0].start == p && hs[0].kind == IPV6
    ensures |info.headers| + |hs| <= PACKET_MAX_HEADERS
    decreases end - p, 0
  {
    hide Dangling;
    var total := 40 + Be16(mem, p + 4);
    var h := Header(IPV6, p, 40, total);
    AppendDescends(info, h, end);
    var tail := UnknownLayer4(mem, Append(info, IPV6, 40, total).value, p + 40, mem[p + 6], total - 40, end);
    hs := [h] + tail;
    DanglingHead(mem, tail, end);
    DanglingCons(mem, h, tail, end);
  }

  lemma UnknownGre(mem: seq<byte>, info: Info, p: nat, l4: nat, end: nat) returns (hs: seq<Header>)
    requires p + l4 <= end < |mem| && Descending(info, p, end) && ParseGre(mem, info, p, l4, end).result == UNKNOWN_L4
    ensures hs != [] && Dangling(mem, hs, end) && hs[0].start == p && hs[0].kind == GRE && hs[0].totalBytes == l4
    ensures |info.headers| + |hs| <= PACKET_MAX_HEADERS
    decreases end - p, 1
  {
    hide Dangling;
    var len := GreLen(mem[p]);
    var h := Header(GRE, p, len, l4);
    AppendDescends(info, h, end);
    var tail := UnknownByProto(mem, Append(info, GRE, len, l4).value, Be16(mem, p + 2), p + len, end);
    hs := [h] + tail;
    DanglingHead(mem, tail, end);
    DanglingCons(mem, h, tail, end);
  }

  lemma UnknownMpls(mem: seq<byte>, info: Info, p: nat, end: nat) returns (hs: seq<Header>)
    requires end < |mem| && Descending(info, p, end) && ParseMpls(mem, info, p, end).result == UNKNOWN_L4
    ensures hs != [] && Dangling(mem, hs, end) && hs[0].start == p && hs[0].kind == MPLS
    ensures |info.headers| + |hs| <= PACKET_MAX_HEADERS
    decreases end - p, 1
  {
    hide Dangling;
    var q := StackEnd(mem, p, end).value;
    SoundStack(mem, p, end);
    assert ParseLayer3(mem, Append(info, MPLS, q - p, end - p).value, end, end).result == BAD;
    var h := Header(MPLS, p, q - p, end - p);
    AppendDescends(info, h, end);
    var tail := UnknownLayer3(mem, Append(info, MPLS, q - p, end - p).value, q, end);
    hs := [h] + tail;
    DanglingHead(mem, tail, end);
    DanglingCons(mem, h, tail, end);
  }

  /** What is behind an IP header: nothing if the protocol is unknown. */
  lemma UnknownLayer4(mem: seq<byte>, info: Info, p: nat, proto: byte, l4: nat, end: nat) returns (hs: seq<Header>)
    requires p + l4 <= end < |mem| && Descending(info, p, end)
    requires ParseLayer4(mem, info, p, proto, l4, end).result == UNKNOWN_L4
    ensures if hs == [] then !KnownIp(proto)
            else Dangling(mem, hs, end) && hs[0].start == p && IpFollows(proto, l4, hs[0])
    ensures |info.headers| + |hs| <= PACKET_MAX_HEADERS || hs == []
    decreases end - p, 2
  {
    hide Dangling;
    if proto == IPPROTO_GRE {
      hs := UnknownGre(mem, info, p, l4, end);
    } else if proto == IPPROTO_IPIP {
      hs := UnknownIpv4(mem, info, p, end);
    } else if proto == IPPROTO_IPV6 {
      hs := UnknownIpv6(mem, info, p, end);
    } else {
      Layer4IsKnown(mem, info, p, l4);
      hs := [];
    }
  }

  lemma Layer4IsKnown(mem: seq<byte>, info: Info, p: nat, l4: nat)
    requires p + l4 <= |mem|
    ensures ParseTcp(mem, info, p, l4).result != UNKNOWN_L4 && ParseUdp(mem, info, p, l4).result != UNKNOWN_L4
    ensures ParseIcmpv4(info, p, l4).result != UNKNOWN_L4 && ParseIcmpv6(info, p, l4).result != UNKNOWN_L4
  {
  }

  lemma UnknownByProto(mem: seq<byte>, info: Info, proto: u16, p: nat, end: nat) returns (hs: seq<Header>)
    requires end < |mem| && Descending(info, p, end) && ParseByProto(mem, info, proto, p, end).result == UNKNOWN_L4
    ensures if hs == [] then !KnownEther(proto)
            else Dangling(mem, hs, end) && hs[0].start == p <= end && EthFollows(mem, proto, hs[0])
    ensures |info.headers| + |hs| <= PACKET_MAX_HEADERS || hs == []
    decreases end - p, 2
  {
    hide Dangling;
    if proto == ETHERTYPE_IP {
      hs := UnknownIpv4(mem, info, p, end);
    } else if proto == ETHERTYPE_IPV6 {
      hs := UnknownIpv6(mem, info, p, end);
    } else if proto == ETHERTYPE_MPLS_UC || proto == ETHERTYPE_MPLS_MC {
      hs := UnknownMpls(mem, info, p, end);
    } else {
      hs := [];
    }
  }

  lemma UnknownLayer3(mem: seq<byte>, info: Info, p: nat, end: nat) returns (hs: seq<Header>)
    requires end < |mem| && Descending(info, p, end) && ParseLayer3(mem, info, p, end).result == UNKNOWN_L4
    ensures hs != [] && Dangling(mem, hs, end) && hs[0].start == p && VersionIs(mem, hs[0])
    ensures |info.headers| + |hs| <= PACKET_MAX_HEADERS
    decreases end - p, 2
  {
    hide Dangling, ParseIpv4, ParseIpv6;
    if HighNibble(mem[p]) == 4 {
      hs := UnknownIpv4(mem, info, p, end);
    } else {
      hs := UnknownIpv6(mem, info, p, end);
    }
  }

  // ---------------------------------------------------------------------
  // and for all of them
  // ---------------------------------------------------------------------

  lemma UnknownIsGiven(mem: seq<byte>, info: Info, h: Header, end: nat)
    requires end < |mem| && HeaderOk(mem, h, end) && AnnouncesUnknown(mem, h)
    requires Append(info, h.kind, h.headerBytes, h.totalBytes).Some?
    ensures ParseHead(mem, info, h, end).result == UNKNOWN_L4
  {
    var info1 := Append(info, h.kind, h.headerBytes, h.totalBytes).value;
    var p, room := h.start + h.headerBytes, h.totalBytes - h.headerBytes;
    if h.kind == IPV4 {
      assert ParseLayer4(mem, info1, p, mem[h.start + 9], room, end).result == UNKNOWN_L4;
    } else if h.kind == IPV6 {
      assert ParseLayer4(mem, info1, p, mem[h.start + 6], room, end).result == UNKNOWN_L4;
    } else {
      assert ParseByProto(mem, info1, Be16(mem, h.start + 2), p, end).result == UNKNOWN_L4;
    }
  }

  lemma {:induction false} DanglingIsUnknown(mem: seq<byte>, info: Info, hs: seq<Header>, end: nat)
    requires end < |mem| && Dangling(mem, hs, end) && Descending(info, hs[0].start, end)
    requires |info.headers| + |hs| <= PACKET_MAX_HEADERS
    ensures ParseHead(mem, info, hs[0], end).result == UNKNOWN_L4
    decreases |hs|
  {
    hide ParseHead, HeaderOk, Follows, AnnouncesUnknown, Append;
    var h := hs[0];
    OkFits(mem, h, end);
    AppendDescends(info, h, end);
    if |hs| == 1 {
      UnknownIsGiven(mem, info, h, end);
    } else {
      FollowsStart(mem, h, hs[1], end);
      DanglingIsUnknown(mem, Append(info, h.kind, h.headerBytes, h.totalBytes).value, hs[1..], end);
      ParseOuter(mem, info, h, hs[1], end);
    }
  }

  lemma OkFits(mem: seq<byte>, h: Header, end: nat)
    requires end < |mem| && HeaderOk(mem, h, end)
    ensures h.headerBytes <= h.totalBytes && h.start + h.totalBytes <= end
  {
  }

  lemma FollowsStart(mem: seq<byte>, a: Header, b: Header, end: nat)
    requires end < |mem| && HeaderOk(mem, a, end) && b.start <= end && Follows(mem, a, b, end)
    ensures b.start == a.start + a.headerBytes
  {
    hide HeaderOk;
  }

  // ---------------------------------------------------------------------
  // The three verdicts
  // ---------------------------------------------------------------------

  /** A packet is reported as unknown only if its headers end in something unknown. */
  lemma UnknownIsSound(mem: seq<byte>, bufferBytes: nat, end: nat, layer: Layer) returns (hs: seq<Header>)
    requires end <= bufferBytes && end < |mem|
    requires ParsePacket(mem, bufferBytes, end, layer).result == UNKNOWN_L4
    ensures UnknownTable(mem, hs, end, layer) && |hs| <= PACKET_MAX_HEADERS
  {
    hide Dangling, ParseByProto, ParseLayer3;
    var info := Fresh(bufferBytes, layer);
    if layer == Ethernet {
      hs := UnknownByProto(mem, info, Be16(mem, 12), ETHER_BYTES, end);
    } else {
      hs := UnknownLayer3(mem, info, 0, end);
    }
  }

  /** Every such packet is. */
  lemma UnknownIsComplete(mem: seq<byte>, bufferBytes: nat, hs: seq<Header>, end: nat, layer: Layer)
    requires end <= bufferBytes && end < |mem|
    requires UnknownTable(mem, hs, end, layer) && |hs| <= PACKET_MAX_HEADERS
    ensures ParsePacket(mem, bufferBytes, end, layer).result == UNKNOWN_L4
  {
    hide Dangling, Append;
    var info := Fresh(bufferBytes, layer);
    if hs == [] {
      assert ParseByProto(mem, info, Be16(mem, 12), ETHER_BYTES, end).result == UNKNOWN_L4;
    } else {
      DanglingHead(mem, hs, end);
      DanglingIsUnknown(mem, info, hs, end);
      assert IsIp(hs[0].kind) || hs[0].kind == MPLS;
    }
  }

  ghost predicate HasTable(mem: seq<byte>, end: nat, layer: Layer)
    requires end < |mem|
  {
    exists hs :: Table(mem, hs, end, layer) && |hs| <= PACKET_MAX_HEADERS
  }

  ghost predicate HasUnknownTable(mem: seq<byte>, end: nat, layer: Layer)
    requires end < |mem|
  {
    exists hs :: UnknownTable(mem, hs, end, layer) && |hs| <= PACKET_MAX_HEADERS
  }

  /** PACKET_OK for bytes with a table, PACKET_UNKNOWN_L4 for bytes whose headers end in
      something unknown, PACKET_BAD for all others. */
  lemma Verdict(mem: seq<byte>, bufferBytes: nat, end: nat, layer: Layer)
    requires end <= bufferBytes && end < |mem|
    ensures var result := ParsePacket(mem, bufferBytes, end, layer).result;
            && (result == OK <==> HasTable(mem, end, layer))
            && (result == UNKNOWN_L4 <==> HasUnknownTable(mem, end, layer))
            && (result == BAD <==> !HasTable(mem, end, layer) && !HasUnknownTable(mem, end, layer))
  {
    hide ParsePacket, Table, UnknownTable;
    var r := ParsePacket(mem, bufferBytes, end, layer);
    if r.result == OK {
      ParserIsSound(mem, bufferBytes, end, layer);
      assert Table(mem, r.info.headers, end, layer);
    } else if r.result == UNKNOWN_L4 {
      var hs := UnknownIsSound(mem, bufferBytes, end, layer);
      assert UnknownTable(mem, hs, end, layer);
    }
    if HasTable(mem, end, layer) {
      var hs :| Table(mem, hs, end, layer) && |hs| <= PACKET_MAX_HEADERS;
      ParserIsComplete(mem, bufferBytes, hs, end, layer);
    }
    if HasUnknownTable(mem, end, layer) {
      var hs :| UnknownTable(mem, hs, end, layer) && |hs| <= PACKET_MAX_HEADERS;
      UnknownIsComplete(mem, bufferBytes, hs, end, layer);
    }
  }
}
