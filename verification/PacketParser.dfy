/**
The packet parser (packet_parser.c) as functions of the memory at packet->buffer.
`end` is the offset of packet_end; the memory goes on past it, because one path
of the parser looks at the byte there.
 */
module PacketParser {
  import opened Bytes
  import opened Packet

  datatype Result = OK | BAD | UNKNOWN_L4

  datatype Layer = Ethernet | IpLayer

  datatype Parsed = Parsed(result: Result, info: Info)

  const ETHER_BYTES := 14

  // ---------------------------------------------------------------------
  // Layer 4
  // ---------------------------------------------------------------------

  function Finish(info: Info, kind: Kind, headerBytes: nat, totalBytes: nat): Parsed {
    match Append(info, kind, headerBytes, totalBytes)
    case None => Parsed(BAD, info)
    case Some(info') => Parsed(OK, info')
  }

  function ParseTcp(mem: seq<byte>, info: Info, p: nat, l4: nat): Parsed
    requires p + l4 <= |mem|
  {
    if l4 < 20 then Parsed(BAD, info)
    else
      var info1 := info.(tcp := Some(p));
      var len := HighNibble(mem[p + 12]) * 4;
      if len < 20 || len > l4 then Parsed(BAD, info1)
      else Finish(info1, TCP, len, l4)
  }

  function ParseUdp(mem: seq<byte>, info: Info, p: nat, l4: nat): Parsed
    requires p + l4 <= |mem|
  {
    if l4 < 8 then Parsed(BAD, info)
    else
      var info1 := info.(udp := Some(p));
      var len := Be16(mem, p + 4);
      if len < 8 || len < l4 || len > l4 then Parsed(BAD, info1)
      else Finish(info1, UDP, 8, l4)
  }

  function ParseIcmpv4(info: Info, p: nat, l4: nat): Parsed {
    if l4 < 8 then Parsed(BAD, info) else Finish(info.(icmpv4 := Some(p)), ICMPV4, 8, l4)
  }

  function ParseIcmpv6(info: Info, p: nat, l4: nat): Parsed {
    if l4 < 8 then Parsed(BAD, info) else Finish(info.(icmpv6 := Some(p)), ICMPV6, 8, l4)
  }

  // ---------------------------------------------------------------------
  // Nested headers
  // ---------------------------------------------------------------------

  /** Where the label stack that starts at p ends: after the first entry with the
      bottom bit, or at packet_end; nothing when an entry overflows the packet. */
  function StackEnd(mem: seq<byte>, p: nat, end: nat): (q: Option<nat>)
    requires p <= end <= |mem|
    ensures q.Some? ==> p + 4 <= q.value <= end
    decreases end - p
  {
    if p + 4 > end then None
    else if MplsBottom(mem, p) || p + 4 == end then Some(p + 4)
    else StackEnd(mem, p + 4, end)
  }

  /** What parse_ipv4 and parse_ipv6 record on the way back out. */
  function SetIpv4(info: Info, p: nat): Info {
    if info.ipv4 == None && info.ipv6 == None then info.(ipv4 := Some(p)) else info
  }

  function SetIpv6(info: Info, p: nat): Info {
    if info.ipv4 == None && info.ipv6 == None then info.(ipv6 := Some(p)) else info
  }

  function SetLength(info: Info, outer: bool, totalBytes: nat): Info {
    if outer then info.(ipBytes := totalBytes) else info
  }

  function ParseIpv4(mem: seq<byte>, info: Info, p: nat, end: nat): Parsed
    requires p <= end < |mem|
    decreases end - p, 0
  {
    var len := LowNibble(mem[p]) * 4;
    if len < 20 || p + len > end then Parsed(BAD, info)
    else
      var total := Be16(mem, p + 2);
      var frag := Be16(mem, p + 6);
      if p + total > end || len > total || (frag / 0x2000) % 2 == 1 || frag % 0x2000 != 0 then Parsed(BAD, info)
      else
        match Append(info, IPV4, len, total)
        case None => Parsed(BAD, info)
        case Some(info1) =>
          var inner := ParseLayer4(mem, info1, p + len, mem[p + 9], total - len, end);
          Parsed(inner.result, SetLength(SetIpv4(inner.info, p), info.ipBytes == 0, total))
  }

  function ParseIpv6(mem: seq<byte>, info: Info, p: nat, end: nat): Parsed
    requires p <= end < |mem|
    decreases end - p, 0
  {
    if p + 40 > end then Parsed(BAD, info)
    else
      var total := 40 + Be16(mem, p + 4);
      if p + total > end then Parsed(BAD, info)
      else
        match Append(info, IPV6, 40, total)
        case None => Parsed(BAD, info)
        case Some(info1) =>
          var inner := ParseLayer4(mem, info1, p + 40, mem[p + 6], total - 40, end);
          Parsed(inner.result, SetLength(SetIpv6(inner.info, p), info.ipBytes == 0, total))
  }

  function ParseGre(mem: seq<byte>, info: Info, p: nat, l4: nat, end: nat): Parsed
    requires p + l4 <= end < |mem|
    decreases end - p, 1
  {
    if l4 < 4 || mem[p + 1] % 8 != 0 || GreRouting(mem[p]) then Parsed(BAD, info)
    else
      var len := GreLen(mem[p]);
      if len > l4 then Parsed(BAD, info)
      else
        match Append(info, GRE, len, l4)
        case None => Parsed(BAD, info)
        case Some(info1) => ParseByProto(mem, info1, Be16(mem, p + 2), p + len, end)
  }

  function ParseMpls(mem: seq<byte>, info: Info, p: nat, end: nat): Parsed
    requires p <= end < |mem|
    decreases end - p, 1
  {
    match StackEnd(mem, p, end)
    case None => Parsed(BAD, info)
    case Some(q) =>
      match Append(info, MPLS, q - p, end - p)
      case None => Parsed(BAD, info)
      case Some(info1) => ParseLayer3(mem, info1, q, end)
  }

  function ParseLayer4(mem: seq<byte>, info: Info, p: nat, proto: byte, l4: nat, end: nat): Parsed
    requires p + l4 <= end < |mem|
    decreases end - p, 2
  {
    if proto == IPPROTO_TCP then ParseTcp(mem, info, p, l4)
    else if proto == IPPROTO_UDP then ParseUdp(mem, info, p, l4)
    else if proto == IPPROTO_ICMP then ParseIcmpv4(info, p, l4)
    else if proto == IPPROTO_ICMPV6 then ParseIcmpv6(info, p, l4)
    else if proto == IPPROTO_GRE then ParseGre(mem, info, p, l4, end)
    else if proto == IPPROTO_IPIP then ParseIpv4(mem, info, p, end)
    else if proto == IPPROTO_IPV6 then ParseIpv6(mem, info, p, end)
    else Parsed(UNKNOWN_L4, info)
  }

  function ParseByProto(mem: seq<byte>, info: Info, proto: u16, p: nat, end: nat): Parsed
    requires p <= end < |mem|
    decreases end - p, 2
  {
    if proto == ETHERTYPE_IP then
      if p + 20 > end || HighNibble(mem[p]) != 4 then Parsed(BAD, info) else ParseIpv4(mem, info, p, end)
    else if proto == ETHERTYPE_IPV6 then
      if p + 40 > end || HighNibble(mem[p]) != 6 then Parsed(BAD, info) else ParseIpv6(mem, info, p, end)
    else if proto == ETHERTYPE_MPLS_UC || proto == ETHERTYPE_MPLS_MC then ParseMpls(mem, info, p, end)
    else Parsed(UNKNOWN_L4, info)
  }

  function ParseLayer3(mem: seq<byte>, info: Info, p: nat, end: nat): Parsed
    requires p <= end < |mem|
    decreases end - p, 2
  {
    if p + 20 > end then Parsed(BAD, info)
    else if HighNibble(mem[p]) == 4 then ParseIpv4(mem, info, p, end)
    else if HighNibble(mem[p]) == 6 then ParseIpv6(mem, info, p, end)
    else Parsed(BAD, info)
  }

  function ParseLayer2(mem: seq<byte>, info: Info, end: nat): Parsed
    requires end < |mem|
  {
    if ETHER_BYTES > end then Parsed(BAD, info)
    else ParseByProto(mem, info.(l2Bytes := ETHER_BYTES), Be16(mem, 12), ETHER_BYTES, end)
  }

  /** parse_packet of the first `end` bytes into a fresh packet. */
  function ParsePacket(mem: seq<byte>, bufferBytes: nat, end: nat, layer: Layer): Parsed
    requires end <= bufferBytes && end < |mem|
  {
    if layer == Ethernet then ParseLayer2(mem, NewInfo(bufferBytes), end)
    else ParseLayer3(mem, NewInfo(bufferBytes), 0, end)
  }
}
