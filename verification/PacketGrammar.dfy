/**
Which tables of headers describe given packet bytes, said header by header and
without reference to how a parser walks them.
 */
module PacketGrammar {
  import opened Bytes
  import opened Packet
  import opened PacketParser

  /** The header's own bytes agree with its entry in the table, and its extent
      lies inside the packet. */
  ghost predicate HeaderOk(mem: seq<byte>, h: Header, end: nat)
    requires end < |mem|
  {
    var s := h.start;
    && h.headerBytes <= h.totalBytes && s + h.totalBytes <= end
    && match h.kind
       case IPV4 =>
         && 20 <= h.headerBytes == LowNibble(mem[s]) * 4
         && h.totalBytes == Be16(mem, s + 2)
         && (Be16(mem, s + 6) / 0x2000) % 2 == 0 && Be16(mem, s + 6) % 0x2000 == 0
       case IPV6 =>
         && h.headerBytes == 40 && h.totalBytes == 40 + Be16(mem, s + 4)
       case GRE =>
         && 4 <= h.totalBytes && mem[s + 1] % 8 == 0 && mem[s] / 0x40 % 2 == 0
         && h.headerBytes == GreLen(mem[s])
       case MPLS =>
         && s + h.totalBytes == end && StackOf(mem, s, h.headerBytes)
       case TCP =>
         && 20 <= h.headerBytes && h.headerBytes == HighNibble(mem[s + 12]) * 4
       case UDP =>
         && h.headerBytes == 8 && h.totalBytes == Be16(mem, s + 4)
       case ICMPV4 => h.headerBytes == 8
       case ICMPV6 => h.headerBytes == 8
  }

  /** A label stack of whole entries with the bottom bit on the last one only. */
  ghost predicate StackOf(mem: seq<byte>, s: nat, bytes: nat)
    requires s + bytes <= |mem|
  {
    && bytes > 0 && bytes % 4 == 0
    && forall i: nat | i < bytes / 4 :: MplsBottom(mem, s + 4 * i) <==> i == bytes / 4 - 1
  }

  ghost predicate VersionIs(mem: seq<byte>, h: Header)
    requires h.start < |mem|
  {
    match h.kind
    case IPV4 => HighNibble(mem[h.start]) == 4
    case IPV6 => HighNibble(mem[h.start]) == 6
    case _ => false
  }

  /** The Ethernet type announces this header. */
  ghost predicate EthFollows(mem: seq<byte>, proto: u16, h: Header)
    requires h.start < |mem|
  {
    match h.kind
    case IPV4 => proto == 0x0800 && VersionIs(mem, h)
    case IPV6 => proto == 0x86dd && VersionIs(mem, h)
    case MPLS => proto == 0x8847 || proto == 0x8848
    case _ => false
  }

  /** The protocol number IANA has assigned, if any. */
  function Number(kind: Kind): byte {
    match kind
    case IPV4 => 4
    case IPV6 => 41
    case GRE => 47
    case MPLS => 137
    case TCP => 6
    case UDP => 17
    case ICMPV4 => 1
    case ICMPV6 => 58
  }

  /** The IP protocol number announces this header, which fills the datagram
      unless it is itself an IP datagram. */
  ghost predicate IpFollows(proto: byte, room: nat, h: Header) {
    && h.kind != MPLS && proto == Number(h.kind)
    && (IsIp(h.kind) || h.totalBytes == room)
  }

  /** The header `a` announces the header `b` that starts where `a` ends. */
  ghost predicate Follows(mem: seq<byte>, a: Header, b: Header, end: nat)
    requires end < |mem| && HeaderOk(mem, a, end) && b.start <= end
  {
    && b.start == a.start + a.headerBytes
    && match a.kind
       case IPV4 => IpFollows(mem[a.start + 9], a.totalBytes - a.headerBytes, b)
       case IPV6 => IpFollows(mem[a.start + 6], a.totalBytes - a.headerBytes, b)
       case GRE => EthFollows(mem, Be16(mem, a.start + 2), b)
       case MPLS => VersionIs(mem, b)
       case _ => false
  }

  /** A complete table: each header announces the next, down to the one layer 4
      header. */
  ghost predicate Chain(mem: seq<byte>, hs: seq<Header>, end: nat)
    requires end < |mem|
  {
    && |hs| > 0 && HeaderOk(mem, hs[0], end)
    && if |hs| == 1 then IsLayer4(hs[0].kind)
       else hs[1].start <= end && Follows(mem, hs[0], hs[1], end) && Chain(mem, hs[1..], end)
  }

  /** The table of a whole packet, as announced by the layer it is captured at. */
  ghost predicate Table(mem: seq<byte>, hs: seq<Header>, end: nat, layer: Layer)
    requires end < |mem|
  {
    && Chain(mem, hs, end)
    && if layer == Ethernet then hs[0].start == 14 <= end && EthFollows(mem, Be16(mem, 12), hs[0])
       else hs[0].start == 0 && VersionIs(mem, hs[0])
  }

  /** Sum of the header lengths. */
  function HeaderBytes(hs: seq<Header>): nat {
    if hs == [] then 0 else hs[0].headerBytes + HeaderBytes(hs[1..])
  }

  /** The packet metadata that goes with a table: the pointer of the one layer 4
      header, the pointer of the IP header just before it, and the outermost
      datagram length. Without an outermost IP header no datagram length is
      known and ip_bytes stays the sum of the header lengths. */
  function Describe(info: Info, hs: seq<Header>): Info
    requires |hs| > 0
  {
    var last := hs[|hs| - 1];
    var ip := if |hs| > 1 then Some(hs[|hs| - 2]) else None;
    info.(headers := info.headers + hs,
          ipBytes := if info.ipBytes == 0 && IsIp(hs[0].kind) then hs[0].totalBytes
                     else info.ipBytes + HeaderBytes(hs),
          tcp := if last.kind == TCP then Some(last.start) else info.tcp,
          udp := if last.kind == UDP then Some(last.start) else info.udp,
          icmpv4 := if last.kind == ICMPV4 then Some(last.start) else info.icmpv4,
          icmpv6 := if last.kind == ICMPV6 then Some(last.start) else info.icmpv6,
          ipv4 := if ip.Some? && ip.value.kind == IPV4 then Some(ip.value.start) else info.ipv4,
          ipv6 := if ip.Some? && ip.value.kind == IPV6 then Some(ip.value.start) else info.ipv6)
  }
}
