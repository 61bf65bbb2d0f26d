/**
Packet metadata (packet.h, header.h): the table of nested headers, outermost
first, and the pointers to the innermost IP and layer 4 headers. A pointer into
the packet buffer is the offset of the byte it points at.
 */
module Packet {
  import opened Bytes

  datatype Kind = IPV4 | IPV6 | GRE | MPLS | TCP | UDP | ICMPV4 | ICMPV6

  datatype Header = Header(kind: Kind, start: nat, headerBytes: nat, totalBytes: nat)

  const PACKET_MAX_HEADERS := 6
  const TTL_CHECK_NONE := 255

  datatype Info = Info(
    bufferBytes: nat, l2Bytes: nat, ipBytes: nat, headers: seq<Header>,
    ipv4: Option<nat>, ipv6: Option<nat>,
    tcp: Option<nat>, udp: Option<nat>, icmpv4: Option<nat>, icmpv6: Option<nat>)

  /** packet_new */
  function NewInfo(bufferBytes: nat): Info {
    Info(bufferBytes, 0, 0, [], None, None, None, None, None, None)
  }

  predicate IsIp(kind: Kind) { kind == IPV4 || kind == IPV6 }

  predicate IsLayer4(kind: Kind) {
    kind == TCP || kind == UDP || kind == ICMPV4 || kind == ICMPV6
  }

  /** packet_append_header, with the total_bytes its callers then store. */
  function Append(info: Info, kind: Kind, headerBytes: nat, totalBytes: nat): Option<Info> {
    if |info.headers| >= PACKET_MAX_HEADERS then None
    else if info.ipBytes + headerBytes > info.bufferBytes then None
    else Some(info.(headers := info.headers + [Header(kind, info.l2Bytes + info.ipBytes, headerBytes, totalBytes)],
                    ipBytes := info.ipBytes + headerBytes))
  }

  // IP protocol numbers and Ethernet types
  const IPPROTO_ICMP := 1
  const IPPROTO_IPIP := 4
  const IPPROTO_TCP := 6
  const IPPROTO_UDP := 17
  const IPPROTO_IPV6 := 41
  const IPPROTO_GRE := 47
  const IPPROTO_ICMPV6 := 58

  const ETHERTYPE_IP := 0x0800
  const ETHERTYPE_IPV6 := 0x86dd
  const ETHERTYPE_MPLS_UC := 0x8847
  const ETHERTYPE_MPLS_MC := 0x8848

  /** The ip_proto column of header_types; MPLS has none. */
  function IpProto(kind: Kind): (proto: byte) {
    match kind
    case IPV4 => IPPROTO_IPIP
    case IPV6 => IPPROTO_IPV6
    case GRE => IPPROTO_GRE
    case MPLS => 0
    case TCP => IPPROTO_TCP
    case UDP => IPPROTO_UDP
    case ICMPV4 => IPPROTO_ICMP
    case ICMPV6 => IPPROTO_ICMPV6
  }

  /** The eth_proto column of header_types; only layer 3 headers have one. */
  function EthProto(kind: Kind): (proto: u16) {
    match kind
    case IPV4 => ETHERTYPE_IP
    case IPV6 => ETHERTYPE_IPV6
    case MPLS => ETHERTYPE_MPLS_UC
    case _ => 0
  }

  // Header fields, as the bit fields of ip.h, tcp.h, gre.h and mpls.h place them

  function HighNibble(b: byte): nat { b / 16 }
  function LowNibble(b: byte): nat { b % 16 }

  /** gre_len from the flags byte of a header without routing. */
  function GreLen(flags: byte): (len: nat)
    ensures 4 <= len <= 16
  {
    4 + 4 * (flags / 0x80) + 4 * ((flags / 0x20) % 2) + 4 * ((flags / 0x10) % 2)
  }

  predicate GreRouting(flags: byte) { (flags / 0x40) % 2 == 1 }

  /** mpls_entry_stack of the entry at offset p. */
  predicate MplsBottom(mem: seq<byte>, p: nat)
    requires p + 4 <= |mem|
  {
    mem[p + 2] % 2 == 1
  }
}
