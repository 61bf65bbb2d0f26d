/** The parser as the source has it: methods that fill in a packet as they go. */
module PacketParserImpl {
  import opened Bytes
  import opened Packet
  import opened PacketParser

  /** A packet, an error message, or an assert that stops the program. */
  datatype BuildOutcome = Refused | AssertFails | Built(packet: PacketObject)

  /** struct packet. `mem` is the memory at packet->buffer, of which the first
      bufferBytes bytes are the buffer. */
  class PacketObject {
    const mem: array<byte>
    const bufferBytes: nat
    var l2Bytes: nat
    var ipBytes: nat
    var headers: seq<Header>
    var ipv4: Option<nat>
    var ipv6: Option<nat>
    var tcp: Option<nat>
    var udp: Option<nat>
    var icmpv4: Option<nat>
    var icmpv6: Option<nat>

    /** packet_new, given the memory that malloc returned. */
    constructor (mem: array<byte>, bufferBytes: nat)
      requires bufferBytes < mem.Length
      ensures this.mem == mem && this.bufferBytes == bufferBytes && Meta() == NewInfo(bufferBytes)
    {
      this.mem, this.bufferBytes := mem, bufferBytes;
      l2Bytes, ipBytes, headers := 0, 0, [];
      ipv4, ipv6, tcp, udp, icmpv4, icmpv6 := None, None, None, None, None, None;
    }

    /** A packet that is given metadata of its own. */
    constructor WithMeta(mem: array<byte>, info: Info)
      requires info.bufferBytes < mem.Length
      ensures this.mem == mem && this.bufferBytes == info.bufferBytes && Meta() == info
    {
      this.mem, this.bufferBytes := mem, info.bufferBytes;
      l2Bytes, ipBytes, headers := info.l2Bytes, info.ipBytes, info.headers;
      ipv4, ipv6, tcp, udp, icmpv4, icmpv6 := info.ipv4, info.ipv6, info.tcp, info.udp, info.icmpv4, info.icmpv6;
    }

    function Meta(): Info
      reads this
    {
      Info(bufferBytes, l2Bytes, ipBytes, headers, ipv4, ipv6, tcp, udp, icmpv4, icmpv6)
    }

    /** packet_append_header */
    method AppendHeader(kind: Kind, headerBytes: nat, totalBytes: nat) returns (ok: bool)
      modifies this
      ensures ok <==> Append(old(Meta()), kind, headerBytes, totalBytes).Some?
      ensures Meta() == if ok then Append(old(Meta()), kind, headerBytes, totalBytes).value else old(Meta())
    {
      if |headers| >= PACKET_MAX_HEADERS {
        return false;
      }
      if ipBytes + headerBytes > bufferBytes {
        return false;
      }
      headers := headers + [Header(kind, l2Bytes + ipBytes, headerBytes, totalBytes)];
      ipBytes := ipBytes + headerBytes;
      return true;
    }

    method Word(i: nat) returns (w: u16)
      requires i + 2 <= mem.Length
      ensures w == Be16(mem[..], i)
    {
      w := mem[i] as int * 0x100 + mem[i + 1] as int;
    }

    method ParseTcp(p: nat, l4: nat, end: nat) returns (r: Result)
      requires p + l4 <= end < mem.Length
      modifies this
      ensures Parsed(r, Meta()) == PacketParser.ParseTcp(mem[..], old(Meta()), p, l4)
    {
      if l4 < 20 {
        return BAD;
      }
      tcp := Some(p);
      var len := HighNibble(mem[p + 12]) * 4;
      if len < 20 {
        return BAD;
      }
      if len > l4 {
        return BAD;
      }
      var ok := AppendHeader(TCP, len, l4);
      if !ok {
        return BAD;
      }
      assert p + l4 <= end;
      return OK;
    }

    method ParseUdp(p: nat, l4: nat, end: nat) returns (r: Result)
      requires p + l4 <= end < mem.Length
      modifies this
      ensures Parsed(r, Meta()) == PacketParser.ParseUdp(mem[..], old(Meta()), p, l4)
    {
      if l4 < 8 {
        return BAD;
      }
      udp := Some(p);
      var len := Word(p + 4);
      if len < 8 || len < l4 || len > l4 {
        return BAD;
      }
      var ok := AppendHeader(UDP, 8, l4);
      return if ok then OK else BAD;
    }

    method ParseIcmpv4(p: nat, l4: nat) returns (r: Result)
      modifies this
      ensures Parsed(r, Meta()) == PacketParser.ParseIcmpv4(old(Meta()), p, l4)
    {
      if l4 < 8 {
        return BAD;
      }
      icmpv4 := Some(p);
      var ok := AppendHeader(ICMPV4, 8, l4);
      return if ok then OK else BAD;
    }

    method ParseIcmpv6(p: nat, l4: nat) returns (r: Result)
      modifies this
      ensures Parsed(r, Meta()) == PacketParser.ParseIcmpv6(old(Meta()), p, l4)
    {
      if l4 < 8 {
        return BAD;
      }
      icmpv6 := Some(p);
      var ok := AppendHeader(ICMPV6, 8, l4);
      return if ok then OK else BAD;
    }

    method ParseIpv4(start: nat, end: nat) returns (r: Result)
      requires start <= end < mem.Length
      modifies this
      ensures Parsed(r, Meta()) == PacketParser.ParseIpv4(mem[..], old(Meta()), start, end)
      decreases end - start, 0
    {
      var p := start;
      var outer := ipBytes == 0;
      var len := LowNibble(mem[p]) * 4;
      if len < 20 {
        return BAD;
      }
      if p + len > end {
        return BAD;
      }
      var total := Word(p + 2);
      if p + total > end {
        return BAD;
      }
      if len > total {
        return BAD;
      }
      var frag := Word(p + 6);
      if (frag / 0x2000) % 2 == 1 {
        return BAD;
      }
      if frag % 0x2000 != 0 {
        return BAD;
      }
      var ok := AppendHeader(IPV4, len, total);
      if !ok {
        return BAD;
      }
      p := p + len;
      assert p <= end;
      r := ParseLayer4(p, mem[start + 9], total - len, end);
      if ipv4 == None && ipv6 == None {
        ipv4 := Some(start);
      }
      if outer {
        ipBytes := total;
      }
    }

    method ParseIpv6(start: nat, end: nat) returns (r: Result)
      requires start <= end < mem.Length
      modifies this
      ensures Parsed(r, Meta()) == PacketParser.ParseIpv6(mem[..], old(Meta()), start, end)
      decreases end - start, 0
    {
      var p := start;
      var outer := ipBytes == 0;
      if p + 40 > end {
        return BAD;
      }
      var payload := Word(p + 4);
      var total := 40 + payload as int;
      if p + total > end {
        return BAD;
      }
      assert 40 <= total;
      var ok := AppendHeader(IPV6, 40, total);
      if !ok {
        return BAD;
      }
      p := p + 40;
      assert p <= end;
      r := ParseLayer4(p, mem[start + 6], total - 40, end);
      if ipv4 == None && ipv6 == None {
        ipv6 := Some(start);
      }
      if outer {
        ipBytes := total;
      }
    }

    method ParseGre(start: nat, l4: nat, end: nat) returns (r: Result)
      requires start + l4 <= end < mem.Length
      modifies this
      ensures Parsed(r, Meta()) == PacketParser.ParseGre(mem[..], old(Meta()), start, l4, end)
      decreases end - start, 1
    {
      if l4 < 4 {
        return BAD;
      }
      if mem[start + 1] % 8 != 0 {
        return BAD;
      }
      if GreRouting(mem[start]) {
        return BAD;
      }
      var len := GreLen(mem[start]);
      if len > l4 {
        return BAD;
      }
      assert start + l4 <= end;
      var ok := AppendHeader(GRE, len, l4);
      if !ok {
        return BAD;
      }
      var p := start + len;
      assert p <= end;
      var proto := Word(start + 2);
      r := ParseByProto(proto, p, end);
    }

    /** The do-while loop over the label stack, then the packet inside. */
    method ParseMpls(start: nat, end: nat) returns (r: Result)
      requires start <= end < mem.Length
      modifies this
      ensures Parsed(r, Meta()) == PacketParser.ParseMpls(mem[..], old(Meta()), start, end)
      decreases end - start, 1
    {
      var p := start;
      var bottom := false;
      while true
        invariant start <= p <= end && Meta() == old(Meta())
        invariant StackEnd(mem[..], start, end) == StackEnd(mem[..], p, end)
        decreases end - p
      {
        if p + 4 > end {
          return BAD;
        }
        bottom := MplsBottom(mem[..], p);
        p := p + 4;
        if bottom || p >= end {
          break;
        }
      }
      assert p - start <= end - start;
      var ok := AppendHeader(MPLS, p - start, end - start);
      if !ok {
        return BAD;
      }
      assert p <= end;
      r := ParseLayer3(p, end);
    }

    method ParseLayer4(p: nat, proto: byte, l4: nat, end: nat) returns (r: Result)
      requires p + l4 <= end < mem.Length
      modifies this
      ensures Parsed(r, Meta()) == PacketParser.ParseLayer4(mem[..], old(Meta()), p, proto, l4, end)
      decreases end - p, 2
    {
      if proto == IPPROTO_TCP {
        r := ParseTcp(p, l4, end);
      } else if proto == IPPROTO_UDP {
        r := ParseUdp(p, l4, end);
      } else if proto == IPPROTO_ICMP {
        r := ParseIcmpv4(p, l4);
      } else if proto == IPPROTO_ICMPV6 {
        r := ParseIcmpv6(p, l4);
      } else if proto == IPPROTO_GRE {
        r := ParseGre(p, l4, end);
      } else if proto == IPPROTO_IPIP {
        r := ParseIpv4(p, end);
      } else if proto == IPPROTO_IPV6 {
        r := ParseIpv6(p, end);
      } else {
        r := UNKNOWN_L4;
      }
    }

    method ParseByProto(proto: u16, p: nat, end: nat) returns (r: Result)
      requires p <= end < mem.Length
      modifies this
      ensures Parsed(r, Meta()) == PacketParser.ParseByProto(mem[..], old(Meta()), proto, p, end)
      decreases end - p, 2
    {
      if proto == ETHERTYPE_IP {
        if p + 20 > end || HighNibble(mem[p]) != 4 {
          return BAD;
        }
        r := ParseIpv4(p, end);
      } else if proto == ETHERTYPE_IPV6 {
        if p + 40 > end || HighNibble(mem[p]) != 6 {
          return BAD;
        }
        r := ParseIpv6(p, end);
      } else if proto == ETHERTYPE_MPLS_UC || proto == ETHERTYPE_MPLS_MC {
        r := ParseMpls(p, end);
      } else {
        r := UNKNOWN_L4;
      }
    }

    method ParseLayer3(p: nat, end: nat) returns (r: Result)
      requires p <= end < mem.Length
      modifies this
      ensures Parsed(r, Meta()) == PacketParser.ParseLayer3(mem[..], old(Meta()), p, end)
      decreases end - p, 2
    {
      if p + 20 > end {
        return BAD;
      }
      if HighNibble(mem[p]) == 4 {
        r := ParseIpv4(p, end);
      } else if HighNibble(mem[p]) == 6 {
        r := ParseIpv6(p, end);
      } else {
        r := BAD;
      }
    }

    /** parse_packet. Its callers pass it a packet fresh from packet_new. */
    method Parse(inBytes: nat, layer: Layer) returns (r: Result)
      requires inBytes <= bufferBytes < mem.Length && Meta() == NewInfo(bufferBytes)
      modifies this
      ensures Parsed(r, Meta()) == ParsePacket(mem[..], bufferBytes, inBytes, layer)
    {
      if layer == Ethernet {
        if ETHER_BYTES > inBytes {
          return BAD;
        }
        l2Bytes := ETHER_BYTES;
        var proto := Word(12);
        r := ParseByProto(proto, ETHER_BYTES, inBytes);
      } else {
        r := ParseLayer3(0, inBytes);
      }
    }
  }
}
