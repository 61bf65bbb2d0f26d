/** The parser's verdict and table depend on nothing beyond packet_end. */
module PacketParserLocality {
  import opened Bytes
  import opened Packet
  import opened PacketParser

  /** Two memories that hold the same packet and may differ after it. */
  ghost predicate SamePacket(m: seq<byte>, m': seq<byte>, end: nat) {
    end < |m| && end < |m'| && m[..end] == m'[..end]
  }

  lemma SameByte(m: seq<byte>, m': seq<byte>, end: nat, i: nat)
    requires SamePacket(m, m', end) && i < end
    ensures m[i] == m'[i]
  {
    assert m[..end][i] == m'[..end][i];
  }

  lemma SameWord(m: seq<byte>, m': seq<byte>, end: nat, i: nat)
    requires SamePacket(m, m', end) && i + 2 <= end
    ensures Be16(m, i) == Be16(m', i)
  {
    SameByte(m, m', end, i);
    SameByte(m, m', end, i + 1);
  }

  lemma LocalStack(m: seq<byte>, m': seq<byte>, p: nat, end: nat)
    requires SamePacket(m, m', end) && p <= end
    ensures StackEnd(m, p, end) == StackEnd(m', p, end)
    decreases end - p
  {
    if p + 4 <= end {
      SameByte(m, m', end, p + 2);
      LocalStack(m, m', p + 4, end);
    }
  }

  /** parse_ipv4 reads the header length before it checks that the packet has
      that byte; it then turns the packet down whatever it read. */
  lemma LocalIpv4(m: seq<byte>, m': seq<byte>, info: Info, p: nat, end: nat)
    requires SamePacket(m, m', end) && p <= end
    ensures ParseIpv4(m, info, p, end) == ParseIpv4(m', info, p, end)
    decreases end - p, 0
  {
    if p + 20 <= end {
      SameByte(m, m', end, p);
      SameByte(m, m', end, p + 9);
      SameWord(m, m', end, p + 2);
      SameWord(m, m', end, p + 6);
      var len, total := LowNibble(m[p]) * 4, Be16(m, p + 2);
      if 20 <= len <= total && p + total <= end && Append(info, IPV4, len, total).Some? {
        LocalLayer4(m, m', Append(info, IPV4, len, total).value, p + len, m[p + 9], total - len, end);
      }
    }
  }

  lemma LocalIpv6(m: seq<byte>, m': seq<byte>, info: Info, p: nat, end: nat)
    requires SamePacket(m, m', end) && p <= end
    ensures ParseIpv6(m, info, p, end) == ParseIpv6(m', info, p, end)
    decreases end - p, 0
  {
    if p + 40 <= end {
      SameWord(m, m', end, p + 4);
      SameByte(m, m', end, p + 6);
      var total := 40 + Be16(m, p + 4);
      if p + total <= end && Append(info, IPV6, 40, total).Some? {
        LocalLayer4(m, m', Append(info, IPV6, 40, total).value, p + 40, m[p + 6], total - 40, end);
      }
    }
  }

  lemma LocalGre(m: seq<byte>, m': seq<byte>, info: Info, p: nat, l4: nat, end: nat)
    requires SamePacket(m, m', end) && p + l4 <= end
    ensures ParseGre(m, info, p, l4, end) == ParseGre(m', info, p, l4, end)
    decreases end - p, 1
  {
    if l4 >= 4 {
      SameByte(m, m', end, p);
      SameByte(m, m', end, p + 1);
      SameWord(m, m', end, p + 2);
      var len := GreLen(m[p]);
      if len <= l4 && Append(info, GRE, len, l4).Some? {
        LocalByProto(m, m', Append(info, GRE, len, l4).value, Be16(m, p + 2), p + len, end);
      }
    }
  }

  lemma LocalMpls(m: seq<byte>, m': seq<byte>, info: Info, p: nat, end: nat)
    requires SamePacket(m, m', end) && p <= end
    ensures ParseMpls(m, info, p, end) == ParseMpls(m', info, p, end)
    decreases end - p, 1
  {
    LocalStack(m, m', p, end);
    if StackEnd(m, p, end).Some? {
      var q := StackEnd(m, p, end).value;
      if Append(info, MPLS, q - p, end - p).Some? {
        LocalLayer3(m, m', Append(info, MPLS, q - p, end - p).value, q, end);
      }
    }
  }

  lemma LocalLayer4(m: seq<byte>, m': seq<byte>, info: Info, p: nat, proto: byte, l4: nat, end: nat)
    requires SamePacket(m, m', end) && p + l4 <= end
    ensures ParseLayer4(m, info, p, proto, l4, end) == ParseLayer4(m', info, p, proto, l4, end)
    decreases end - p, 2
  {
    if l4 >= 20 {
      SameByte(m, m', end, p + 12);
    }
    if l4 >= 8 {
      SameWord(m, m', end, p + 4);
    }
    LocalGre(m, m', info, p, l4, end);
    LocalIpv4(m, m', info, p, end);
    LocalIpv6(m, m', info, p, end);
  }

  lemma LocalByProto(m: seq<byte>, m': seq<byte>, info: Info, proto: u16, p: nat, end: nat)
    requires SamePacket(m, m', end) && p <= end
    ensures ParseByProto(m, info, proto, p, end) == ParseByProto(m', info, proto, p, end)
    decreases end - p, 2
  {
    if p + 20 <= end {
      SameByte(m, m', end, p);
    }
    LocalIpv4(m, m', info, p, end);
    LocalIpv6(m, m', info, p, end);
    LocalMpls(m, m', info, p, end);
  }

  lemma LocalLayer3(m: seq<byte>, m': seq<byte>, info: Info, p: nat, end: nat)
    requires SamePacket(m, m', end) && p <= end
    ensures ParseLayer3(m, info, p, end) == ParseLayer3(m', info, p, end)
    decreases end - p, 2
  {
    if p + 20 <= end {
      SameByte(m, m', end, p);
      LocalIpv4(m, m', info, p, end);
      LocalIpv6(m, m', info, p, end);
    }
  }

  /** Verdict, table and pointers of parse_packet, accepted or not, are a function
      of the first in_bytes bytes. */
  lemma ParserIsLocal(m: seq<byte>, m': seq<byte>, bufferBytes: nat, end: nat, layer: Layer)
    requires SamePacket(m, m', end) && end <= bufferBytes
    ensures ParsePacket(m, bufferBytes, end, layer) == ParsePacket(m', bufferBytes, end, layer)
  {
    var info := NewInfo(bufferBytes);
    LocalLayer3(m, m', info, 0, end);
    if ETHER_BYTES <= end {
      SameWord(m, m', end, 12);
      LocalByProto(m, m', info.(l2Bytes := ETHER_BYTES), Be16(m, 12), ETHER_BYTES, end);
    }
  }
}
