/** Which fields of two packets decide whether the one continues the other. */
module AggregationFields {
  import opened Bytes
  import opened Splices
  import opened Packet
  import opened SeqTranslation
  import opened Aggregation
  import opened AggregationTheorems
  import opened PacketBuilders

  // ---------------------------------------------------------------------
  // Fields, where the RFCs place them
  // ---------------------------------------------------------------------

  datatype Fields =
    | Ipv4(version: nat, ihl: nat, ttl: nat, protocol: nat)
    | Ipv6(version: nat, nextHeader: nat, hopLimit: nat)
    | Gre(bytes: seq<byte>)
    | Mpls(bytes: seq<byte>)
    | Tcp(seqNumber: u32, ackNumber: u32, offset: nat, reserved: nat, flags: byte, window: u16, urgent: u16)
    | Udp
    | Icmp(version: nat, kind: byte, code: byte)

  function FieldsOf(m: seq<byte>, h: Header): Fields
    requires HeaderInside(m, h)
  {
    var b := m[h.start..h.start + h.headerBytes];
    match h.kind
    case IPV4 => Ipv4(HighNibble(b[0]), LowNibble(b[0]), b[8], b[9])
    case IPV6 => Ipv6(HighNibble(b[0]), b[6], b[7])
    case GRE => Gre(b)
    case MPLS => Mpls(b)
    case TCP => Tcp(Be32(b, 4), Be32(b, 8), HighNibble(b[12]), LowNibble(b[12]), b[13], Be16(b, 14), Be16(b, 18))
    case UDP => Udp
    case ICMPV4 => Icmp(4, b[0], b[1])
    case ICMPV6 => Icmp(6, b[0], b[1])
  }

  /** The fields of a packet behind one with `payload` bytes. */
  ghost predicate Fit(cur: Fields, prev: Fields, payload: int) {
    match (cur, prev)
    case (Ipv4(version, ihl, ttl, protocol), Ipv4(version', ihl', ttl', protocol')) =>
      version == version' && ihl == ihl' && protocol == protocol' && (ttl == ttl' || ttl' == 255)
    case (Ipv6(version, next, limit), Ipv6(version', next', limit')) =>
      version == version' && next == next' && (limit == limit' || limit' == 255)
    case (Gre(b), Gre(b')) => b == b'
    case (Mpls(b), Mpls(b')) => b == b'
    case (Tcp(sq, ack, offset, reserved, flags, window, urgent),
          Tcp(sq', ack', offset', reserved', flags', window', urgent')) =>
      && sq == (sq' + payload) % 0x1_0000_0000 && ack == ack' && offset == offset' && reserved == reserved'
      && SameButFinPshCwr(flags, flags') && window == window' && urgent == urgent'
    case (Udp, Udp) => true
    case (Icmp(version, kind, code), Icmp(version', kind', code')) =>
      version == version' && kind == kind' && code == code'
    case _ => false
  }

  // ---------------------------------------------------------------------
  // They decide
  // ---------------------------------------------------------------------

  lemma SameByteIff(x: byte, y: byte)
    ensures x == y <==> HighNibble(x) == HighNibble(y) && LowNibble(x) == LowNibble(y)
  {
  }

  lemma AddIsModular(x: u32, payload: int)
    ensures Add(x, payload % 0x1_0000_0000) == (x + payload) % 0x1_0000_0000
  {
  }

  lemma IpAgreesIff(cur: seq<byte>, c: Header, prev: seq<byte>, p: Header, payload: int)
    requires HeaderInside(cur, c) && HeaderInside(prev, p) && IsIp(c.kind)
    ensures HeaderAgrees(cur, c, prev, p, payload % 0x1_0000_0000)
            <==> Fit(FieldsOf(cur, c), FieldsOf(prev, p), payload)
  {
    hide Be16, Be32, SameButFinPshCwr;
    SameByteIff(cur[c.start], prev[p.start]);
  }

  lemma TcpFieldBytes(m: seq<byte>, h: Header)
    requires HeaderInside(m, h) && h.kind == TCP
    ensures var f, s := FieldsOf(m, h), h.start;
            && f.seqNumber == Be32(m, s + 4) && f.ackNumber == Be32(m, s + 8)
            && f.offset == HighNibble(m[s + 12]) && f.reserved == LowNibble(m[s + 12]) && f.flags == m[s + 13]
            && f.window == Be16(m, s + 14) && f.urgent == Be16(m, s + 18)
  {
    var b := m[h.start..h.start + h.headerBytes];
    assert forall k | 0 <= k < 20 :: b[k] == m[h.start + k];
  }

  lemma TcpAgreesIff(cur: seq<byte>, c: Header, prev: seq<byte>, p: Header, payload: int)
    requires HeaderInside(cur, c) && HeaderInside(prev, p) && c.kind == TCP
    ensures HeaderAgrees(cur, c, prev, p, payload % 0x1_0000_0000)
            <==> Fit(FieldsOf(cur, c), FieldsOf(prev, p), payload)
  {
    if p.kind == TCP {
      hide FieldsOf, Be16, Be32, StableFlags, SameButFinPshCwr, Add;
      TcpFieldBytes(cur, c);
      TcpFieldBytes(prev, p);
      IsTcpFields(cur, c);
      IsTcpFields(prev, p);
      SameByteIff(cur[c.start + 12], prev[p.start + 12]);
      FlagsAgreeIff(cur[c.start + 13], prev[p.start + 13]);
      AddIsModular(Be32(prev, p.start + 4), payload);
    }
  }

  lemma IsTcpFields(m: seq<byte>, h: Header)
    requires HeaderInside(m, h)
    ensures FieldsOf(m, h).Tcp? <==> h.kind == TCP
  {
  }

  lemma OtherAgreesIff(cur: seq<byte>, c: Header, prev: seq<byte>, p: Header, payload: int)
    requires HeaderInside(cur, c) && HeaderInside(prev, p) && !IsIp(c.kind) && c.kind != TCP
    ensures HeaderAgrees(cur, c, prev, p, payload % 0x1_0000_0000)
            <==> Fit(FieldsOf(cur, c), FieldsOf(prev, p), payload)
  {
    hide Be16, Be32, StableFlags, SameButFinPshCwr, Add;
  }

  /** verify_header without strict checks, said of fields. */
  lemma HeaderAgreesIff(cur: seq<byte>, c: Header, prev: seq<byte>, p: Header, payload: int)
    requires HeaderInside(cur, c) && HeaderInside(prev, p)
    ensures HeaderAgrees(cur, c, prev, p, payload % 0x1_0000_0000)
            <==> Fit(FieldsOf(cur, c), FieldsOf(prev, p), payload)
  {
    hide HeaderAgrees, FieldsOf, Fit;
    if IsIp(c.kind) {
      IpAgreesIff(cur, c, prev, p, payload);
    } else if c.kind == TCP {
      TcpAgreesIff(cur, c, prev, p, payload);
    } else {
      OtherAgreesIff(cur, c, prev, p, payload);
    }
  }

  /** All headers fit, one by one. */
  ghost predicate AllFit(cur: Fragment, prev: Fragment)
    requires IsFragment(cur) && IsFragment(prev)
  {
    && |cur.info.headers| == |prev.info.headers|
    && forall i | 0 <= i < |prev.info.headers| ::
         Fit(FieldsOf(cur.mem, cur.info.headers[i]), FieldsOf(prev.mem, prev.info.headers[i]), PayloadLen(prev))
  }

  /** verify_packet_fragments: a packet continues the one before it exactly when the fields of
      all their headers fit and it is as long as that one or brings all that is missing. */
  lemma ContinuesIff(cur: Fragment, prev: Fragment, sniffed: int, expected: nat)
    requires IsFragment(cur) && IsFragment(prev)
    ensures Continues(cur, prev, sniffed, expected)
            <==> && AllFit(cur, prev)
                 && (PayloadLen(cur) == PayloadLen(prev) || sniffed + PayloadLen(cur) >= expected)
  {
    hide HeaderAgrees, FieldsOf, Fit, PayloadLen;
    var cs, ps, len := cur.info.headers, prev.info.headers, PayloadLen(prev);
    if |cs| == |ps| {
      forall i | 0 <= i < |ps|
        ensures HeaderAgrees(cur.mem, cs[i], prev.mem, ps[i], len % 0x1_0000_0000)
           <==> Fit(FieldsOf(cur.mem, cs[i]), FieldsOf(prev.mem, ps[i]), len)
      {
        assert HeaderInside(cur.mem, cs[i]) && HeaderInside(prev.mem, ps[i]);
        HeaderAgreesIff(cur.mem, cs[i], prev.mem, ps[i], len);
      }
    }
  }

  // ---------------------------------------------------------------------
  // Flags as a script writes them
  // ---------------------------------------------------------------------

  /** The flags of two segments that a script writes agree exactly when the two strings agree in
      S, R, period, U and E. */
  lemma ScriptFlagsAgree(f: string, g: string)
    ensures SameButFinPshCwr(FlagsByte(f), FlagsByte(g))
            <==> && ('S' in f <==> 'S' in g) && ('R' in f <==> 'R' in g) && ('.' in f <==> '.' in g)
                 && ('U' in f <==> 'U' in g) && ('E' in f <==> 'E' in g)
  {
    hide FlagsByte, Flag;
    ScriptFlag(f);
    ScriptFlag(g);
    var x, y := FlagsByte(f), FlagsByte(g);
    if SameButFinPshCwr(x, y) {
      assert Flag(x, 1) <==> Flag(y, 1);
      assert Flag(x, 2) <==> Flag(y, 2);
      assert Flag(x, 4) <==> Flag(y, 4);
      assert Flag(x, 5) <==> Flag(y, 5);
      assert Flag(x, 6) <==> Flag(y, 6);
    }
  }

  lemma ScriptFlag(f: string)
    ensures var b := FlagsByte(f);
            && (Flag(b, 1) <==> 'S' in f) && (Flag(b, 2) <==> 'R' in f) && (Flag(b, 4) <==> '.' in f)
            && (Flag(b, 5) <==> 'U' in f) && (Flag(b, 6) <==> 'E' in f)
  {
    hide FlagsByte;
    FlagsReadBack(f);
  }

  // ---------------------------------------------------------------------
  // Tuples
  // ---------------------------------------------------------------------

  /** The innermost IP header's version and its two addresses. */
  datatype Addresses = Addresses(version: nat, src: seq<byte>, dst: seq<byte>)

  function AddressesOf(f: Fragment): Addresses
    requires IsFragment(f)
  {
    var ip := f.info.headers[|f.info.headers| - 2];
    var b := f.mem[ip.start..ip.start + ip.headerBytes];
    if ip.kind == IPV4 then Addresses(4, b[12..16], b[16..20]) else Addresses(6, b[8..24], b[24..40])
  }

  /** Source and destination port; a packet without ports counts as having zeros. */
  function PortsOf(f: Fragment): (u16, u16)
    requires IsFragment(f)
  {
    var l4 := Last(f);
    var b := f.mem[l4.start..l4.start + l4.headerBytes];
    if l4.kind == TCP || l4.kind == UDP then (Be16(b, 0), Be16(b, 2)) else (0, 0)
  }

  lemma PortBytes(m: seq<byte>, i: nat, x: seq<byte>)
    requires i + 2 <= |m| && |x| == 2
    ensures m[i..i + 2] == x <==> Be16(m, i) == Be16(x, 0)
  {
    var a, b, c, d := m[i], m[i + 1], x[0], x[1];
    assert m[i..i + 2] == [a, b] && x == [c, d];
    assert Be16(m, i) / 0x100 == a && Be16(m, i) % 0x100 == b && Be16(x, 0) / 0x100 == c && Be16(x, 0) % 0x100 == d;
  }

  lemma PortsOfTuple(f: Fragment)
    requires IsFragment(f)
    ensures var t := TupleOf(f);
            && |t.srcPort| == 2 && |t.dstPort| == 2 && PortsOf(f) == (Be16(t.srcPort, 0), Be16(t.dstPort, 0))
            && AddressesOf(f) == Addresses(if |t.src| == 4 then 4 else 6, t.src, t.dst)
  {
    hide PayloadStart, HeaderInside, Be16;
    var ip, l4 := f.info.headers[|f.info.headers| - 2], Last(f);
    assert HeaderInside(f.mem, l4) && HeaderInside(f.mem, ip);
    AddressesInHeader(f.mem, ip);
    PortsInHeader(f.mem, l4);
  }

  lemma AddressesInHeader(m: seq<byte>, ip: Header)
    requires HeaderInside(m, ip) && IsIp(ip.kind)
    ensures var s, e := ip.start, ip.start + ip.headerBytes;
            if ip.kind == IPV4 then
              && s + 20 <= e <= |m| && m[s..e][12..16] == m[s + 12..s + 16] && m[s..e][16..20] == m[s + 16..s + 20]
            else
              && s + 40 <= e <= |m| && m[s..e][8..24] == m[s + 8..s + 24] && m[s..e][24..40] == m[s + 24..s + 40]
  {
    var s, e := ip.start, ip.start + ip.headerBytes;
    if ip.kind == IPV4 {
      SliceOfSlice(m, s, e, 12, 16);
      SliceOfSlice(m, s, e, 16, 20);
    } else {
      SliceOfSlice(m, s, e, 8, 24);
      SliceOfSlice(m, s, e, 24, 40);
    }
  }

  lemma PortsInHeader(m: seq<byte>, l4: Header)
    requires HeaderInside(m, l4) && IsLayer4(l4.kind)
    ensures var s, e := l4.start, l4.start + l4.headerBytes;
            && s + 4 <= e <= |m| && Be16([0, 0], 0) == 0
            && Be16(m[s..e], 0) == Be16(m[s..s + 2], 0) && Be16(m[s..e], 2) == Be16(m[s + 2..s + 4], 0)
  {
  }

  /** Two packets have the same tuple exactly when their addresses and ports are the same. */
  lemma TupleIff(f: Fragment, g: Fragment)
    requires IsFragment(f) && IsFragment(g)
    ensures TupleOf(f) == TupleOf(g) <==> AddressesOf(f) == AddressesOf(g) && PortsOf(f) == PortsOf(g)
  {
    hide TupleOf, AddressesOf, PortsOf, IsFragment, Be16;
    PortsOfTuple(f);
    PortsOfTuple(g);
    var t, u := TupleOf(f), TupleOf(g);
    PortBytes(t.srcPort, 0, u.srcPort);
    PortBytes(t.dstPort, 0, u.dstPort);
    assert t.srcPort[0..0 + 2] == t.srcPort && t.dstPort[0..0 + 2] == t.dstPort;
  }
}
