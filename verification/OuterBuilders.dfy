/**
Stacking up outer headers (ip_packet.c, gre_packet.c, mpls_packet.c): every append
leaves a stack that packet_encapsulate can put around a packet.
 */
module OuterBuilders {
  import opened Bytes
  import opened Splices
  import opened Packet
  import opened PacketGrammar
  import opened PacketParser
  import opened PacketParserImpl
  import opened Encapsulation
  import opened EncapsulationRoundTrip
  import opened FinishedContents
  import opened EncapsulationImpl
  import opened PacketBuilders

  /** Appending a raw header of any kind keeps the stack. */
  lemma StackGrows(mem: seq<byte>, hs: seq<Header>, bytes: nat, b: seq<byte>, h: Header)
    requires OuterReady(mem, hs, bytes) && !IsLayer4(h.kind) && (h.kind == IPV4 ==> |b| == 20)
    requires h.start == bytes && h.headerBytes == |b| && bytes + |b| <= |mem|
    requires HeaderRaw(Splice(mem, bytes, b), h)
    ensures OuterReady(Splice(mem, bytes, b), hs + [h], bytes + |b|)
  {
    hide HeaderRaw, Splice;
    var mem', hs' := Splice(mem, bytes, b), hs + [h];
    forall i | 0 <= i < |hs|
      ensures HeaderRaw(mem', hs[i])
    {
      BytesStay(mem, hs, bytes, b, i);
      RawShift(mem, mem', hs[i], 0);
    }
    forall i | 0 < i < |hs'|
      ensures Adjacent(hs'[i - 1], hs'[i])
    {
      if i < |hs| {
        assert Adjacent(hs[i - 1], hs[i]);
      }
    }
  }

  lemma BytesStay(mem: seq<byte>, hs: seq<Header>, bytes: nat, b: seq<byte>, i: nat)
    requires OuterReady(mem, hs, bytes) && i < |hs| && bytes + |b| <= |mem|
    ensures SameBytes(mem, Splice(mem, bytes, b), hs[i], 0) && Shift(hs[i], 0) == hs[i]
  {
    hide HeaderRaw, Splice;
    StackEnds(mem, hs, i, |hs| - 1);
    SpliceFrame(mem, bytes, b, hs[i].start, hs[i].start + hs[i].headerBytes);
  }

  /** The header's own bytes decide whether it is raw. */
  lemma RawInPlace(mem: seq<byte>, at: nat, b: seq<byte>, kind: Kind)
    requires at + |b| <= |mem| && HeaderRaw(b, Header(kind, 0, |b|, 0))
    ensures HeaderRaw(Splice(mem, at, b), Header(kind, at, |b|, 0))
  {
    hide HeaderRaw, Splice;
    SpliceRead(mem, at, b);
    var h := Header(kind, 0, |b|, 0);
    assert b[0..|b|] == b;
    RawShift(b, Splice(mem, at, b), h, at);
  }

  // ---------------------------------------------------------------------
  // MPLS label stack entries
  // ---------------------------------------------------------------------

  datatype MplsEntry = MplsEntry(tag: int, trafficClass: int, bottom: bool, ttl: int)

  /** new_mpls_stack_entry and mpls_entry_set */
  function EntryBytes(e: MplsEntry): (b: Option<seq<byte>>)
    ensures b.Some? ==> |b.value| == 4
  {
    if !(0 <= e.tag < 0x10_0000) || !(0 <= e.trafficClass < 8) || !(0 <= e.ttl < 0x100) then None
    else Some(Enc32(e.tag * 0x1000 + e.trafficClass * 0x200 + (if e.bottom then 0x100 else 0) + e.ttl))
  }

  /** The four access functions of mpls.h give back what was set. */
  lemma EntryReadsBack(e: MplsEntry)
    requires EntryBytes(e).Some?
    ensures var w := Be32(EntryBytes(e).value, 0);
            && w / 0x1000 == e.tag && w / 0x200 % 8 == e.trafficClass
            && (w / 0x100 % 2 == 1 <==> e.bottom) && w % 0x100 == e.ttl
    ensures MplsBottom(EntryBytes(e).value, 0) <==> e.bottom
  {
    hide Be32, Enc32;
    var x: int := if e.bottom then 1 else 0;
    var w := e.tag * 0x1000 + e.trafficClass * 0x200 + x * 0x100 + e.ttl;
    assert Be32(EntryBytes(e).value, 0) == w;
    EntryDivides(e.tag, e.trafficClass, x, e.ttl);
    ThirdByte(EntryBytes(e).value);
  }

  lemma EntryDivides(tag: nat, tc: nat, x: nat, ttl: nat)
    requires tc < 8 && x < 2 && ttl < 0x100
    ensures var w := tag * 0x1000 + tc * 0x200 + x * 0x100 + ttl;
            && w / 0x1000 == tag && w / 0x200 % 8 == tc && w / 0x100 % 2 == x && w % 0x100 == ttl
            && w / 0x100 % 0x100 % 2 == x
  {
    var w := tag * 0x1000 + tc * 0x200 + x * 0x100 + ttl;
    var q := tag * 0x10 + tc * 2 + x;
    assert w == q * 0x100 + ttl;
    assert w / 0x100 == q;
    assert q == 2 * (tag * 8 + tc) + x;
    assert w == (tag * 8 + tc) * 0x200 + (x * 0x100 + ttl);
    assert w / 0x200 == tag * 8 + tc;
  }

  lemma ThirdByte(b: seq<byte>)
    requires |b| == 4
    ensures Be32(b, 0) / 0x100 % 0x100 == b[2]
  {
    var x := Be16(b, 0) as int * 0x100 + b[2] as int;
    assert Be32(b, 0) == x * 0x100 + b[3];
    assert Be32(b, 0) / 0x100 == x;
    assert x % 0x100 == b[2];
  }

  /** The bytes of a label stack whose entries are all in range. */
  function LabelBytes(es: seq<MplsEntry>): (b: Option<seq<byte>>)
    ensures b.Some? ==> |b.value| == 4 * |es|
  {
    if es == [] then Some([])
    else match (EntryBytes(es[0]), LabelBytes(es[1..]))
         case (Some(e), Some(rest)) => Some(e + rest)
         case _ => None
  }

  lemma {:induction false} LabelBottoms(es: seq<MplsEntry>, i: nat)
    requires LabelBytes(es).Some? && i < |es|
    ensures MplsBottom(LabelBytes(es).value, 4 * i) <==> es[i].bottom
  {
    hide EntryBytes;
    var e, rest := EntryBytes(es[0]).value, LabelBytes(es[1..]).value;
    if i == 0 {
      EntryReadsBack(es[0]);
      assert (e + rest)[2] == e[2];
    } else {
      LabelBottoms(es[1..], i - 1);
      assert (e + rest)[4 * i + 2] == rest[4 * (i - 1) + 2];
    }
  }

  /** The last entry, and no other, is marked as the bottom. */
  predicate BottomLast(es: seq<MplsEntry>) {
    |es| > 0 && forall i | 0 <= i < |es| :: es[i].bottom <==> i == |es| - 1
  }

  /** The bytes of such a label stack, and no others, are one on the wire. */
  lemma LabelsAreStack(es: seq<MplsEntry>)
    requires LabelBytes(es).Some?
    ensures StackOf(LabelBytes(es).value, 0, 4 * |es|) <==> BottomLast(es)
  {
    hide LabelBytes;
    var b := LabelBytes(es).value;
    forall i: nat | i < |es|
      ensures MplsBottom(b, 0 + 4 * i) <==> es[i].bottom
    {
      LabelBottoms(es, i);
    }
    assert 4 * |es| / 4 == |es|;
    if StackOf(b, 0, 4 * |es|) {
      forall i: nat | i < |es|
        ensures es[i].bottom <==> i == |es| - 1
      {
        assert MplsBottom(b, 0 + 4 * i) <==> i == |es| - 1;
      }
    }
    if BottomLast(es) {
      forall i: nat | i < 4 * |es| / 4
        ensures MplsBottom(b, 0 + 4 * i) <==> i == 4 * |es| / 4 - 1
      {
        assert es[i].bottom <==> i == |es| - 1;
      }
    }
  }

  // ---------------------------------------------------------------------
  // The appends
  // ---------------------------------------------------------------------

  /** One outer header as a script gives it, with the addresses inet_pton found. For GRE
      it is the 16 bytes of struct gre, whose flags can be any number. */
  datatype Outer =
    | OuterIpv4(src: seq<byte>, dst: seq<byte>, tos: byte, ttl: byte)
    | OuterIpv6(src: seq<byte>, dst: seq<byte>, tos: byte, ttl: byte)
    | OuterGre(gre: seq<byte>)
    | OuterMpls(entries: seq<MplsEntry>)

  predicate Valid(l: Outer) {
    match l
    case OuterIpv4(src, dst, _, _) => |src| == 4 && |dst| == 4
    case OuterIpv6(src, dst, _, _) => |src| == 16 && |dst| == 16
    case OuterGre(gre) => |gre| == 16
    case OuterMpls(es) => LabelBytes(es).Some?
  }

  function KindOf(l: Outer): Kind {
    match l
    case OuterIpv4(_, _, _, _) => IPV4
    case OuterIpv6(_, _, _, _) => IPV6
    case OuterGre(_) => GRE
    case OuterMpls(_) => MPLS
  }

  /** gre_len asserts that there is version 0 and no routing. */
  predicate GreAsserts(l: Outer)
    requires Valid(l)
  {
    l.OuterGre? && (l.gre[1] % 8 != 0 || GreRouting(l.gre[0]))
  }

  /** The bytes that are appended. */
  function BytesOf(l: Outer): seq<byte>
    requires Valid(l)
  {
    match l
    case OuterIpv4(src, dst, tos, ttl) => Ipv4Bytes(0, tos, ttl, 0)[..12] + src + dst
    case OuterIpv6(src, dst, tos, ttl) => Ipv6Bytes(40, tos, 0, ttl, 0)[..8] + src + dst
    case OuterGre(gre) => gre[..GreLen(gre[0])]
    case OuterMpls(es) => LabelBytes(es).value
  }

  lemma BytesAreRaw(l: Outer)
    requires Valid(l) && !GreAsserts(l)
    ensures HeaderRaw(BytesOf(l), Header(KindOf(l), 0, |BytesOf(l)|, 0))
    ensures IsIp(KindOf(l)) ==> Versioned(BytesOf(l), Header(KindOf(l), 0, |BytesOf(l)|, 0))
    ensures KindOf(l) == IPV4 ==> |BytesOf(l)| == 20
  {
    hide Ipv4Bytes, Ipv6Bytes, LabelBytes;
    if l.OuterIpv4? {
      Ipv4Fields(0, l.tos, l.ttl, 0);
      assert LowNibble(0x45) == 5 && HighNibble(0x45) == 4;
    } else if l.OuterIpv6? {
      Ipv6Fields(40, l.tos, 0, l.ttl, 0);
    }
  }

  // ---------------------------------------------------------------------
  // The fields of a header
  // ---------------------------------------------------------------------

  /** Label stack entry i, field by field. */
  predicate HasEntry(b: seq<byte>, i: nat, e: MplsEntry)
    requires 4 * i + 4 <= |b|
  {
    var w := Be32(b, 4 * i);
    w / 0x1000 == e.tag && w / 0x200 % 8 == e.trafficClass && (w / 0x100 % 2 == 1 <==> e.bottom) && w % 0x100 == e.ttl
  }

  /** The header as the script gives it, by the places of its fields, besides those that are
      filled in once it is known what it carries. */
  ghost predicate HasFields(b: seq<byte>, l: Outer) {
    match l
    case OuterIpv4(src, dst, tos, ttl) =>
      && |b| == 20 && b[0] == 0x45 && b[1] == tos && Be32(b, 4) == 0 && b[8] == (if ttl == 0 then 255 else ttl)
      && b[12..16] == src && b[16..20] == dst
    case OuterIpv6(src, dst, tos, ttl) =>
      && |b| == 40 && HighNibble(b[0]) == 6 && LowNibble(b[0]) * 16 + HighNibble(b[1]) == tos
      && LowNibble(b[1]) == 0 && Be16(b, 2) == 0 && b[7] == (if ttl == 0 then 255 else ttl)
      && b[8..24] == src && b[24..40] == dst
    case OuterGre(gre) =>
      && |gre| == 16 && |b| == 4 + 4 * (gre[0] / 128) + 4 * (gre[0] / 32 % 2) + 4 * (gre[0] / 16 % 2)
      && b[..2] == gre[..2] && b[4..] == gre[4..|b|]
    case OuterMpls(es) =>
      |b| == 4 * |es| && forall i: nat | i < |es| :: HasEntry(b, i, es[i])
  }

  lemma {:induction false} LabelsReadBack(es: seq<MplsEntry>, i: nat)
    requires LabelBytes(es).Some? && i < |es|
    ensures HasEntry(LabelBytes(es).value, i, es[i])
  {
    hide EntryBytes, Be32;
    var e, rest := EntryBytes(es[0]).value, LabelBytes(es[1..]).value;
    if i == 0 {
      EntryReadsBack(es[0]);
      FirstWord(e, rest);
    } else {
      LabelsReadBack(es[1..], i - 1);
      LaterWord(e, rest, 4 * (i - 1));
      assert es[1..][i - 1] == es[i];
    }
  }

  lemma FirstWord(e: seq<byte>, rest: seq<byte>)
    requires |e| == 4
    ensures Be32(e + rest, 0) == Be32(e, 0)
  {
  }

  lemma LaterWord(e: seq<byte>, rest: seq<byte>, p: nat)
    requires |e| == 4 && p + 4 <= |rest|
    ensures Be32(e + rest, p + 4) == Be32(rest, p)
  {
  }

  lemma BytesHaveFields(l: Outer)
    requires Valid(l) && !GreAsserts(l)
    ensures HasFields(BytesOf(l), l)
  {
    hide LabelBytes;
    match l
    case OuterIpv4(src, dst, tos, ttl) =>
      var b := BytesOf(l);
      assert b[12..16] == src && b[16..20] == dst;
    case OuterIpv6(src, dst, tos, ttl) =>
      Ipv6AddressFields(l);
    case OuterGre(gre) =>
    case OuterMpls(es) =>
      forall i: nat | i < |es|
        ensures HasEntry(BytesOf(l), i, es[i])
      {
        LabelsReadBack(es, i);
      }
  }

  lemma Ipv6AddressFields(l: Outer)
    requires Valid(l) && l.OuterIpv6?
    ensures HasFields(BytesOf(l), l)
  {
    hide Ipv6Bytes;
    Ipv6Fields(40, l.tos, 0, l.ttl, 0);
    var b, h := BytesOf(l), Ipv6Bytes(40, l.tos, 0, l.ttl, 0);
    assert forall k | 0 <= k < 8 :: b[k] == h[k];
    assert b[8..24] == l.src && b[24..40] == l.dst;
  }

  lemma FieldsKept(b: seq<byte>, b': seq<byte>, l: Outer)
    requires HasFields(b, l) && |b'| == |b| && forall d | 0 <= d < |b| && Keeps(KindOf(l), d) :: b'[d] == b[d]
    ensures HasFields(b', l)
  {
    match l
    case OuterIpv4(src, dst, tos, ttl) =>
      assert b'[12..16] == b[12..16] && b'[16..20] == b[16..20];
    case OuterIpv6(src, dst, tos, ttl) =>
      assert b'[8..24] == b[8..24] && b'[24..40] == b[24..40];
    case OuterGre(gre) =>
      assert b'[..2] == b[..2] && b'[4..] == b[4..];
    case OuterMpls(es) =>
      assert b' == b;
  }

  /** The packet starts with the headers of the script. */
  ghost predicate HasOuter(m: seq<byte>, hs: seq<Header>, ls: seq<Outer>) {
    |ls| <= |hs| && forall i | 0 <= i < |ls| :: HasHeader(m, hs[i], ls[i])
  }

  ghost predicate HasHeader(m: seq<byte>, h: Header, l: Outer) {
    h.kind == KindOf(l) && h.start + h.headerBytes <= |m| && HasFields(m[h.start..h.start + h.headerBytes], l)
  }

  /** What was appended is still there when all headers have been finished. */
  lemma OuterIsKept(outer: seq<byte>, hs: seq<Header>, ls: seq<Outer>, m: seq<byte>, hs': seq<Header>)
    requires AreOuter(outer, hs, ls) && HeadersKept(outer, hs, m, 0) && |hs| <= |hs'|
    requires forall i | 0 <= i < |hs| :: hs'[i] == hs[i].(totalBytes := hs'[i].totalBytes)
    ensures HasOuter(m, hs', ls)
  {
    hide HasFields, Valid, BytesOf, GreAsserts, Keeps;
    forall i | 0 <= i < |ls|
      ensures HasHeader(m, hs'[i], ls[i])
    {
      assert IsOuter(outer, hs[i], ls[i]) && HeaderKept(outer, hs[i], m, 0);
      BytesHaveFields(ls[i]);
      var s, n := hs[i].start, hs[i].headerBytes;
      assert m[0 + s..0 + s + n] == m[s..s + n];
      FieldsKept(outer[s..s + n], m[s..s + n], ls[i]);
    }
  }

  /** The packet inside the headers is the one that was asked for. */
  lemma InnerIsKept(a: TcpArgs, inner: seq<byte>, m: seq<byte>, o: nat)
    requires Buildable(a) && (a.ip.v6 ==> IpBytes(a) <= 0xffff) && PacketBytes(a) < inner && o + IpBytes(a) <= |m|
    requires HeadersKept(inner, TcpTable(a), m, o)
    requires var l4 := IpHeaderBytes(a); m[o + l4..o + IpBytes(a)] == inner[l4..IpBytes(a)]
    ensures var i := IpHeaderBytes(a); HasIp(m[o..o + i], a.ip) && HasTcp(m[o + i..o + IpBytes(a)], a)
  {
    hide PacketBytes, Buildable, HasTcp, TcpPart, IpPart;
    BuiltFields(a, inner);
    var i, n := IpHeaderBytes(a), IpBytes(a);
    assert HeaderKept(inner, TcpTable(a)[0], m, o);
    assert m[o + 0..o + 0 + i] == m[o..o + i] && inner[0..i] == inner[..i];
    IpKept(inner[..i], m[o..o + i], a);
  }

  /** A packet with the headers and the segment of a script, and IPv4 checksums that verify. */
  ghost predicate HoldsAll(m: seq<byte>, hs: seq<Header>, ls: seq<Outer>, a: TcpArgs)
    requires AllValid(ls)
  {
    var o, i := TotalBytes(ls), IpHeaderBytes(a);
    && HasOuter(m, hs, ls) && AllVerify(m, hs)
    && o + IpBytes(a) <= |m| && HasIp(m[o..o + i], a.ip) && HasTcp(m[o + i..o + IpBytes(a)], a)
  }

  lemma EncapsulatedHolds(outer: seq<byte>, outerHs: seq<Header>, ls: seq<Outer>, inner: seq<byte>, a: TcpArgs,
                          m: seq<byte>, meta: Info)
    requires AllValid(ls) && AreOuter(outer, outerHs, ls)
    requires Buildable(a) && (a.ip.v6 ==> IpBytes(a) <= 0xffff) && PacketBytes(a) < inner
    requires IsEncapsulated(m, meta, outer, outerHs, TotalBytes(ls), inner, TcpInfo(a))
    ensures HoldsAll(m, meta.headers, ls, a)
  {
    hide PacketBytes, Buildable, HasTcp, HasIp, HasOuter, AllVerify, TotalBytes, AreOuter, HeadersKept, ParsePacket,
         MayEncapsulate, Valid;
    var o, n, hs' := TotalBytes(ls), TotalBytes(ls) + IpBytes(a), meta.headers;
    var hs := outerHs + ShiftAll(TcpTable(a), o);
    forall i | 0 <= i < |outerHs|
      ensures hs'[i] == outerHs[i].(totalBytes := hs'[i].totalBytes)
    {
      assert hs'[i] == hs[i].(totalBytes := n - hs[i].start);
    }
    OuterIsKept(outer, outerHs, ls, m, hs');
    InnerIsKept(a, inner, m, o);
  }

  lemma IpKept(b: seq<byte>, b': seq<byte>, a: TcpArgs)
    requires HasIp(b, a.ip) && |b'| == |b| && forall d | 0 <= d < |b| && Keeps(IpKind(a), d) :: b'[d] == b[d]
    ensures HasIp(b', a.ip)
  {
  }

  /** packet_append_header followed by a copy of the header's bytes: the stack grows by
      the header, whatever headers there are, or nothing happens. */
  method Append(packet: PacketObject, ghost l: Outer, kind: Kind, b: seq<byte>) returns (ok: bool)
    requires Valid(l) && !GreAsserts(l) && kind == KindOf(l) && b == BytesOf(l)
    requires packet.l2Bytes == 0 && packet.bufferBytes < packet.mem.Length
    requires OuterReady(packet.mem[..], packet.headers, packet.ipBytes)
    modifies packet, packet.mem
    ensures packet.l2Bytes == 0
    ensures ok <==> old(|packet.headers|) < PACKET_MAX_HEADERS && old(packet.ipBytes) + |b| <= packet.bufferBytes
    ensures OuterReady(packet.mem[..], packet.headers, packet.ipBytes)
    ensures ok ==> packet.headers == old(packet.headers) + [Header(kind, old(packet.ipBytes), |b|, 0)]
                   && packet.ipBytes == old(packet.ipBytes) + |b|
                   && packet.mem[..] == Splice(old(packet.mem[..]), old(packet.ipBytes), b)
    ensures !ok ==> packet.Meta() == old(packet.Meta()) && packet.mem[..] == old(packet.mem[..])
  {
    hide Splice, HeaderRaw, OuterReady, BytesOf, Valid, GreAsserts;
    ghost var m, hs := packet.mem[..], packet.headers;
    var at := packet.ipBytes;
    ok := packet.AppendHeader(kind, |b|, 0);
    if ok {
      Write(packet.mem, at, b);
      BytesAreRaw(l);
      RawInPlace(m, at, b, kind);
      StackGrows(m, hs, at, b, Header(kind, at, |b|, 0));
    }
  }

  datatype AppendOutcome = Appended | Full | AppendAsserts

  /** ipv4_header_append, ipv6_header_append, gre_header_append and mpls_header_append. */
  method HeaderAppend(packet: PacketObject, l: Outer) returns (r: AppendOutcome)
    requires Valid(l) && packet.l2Bytes == 0 && packet.bufferBytes < packet.mem.Length
    requires OuterReady(packet.mem[..], packet.headers, packet.ipBytes)
    modifies packet, packet.mem
    ensures packet.l2Bytes == 0
    ensures r.AppendAsserts? <==> GreAsserts(l)
    ensures r.Appended? <==> && !GreAsserts(l) && old(|packet.headers|) < PACKET_MAX_HEADERS
                             && old(packet.ipBytes) + |BytesOf(l)| <= packet.bufferBytes
    ensures OuterReady(packet.mem[..], packet.headers, packet.ipBytes)
    ensures r.Appended? ==>
      && packet.headers == old(packet.headers) + [Header(KindOf(l), old(packet.ipBytes), |BytesOf(l)|, 0)]
      && packet.ipBytes == old(packet.ipBytes) + |BytesOf(l)|
      && packet.mem[..] == Splice(old(packet.mem[..]), old(packet.ipBytes), BytesOf(l))
    ensures !r.Appended? ==> packet.Meta() == old(packet.Meta()) && packet.mem[..] == old(packet.mem[..])
  {
    hide Splice, OuterReady;
    var ok;
    match l {
      case OuterIpv4(src, dst, tos, ttl) =>
        var b := Ipv4Bytes(0, tos, ttl, 0);
        ok := Append(packet, l, IPV4, b[..12] + src + dst);
      case OuterIpv6(src, dst, tos, ttl) =>
        var b := Ipv6Bytes(40, tos, 0, ttl, 0);
        ok := Append(packet, l, IPV6, b[..8] + src + dst);
      case OuterGre(gre) =>
        if gre[1] % 8 != 0 || GreRouting(gre[0]) {
          return AppendAsserts;
        }
        ok := Append(packet, l, GRE, gre[..GreLen(gre[0])]);
      case OuterMpls(entries) =>
        ok := Append(packet, l, MPLS, LabelBytes(entries).value);
    }
    r := if ok then Appended else Full;
  }

  // ---------------------------------------------------------------------
  // A whole prefix
  // ---------------------------------------------------------------------

  predicate AllValid(ls: seq<Outer>) {
    forall i | 0 <= i < |ls| :: Valid(ls[i])
  }

  function TotalBytes(ls: seq<Outer>): nat
    requires AllValid(ls)
  {
    if ls == [] then 0 else TotalBytes(ls[..|ls| - 1]) + |BytesOf(ls[|ls| - 1])|
  }

  ghost predicate IsOuter(mem: seq<byte>, h: Header, l: Outer) {
    && Valid(l) && !GreAsserts(l) && h.kind == KindOf(l) && h.headerBytes == |BytesOf(l)|
    && h.start + h.headerBytes <= |mem| && mem[h.start..h.start + h.headerBytes] == BytesOf(l)
  }

  /** The stack holds the headers that were appended. */
  ghost predicate AreOuter(mem: seq<byte>, hs: seq<Header>, ls: seq<Outer>) {
    |hs| == |ls| && forall i | 0 <= i < |hs| :: IsOuter(mem, hs[i], ls[i])
  }

  lemma OuterGrows(mem: seq<byte>, hs: seq<Header>, bytes: nat, ls: seq<Outer>, l: Outer)
    requires OuterReady(mem, hs, bytes) && AreOuter(mem, hs, ls)
    requires Valid(l) && !GreAsserts(l) && bytes + |BytesOf(l)| <= |mem|
    ensures AreOuter(Splice(mem, bytes, BytesOf(l)), hs + [Header(KindOf(l), bytes, |BytesOf(l)|, 0)], ls + [l])
  {
    hide Splice, OuterReady, BytesOf, Valid, GreAsserts;
    var mem' := Splice(mem, bytes, BytesOf(l));
    forall i | 0 <= i < |hs|
      ensures IsOuter(mem', hs[i], ls[i])
    {
      BytesStay(mem, hs, bytes, BytesOf(l), i);
      assert IsOuter(mem, hs[i], ls[i]);
    }
    SpliceRead(mem, bytes, BytesOf(l));
  }

  lemma {:induction false} TotalGrows(ls: seq<Outer>, i: nat)
    requires AllValid(ls) && i <= |ls|
    ensures TotalBytes(ls[..i]) <= TotalBytes(ls)
    decreases |ls| - i
  {
    hide Valid, BytesOf;
    if i < |ls| {
      assert ls[..i + 1][..i] == ls[..i];
      TotalGrows(ls, i + 1);
    } else {
      assert ls[..i] == ls;
    }
  }

  const PACKET_MAX_HEADER_BYTES := 256

  /** Headers that can all be appended. */
  predicate CanStack(ls: seq<Outer>)
    requires AllValid(ls)
  {
    && |ls| <= 6 && TotalBytes(ls) <= 256
    && forall i | 0 <= i < |ls| :: !GreAsserts(ls[i])
  }

  /** The first header that cannot be appended is one that gre_len's asserts turn down. */
  predicate PrefixAsserts(ls: seq<Outer>)
    requires AllValid(ls)
  {
    exists i | 0 <= i < |ls| :: GreAsserts(ls[i]) && CanStack(ls[..i])
  }

  lemma StacksBefore(ls: seq<Outer>, i: nat, j: nat)
    requires AllValid(ls) && i <= j <= |ls| && CanStack(ls[..j])
    ensures CanStack(ls[..i])
  {
    hide Valid, BytesOf, GreAsserts, TotalBytes;
    assert ls[..j][..i] == ls[..i];
    TotalGrows(ls[..j], i);
    assert forall k | 0 <= k < i :: ls[..i][k] == ls[..j][k];
  }

  /** A header that does not fit stops the prefix before any later assert. */
  lemma StoppedByRoom(ls: seq<Outer>, i: nat)
    requires AllValid(ls) && i < |ls| && CanStack(ls[..i]) && !GreAsserts(ls[i]) && !CanStack(ls[..i + 1])
    ensures !PrefixAsserts(ls) && !CanStack(ls)
  {
    hide Valid, BytesOf, GreAsserts, TotalBytes;
    assert ls[..|ls|] == ls;
    if CanStack(ls) {
      StacksBefore(ls, i + 1, |ls|);
    }
    forall j | 0 <= j < |ls|
      ensures !(GreAsserts(ls[j]) && CanStack(ls[..j]))
    {
      if j < i {
        assert ls[..i][j] == ls[j];
      } else if j > i && CanStack(ls[..j]) {
        StacksBefore(ls, i + 1, j);
      }
    }
  }

  lemma StoppedByAssert(ls: seq<Outer>, i: nat)
    requires AllValid(ls) && i < |ls| && CanStack(ls[..i]) && GreAsserts(ls[i])
    ensures PrefixAsserts(ls) && !CanStack(ls)
  {
    hide Valid, BytesOf, GreAsserts, TotalBytes;
  }

  lemma NotStopped(ls: seq<Outer>)
    requires AllValid(ls) && CanStack(ls)
    ensures !PrefixAsserts(ls)
  {
    hide Valid, BytesOf, GreAsserts, TotalBytes;
  }

  lemma StacksOneMore(ls: seq<Outer>, i: nat)
    requires AllValid(ls) && i < |ls| && CanStack(ls[..i]) && !GreAsserts(ls[i])
    ensures TotalBytes(ls[..i + 1]) == TotalBytes(ls[..i]) + |BytesOf(ls[i])|
    ensures CanStack(ls[..i + 1]) <==>
              i < PACKET_MAX_HEADERS && TotalBytes(ls[..i]) + |BytesOf(ls[i])| <= PACKET_MAX_HEADER_BYTES
  {
    hide Valid, BytesOf, GreAsserts;
    assert ls[..i + 1][..i] == ls[..i];
    assert forall k | 0 <= k < i :: ls[..i + 1][k] == ls[..i][k];
  }

  /** The packet_prefix rule: an empty packet and one append after the other, up to the
      first that fails. */
  method NewPrefix(ls: seq<Outer>) returns (packet: PacketObject, r: AppendOutcome)
    requires AllValid(ls)
    ensures fresh(packet) && fresh(packet.mem)
    ensures (r.Appended? <==> CanStack(ls)) && (r.AppendAsserts? <==> PrefixAsserts(ls))
    ensures r.Appended? ==>
      && OuterReady(packet.mem[..], packet.headers, packet.ipBytes) && packet.ipBytes == TotalBytes(ls)
      && AreOuter(packet.mem[..], packet.headers, ls)
  {
    hide OuterReady, BytesOf, Valid, GreAsserts, CanStack, PrefixAsserts, TotalBytes, Splice;
    var mem := new byte[PACKET_MAX_HEADER_BYTES + 1](k => 0);
    packet := new PacketObject(mem, PACKET_MAX_HEADER_BYTES);
    EmptyIsReady(mem[..]);
    var i := 0;
    assert ls[..0] == [];
    while i < |ls|
      invariant i <= |ls| && fresh(packet) && packet.mem == mem && fresh(mem)
      invariant packet.l2Bytes == 0 && packet.bufferBytes == PACKET_MAX_HEADER_BYTES < packet.mem.Length
      invariant OuterReady(packet.mem[..], packet.headers, packet.ipBytes)
      invariant AreOuter(packet.mem[..], packet.headers, ls[..i])
      invariant packet.ipBytes == TotalBytes(ls[..i]) && |packet.headers| == i && CanStack(ls[..i])
    {
      assert ls[..i + 1] == ls[..i] + [ls[i]];
      ghost var m, hs, at := packet.mem[..], packet.headers, packet.ipBytes;
      r := HeaderAppend(packet, ls[i]);
      if r == AppendAsserts {
        StoppedByAssert(ls, i);
        return;
      }
      StacksOneMore(ls, i);
      if r == Full {
        StoppedByRoom(ls, i);
        return;
      }
      OuterGrows(m, hs, at, ls[..i], ls[i]);
      i := i + 1;
    }
    assert ls[..i] == ls;
    NotStopped(ls);
    r := Appended;
  }

  lemma EmptyIsReady(mem: seq<byte>)
    ensures OuterReady(mem, [], 0) && AreOuter(mem, [], []) && CanStack([]) && TotalBytes([]) == 0
  {
  }

  // ---------------------------------------------------------------------
  // When the packet inside them is parsed back
  // ---------------------------------------------------------------------

  /** Which kind of header may be carried by which. */
  predicate MayCarry(a: Kind, b: Kind) {
    match a
    case IPV4 => b != MPLS
    case IPV6 => b != MPLS
    case GRE => IsIp(b) || b == MPLS
    case MPLS => IsIp(b)
    case _ => false
  }

  /** A prefix that may stand in front of an IP packet of the given kind: every label
      stack has its bottom on its last entry only, each header may carry the next, and
      the outermost one is IP. */
  predicate PrefixLegal(ls: seq<Outer>, kind: Kind) {
    && (forall i | 0 <= i < |ls| :: ls[i].OuterMpls? ==> BottomLast(ls[i].entries))
    && (forall i | 0 < i < |ls| :: MayCarry(KindOf(ls[i - 1]), KindOf(ls[i])))
    && (ls != [] ==> IsIp(KindOf(ls[0])) && MayCarry(KindOf(ls[|ls| - 1]), kind))
  }

  lemma CarriesByKind(mem: seq<byte>, a: Header, b: Header)
    requires Versioned(mem, b) <==> IsIp(b.kind)
    ensures Carries(mem, a, b) <==> MayCarry(a.kind, b.kind)
  {
  }

  /** Whether an appended header is legal can be told from the script. */
  lemma OuterIsLegal(mem: seq<byte>, h: Header, l: Outer, end: nat)
    requires IsOuter(mem, h, l)
    ensures Versioned(mem, h) <==> IsIp(h.kind)
    ensures h.kind == MPLS ==> (HeaderLegal(mem, h, end) <==> BottomLast(l.entries))
  {
    hide Valid, BytesOf, StackOf, BottomLast, HeaderRaw;
    BytesAreRaw(l);
    var b, g := BytesOf(l), Header(KindOf(l), 0, |BytesOf(l)|, 0);
    assert b[0..|b|] == b;
    assert SameBytes(b, mem, g, h.start);
    LegalShift(b, mem, g, h.start, 0);
    NotIpNotVersioned(mem, h);
    SameStart(mem, h, Shift(g, h.start));
    if h.kind == MPLS {
      MplsBytes(l);
      StackShift(b, mem, g, h.start);
      LabelsAreStack(l.entries);
    }
  }

  lemma NotIpNotVersioned(mem: seq<byte>, h: Header)
    ensures Versioned(mem, h) ==> IsIp(h.kind)
  {
  }

  lemma SameStart(mem: seq<byte>, h: Header, h': Header)
    requires h.kind == h'.kind && h.start == h'.start
    ensures Versioned(mem, h) <==> Versioned(mem, h')
  {
  }

  lemma MplsBytes(l: Outer)
    requires Valid(l) && KindOf(l) == MPLS
    ensures l.OuterMpls? && LabelBytes(l.entries).Some? && BytesOf(l) == LabelBytes(l.entries).value
  {
  }

  function FirstKind(ls: seq<Outer>, kind: Kind): Kind {
    if ls == [] then kind else KindOf(ls[0])
  }

  lemma OuterFacts(mem: seq<byte>, hs: seq<Header>, o: nat)
    requires OuterReady(mem, hs, o) && hs != []
    ensures Stacked(mem, hs) && NoIpOptions(hs)
    ensures hs[0].start == 0 && hs[|hs| - 1].start + hs[|hs| - 1].headerBytes == o
  {
  }

  lemma NestedByKind(mem: seq<byte>, hs: seq<Header>, o: nat, ls: seq<Outer>, end: nat)
    requires OuterReady(mem, hs, o) && AreOuter(mem, hs, ls) && LengthsFit(hs, end)
    requires ls != [] ==> IsIp(KindOf(ls[0])) && (KindOf(ls[0]) == IPV4 ==> end <= 0xffff)
    requires forall i | 0 <= i < |ls| :: ls[i].OuterMpls? ==> BottomLast(ls[i].entries)
    requires forall i | 0 < i < |ls| :: MayCarry(KindOf(ls[i - 1]), KindOf(ls[i]))
    ensures Nested(mem, hs, end)
  {
    hide Valid, BytesOf, StackOf, BottomLast, OuterReady, Versioned, Carries, MayCarry, Be16;
    forall i | 0 <= i < |hs|
      ensures HeaderLegal(mem, hs[i], end)
    {
      assert IsOuter(mem, hs[i], ls[i]);
      OuterIsLegal(mem, hs[i], ls[i], end);
      assert IsOuter(mem, hs[0], ls[0]);
      OuterFacts(mem, hs, o);
      SizeIsLegal(mem, hs, end, i);
    }
    forall i | 0 < i < |hs|
      ensures Carries(mem, hs[i - 1], hs[i])
    {
      assert IsOuter(mem, hs[i], ls[i]) && IsOuter(mem, hs[i - 1], ls[i - 1]);
      OuterIsLegal(mem, hs[i], ls[i], end);
      CarriesByKind(mem, hs[i - 1], hs[i]);
    }
  }

  lemma KindsByNested(mem: seq<byte>, hs: seq<Header>, ls: seq<Outer>, end: nat)
    requires AreOuter(mem, hs, ls) && Nested(mem, hs, end)
    ensures forall i | 0 <= i < |ls| :: ls[i].OuterMpls? ==> BottomLast(ls[i].entries)
    ensures forall i | 0 < i < |ls| :: MayCarry(KindOf(ls[i - 1]), KindOf(ls[i]))
  {
    hide Valid, BytesOf, StackOf, BottomLast, Versioned, Carries, MayCarry, HeaderLegal;
    forall i | 0 <= i < |ls| && ls[i].OuterMpls?
      ensures BottomLast(ls[i].entries)
    {
      assert IsOuter(mem, hs[i], ls[i]);
      OuterIsLegal(mem, hs[i], ls[i], end);
    }
    forall i | 0 < i < |ls|
      ensures MayCarry(KindOf(ls[i - 1]), KindOf(ls[i]))
    {
      assert IsOuter(mem, hs[i], ls[i]) && IsOuter(mem, hs[i - 1], ls[i - 1]);
      OuterIsLegal(mem, hs[i], ls[i], end);
      CarriesByKind(mem, hs[i - 1], hs[i]);
    }
  }

  /** Whether the packet may be put inside the prefix can be told from the script. */
  lemma PrefixIsLegal(mem: seq<byte>, hs: seq<Header>, o: nat, ls: seq<Outer>, inner: seq<byte>, a: TcpArgs)
    requires OuterReady(mem, hs, o) && AreOuter(mem, hs, ls) && LengthsFit(hs, o + IpBytes(a))
    requires Buildable(a) && (a.ip.v6 ==> IpBytes(a) <= 0xffff) && PacketBytes(a) < inner
    ensures MayEncapsulate(mem, hs, inner, TcpTable(a), o, IpBytes(a))
            <==> PrefixLegal(ls, IpKind(a)) && (FirstKind(ls, IpKind(a)) == IPV4 ==> o + IpBytes(a) <= 0xffff)
  {
    hide Valid, BytesOf, OuterReady, Versioned, Carries, MayCarry, HeaderLegal, Nested, Buildable, PacketBytes,
         BottomLast;
    var n, k, first := IpBytes(a), |ls|, TcpTable(a)[0];
    BuiltIsLegal(a, inner);
    NothingInFront(mem, hs, o, ls);
    if k > 0 {
      assert IsOuter(mem, hs[0], ls[0]) && IsOuter(mem, hs[k - 1], ls[k - 1]);
      OuterIsLegal(mem, hs[0], ls[0], o + n);
      assert IsIp(first.kind);
      CarriesByKind(inner, hs[k - 1], first);
    }
    if MayEncapsulate(mem, hs, inner, TcpTable(a), o, n) {
      KindsByNested(mem, hs, ls, o + n);
      if k > 0 {
        FirstFits(mem, hs, o, o + n);
      }
    }
    if PrefixLegal(ls, IpKind(a)) && (FirstKind(ls, IpKind(a)) == IPV4 ==> o + n <= 0xffff) {
      NestedByKind(mem, hs, o, ls, o + n);
      if k > 0 {
        OuterFacts(mem, hs, o);
        SizeIsLegal(mem, hs, o + n, k - 1);
      }
    }
  }

  lemma NothingInFront(mem: seq<byte>, hs: seq<Header>, o: nat, ls: seq<Outer>)
    requires OuterReady(mem, hs, o) && AreOuter(mem, hs, ls)
    ensures |hs| == |ls| && (ls == [] ==> hs == [] && o == 0)
  {
    hide IsOuter;
  }

  lemma FirstFits(mem: seq<byte>, hs: seq<Header>, o: nat, end: nat)
    requires OuterReady(mem, hs, o) && hs != [] && Nested(mem, hs, end)
    ensures hs[0].kind == IPV4 ==> end <= 0xffff
  {
    assert HeaderLegal(mem, hs[0], end);
  }

  /** No outer IPv6 header carries more than its length field can say. */
  predicate Ipv6Fits(ls: seq<Outer>, bytes: nat)
    requires AllValid(ls)
  {
    forall i | 0 <= i < |ls| && ls[i].OuterIpv6? :: TotalBytes(ls) - TotalBytes(ls[..i + 1]) + bytes <= 0xffff
  }

  /** Each header is where the headers before it end. */
  lemma {:induction false} StartsAt(mem: seq<byte>, hs: seq<Header>, o: nat, ls: seq<Outer>, i: nat)
    requires OuterReady(mem, hs, o) && AreOuter(mem, hs, ls) && AllValid(ls) && i < |ls|
    ensures hs[i].start == TotalBytes(ls[..i]) && TotalBytes(ls[..i + 1]) == hs[i].start + hs[i].headerBytes
  {
    hide Valid, BytesOf, GreAsserts, HeaderRaw, NoIpOptions;
    assert IsOuter(mem, hs[i], ls[i]);
    assert ls[..i + 1][..i] == ls[..i];
    if i > 0 {
      StartsAt(mem, hs, o, ls, i - 1);
      assert Adjacent(hs[i - 1], hs[i]);
    }
  }

  /** What ipv6_header_finish asserts can be told from the script. */
  lemma LengthsFitByScript(mem: seq<byte>, hs: seq<Header>, o: nat, ls: seq<Outer>, n: nat)
    requires OuterReady(mem, hs, o) && AreOuter(mem, hs, ls) && AllValid(ls) && o == TotalBytes(ls)
    ensures LengthsFit(hs, o + n) <==> Ipv6Fits(ls, n)
  {
    hide OuterReady, Valid, BytesOf, GreAsserts, TotalBytes;
    forall i | 0 <= i < |ls|
      ensures hs[i].kind == IPV6 <==> ls[i].OuterIpv6?
      ensures hs[i].kind == IPV6 ==> TotalBytes(ls[..i + 1]) == hs[i].start + 40
    {
      assert IsOuter(mem, hs[i], ls[i]);
      StartsAt(mem, hs, o, ls, i);
      if ls[i].OuterIpv6? {
        Ipv6Length(ls[i]);
      }
    }
  }

  lemma Ipv6Length(l: Outer)
    requires Valid(l) && l.OuterIpv6?
    ensures |BytesOf(l)| == 40
  {
  }

  lemma BuiltLengthsFit(a: TcpArgs)
    requires Buildable(a)
    ensures LengthsFit(TcpTable(a), IpBytes(a)) && |TcpTable(a)| == 2
  {
  }

  /** Where an assert fires: on the flags of a GRE header, on the IPv6 header of the packet,
      on more than six headers in all, or on what an outer IPv6 header carries. */
  predicate AnAssertFires(ls: seq<Outer>, a: TcpArgs)
    requires AllValid(ls)
  {
    || PrefixAsserts(ls)
    || (&& CanStack(ls) && Checked(a)
        && (|| !HeaderAssert(a)
            || (Buildable(a) && (|ls| + 2 > PACKET_MAX_HEADERS || !Ipv6Fits(ls, IpBytes(a))))))
  }

  /** A TCP packet inside the headers its script puts in front of it. A packet that is
      built is parsed back to the very metadata it comes with if and only if every label
      stack has its bottom mark on its last entry only, every header may carry the next,
      the outermost one is IP and, if it is IPv4, the whole fits its length field. */
  method BuildEncapsulated(ls: seq<Outer>, a: TcpArgs) returns (r: BuildOutcome)
    requires AllValid(ls)
    ensures r.AssertFails? <==> AnAssertFires(ls, a)
    ensures r.Built? <==> CanStack(ls) && Buildable(a) && !AnAssertFires(ls, a)
    ensures r.Built? ==>
      var packet, bytes := r.packet, TotalBytes(ls) + IpBytes(a);
      && fresh(packet.mem) && packet.bufferBytes == bytes < packet.mem.Length
      && (ParsePacket(packet.mem[..], bytes, bytes, IpLayer) == Parsed(OK, packet.Meta())
          <==> PrefixLegal(ls, IpKind(a)) && (FirstKind(ls, IpKind(a)) == IPV4 ==> bytes <= 0xffff))
    ensures r.Built? ==> HoldsAll(r.packet.mem[..], r.packet.headers, ls, a)
  {
    hide OuterReady, InnerReady, ParsePacket, PacketBytes, Checked, MayEncapsulate, PrefixLegal, AreOuter, Valid,
         TotalBytes, SamePlaces, FirstKind, CanStack, PrefixAsserts, Ipv6Fits, LengthsFit, HeaderAssert, HoldsAll,
         HeadersKept, AllVerify;
    var outer, prefix := NewPrefix(ls);
    if CanStack(ls) {
      NotStopped(ls);
    }
    if prefix != Appended {
      return if prefix == Full then Refused else AssertFails;
    }
    r := NewTcpPacket(a);
    if !r.Built? {
      return;
    }
    var inner := r.packet;
    CheckedFirst(a);
    AssertHoldsIff(a);
    AreAsMany(outer.mem[..], outer.headers, ls);
    LengthsFitByScript(outer.mem[..], outer.headers, outer.ipBytes, ls, IpBytes(a));
    BuiltLengthsFit(a);
    BuiltIsReady(a, inner.mem[..]);
    if LengthsFit(outer.headers, outer.ipBytes + IpBytes(a)) {
      PrefixIsLegal(outer.mem[..], outer.headers, outer.ipBytes, ls, inner.mem[..], a);
    }
    r := Encapsulate(outer, inner);
    if r.Built? {
      EncapsulatedHolds(outer.mem[..], outer.headers, ls, inner.mem[..], a, r.packet.mem[..], r.packet.Meta());
    }
  }

  lemma AreAsMany(mem: seq<byte>, hs: seq<Header>, ls: seq<Outer>)
    requires AreOuter(mem, hs, ls)
    ensures |hs| == |ls|
  {
  }

  /** A label stack that the script accepts and that no parser takes: one entry without
      the bottom mark. */
  function Unmarked(): Outer {
    OuterMpls([MplsEntry(0, 0, false, 0)])
  }

  /** It can be appended, and no prefix that it is part of is legal. */
  lemma UnmarkedCanBeAppended(before: seq<Outer>, after: seq<Outer>, kind: Kind)
    ensures Valid(Unmarked()) && !PrefixLegal(before + [Unmarked()] + after, kind)
  {
    var ls := before + [Unmarked()] + after;
    assert ls[|before|] == Unmarked() && !Unmarked().entries[0].bottom;
    assert EntryBytes(Unmarked().entries[0]).Some? && Unmarked().entries[1..] == [];
  }

  /** Scripts can make asserts fire: a GRE header of version 1, and an IPv6 header around the
      longest packet that new_tcp_packet builds. */
  lemma ScriptsCanAssert()
    ensures var l := OuterGre([0, 1] + ZeroBytes(14));
            Valid(l) && forall a :: AnAssertFires([l], a)
    ensures var l := OuterIpv6(ZeroBytes(16), ZeroBytes(16), 0, 0);
            var a := TcpArgs(IpArgs(false, 0, 0, 0), true, 0, 0, ".", 1, 65496, 1, 100, 0, []);
            Valid(l) && Buildable(a) && HeaderAssert(a) && CanStack([l]) && AnAssertFires([l], a)
  {
    hide BytesOf;
    var gre, ip := OuterGre([0, 1] + ZeroBytes(14)), OuterIpv6(ZeroBytes(16), ZeroBytes(16), 0, 0);
    var a := TcpArgs(IpArgs(false, 0, 0, 0), true, 0, 0, ".", 1, 65496, 1, 100, 0, []);
    assert gre.gre[1] == 1 && Valid(gre);
    assert [gre][..0] == [] && CanStack([]) && GreAsserts([gre][0]);
    assert PrefixAsserts([gre]);
    TooLongCanBeBuilt();
    Ipv6Length(ip);
    assert [ip][..0] == [] && [ip][..1] == [ip];
    assert TotalBytes([ip]) == 40 && CanStack([ip]) && [ip][0].OuterIpv6?;
    assert !Ipv6Fits([ip], IpBytes(a));
  }
}
