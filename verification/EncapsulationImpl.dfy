/** packet_encapsulate on packet buffers. */
module EncapsulationImpl {
  import opened Bytes
  import opened Packet
  import opened PacketParser
  import opened PacketGrammar
  import opened PacketParserProofs
  import opened Checksum
  import opened Encapsulation
  import opened EncapsulationRoundTrip
  import opened FinishedContents
  import opened PacketParserImpl

  method WriteIpv4Fields(mem: array<byte>, h: Header, next: Header)
    requires h.start + 20 <= mem.Length
    modifies mem
    ensures mem[..] == WithoutChecksum(old(mem[..]), h, next)
    ensures mem[h.start] == old(mem[h.start])
  {
    var s := h.start;
    var ipBytes := (20 + next.totalBytes) % 0x1_0000;
    mem[s + 2], mem[s + 3] := ipBytes / 0x100, ipBytes % 0x100;
    mem[s + 9] := IpProto(next.kind);
    mem[s + 10], mem[s + 11] := 0, 0;
  }

  /** ipv4_header_finish */
  method WriteIpv4(mem: array<byte>, h: Header, next: Header)
    requires h.start + 20 <= mem.Length && h.start + LowNibble(mem[h.start]) * 4 <= mem.Length
    modifies mem
    ensures mem[..] == FinishIpv4(old(mem[..]), h, next)
  {
    hide Sum32, Folded, Checksum16, WithoutChecksum;
    var s := h.start;
    WriteIpv4Fields(mem, h, next);
    ghost var m := mem[..];
    var len := LowNibble(mem[s]) * 4;
    var sum := ChecksumPartial(mem, s, len, 0);
    var check := ChecksumFold(sum);
    assert Ipv4HeaderOf(m, s) == mem[s..s + len];
    mem[s + 10], mem[s + 11] := check % 0x100, check / 0x100;
    assert mem[..] == PutHost16(m, s + 10, check);
  }

  /** ipv6_header_finish behind its assert */
  method WriteIpv6(mem: array<byte>, h: Header, next: Header)
    requires h.start + 40 <= mem.Length && next.totalBytes <= 0xffff
    modifies mem
    ensures mem[..] == FinishIpv6(old(mem[..]), h, next)
  {
    var s := h.start;
    mem[s + 4], mem[s + 5] := next.totalBytes / 0x100, next.totalBytes % 0x100;
    mem[s + 6] := IpProto(next.kind);
  }

  /** gre_header_finish */
  method WriteGre(mem: array<byte>, h: Header, next: Header)
    requires h.start + 4 <= mem.Length
    modifies mem
    ensures mem[..] == Put16(old(mem[..]), h.start + 2, EthProto(next.kind))
  {
    var s, proto := h.start, EthProto(next.kind);
    mem[s + 2], mem[s + 3] := proto / 0x100, proto % 0x100;
  }

  /** The finish function of the header's type, up to the assert of ipv6_header_finish. */
  method WriteHeader(mem: array<byte>, h: Header, next: Header) returns (ok: bool, h': Header)
    requires HasRoom(mem[..], h)
    requires h.kind == IPV4 ==> h.start + LowNibble(mem[h.start]) * 4 <= mem.Length
    modifies mem
    ensures ok <==> !(h.kind == IPV6 && next.totalBytes > 0xffff)
    ensures ok ==> mem[..] == FinishBytes(old(mem[..]), h, next)
    ensures ok ==> h' == h.(totalBytes := FinishTotal(old(mem[..]), h, next))
  {
    hide FinishIpv4, FinishIpv6, Put16, FinishTotal;
    ok, h' := true, h.(totalBytes := FinishTotal(mem[..], h, next));
    match h.kind {
      case IPV4 =>
        WriteIpv4(mem, h, next);
      case IPV6 =>
        if next.totalBytes > 0xffff {
          ok := false;
          return;
        }
        WriteIpv6(mem, h, next);
      case GRE =>
        WriteGre(mem, h, next);
      case _ =>
    }
  }

  /** No IPv6 header from the i-th on fails the assert on the length of what it carries. */
  predicate AssertsHoldFrom(hs: seq<Header>, i: nat) {
    forall k | i <= k < |hs| - 1 && hs[k].kind == IPV6 :: Extent(hs[k + 1..]) <= 0xffff
  }

  predicate AssertsHold(hs: seq<Header>) {
    AssertsHoldFrom(hs, 0)
  }

  /** packet_finish_encapsulation_headers: the loop runs over the table backwards;
      `next` is the header finished in the round before. An assert that fails stops it. */
  method FinishHeaders(mem: array<byte>, hs: seq<Header>, ghost end: nat) returns (ok: bool, hs': seq<Header>)
    requires Complete(mem[..], hs, end)
    modifies mem
    ensures ok <==> AssertsHold(hs)
    ensures forall h | h in hs :: HasRoom(old(mem[..]), h)
    ensures ok ==> (mem[..], hs') == FinishAll(old(mem[..]), hs)
  {
    hide Complete, FinishAll, FinishBytes, FinishTotal, Extent;
    ghost var mem0 := mem[..];
    FinishLast(mem0, hs, end);
    var i := |hs| - 1;
    hs' := [hs[i]];
    while i > 0
      invariant 0 <= i < |hs| && AssertsHoldFrom(hs, i)
      invariant (forall h | h in hs[i..] :: HasRoom(mem0, h)) && (mem[..], hs') == FinishAll(mem0, hs[i..])
    {
      FinishNext(mem0, hs, i, end);
      var h := hs[i - 1];
      var h';
      ok, h' := WriteHeader(mem, h, hs'[0]);
      if !ok {
        return;
      }
      hs' := [h'] + hs';
      i := i - 1;
    }
    assert hs[0..] == hs;
    ok := true;
  }

  lemma FinishLast(mem: seq<byte>, hs: seq<Header>, end: nat)
    requires Complete(mem, hs, end)
    ensures |hs| > 0 && hs[|hs| - 1..] == [hs[|hs| - 1]] && forall h | h in hs :: HasRoom(mem, h)
    ensures FinishAll(mem, [hs[|hs| - 1]]) == (mem, [hs[|hs| - 1]])
  {
    RoomToFinish(mem, hs);
  }

  /** One round of the loop. */
  lemma FinishNext(mem: seq<byte>, hs: seq<Header>, i: nat, end: nat)
    requires Complete(mem, hs, end) && 0 < i < |hs|
    ensures forall h | h in hs[i - 1..] :: HasRoom(mem, h)
    ensures forall h | h in hs[i..] :: HasRoom(mem, h)
    ensures var h := hs[i - 1];
            var (mem1, tail) := FinishAll(mem, hs[i..]);
            && HasRoom(mem1, h) && (h.kind == IPV4 ==> h.start + LowNibble(mem1[h.start]) * 4 <= |mem|)
            && |tail| > 0 && tail[0].totalBytes == Extent(hs[i..])
            && FinishAll(mem, hs[i - 1..])
               == (FinishBytes(mem1, h, tail[0]), [h.(totalBytes := FinishTotal(mem1, h, tail[0]))] + tail)
  {
    hide HeaderRaw, FinishBytes, FinishTotal, Extent, FinishedTable, FinishAll, Complete;
    var inner, both := hs[i..], hs[i - 1..];
    SuffixComplete(mem, hs, i, end);
    SuffixComplete(mem, hs, i - 1, end);
    FinishedPlaces(mem, inner, end);
    FinishedPlaces(mem, both, end);
    assert both[1..] == inner && both[0] == hs[i - 1] && inner[0] == hs[i];
    FinishedEnds(inner, FinishAll(mem, inner).1);
    UnfoldFinish(mem, both);
    StackOfComplete(mem, hs, end);
    BeforeNext(mem, FinishAll(mem, inner).0, hs, i);
    assert both[0] in both;
  }

  lemma UnfoldFinish(mem: seq<byte>, hs: seq<Header>)
    requires |hs| > 1 && forall h | h in hs :: HasRoom(mem, h)
    ensures forall h | h in hs[1..] :: HasRoom(mem, h)
    ensures var (mem1, tail) := FinishAll(mem, hs[1..]);
            && HasRoom(mem1, hs[0])
            && FinishAll(mem, hs)
               == (FinishBytes(mem1, hs[0], tail[0]), [hs[0].(totalBytes := FinishTotal(mem1, hs[0], tail[0]))] + tail)
  {
    hide FinishBytes, FinishTotal;
    assert hs[0] in hs;
  }

  lemma StackOfComplete(mem: seq<byte>, hs: seq<Header>, end: nat)
    requires Complete(mem, hs, end)
    ensures Stacked(mem, hs)
  {
    hide Stacked;
  }

  lemma BeforeNext(mem0: seq<byte>, mem: seq<byte>, hs: seq<Header>, i: nat)
    requires Stacked(mem0, hs) && 0 < i < |hs| && |mem| == |mem0|
    requires forall j | 0 <= j <= hs[i].start && j < |mem0| :: mem[j] == mem0[j]
    ensures hs[i - 1].kind == IPV4 ==>
              hs[i - 1].start < |mem| && hs[i - 1].start + LowNibble(mem[hs[i - 1].start]) * 4 <= |mem|
  {
    hide Be16;
    assert HeaderRaw(mem0, hs[i - 1]) && Adjacent(hs[i - 1], hs[i]);
  }

  // ---------------------------------------------------------------------
  // Lengths
  // ---------------------------------------------------------------------

  /** No IPv6 header of a stack that extends to `end` carries too much. */
  predicate LengthsFit(hs: seq<Header>, end: nat) {
    forall i | 0 <= i < |hs| && hs[i].kind == IPV6 :: end - hs[i].start - 40 <= 0xffff
  }

  /** Without IPv4 options the asserts are about the places of the headers. */
  lemma AssertsAreLengths(mem: seq<byte>, hs: seq<Header>, end: nat)
    requires Complete(mem, hs, end) && NoIpOptions(hs)
    ensures AssertsHold(hs) <==> LengthsFit(hs, end)
  {
    hide Complete, Extent, NoIpOptions;
    forall k | 0 <= k < |hs| && hs[k].kind == IPV6
      ensures k < |hs| - 1 && Extent(hs[k + 1..]) == end - hs[k].start - 40
    {
      ExtentBehind(mem, hs, end, k);
    }
  }

  lemma ExtentBehind(mem: seq<byte>, hs: seq<Header>, end: nat, k: nat)
    requires Complete(mem, hs, end) && NoIpOptions(hs) && k < |hs| && hs[k].kind == IPV6
    ensures k < |hs| - 1 && Extent(hs[k + 1..]) == end - hs[k].start - 40
  {
    hide Extent, Be16;
    assert HeaderRaw(mem, hs[k]) && k < |hs| - 1;
    assert Adjacent(hs[k + 1 - 1], hs[k + 1]);
    SuffixComplete(mem, hs, k + 1, end);
    var tail := hs[k + 1..];
    assert forall i | 0 <= i < |tail| :: tail[i] == hs[k + 1 + i];
    ExtentReaches(mem, tail, end);
  }

  /** A header of a stack that extends to `end` under an IP header is too long for its
      length field only if the outermost one is. */
  lemma SizeIsLegal(mem: seq<byte>, hs: seq<Header>, end: nat, i: nat)
    requires Stacked(mem, hs) && LengthsFit(hs, end) && i < |hs| && hs[0].start == 0 && IsIp(hs[0].kind)
    requires hs[0].kind == IPV4 ==> end <= 0xffff
    ensures hs[i].kind == IPV4 ==> end - hs[i].start <= 0xffff
    ensures hs[i].kind == IPV6 ==> end - hs[i].start - 40 <= 0xffff
    ensures end - (hs[i].start + hs[i].headerBytes) <= 0xffff
  {
    hide Be16;
    RawAt(mem, hs, 0);
    StackEnds(mem, hs, 0, i);
  }

  // ---------------------------------------------------------------------
  // Encapsulation
  // ---------------------------------------------------------------------

  /** packet_copy_with_headroom and the copy of the outer headers: both packets side
      by side in new memory. */
  method CopyTogether(outer: array<byte>, o: nat, inner: array<byte>, n: nat) returns (mem: array<byte>)
    requires o <= outer.Length && n <= inner.Length
    ensures fresh(mem) && mem.Length == o + n + 1 && Joined(mem[..], outer[..], o, inner[..], n)
  {
    mem := new byte[o + n + 1];
    var i := 0;
    while i < n
      invariant i <= n && forall k | 0 <= k < i :: mem[o + k] == inner[k]
    {
      mem[o + i] := inner[i];
      i := i + 1;
    }
    i := 0;
    while i < o
      invariant i <= o && forall k | 0 <= k < i :: mem[k] == outer[k]
      invariant forall k | 0 <= k < n :: mem[o + k] == inner[k]
    {
      mem[i] := outer[i];
      i := i + 1;
    }
    assert mem[..][o..o + n] == inner[..][..n];
    assert mem[..][..o] == outer[..][..o];
  }

  /** The packet m with the given metadata is the outer headers in front of the inner packet:
      it is parsed back to its metadata exactly when the headers go together on the wire, the
      headers are in their places, and layer 4 header and payload are the inner ones. */
  ghost predicate IsEncapsulated(m: seq<byte>, meta: Info, outer: seq<byte>, outerHs: seq<Header>, o: nat,
                                 inner: seq<byte>, info: Info) {
    var n := o + info.ipBytes;
    && meta.bufferBytes == n < |m| && info.ipBytes <= |inner| && |info.headers| > 0
    && (ParsePacket(m, n, n, IpLayer) == Parsed(OK, meta)
        <==> MayEncapsulate(outer, outerHs, inner, info.headers, o, info.ipBytes))
    && SamePlaces(outerHs + ShiftAll(info.headers, o), meta.headers, n)
    && HeadersKept(outer, outerHs, m, 0) && HeadersKept(inner, info.headers, m, o) && AllVerify(m, meta.headers)
    && var l4 := info.headers[|info.headers| - 1].start;
       l4 <= info.ipBytes && m[o + l4..n] == inner[l4..info.ipBytes]
  }

  /** packet_encapsulate: a new packet with the outer headers in front of the inner
      packet, unless an assert fires. Parsing it returns PACKET_OK with the very metadata,
      table and pointers that the encapsulator hands over exactly when the headers go
      together on the wire; in any case the inner layer 4 header and its payload are
      carried unchanged, all headers have the fields they had, but for those that are
      filled in, and the checksums of all IPv4 headers verify. */
  method Encapsulate(outer: PacketObject, inner: PacketObject) returns (r: BuildOutcome)
    requires OuterReady(outer.mem[..], outer.headers, outer.ipBytes)
    requires InnerReady(inner.mem[..], inner.Meta())
    ensures !r.Refused?
    ensures r.AssertFails? <==> || |outer.headers| + |inner.headers| > PACKET_MAX_HEADERS
                                || !LengthsFit(outer.headers, outer.ipBytes + inner.ipBytes)
                                || !LengthsFit(inner.headers, inner.ipBytes)
    ensures r.Built? ==>
      && fresh(r.packet) && fresh(r.packet.mem)
      && IsEncapsulated(r.packet.mem[..], r.packet.Meta(), outer.mem[..], outer.headers, outer.ipBytes,
                        inner.mem[..], inner.Meta())
  {
    hide OuterReady, InnerReady, Complete, FinishAll, ParsePacket, SamePlaces, MayEncapsulate, AssertsHold,
         LengthsFit, HasRoom, Joined, ShiftAll, NoIpOptions, HeadersKept, AllVerify;
    var o, n := outer.ipBytes, inner.ipBytes;
    if |outer.headers| + |inner.headers| > PACKET_MAX_HEADERS {
      return AssertFails;
    }
    var hs := outer.headers + ShiftAll(inner.headers, o);
    ghost var outerMem, innerMem := outer.mem[..], inner.mem[..];
    ReadyFacts(outerMem, outer.headers, o, innerMem, inner.Meta());
    var mem := CopyTogether(outer.mem, o, inner.mem, n);
    EncapsulationParses(outerMem, outer.headers, o, innerMem, inner.Meta(), mem[..]);
    AssertsAreLengths(mem[..], hs, o + n);
    LengthsJoin(outer.headers, o, inner.headers, n);
    var ok, hs' := FinishHeaders(mem, hs, o + n);
    if !ok {
      return AssertFails;
    }
    var packet := new PacketObject.WithMeta(mem, Encapsulated(inner.Meta(), o, hs'));
    r := Built(packet);
  }

  lemma ReadyFacts(outer: seq<byte>, outerHs: seq<Header>, o: nat, inner: seq<byte>, info: Info)
    requires OuterReady(outer, outerHs, o) && InnerReady(inner, info)
    ensures o <= |outer| && |info.headers| > 1 && info.ipBytes < |inner|
  {
  }

  lemma LengthsJoin(outerHs: seq<Header>, o: nat, innerHs: seq<Header>, n: nat)
    ensures LengthsFit(outerHs + ShiftAll(innerHs, o), o + n) <==> LengthsFit(outerHs, o + n) && LengthsFit(innerHs, n)
  {
    var hs := outerHs + ShiftAll(innerHs, o);
    assert forall i | 0 <= i < |outerHs| :: hs[i] == outerHs[i];
    assert forall i | 0 <= i < |innerHs| :: hs[|outerHs| + i] == Shift(innerHs[i], o);
  }

  /** The bytes and the metadata that the encapsulator ends up with. */
  lemma EncapsulationParses(outer: seq<byte>, outerHs: seq<Header>, o: nat, inner: seq<byte>, info: Info,
                            mem: seq<byte>)
    requires OuterReady(outer, outerHs, o) && InnerReady(inner, info)
    requires |outerHs| + |info.headers| <= PACKET_MAX_HEADERS && Joined(mem, outer, o, inner, info.ipBytes)
    ensures var hs := outerHs + ShiftAll(info.headers, o);
            var end := o + info.ipBytes;
            && Complete(mem, hs, end) && NoIpOptions(hs)
            && (forall h | h in hs :: HasRoom(mem, h))
            && var (mem', hs') := FinishAll(mem, hs);
               IsEncapsulated(mem', Encapsulated(info, o, hs'), outer, outerHs, o, inner, info)
  {
    hide HeaderRaw, Describe, ParsePacket, FinishAll, FinishedTable, Legal, NoIpOptions, MayEncapsulate, SamePlaces,
         Stacked, HeadersKept, AllVerify;
    var hs, end := outerHs + ShiftAll(info.headers, o), o + info.ipBytes;
    JoinIsComplete(outer, outerHs, o, inner, info.headers, info.ipBytes, mem);
    JoinHasNoOptions(outerHs, o, info.headers);
    JoinIsLegal(outer, outerHs, o, inner, info.headers, info.ipBytes, mem);
    assert hs[0].start == 0;
    FinishedStackParsesIff(mem, hs, end, end);
    FinishSparesLayer4(mem, hs);
    var (mem', hs') := FinishAll(mem, hs);
    EncapsulatedIsOwn(info, o, outerHs, hs');
    PlacesToTheEnd(mem, hs, hs', end);
    FinishingKeeps(mem, hs, end);
    JoinKeeps(outer, outerHs, o, inner, info.headers, info.ipBytes, mem, mem');
    VerifyAgain(mem', hs, hs', end);
    var l4 := info.headers[|info.headers| - 1].start;
    assert hs[|hs| - 1] == Shift(info.headers[|info.headers| - 1], o);
    RawAt(inner, info.headers, |info.headers| - 1);
    assert mem'[o + l4..end] == mem[o + l4..end];
    assert mem[o + l4..end] == mem[o..end][l4..];
  }
}
