/**
Encapsulation (packet.c, ip_packet.c, gre_packet.c, mpls_packet.c): outer headers
are put in front of an inner packet and every header is then finished from the
inside out, once the length and the type of what it carries are known.
 */
module Encapsulation {
  import opened Bytes
  import opened Splices
  import opened Packet
  import opened PacketParser
  import opened PacketGrammar
  import opened PacketParserProofs
  import opened Checksum

  // ---------------------------------------------------------------------
  // Finishing headers
  // ---------------------------------------------------------------------

  /** Two bytes in network order at offset i. */
  function Put16(mem: seq<byte>, i: nat, x: u16): (r: seq<byte>)
    requires i + 2 <= |mem|
    ensures |r| == |mem| && Be16(r, i) == x
    ensures forall j | 0 <= j < |mem| && j != i && j != i + 1 :: r[j] == mem[j]
  {
    mem[i := x / 0x100][i + 1 := x % 0x100]
  }

  /** A u16 as the host stores it, low byte first. */
  function PutHost16(mem: seq<byte>, i: nat, x: u16): (r: seq<byte>)
    requires i + 2 <= |mem|
    ensures |r| == |mem| && r[i] == x % 0x100 && r[i + 1] == x / 0x100
    ensures forall j | 0 <= j < |mem| && j != i && j != i + 1 :: r[j] == mem[j]
  {
    mem[i := x % 0x100][i + 1 := x / 0x100]
  }

  /** The bytes a finish function writes to lie in this many bytes. */
  function FixedBytes(kind: Kind): nat {
    match kind
    case IPV4 => 20
    case IPV6 => 40
    case GRE => 4
    case _ => 0
  }

  predicate HasRoom(mem: seq<byte>, h: Header) {
    h.start + FixedBytes(h.kind) <= |mem|
  }

  /** ipv4_header_finish: total length, protocol, then the header checksum over a
      zeroed checksum field. */
  function FinishIpv4(mem: seq<byte>, h: Header, next: Header): (r: seq<byte>)
    requires h.start + 20 <= |mem|
    ensures |r| == |mem|
    ensures Be16(r, h.start + 2) == (20 + next.totalBytes) % 0x1_0000 && r[h.start + 9] == IpProto(next.kind)
    ensures forall j | 0 <= j < |mem| && !(h.start + 2 <= j < h.start + 4) && !(h.start + 9 <= j < h.start + 12)
              :: r[j] == mem[j]
  {
    var mem' := WithoutChecksum(mem, h, next);
    PutHost16(mem', h.start + 10, Checksum16(Sum32(Ipv4HeaderOf(mem', h.start))))
  }

  /** The header before its checksum is computed. */
  function WithoutChecksum(mem: seq<byte>, h: Header, next: Header): (r: seq<byte>)
    requires h.start + 20 <= |mem|
    ensures |r| == |mem|
  {
    var s := h.start;
    PutHost16(Put16(mem, s + 2, (20 + next.totalBytes) % 0x1_0000)[s + 9 := IpProto(next.kind)], s + 10, 0)
  }

  /** The bytes the header length field says the IPv4 header at s has. */
  function Ipv4HeaderOf(mem: seq<byte>, s: nat): seq<byte>
    requires s < |mem|
  {
    var e := s + LowNibble(mem[s]) * 4;
    if e <= |mem| then mem[s..e] else mem[s..]
  }

  /** ipv6_header_finish */
  function FinishIpv6(mem: seq<byte>, h: Header, next: Header): (r: seq<byte>)
    requires h.start + 40 <= |mem|
    ensures |r| == |mem|
    ensures Be16(r, h.start + 4) == next.totalBytes % 0x1_0000 && r[h.start + 6] == IpProto(next.kind)
    ensures forall j | 0 <= j < |mem| && !(h.start + 4 <= j < h.start + 7) :: r[j] == mem[j]
  {
    Put16(mem, h.start + 4, next.totalBytes % 0x1_0000)[h.start + 6 := IpProto(next.kind)]
  }

  /** The finish function of one header, given the finished header inside it: the
      bytes it leaves in memory. */
  function FinishBytes(mem: seq<byte>, h: Header, next: Header): (r: seq<byte>)
    requires HasRoom(mem, h)
    ensures |r| == |mem|
    ensures forall j | 0 <= j < |mem| && !(h.start < j < h.start + FixedBytes(h.kind)) :: r[j] == mem[j]
  {
    match h.kind
    case IPV4 => FinishIpv4(mem, h, next)
    case IPV6 => FinishIpv6(mem, h, next)
    case GRE => Put16(mem, h.start + 2, EthProto(next.kind))
    case _ => mem
  }

  /** The total_bytes the finish function records. */
  function FinishTotal(mem: seq<byte>, h: Header, next: Header): nat
    requires HasRoom(mem, h)
  {
    match h.kind
    case IPV4 => 20 + next.totalBytes
    case IPV6 => 40 + next.totalBytes
    case GRE => GreLen(mem[h.start]) + next.totalBytes
    case MPLS => h.headerBytes + next.totalBytes
    case _ => h.totalBytes
  }

  /** packet_finish_encapsulation_headers: from the innermost header outwards. */
  function FinishAll(mem: seq<byte>, hs: seq<Header>): (r: (seq<byte>, seq<Header>))
    requires forall h | h in hs :: HasRoom(mem, h)
    ensures |r.0| == |mem| && |r.1| == |hs|
  {
    if |hs| <= 1 then (mem, hs)
    else
      assert HasRoom(mem, hs[0]);
      var (mem1, tail) := FinishAll(mem, hs[1..]);
      (FinishBytes(mem1, hs[0], tail[0]), [hs[0].(totalBytes := FinishTotal(mem1, hs[0], tail[0]))] + tail)
  }

  // ---------------------------------------------------------------------
  // Packets as the builders leave them
  // ---------------------------------------------------------------------

  /** What the finish functions count on: header lengths that are fixed or agree with
      the header's own length field, and the fields they do not fill in. */
  ghost predicate HeaderRaw(mem: seq<byte>, h: Header) {
    var s := h.start;
    && s + h.headerBytes <= |mem|
    && match h.kind
       case IPV4 => 20 <= h.headerBytes && h.headerBytes == LowNibble(mem[s]) * 4
                    && (Be16(mem, s + 6) / 0x2000) % 2 == 0 && Be16(mem, s + 6) % 0x2000 == 0
       case IPV6 => h.headerBytes == 40
       case GRE => 4 <= h.headerBytes && h.headerBytes == GreLen(mem[s]) && mem[s + 1] % 8 == 0 && !GreRouting(mem[s])
       case MPLS => h.headerBytes % 4 == 0
       case TCP => 20 <= h.headerBytes <= h.totalBytes && h.headerBytes == HighNibble(mem[s + 12]) * 4
       case UDP => h.headerBytes == 8 <= h.totalBytes
       case ICMPV4 => h.headerBytes == 8 <= h.totalBytes
       case ICMPV6 => h.headerBytes == 8 <= h.totalBytes
  }

  predicate Adjacent(a: Header, b: Header) {
    b.start == a.start + a.headerBytes && !IsLayer4(a.kind)
  }

  /** Headers of any kinds back to back, with a layer 4 header at most at the end. */
  ghost predicate Stacked(mem: seq<byte>, hs: seq<Header>) {
    && (forall i | 0 <= i < |hs| :: HeaderRaw(mem, hs[i]))
    && (forall i | 0 < i < |hs| :: Adjacent(hs[i - 1], hs[i]))
  }

  /** A stack with a layer 4 header whose data extends to `end`. */
  ghost predicate Complete(mem: seq<byte>, hs: seq<Header>, end: nat) {
    && |hs| > 0 && Stacked(mem, hs)
    && IsLayer4(hs[|hs| - 1].kind)
    && hs[|hs| - 1].start + hs[|hs| - 1].totalBytes == end
  }

  lemma CompleteTail(mem: seq<byte>, hs: seq<Header>, end: nat)
    requires Complete(mem, hs, end) && |hs| > 1
    ensures Complete(mem, hs[1..], end)
    ensures hs[1].start == hs[0].start + hs[0].headerBytes && !IsLayer4(hs[0].kind)
  {
    hide HeaderRaw;
    var tail := hs[1..];
    assert forall i | 0 <= i < |tail| :: tail[i] == hs[i + 1];
    assert Adjacent(hs[0], hs[1]);
  }

  lemma {:induction false} SuffixComplete(mem: seq<byte>, hs: seq<Header>, i: nat, end: nat)
    requires Complete(mem, hs, end) && i < |hs|
    ensures Complete(mem, hs[i..], end)
  {
    hide HeaderRaw, Complete;
    if i == 0 {
      assert hs[0..] == hs;
    } else {
      SuffixComplete(mem, hs, i - 1, end);
      CompleteTail(mem, hs[i - 1..], end);
      assert hs[i - 1..][1..] == hs[i..];
    }
  }

  // ---------------------------------------------------------------------
  // How far a finished header reaches
  // ---------------------------------------------------------------------

  /** How long a finish function takes its own header to be: IPv4 options are forgotten. */
  function OwnBytes(h: Header): nat {
    if h.kind == IPV4 then 20 else h.headerBytes
  }

  /** The total_bytes of the first header once the stack is finished. */
  function Extent(hs: seq<Header>): nat
    requires |hs| > 0
  {
    if |hs| == 1 then hs[0].totalBytes else OwnBytes(hs[0]) + Extent(hs[1..])
  }

  predicate NoIpOptions(hs: seq<Header>) {
    forall i | 0 <= i < |hs| && hs[i].kind == IPV4 :: hs[i].headerBytes == 20
  }

  /** A finished stack reaches to the end exactly when no IPv4 header has options. */
  lemma {:induction false} ExtentReaches(mem: seq<byte>, hs: seq<Header>, end: nat)
    requires Complete(mem, hs, end)
    ensures hs[0].start + Extent(hs) <= end
    ensures hs[0].start + Extent(hs) == end <==> NoIpOptions(hs)
    decreases |hs|
  {
    hide Be16;
    assert HeaderRaw(mem, hs[0]);
    if |hs| > 1 {
      CompleteTail(mem, hs, end);
      ExtentReaches(mem, hs[1..], end);
      var tail := hs[1..];
      assert forall i | 0 <= i < |tail| :: tail[i] == hs[i + 1];
      if NoIpOptions(tail) && OwnBytes(hs[0]) == hs[0].headerBytes {
        forall i | 0 <= i < |hs| && hs[i].kind == IPV4
          ensures hs[i].headerBytes == 20
        {
          assert i > 0 ==> hs[i] == tail[i - 1];
        }
      }
    }
  }

  // ---------------------------------------------------------------------
  // What is legal on the wire
  // ---------------------------------------------------------------------

  /** An IP header whose version nibble says so. */
  ghost predicate Versioned(mem: seq<byte>, h: Header) {
    h.start < |mem| && VersionIs(mem, h)
  }

  /** Which header may be carried by which. */
  ghost predicate Carries(mem: seq<byte>, a: Header, b: Header) {
    match a.kind
    case IPV4 => b.kind != MPLS
    case IPV6 => b.kind != MPLS
    case GRE => b.kind == MPLS || Versioned(mem, b)
    case MPLS => Versioned(mem, b)
    case _ => false
  }

  /** What no finish function repairs: a label stack has its bottom mark on the last
      entry only, a UDP header knows its length, an IPv4 header has no options, and a
      datagram that extends to `end` is not too long for an IP length field. */
  ghost predicate HeaderLegal(mem: seq<byte>, h: Header, end: nat) {
    match h.kind
    case IPV4 => h.headerBytes == 20 && end - h.start <= 0xffff
    case IPV6 => end - h.start - 40 <= 0xffff
    case MPLS => h.start + h.headerBytes <= |mem| && StackOf(mem, h.start, h.headerBytes)
    case UDP => h.start + 6 <= |mem| && Be16(mem, h.start + 4) == h.totalBytes
    case _ => true
  }

  ghost predicate Nested(mem: seq<byte>, hs: seq<Header>, end: nat) {
    && (forall i | 0 <= i < |hs| :: HeaderLegal(mem, hs[i], end))
    && (forall i | 0 < i < |hs| :: Carries(mem, hs[i - 1], hs[i]))
  }

  /** A stack that may be sent as an IP packet. */
  ghost predicate Legal(mem: seq<byte>, hs: seq<Header>, end: nat) {
    |hs| > 0 && Versioned(mem, hs[0]) && Nested(mem, hs, end)
  }

  lemma NestedTail(mem: seq<byte>, hs: seq<Header>, end: nat)
    requires Nested(mem, hs, end) && |hs| > 1
    ensures Nested(mem, hs[1..], end)
    ensures HeaderLegal(mem, hs[0], end) && Carries(mem, hs[0], hs[1])
  {
    hide HeaderLegal, Carries;
    var tail := hs[1..];
    assert forall i | 0 <= i < |tail| :: tail[i] == hs[i + 1];
  }

  lemma RoomToFinish(mem: seq<byte>, hs: seq<Header>)
    requires Stacked(mem, hs)
    ensures forall h | h in hs :: HasRoom(mem, h)
  {
    forall h | h in hs
      ensures HasRoom(mem, h)
    {
      var i :| 0 <= i < |hs| && hs[i] == h;
      assert HeaderRaw(mem, hs[i]);
    }
  }

  // ---------------------------------------------------------------------
  // A table only looks at the bytes it covers
  // ---------------------------------------------------------------------

  lemma StackFrame(mem: seq<byte>, mem': seq<byte>, s: nat, bytes: nat)
    requires SameFrom(mem, mem', s) && s + bytes <= |mem| && StackOf(mem, s, bytes)
    ensures StackOf(mem', s, bytes)
  {
    forall i: nat | i < bytes / 4
      ensures MplsBottom(mem', s + 4 * i) <==> i == bytes / 4 - 1
    {
      assert MplsBottom(mem, s + 4 * i) <==> i == bytes / 4 - 1;
    }
  }

  lemma HeaderFrame(mem: seq<byte>, mem': seq<byte>, h: Header, end: nat)
    requires end < |mem| && SameFrom(mem, mem', h.start) && HeaderOk(mem, h, end)
    ensures HeaderOk(mem', h, end)
  {
    if h.kind == MPLS {
      StackFrame(mem, mem', h.start, h.headerBytes);
    }
  }

  lemma {:induction false} ChainFrame(mem: seq<byte>, mem': seq<byte>, hs: seq<Header>, end: nat)
    requires end < |mem| && Chain(mem, hs, end) && SameFrom(mem, mem', hs[0].start)
    ensures Chain(mem', hs, end)
    decreases |hs|
  {
    HeaderFrame(mem, mem', hs[0], end);
    if |hs| > 1 {
      ChainFrame(mem, mem', hs[1..], end);
    }
  }

  // ---------------------------------------------------------------------
  // Finished headers form a table
  // ---------------------------------------------------------------------

  /** What a header is finished with: the finished header inside it extends to `end`. */
  ghost predicate ReadyToFinish(mem: seq<byte>, h: Header, next: Header, end: nat) {
    && end < |mem| && h.start <= end && HeaderRaw(mem, h) && HeaderLegal(mem, h, end) && Carries(mem, h, next)
    && next.start == h.start + h.headerBytes && next.start + next.totalBytes == end
  }

  ghost predicate Finished(mem': seq<byte>, h: Header, next: Header, end: nat)
    requires end < |mem'| && h.start <= end && next.start <= end
  {
    var h' := h.(totalBytes := end - h.start);
    HeaderOk(mem', h', end) && Follows(mem', h', next, end)
  }

  lemma FinishedIpv4(mem: seq<byte>, h: Header, next: Header, end: nat)
    requires ReadyToFinish(mem, h, next, end) && h.kind == IPV4
    ensures Finished(FinishIpv4(mem, h, next), h, next, end)
  {
    hide FinishIpv4;
    var mem', s := FinishIpv4(mem, h, next), h.start;
    assert Be16(mem', s + 2) == end - s;
    assert mem'[s] == mem[s] && mem'[s + 6] == mem[s + 6] && mem'[s + 7] == mem[s + 7];
    assert Be16(mem', s + 6) == Be16(mem, s + 6);
  }

  lemma FinishedIpv6(mem: seq<byte>, h: Header, next: Header, end: nat)
    requires ReadyToFinish(mem, h, next, end) && h.kind == IPV6
    ensures Finished(FinishIpv6(mem, h, next), h, next, end)
  {
    hide FinishIpv6;
    var mem', s := FinishIpv6(mem, h, next), h.start;
    assert Be16(mem', s + 4) == end - s - 40;
  }

  lemma FinishedGre(mem: seq<byte>, h: Header, next: Header, end: nat)
    requires ReadyToFinish(mem, h, next, end) && h.kind == GRE
    ensures h.start + 4 <= |mem| && Finished(Put16(mem, h.start + 2, EthProto(next.kind)), h, next, end)
  {
    hide Put16;
    var mem', s := Put16(mem, h.start + 2, EthProto(next.kind)), h.start;
    assert mem'[s] == mem[s] && mem'[s + 1] == mem[s + 1];
    assert mem'[next.start] == mem[next.start];
  }

  lemma FinishedMpls(mem: seq<byte>, h: Header, next: Header, end: nat)
    requires ReadyToFinish(mem, h, next, end) && h.kind == MPLS
    ensures Finished(mem, h, next, end)
  {
  }

  /** A finished header is right in all its fields, announces what it carries and
      extends to the end of the packet. */
  lemma FinishedHeader(mem: seq<byte>, h: Header, next: Header, end: nat)
    requires ReadyToFinish(mem, h, next, end)
    ensures HasRoom(mem, h) && Finished(FinishBytes(mem, h, next), h, next, end)
  {
    hide FinishIpv4, FinishIpv6, Put16, Finished;
    match h.kind
    case IPV4 => FinishedIpv4(mem, h, next, end);
    case IPV6 => FinishedIpv6(mem, h, next, end);
    case GRE => FinishedGre(mem, h, next, end);
    case MPLS => FinishedMpls(mem, h, next, end);
    case _ =>
  }

  /** What FinishAll leaves of the raw headers: their kinds and places. */
  ghost predicate FinishedTable(hs: seq<Header>, hs': seq<Header>) {
    |hs| == |hs'| && forall i | 0 <= i < |hs| :: hs'[i] == hs[i].(totalBytes := Extent(hs[i..]))
  }

  /** The same where every header extends to the end. */
  ghost predicate SamePlaces(hs: seq<Header>, hs': seq<Header>, end: nat) {
    && |hs| == |hs'|
    && forall i | 0 <= i < |hs| :: hs[i].start <= end && hs'[i] == hs[i].(totalBytes := end - hs[i].start)
  }

  /** Finishing any complete stack keeps kinds and places, and changes nothing up to the
      first header's first byte. */
  lemma {:induction false} FinishedPlaces(mem: seq<byte>, hs: seq<Header>, end: nat)
    requires Complete(mem, hs, end)
    ensures forall h | h in hs :: HasRoom(mem, h)
    ensures var (mem', hs') := FinishAll(mem, hs);
            && FinishedTable(hs, hs') && hs[0].start < |mem|
            && forall j | 0 <= j <= hs[0].start :: mem'[j] == mem[j]
    decreases |hs|
  {
    RoomToFinish(mem, hs);
    assert HeaderRaw(mem, hs[0]);
    assert hs[0..] == hs;
    if |hs| > 1 {
      CompleteTail(mem, hs, end);
      FinishedPlaces(mem, hs[1..], end);
      var (mem1, tail) := FinishAll(mem, hs[1..]);
      assert hs[1..][0..] == hs[1..];
      assert tail[0] == hs[1..][0].(totalBytes := Extent(hs[1..][0..]));
      FinishSparesInner(mem, mem1, hs[0], tail[0]);
      TableCons(hs, tail);
    }
  }

  lemma FinishSparesInner(mem: seq<byte>, mem1: seq<byte>, h: Header, next: Header)
    requires HeaderRaw(mem, h) && next.start == h.start + h.headerBytes < |mem| == |mem1| && !IsLayer4(h.kind)
    requires forall j | 0 <= j <= next.start :: mem1[j] == mem[j]
    ensures HasRoom(mem1, h) && SameFrom(mem1, FinishBytes(mem1, h, next), next.start)
    ensures FinishTotal(mem1, h, next) == OwnBytes(h) + next.totalBytes
    ensures forall j | 0 <= j <= h.start :: FinishBytes(mem1, h, next)[j] == mem[j]
  {
    hide FinishIpv4, FinishIpv6, Put16;
  }

  lemma TableCons(hs: seq<Header>, tail: seq<Header>)
    requires |hs| > 1 && FinishedTable(hs[1..], tail)
    ensures FinishedTable(hs, [hs[0].(totalBytes := OwnBytes(hs[0]) + Extent(hs[1..]))] + tail)
  {
    hide OwnBytes;
    var hs' := [hs[0].(totalBytes := OwnBytes(hs[0]) + Extent(hs[1..]))] + tail;
    forall i | 0 <= i < |hs|
      ensures hs'[i] == hs[i].(totalBytes := Extent(hs[i..]))
    {
      if i == 0 {
        assert hs[0..] == hs;
      } else {
        assert hs[1..][i - 1..] == hs[i..] && hs'[i] == tail[i - 1] && hs[i] == hs[1..][i - 1];
      }
    }
  }

  /** Without IPv4 options every finished header extends to the end. */
  lemma PlacesToTheEnd(mem: seq<byte>, hs: seq<Header>, hs': seq<Header>, end: nat)
    requires Complete(mem, hs, end) && NoIpOptions(hs) && FinishedTable(hs, hs')
    ensures SamePlaces(hs, hs', end)
  {
    hide Complete, Extent;
    forall i | 0 <= i < |hs|
      ensures hs[i].start <= end && hs'[i] == hs[i].(totalBytes := end - hs[i].start)
    {
      SuffixComplete(mem, hs, i, end);
      ExtentReaches(mem, hs[i..], end);
      assert forall k | 0 <= k < |hs[i..]| :: hs[i..][k] == hs[i + k];
      assert NoIpOptions(hs[i..]);
    }
  }

  lemma NestedHasNoOptions(mem: seq<byte>, hs: seq<Header>, end: nat)
    requires Nested(mem, hs, end)
    ensures NoIpOptions(hs)
  {
    forall i | 0 <= i < |hs| && hs[i].kind == IPV4
      ensures hs[i].headerBytes == 20
    {
      assert HeaderLegal(mem, hs[i], end);
    }
  }

  /** Finishing a complete stack that is nested legally yields a table of the packet. */
  lemma {:induction false} FinishedStack(mem: seq<byte>, hs: seq<Header>, end: nat)
    requires Complete(mem, hs, end) && end < |mem| && Nested(mem, hs, end)
    ensures forall h | h in hs :: HasRoom(mem, h)
    ensures var (mem', hs') := FinishAll(mem, hs); Chain(mem', hs', end)
    decreases |hs|
  {
    hide HeaderRaw, HeaderLegal, Carries, FinishBytes, FinishTotal, SamePlaces, FinishedTable, NoIpOptions, StackOf;
    RoomToFinish(mem, hs);
    if |hs| > 1 {
      CompleteTail(mem, hs, end);
      NestedTail(mem, hs, end);
      FinishedStack(mem, hs[1..], end);
      FinishedPlaces(mem, hs[1..], end);
      var (mem1, tail) := FinishAll(mem, hs[1..]);
      NestedHasNoOptions(mem, hs[1..], end);
      PlacesToTheEnd(mem, hs[1..], tail, end);
      StackStep(mem, mem1, hs, tail, end);
    } else {
      LastIsOk(mem, hs[0], end);
    }
  }

  lemma LastIsOk(mem: seq<byte>, h: Header, end: nat)
    requires HeaderRaw(mem, h) && HeaderLegal(mem, h, end) && IsLayer4(h.kind) && h.start + h.totalBytes == end < |mem|
    ensures HeaderOk(mem, h, end)
  {
  }

  lemma StackStep(mem: seq<byte>, mem1: seq<byte>, hs: seq<Header>, tail: seq<Header>, end: nat)
    requires Complete(mem, hs, end) && end < |mem| == |mem1| && Nested(mem, hs, end) && |hs| > 1
    requires Chain(mem1, tail, end) && SamePlaces(hs[1..], tail, end)
    requires hs[1].start < |mem| && forall j | 0 <= j <= hs[1].start :: mem1[j] == mem[j]
    ensures HasRoom(mem1, hs[0])
    ensures var h := hs[0].(totalBytes := FinishTotal(mem1, hs[0], tail[0]));
            Chain(FinishBytes(mem1, hs[0], tail[0]), [h] + tail, end)
  {
    hide HeaderOk, Follows, HeaderRaw, HeaderLegal, Carries, FinishBytes, FinishTotal, FixedBytes, StackOf, Chain;
    var h, next := hs[0], tail[0];
    CompleteTail(mem, hs, end);
    NestedTail(mem, hs, end);
    assert next == hs[1..][0].(totalBytes := end - hs[1].start);
    NextReady(mem, mem1, h, hs[1], next, end);
    FinishedHeader(mem1, h, next, end);
    var mem' := FinishBytes(mem1, h, next);
    FinishSparesInner(mem, mem1, h, next);
    LegalOwnBytes(mem, h, end);
    ChainFrame(mem1, mem', tail, end);
    ChainCons(mem', h.(totalBytes := end - h.start), tail, end);
  }

  lemma LegalOwnBytes(mem: seq<byte>, h: Header, end: nat)
    requires HeaderLegal(mem, h, end)
    ensures OwnBytes(h) == h.headerBytes
  {
  }

  lemma NextReady(mem: seq<byte>, mem1: seq<byte>, h: Header, b: Header, next: Header, end: nat)
    requires HeaderRaw(mem, h) && HeaderLegal(mem, h, end) && Carries(mem, h, b) && end < |mem| == |mem1|
    requires b.start == h.start + h.headerBytes <= end && next == b.(totalBytes := end - b.start)
    requires forall j | 0 <= j <= b.start :: mem1[j] == mem[j]
    ensures ReadyToFinish(mem1, h, next, end)
  {
    if h.kind == MPLS {
      forall i: nat | i < h.headerBytes / 4
        ensures MplsBottom(mem1, h.start + 4 * i) <==> i == h.headerBytes / 4 - 1
      {
        assert MplsBottom(mem, h.start + 4 * i) <==> i == h.headerBytes / 4 - 1;
      }
    }
  }

  // ---------------------------------------------------------------------
  // What finishing does not touch
  // ---------------------------------------------------------------------

  /** Finishing writes only behind the first byte of IP and GRE headers. */
  lemma {:induction false} FinishTouches(mem: seq<byte>, hs: seq<Header>, j: nat)
    requires (forall h | h in hs :: HasRoom(mem, h)) && j < |mem|
    requires forall i | 0 <= i < |hs| :: !(hs[i].start < j < hs[i].start + FixedBytes(hs[i].kind))
    ensures FinishAll(mem, hs).0[j] == mem[j]
    decreases |hs|
  {
    hide FinishBytes, FinishTotal, FixedBytes, HasRoom;
    if |hs| > 1 {
      var tail := hs[1..];
      assert forall i | 0 <= i < |tail| :: tail[i] == hs[i + 1];
      FinishTouches(mem, tail, j);
      var (mem1, done) := FinishAll(mem, tail);
      assert HasRoom(mem1, hs[0]) by {
        assert HasRoom(mem, hs[0]);
        RoomAgain(mem, mem1, hs[0]);
      }
      assert FinishBytes(mem1, hs[0], done[0])[j] == mem1[j];
    }
  }

  lemma RoomAgain(mem: seq<byte>, mem1: seq<byte>, h: Header)
    requires HasRoom(mem, h) && |mem| == |mem1|
    ensures HasRoom(mem1, h)
  {
  }
}
