/** What the bytes of finished headers are: the fields that finishing does not fill in stay, and
    the checksums of all IPv4 headers verify. */
module FinishedContents {
  import opened Bytes
  import opened Splices
  import opened Packet
  import opened PacketGrammar
  import opened Checksum
  import opened PacketChecksum
  import opened Encapsulation
  import opened EncapsulationRoundTrip

  /** The byte at offset d of a header is none of those that are filled in: length, protocol and
      checksum of IPv4, length and next header of IPv6, protocol of GRE. */
  predicate Keeps(kind: Kind, d: nat) {
    match kind
    case IPV4 => d !in {2, 3, 9, 10, 11}
    case IPV6 => d !in {4, 5, 6}
    case GRE => d !in {2, 3}
    case _ => true
  }

  ghost predicate HeaderKept(mem: seq<byte>, h: Header, mem': seq<byte>, at: nat) {
    var s, n := h.start, h.headerBytes;
    && s + n <= |mem| && at + s + n <= |mem'|
    && var b, b' := mem[s..s + n], mem'[at + s..at + s + n]; forall d | 0 <= d < n && Keeps(h.kind, d) :: b'[d] == b[d]
  }

  /** The headers of one packet are in another, `at` bytes further on. */
  ghost predicate HeadersKept(mem: seq<byte>, hs: seq<Header>, mem': seq<byte>, at: nat) {
    forall i | 0 <= i < |hs| :: HeaderKept(mem, hs[i], mem', at)
  }

  /** Recomputing the checksum of the header gives zero. */
  ghost predicate Verifies(mem: seq<byte>, h: Header) {
    h.start + h.headerBytes <= |mem| && RfcChecksum(mem[h.start..h.start + h.headerBytes]) == 0
  }

  ghost predicate AllVerify(mem: seq<byte>, hs: seq<Header>) {
    forall i | 0 <= i < |hs| && hs[i].kind == IPV4 :: Verifies(mem, hs[i])
  }

  lemma ZeroedChecksum(mem: seq<byte>, h: Header, next: Header)
    requires HeaderRaw(mem, h) && h.kind == IPV4
    ensures var m, s := WithoutChecksum(mem, h, next), h.start;
            m[s + 10] == 0 && m[s + 11] == 0 && Ipv4HeaderOf(m, s) == m[s..s + h.headerBytes]
  {
    assert WithoutChecksum(mem, h, next)[h.start] == mem[h.start];
  }

  lemma FinishedVerifies(mem: seq<byte>, h: Header, next: Header)
    requires HeaderRaw(mem, h) && h.kind == IPV4
    ensures Verifies(FinishIpv4(mem, h, next), h)
  {
    hide Checksum16, Sum32, RfcChecksum, WithoutChecksum, Ipv4HeaderOf, LowNibble, Be16;
    var s, e := h.start, h.start + h.headerBytes;
    var m, r := WithoutChecksum(mem, h, next), FinishIpv4(mem, h, next);
    ZeroedChecksum(mem, h, next);
    var b, b' := m[s..e], r[s..e];
    var c := Checksum16(Sum32(b));
    var b1: seq<byte> := b[10 := c % 0x100];
    assert b' == b1[11 := c / 0x100];
    StoredChecksumVerifies(b, 10, b', 0);
    ZeroIsZero(b');
  }

  lemma FinishKeepsOne(mem: seq<byte>, h: Header, next: Header)
    requires HeaderRaw(mem, h) && HasRoom(mem, h)
    ensures HeaderKept(mem, h, FinishBytes(mem, h, next), 0)
  {
    hide Put16, FinishIpv4, FinishIpv6;
    var s, n, r := h.start, h.headerBytes, FinishBytes(mem, h, next);
    var b, b' := mem[s..s + n], r[0 + s..0 + s + n];
    forall d | 0 <= d < n && Keeps(h.kind, d)
      ensures b'[d] == b[d]
    {
      assert b'[d] == r[s + d] && b[d] == mem[s + d];
    }
  }

  /** One header more is finished around the others. */
  lemma FinishStep(mem: seq<byte>, mem1: seq<byte>, hs: seq<Header>, next: Header, end: nat)
    requires Complete(mem, hs, end) && |hs| > 1 && |mem1| == |mem| && next.start == hs[1].start
    requires hs[1].start < |mem| && forall j | 0 <= j <= hs[1].start :: mem1[j] == mem[j]
    requires HeadersKept(mem, hs[1..], mem1, 0) && AllVerify(mem1, hs[1..])
    ensures HasRoom(mem1, hs[0])
    ensures var mem' := FinishBytes(mem1, hs[0], next); HeadersKept(mem, hs, mem', 0) && AllVerify(mem', hs)
  {
    hide FinishBytes, HeaderRaw, HeaderKept, Verifies;
    CompleteTail(mem, hs, end);
    FirstStep(mem, mem1, hs[0], next);
    var mem' := FinishBytes(mem1, hs[0], next);
    forall i | 0 <= i < |hs|
      ensures HeaderKept(mem, hs[i], mem', 0) && (hs[i].kind == IPV4 ==> Verifies(mem', hs[i]))
    {
      if i > 0 {
        StackEnds(mem, hs, 0, i);
        assert hs[1..][i - 1] == hs[i] && HeaderKept(mem, hs[1..][i - 1], mem1, 0);
        InnerStep(mem, mem1, mem', hs[i], next.start);
      }
    }
  }

  lemma FirstStep(mem: seq<byte>, mem1: seq<byte>, h: Header, next: Header)
    requires HeaderRaw(mem, h) && h.start + h.headerBytes == next.start < |mem| == |mem1| && !IsLayer4(h.kind)
    requires forall j | 0 <= j <= next.start :: mem1[j] == mem[j]
    ensures HasRoom(mem1, h) && SameFrom(mem1, FinishBytes(mem1, h, next), next.start)
    ensures HeaderKept(mem, h, FinishBytes(mem1, h, next), 0)
    ensures h.kind == IPV4 ==> Verifies(FinishBytes(mem1, h, next), h)
  {
    hide FinishIpv4, FinishIpv6, Put16, Verifies, HeaderKept;
    FinishSparesInner(mem, mem1, h, next);
    var s, n := h.start, h.headerBytes;
    assert mem1[s..s + n] == mem[s..s + n];
    RawAgain(mem, mem1, h);
    FinishKeepsOne(mem1, h, next);
    KeptOf(mem, mem1, h, FinishBytes(mem1, h, next), 0);
    if h.kind == IPV4 {
      FinishedVerifies(mem1, h, next);
    }
  }

  lemma RawAgain(mem: seq<byte>, mem1: seq<byte>, h: Header)
    requires HeaderRaw(mem, h) && |mem1| == |mem|
    requires forall j | h.start <= j < h.start + h.headerBytes :: mem1[j] == mem[j]
    ensures HeaderRaw(mem1, h)
  {
  }

  lemma KeptOf(mem: seq<byte>, mem1: seq<byte>, h: Header, mem': seq<byte>, at: nat)
    requires h.start + h.headerBytes <= |mem| && h.start + h.headerBytes <= |mem1| && HeaderKept(mem1, h, mem', at)
    requires mem1[h.start..h.start + h.headerBytes] == mem[h.start..h.start + h.headerBytes]
    ensures HeaderKept(mem, h, mem', at)
  {
  }

  lemma InnerStep(mem: seq<byte>, mem1: seq<byte>, mem': seq<byte>, h: Header, from: nat)
    requires SameFrom(mem1, mem', from) && from <= h.start && HeaderKept(mem, h, mem1, 0)
    ensures HeaderKept(mem, h, mem', 0)
    ensures Verifies(mem1, h) ==> Verifies(mem', h)
  {
    hide Keeps, RfcChecksum;
    var s, n := h.start, h.headerBytes;
    assert s + n <= |mem1|;
    assert mem'[s..s + n] == mem1[s..s + n];
    assert mem'[0 + s..0 + s + n] == mem1[0 + s..0 + s + n];
  }

  /** Finishing a stack keeps what it does not fill in, of every header, and leaves every IPv4
      header with a checksum that verifies. */
  lemma {:induction false} FinishingKeeps(mem: seq<byte>, hs: seq<Header>, end: nat)
    requires Complete(mem, hs, end)
    ensures forall h | h in hs :: HasRoom(mem, h)
    ensures var mem' := FinishAll(mem, hs).0; HeadersKept(mem, hs, mem', 0) && AllVerify(mem', hs)
    decreases |hs|
  {
    hide FinishBytes, FinishTotal, HeaderKept, Verifies, HeaderRaw, HasRoom;
    RoomToFinish(mem, hs);
    if |hs| > 1 {
      CompleteTail(mem, hs, end);
      FinishingKeeps(mem, hs[1..], end);
      FinishedPlaces(mem, hs[1..], end);
      var (mem1, tail) := FinishAll(mem, hs[1..]);
      assert tail[0] == hs[1..][0].(totalBytes := Extent(hs[1..][0..]));
      FinishStep(mem, mem1, hs, tail[0], end);
    } else {
      LastKept(mem, hs[0]);
    }
  }

  lemma LastKept(mem: seq<byte>, h: Header)
    requires HeaderRaw(mem, h)
    ensures HeaderKept(mem, h, mem, 0)
  {
  }

  /** What an encapsulated packet keeps of the two it was made of. */
  lemma JoinKeeps(outer: seq<byte>, outerHs: seq<Header>, o: nat, inner: seq<byte>, innerHs: seq<Header>, n: nat,
                  mem: seq<byte>, mem': seq<byte>)
    requires OuterReady(outer, outerHs, o) && Complete(inner, innerHs, n) && Joined(mem, outer, o, inner, n)
    requires HeadersKept(mem, outerHs + ShiftAll(innerHs, o), mem', 0)
    ensures HeadersKept(outer, outerHs, mem', 0) && HeadersKept(inner, innerHs, mem', o)
  {
    hide OuterReady, Complete, Joined, HeaderKept, HeaderRaw;
    var hs := outerHs + ShiftAll(innerHs, o);
    forall i | 0 <= i < |outerHs|
      ensures HeaderKept(outer, outerHs[i], mem', 0)
    {
      OuterBytes(outer, outerHs, o, inner, n, mem, i);
      assert HeaderKept(mem, hs[i], mem', 0);
      KeptOf(outer, mem, outerHs[i], mem', 0);
    }
    forall i | 0 <= i < |innerHs|
      ensures HeaderKept(inner, innerHs[i], mem', o)
    {
      InnerBytes(outer, o, inner, innerHs, n, mem, i);
      assert hs[|outerHs| + i] == Shift(innerHs[i], o) && HeaderKept(mem, hs[|outerHs| + i], mem', 0);
      KeptShift(inner, mem, innerHs[i], mem', o);
    }
  }

  lemma KeptShift(inner: seq<byte>, mem: seq<byte>, h: Header, mem': seq<byte>, o: nat)
    requires SameBytes(inner, mem, h, o) && HeaderKept(mem, Shift(h, o), mem', 0)
    ensures HeaderKept(inner, h, mem', o)
  {
    hide Keeps;
    var s, n := h.start, h.headerBytes;
    assert mem'[0 + (s + o)..0 + (s + o) + n] == mem'[o + s..o + s + n];
  }

  lemma VerifyAgain(mem: seq<byte>, hs: seq<Header>, hs': seq<Header>, end: nat)
    requires AllVerify(mem, hs) && SamePlaces(hs, hs', end)
    ensures AllVerify(mem, hs')
  {
    hide RfcChecksum;
    forall i | 0 <= i < |hs'| && hs'[i].kind == IPV4
      ensures Verifies(mem, hs'[i])
    {
      assert hs'[i] == hs[i].(totalBytes := end - hs[i].start) && Verifies(mem, hs[i]);
    }
  }
}
