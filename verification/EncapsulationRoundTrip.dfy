/** When parsing an encapsulated packet gives back the encapsulator's own table. */
module EncapsulationRoundTrip {
  import opened Bytes
  import opened Splices
  import opened Packet
  import opened PacketParser
  import opened PacketGrammar
  import opened PacketParserProofs
  import opened Encapsulation

  function Shift(h: Header, d: nat): Header {
    h.(start := h.start + d)
  }

  function ShiftAll(hs: seq<Header>, d: nat): seq<Header> {
    seq(|hs|, i requires 0 <= i < |hs| => Shift(hs[i], d))
  }

  /** Outer headers as the *_header_append functions stack them up: any number, of any
      kinds, back to back from the start of the buffer. */
  ghost predicate OuterReady(mem: seq<byte>, hs: seq<Header>, bytes: nat) {
    && Stacked(mem, hs) && NoIpOptions(hs) && bytes <= |mem|
    && (hs == [] ==> bytes == 0)
    && (hs != [] ==> && hs[0].start == 0 && !IsLayer4(hs[|hs| - 1].kind)
                     && hs[|hs| - 1].start + hs[|hs| - 1].headerBytes == bytes)
  }

  function Pointer(h: Header, kind: Kind): Option<nat> {
    if h.kind == kind then Some(h.start) else None
  }

  /** The packet's pointers are those of its last two headers. */
  predicate Pointed(info: Info) {
    && |info.headers| > 1
    && var l4, ip := info.headers[|info.headers| - 1], info.headers[|info.headers| - 2];
       && info.ipv4 == Pointer(ip, IPV4) && info.ipv6 == Pointer(ip, IPV6)
       && info.tcp == Pointer(l4, TCP) && info.udp == Pointer(l4, UDP)
       && info.icmpv4 == Pointer(l4, ICMPV4) && info.icmpv6 == Pointer(l4, ICMPV6)
  }

  /** An inner packet as new_tcp_packet and its like build it. */
  ghost predicate InnerReady(mem: seq<byte>, info: Info) {
    && Complete(mem, info.headers, info.ipBytes) && NoIpOptions(info.headers) && info.ipBytes < |mem|
    && info.headers[0].start == 0 && Pointed(info)
  }

  // ---------------------------------------------------------------------
  // Headers are about their own bytes, wherever they are
  // ---------------------------------------------------------------------

  /** The same header bytes, d bytes further on. */
  ghost predicate SameBytes(mem: seq<byte>, mem': seq<byte>, h: Header, d: nat) {
    && h.start + h.headerBytes <= |mem| && h.start + d + h.headerBytes <= |mem'|
    && mem'[h.start + d..h.start + d + h.headerBytes] == mem[h.start..h.start + h.headerBytes]
  }

  lemma SameByte(mem: seq<byte>, mem': seq<byte>, h: Header, d: nat, k: nat)
    requires SameBytes(mem, mem', h, d) && k < h.headerBytes
    ensures mem'[h.start + d + k] == mem[h.start + k]
  {
    assert mem'[h.start + d..h.start + d + h.headerBytes][k] == mem[h.start..h.start + h.headerBytes][k];
  }

  lemma RawShift(mem: seq<byte>, mem': seq<byte>, h: Header, d: nat)
    requires HeaderRaw(mem, h) && SameBytes(mem, mem', h, d)
    ensures HeaderRaw(mem', Shift(h, d))
  {
    hide SameBytes;
    RawFits(mem, h);
    Fits(mem, mem', h, d);
    if h.kind == IPV4 {
      SameByte(mem, mem', h, d, 0);
      SameByte(mem, mem', h, d, 6);
      SameByte(mem, mem', h, d, 7);
    } else if h.kind == GRE {
      SameByte(mem, mem', h, d, 0);
      SameByte(mem, mem', h, d, 1);
    } else if h.kind == TCP {
      SameByte(mem, mem', h, d, 12);
    }
  }

  lemma Fits(mem: seq<byte>, mem': seq<byte>, h: Header, d: nat)
    requires SameBytes(mem, mem', h, d)
    ensures h.start + h.headerBytes <= |mem| && h.start + d + h.headerBytes <= |mem'|
  {
  }

  lemma StackShift(mem: seq<byte>, mem': seq<byte>, h: Header, d: nat)
    requires SameBytes(mem, mem', h, d)
    ensures h.start + h.headerBytes <= |mem| && h.start + d + h.headerBytes <= |mem'|
    ensures StackOf(mem, h.start, h.headerBytes) <==> StackOf(mem', h.start + d, h.headerBytes)
  {
    if h.headerBytes % 4 == 0 {
      forall i: nat | i < h.headerBytes / 4
        ensures MplsBottom(mem', h.start + d + 4 * i) <==> MplsBottom(mem, h.start + 4 * i)
      {
        SameByte(mem, mem', h, d, 4 * i + 2);
      }
    }
  }

  lemma LegalShift(mem: seq<byte>, mem': seq<byte>, h: Header, d: nat, end: nat)
    requires HeaderRaw(mem, h) && SameBytes(mem, mem', h, d)
    ensures HeaderLegal(mem', Shift(h, d), end + d) <==> HeaderLegal(mem, h, end)
    ensures Versioned(mem', Shift(h, d)) <==> Versioned(mem, h)
  {
    hide SameBytes, StackOf;
    Fits(mem, mem', h, d);
    if h.kind == MPLS {
      StackShift(mem, mem', h, d);
    } else if h.kind == UDP {
      SameByte(mem, mem', h, d, 4);
      SameByte(mem, mem', h, d, 5);
    } else if IsIp(h.kind) {
      SameByte(mem, mem', h, d, 0);
    }
  }

  lemma RawFits(mem: seq<byte>, h: Header)
    requires HeaderRaw(mem, h)
    ensures h.start + h.headerBytes <= |mem| && FixedBytes(h.kind) <= h.headerBytes
    ensures IsLayer4(h.kind) ==> h.headerBytes <= h.totalBytes
  {
  }

  /** Header i of a stack ends before the stack does. */
  lemma {:induction false} StackEnds(mem: seq<byte>, hs: seq<Header>, i: nat, j: nat)
    requires Stacked(mem, hs) && i <= j < |hs|
    ensures hs[i].start + hs[i].headerBytes <= hs[j].start + hs[j].headerBytes
    ensures i < j ==> hs[i].start + hs[i].headerBytes <= hs[j].start
    decreases j - i
  {
    hide HeaderRaw;
    if i < j {
      StackEnds(mem, hs, i + 1, j);
      assert Adjacent(hs[i + 1 - 1], hs[i + 1]);
    }
  }

  // ---------------------------------------------------------------------
  // Two packets side by side
  // ---------------------------------------------------------------------

  /** The two packets side by side: what packet_encapsulate copies together. */
  ghost predicate Joined(mem: seq<byte>, outer: seq<byte>, o: nat, inner: seq<byte>, n: nat) {
    && o <= |outer| && n <= |inner| && o + n < |mem|
    && mem[..o] == outer[..o] && mem[o..o + n] == inner[..n]
  }

  lemma OuterBytes(outer: seq<byte>, outerHs: seq<Header>, o: nat, inner: seq<byte>, n: nat, mem: seq<byte>, i: nat)
    requires OuterReady(outer, outerHs, o) && Joined(mem, outer, o, inner, n) && i < |outerHs|
    ensures SameBytes(outer, mem, outerHs[i], 0) && HeaderRaw(outer, outerHs[i]) && Shift(outerHs[i], 0) == outerHs[i]
  {
    hide HeaderRaw;
    var h := outerHs[i];
    StackEnds(outer, outerHs, i, |outerHs| - 1);
    SliceOfSlice(mem, 0, o, h.start, h.start + h.headerBytes);
    SliceOfSlice(outer, 0, o, h.start, h.start + h.headerBytes);
  }

  lemma InnerBytes(outer: seq<byte>, o: nat, inner: seq<byte>, innerHs: seq<Header>, n: nat, mem: seq<byte>, i: nat)
    requires Complete(inner, innerHs, n) && Joined(mem, outer, o, inner, n) && i < |innerHs|
    ensures SameBytes(inner, mem, innerHs[i], o) && HeaderRaw(inner, innerHs[i])
  {
    hide HeaderRaw;
    var h := innerHs[i];
    StackEnds(inner, innerHs, i, |innerHs| - 1);
    RawFits(inner, innerHs[|innerHs| - 1]);
    var e := h.start + h.headerBytes;
    SliceOfSlice(mem, o, o + n, h.start, e);
    SliceOfSlice(inner, 0, n, h.start, e);
  }

  /** Outer headers in front of a complete stack are a complete stack again. */
  lemma JoinIsComplete(outer: seq<byte>, outerHs: seq<Header>, o: nat,
                       inner: seq<byte>, innerHs: seq<Header>, n: nat, mem: seq<byte>)
    requires OuterReady(outer, outerHs, o) && Complete(inner, innerHs, n) && innerHs[0].start == 0
    requires Joined(mem, outer, o, inner, n)
    ensures Complete(mem, outerHs + ShiftAll(innerHs, o), o + n)
  {
    hide HeaderRaw, SameBytes;
    var hs := outerHs + ShiftAll(innerHs, o);
    forall i | 0 <= i < |hs|
      ensures HeaderRaw(mem, hs[i])
    {
      if i < |outerHs| {
        OuterBytes(outer, outerHs, o, inner, n, mem, i);
        RawShift(outer, mem, hs[i], 0);
      } else {
        InnerBytes(outer, o, inner, innerHs, n, mem, i - |outerHs|);
        RawShift(inner, mem, innerHs[i - |outerHs|], o);
      }
    }
    forall i | 0 < i < |hs|
      ensures Adjacent(hs[i - 1], hs[i])
    {
      if i < |outerHs| {
        assert Adjacent(outerHs[i - 1], outerHs[i]);
      } else if i > |outerHs| {
        var k := i - |outerHs|;
        assert Adjacent(innerHs[k - 1], innerHs[k]);
      }
    }
  }

  lemma JoinHasNoOptions(outerHs: seq<Header>, o: nat, innerHs: seq<Header>)
    requires NoIpOptions(outerHs) && NoIpOptions(innerHs)
    ensures NoIpOptions(outerHs + ShiftAll(innerHs, o))
  {
  }

  /** What has to hold of two packets so that the one may be sent around the other. */
  ghost predicate MayEncapsulate(outer: seq<byte>, outerHs: seq<Header>, inner: seq<byte>, innerHs: seq<Header>,
                                 o: nat, n: nat) {
    && |innerHs| > 0 && Nested(outer, outerHs, o + n) && Nested(inner, innerHs, n)
    && if outerHs == [] then Versioned(inner, innerHs[0])
       else Versioned(outer, outerHs[0]) && Carries(inner, outerHs[|outerHs| - 1], innerHs[0])
  }

  /** Header i of the packets side by side is as legal as it was. */
  lemma JoinHeader(outer: seq<byte>, outerHs: seq<Header>, o: nat,
                   inner: seq<byte>, innerHs: seq<Header>, n: nat, mem: seq<byte>, i: nat)
    requires OuterReady(outer, outerHs, o) && Complete(inner, innerHs, n) && Joined(mem, outer, o, inner, n)
    requires i < |outerHs| + |innerHs|
    ensures var h := (outerHs + ShiftAll(innerHs, o))[i];
            && (i < |outerHs| ==> (HeaderLegal(mem, h, o + n) <==> HeaderLegal(outer, h, o + n))
                                  && (Versioned(mem, h) <==> Versioned(outer, h)))
            && (i >= |outerHs| ==> (HeaderLegal(mem, h, o + n) <==> HeaderLegal(inner, innerHs[i - |outerHs|], n))
                                   && (Versioned(mem, h) <==> Versioned(inner, innerHs[i - |outerHs|])))
  {
    hide HeaderRaw, SameBytes, HeaderLegal, Versioned, Joined, OuterReady, Complete;
    if i < |outerHs| {
      OuterBytes(outer, outerHs, o, inner, n, mem, i);
      LegalShift(outer, mem, outerHs[i], 0, o + n);
    } else {
      InnerBytes(outer, o, inner, innerHs, n, mem, i - |outerHs|);
      LegalShift(inner, mem, innerHs[i - |outerHs|], o, n);
    }
  }

  /** Whether one header may carry another depends on the second one's version only. */
  lemma SameCarries(mem: seq<byte>, mem': seq<byte>, a: Header, a': Header, b: Header, b': Header)
    requires a.kind == a'.kind && b.kind == b'.kind && (Versioned(mem, b) <==> Versioned(mem', b'))
    ensures Carries(mem, a, b) <==> Carries(mem', a', b')
  {
  }

  lemma JoinCarries(outer: seq<byte>, outerHs: seq<Header>, o: nat,
                    inner: seq<byte>, innerHs: seq<Header>, n: nat, mem: seq<byte>, i: nat)
    requires OuterReady(outer, outerHs, o) && Complete(inner, innerHs, n) && Joined(mem, outer, o, inner, n)
    requires 0 < i < |outerHs| + |innerHs|
    ensures var hs, k := outerHs + ShiftAll(innerHs, o), |outerHs|;
            Carries(mem, hs[i - 1], hs[i])
            <==> if i < k then Carries(outer, outerHs[i - 1], outerHs[i])
                 else if i == k then Carries(inner, outerHs[k - 1], innerHs[0])
                 else Carries(inner, innerHs[i - k - 1], innerHs[i - k])
  {
    hide HeaderRaw, HeaderLegal, Versioned, Carries, Joined, OuterReady, Complete;
    JoinHeader(outer, outerHs, o, inner, innerHs, n, mem, i);
    var hs, k := outerHs + ShiftAll(innerHs, o), |outerHs|;
    if i < k {
      SameCarries(mem, outer, hs[i - 1], outerHs[i - 1], hs[i], outerHs[i]);
    } else if i == k {
      SameCarries(mem, inner, hs[i - 1], outerHs[k - 1], hs[i], innerHs[0]);
    } else {
      SameCarries(mem, inner, hs[i - 1], innerHs[i - k - 1], hs[i], innerHs[i - k]);
    }
  }

  /** The packets side by side are legal exactly when each is and they go together. */
  lemma JoinIsLegal(outer: seq<byte>, outerHs: seq<Header>, o: nat,
                    inner: seq<byte>, innerHs: seq<Header>, n: nat, mem: seq<byte>)
    requires OuterReady(outer, outerHs, o) && Complete(inner, innerHs, n) && Joined(mem, outer, o, inner, n)
    ensures Legal(mem, outerHs + ShiftAll(innerHs, o), o + n)
            <==> MayEncapsulate(outer, outerHs, inner, innerHs, o, n)
  {
    hide HeaderRaw, HeaderLegal, Versioned, Carries, Joined, ShiftAll, Stacked;
    var hs, k := outerHs + ShiftAll(innerHs, o), |outerHs|;
    assert |ShiftAll(innerHs, o)| == |innerHs| by {
      ShiftLength(innerHs, o);
    }
    JoinHeader(outer, outerHs, o, inner, innerHs, n, mem, 0);
    if Legal(mem, hs, o + n) {
      forall i | 0 <= i < |innerHs|
        ensures HeaderLegal(inner, innerHs[i], n)
      {
        JoinHeader(outer, outerHs, o, inner, innerHs, n, mem, k + i);
        assert HeaderLegal(mem, hs[k + i], o + n);
      }
      forall i | 0 < i < |innerHs|
        ensures Carries(inner, innerHs[i - 1], innerHs[i])
      {
        JoinCarries(outer, outerHs, o, inner, innerHs, n, mem, k + i);
        assert Carries(mem, hs[k + i - 1], hs[k + i]);
      }
      forall i | 0 <= i < k
        ensures HeaderLegal(outer, outerHs[i], o + n)
      {
        JoinHeader(outer, outerHs, o, inner, innerHs, n, mem, i);
        assert HeaderLegal(mem, hs[i], o + n);
      }
      forall i | 0 < i < k
        ensures Carries(outer, outerHs[i - 1], outerHs[i])
      {
        JoinCarries(outer, outerHs, o, inner, innerHs, n, mem, i);
        assert Carries(mem, hs[i - 1], hs[i]);
      }
      if k > 0 {
        JoinCarries(outer, outerHs, o, inner, innerHs, n, mem, k);
        assert Carries(mem, hs[k - 1], hs[k]);
      }
    }
    if MayEncapsulate(outer, outerHs, inner, innerHs, o, n) {
      forall i | 0 <= i < |hs|
        ensures HeaderLegal(mem, hs[i], o + n)
      {
        JoinHeader(outer, outerHs, o, inner, innerHs, n, mem, i);
      }
      forall i | 0 < i < |hs|
        ensures Carries(mem, hs[i - 1], hs[i])
      {
        JoinCarries(outer, outerHs, o, inner, innerHs, n, mem, i);
      }
    }
  }

  lemma ShiftLength(hs: seq<Header>, d: nat)
    ensures |ShiftAll(hs, d)| == |hs|
  {
  }

  // ---------------------------------------------------------------------
  // When a finished stack is parsed back
  // ---------------------------------------------------------------------

  /** Finishing leaves alone every header's first byte and all of the headers that have
      no finish function, and what is behind the last header. */
  lemma FinishSpares(mem: seq<byte>, hs: seq<Header>, i: nat, j: nat)
    requires Stacked(mem, hs) && i < |hs| && hs[i].start <= j < |mem|
    requires j == hs[i].start || FixedBytes(hs[i].kind) == 0
    requires j < hs[i].start + hs[i].headerBytes || i == |hs| - 1
    ensures forall h | h in hs :: HasRoom(mem, h)
    ensures FinishAll(mem, hs).0[j] == mem[j]
  {
    hide HeaderRaw, FixedBytes, HasRoom, FinishAll;
    RoomToFinish(mem, hs);
    forall k | 0 <= k < |hs|
      ensures !(hs[k].start < j < hs[k].start + FixedBytes(hs[k].kind))
    {
      RawFits(mem, hs[k]);
      if k < i {
        StackEnds(mem, hs, k, i);
      } else if i < k {
        StackEnds(mem, hs, i, k);
      }
    }
    FinishTouches(mem, hs, j);
  }

  /** Finishing leaves the layer 4 header and the payload alone. */
  lemma FinishSparesLayer4(mem: seq<byte>, hs: seq<Header>)
    requires |hs| > 0 && Stacked(mem, hs) && IsLayer4(hs[|hs| - 1].kind)
    ensures forall h | h in hs :: HasRoom(mem, h)
    ensures SameFrom(mem, FinishAll(mem, hs).0, hs[|hs| - 1].start)
  {
    hide HeaderRaw, HasRoom, FinishAll, Stacked;
    RoomToFinish(mem, hs);
    forall j | hs[|hs| - 1].start <= j < |mem|
      ensures FinishAll(mem, hs).0[j] == mem[j]
    {
      FinishSpares(mem, hs, |hs| - 1, j);
    }
  }

  /** Every header of a table is right and announces the next. */
  lemma {:induction false} ChainAt(mem: seq<byte>, hs: seq<Header>, end: nat, i: nat)
    requires end < |mem| && Chain(mem, hs, end) && i < |hs|
    ensures HeaderOk(mem, hs[i], end)
    ensures i + 1 < |hs| ==> hs[i + 1].start <= end && Follows(mem, hs[i], hs[i + 1], end)
  {
    hide HeaderOk, Follows;
    if i > 0 {
      ChainAt(mem, hs[1..], end, i - 1);
    }
  }

  /** Only what may be carried is announced. */
  lemma FollowsCarries(mem: seq<byte>, a: Header, b: Header, end: nat)
    requires end < |mem| && HeaderOk(mem, a, end) && b.start <= end && Follows(mem, a, b, end)
    ensures Carries(mem, a, b)
  {
    hide HeaderOk;
  }

  lemma VersionKept(mem: seq<byte>, hs: seq<Header>, i: nat)
    requires Stacked(mem, hs) && i < |hs|
    ensures forall h | h in hs :: HasRoom(mem, h)
    ensures Versioned(FinishAll(mem, hs).0, hs[i]) <==> Versioned(mem, hs[i])
  {
    hide HeaderRaw, HasRoom, FinishAll, Stacked;
    RoomToFinish(mem, hs);
    assert HeaderRaw(mem, hs[i]) by {
      RawAt(mem, hs, i);
    }
    if IsIp(hs[i].kind) {
      RawIp(mem, hs[i]);
      FinishSpares(mem, hs, i, hs[i].start);
    }
  }

  lemma RawAt(mem: seq<byte>, hs: seq<Header>, i: nat)
    requires Stacked(mem, hs) && i < |hs|
    ensures HeaderRaw(mem, hs[i])
  {
  }

  lemma RawIp(mem: seq<byte>, h: Header)
    requires HeaderRaw(mem, h) && IsIp(h.kind)
    ensures h.start < h.start + h.headerBytes <= |mem|
  {
  }

  /** A header of the finished table was legal before it was finished. */
  lemma WasLegal(mem: seq<byte>, hs: seq<Header>, end: nat, i: nat)
    requires Complete(mem, hs, end) && end < |mem| && i < |hs| && hs[i].start <= end
    requires NoIpOptions(hs) && forall h | h in hs :: HasRoom(mem, h)
    requires HeaderOk(FinishAll(mem, hs).0, hs[i].(totalBytes := end - hs[i].start), end)
    ensures HeaderLegal(mem, hs[i], end)
  {
    hide HasRoom, FinishAll, Stacked, StackOf;
    var h, mem' := hs[i], FinishAll(mem, hs).0;
    RawAt(mem, hs, i);
    if h.kind == MPLS {
      forall j | h.start <= j < h.start + h.headerBytes
        ensures mem'[j] == mem[j]
      {
        FinishSpares(mem, hs, i, j);
      }
      assert mem'[h.start..h.start + h.headerBytes] == mem[h.start..h.start + h.headerBytes];
      StackShift(mem', mem, h, 0);
    } else if h.kind == UDP {
      UdpIsLast(mem, hs, end, i);
      FinishSpares(mem, hs, i, h.start + 4);
      FinishSpares(mem, hs, i, h.start + 5);
    }
  }

  lemma UdpIsLast(mem: seq<byte>, hs: seq<Header>, end: nat, i: nat)
    requires Complete(mem, hs, end) && i < |hs| && IsLayer4(hs[i].kind)
    ensures i == |hs| - 1 && hs[i].totalBytes == end - hs[i].start
  {
    assert i + 1 < |hs| ==> Adjacent(hs[i + 1 - 1], hs[i + 1]);
  }

  /** If finishing yields a table then the stack was legal. */
  lemma TableWasLegal(mem: seq<byte>, hs: seq<Header>, end: nat)
    requires Complete(mem, hs, end) && end < |mem| && NoIpOptions(hs)
    requires forall h | h in hs :: HasRoom(mem, h)
    requires var (mem', hs') := FinishAll(mem, hs); Table(mem', hs', end, IpLayer)
    ensures Legal(mem, hs, end)
  {
    hide HeaderRaw, HasRoom, FinishAll, Stacked, HeaderOk, HeaderLegal, Follows, Carries, Chain, NoIpOptions,
         FinishedTable;
    FinishedPlaces(mem, hs, end);
    var (mem', hs') := FinishAll(mem, hs);
    PlacesToTheEnd(mem, hs, hs', end);
    VersionKept(mem, hs, 0);
    assert hs'[0] == hs[0].(totalBytes := end - hs[0].start);
    forall i | 0 <= i < |hs|
      ensures HeaderLegal(mem, hs[i], end)
    {
      ChainAt(mem', hs', end, i);
      assert hs'[i] == hs[i].(totalBytes := end - hs[i].start);
      WasLegal(mem, hs, end, i);
    }
    forall i | 0 < i < |hs|
      ensures Carries(mem, hs[i - 1], hs[i])
    {
      ChainAt(mem', hs', end, i - 1);
      FollowsCarries(mem', hs'[i - 1], hs'[i], end);
      VersionKept(mem, hs, i);
      assert hs'[i - 1] == hs[i - 1].(totalBytes := end - hs[i - 1].start);
      assert hs'[i] == hs[i].(totalBytes := end - hs[i].start);
      SameCarries(mem', mem, hs'[i - 1], hs[i - 1], hs'[i], hs[i]);
    }
  }

  /** The metadata that goes with a finished table of a packet of the given length. */
  function OwnInfo(bytes: nat, hs: seq<Header>): Info
    requires |hs| > 0
  {
    Describe(NewInfo(bytes), hs).(ipBytes := bytes)
  }

  /** A complete stack of at most six headers, once finished, is parsed back with exactly
      the finished table and the packet's length if and only if its data ends where the
      packet does and it was legal to begin with. */
  lemma FinishedStackParsesIff(mem: seq<byte>, hs: seq<Header>, end: nat, bytes: nat)
    requires Complete(mem, hs, end) && bytes < |mem| && hs[0].start == 0 && |hs| <= PACKET_MAX_HEADERS
    ensures forall h | h in hs :: HasRoom(mem, h)
    ensures var (mem', hs') := FinishAll(mem, hs);
            && FinishedTable(hs, hs')
            && (ParsePacket(mem', bytes, bytes, IpLayer) == Parsed(OK, OwnInfo(bytes, hs'))
                <==> end == bytes && Legal(mem, hs, end))
  {
    hide HeaderRaw, HasRoom, FinishAll, FinishedTable, Stacked, Nested, NoIpOptions, Versioned, ParsePacket, Describe;
    FinishedPlaces(mem, hs, end);
    var (mem', hs') := FinishAll(mem, hs);
    FinishedEnds(hs, hs');
    if end == bytes && Legal(mem, hs, end) {
      FinishedStack(mem, hs, end);
      VersionKept(mem, hs, 0);
      SameVersion(mem', hs[0], hs'[0]);
      ParserIsComplete(mem', end, hs', end, IpLayer);
      NestedHasNoOptions(mem, hs, end);
      ExtentReaches(mem, hs, end);
      LegalIsNotAlone(mem, hs, end);
      DescribeFields(end, hs');
    }
    if ParsePacket(mem', bytes, bytes, IpLayer) == Parsed(OK, OwnInfo(bytes, hs')) {
      ParserIsSound(mem', bytes, bytes, IpLayer);
      DescribedHeaders(bytes, hs');
      TableReaches(mem', hs', bytes);
      ExtentReaches(mem, hs, end);
      TableWasLegal(mem, hs, end);
    }
  }

  lemma FinishedEnds(hs: seq<Header>, hs': seq<Header>)
    requires FinishedTable(hs, hs') && |hs| > 0
    ensures hs'[0] == hs[0].(totalBytes := Extent(hs)) && hs'[|hs| - 1] == hs[|hs| - 1]
  {
    var n := |hs| - 1;
    assert hs[0..] == hs && hs[n..] == [hs[n]];
    assert hs'[n] == hs[n].(totalBytes := Extent(hs[n..]));
  }

  /** The metadata of a parsed packet gives the length of its outermost header, and its
      last header ends inside the packet. */
  lemma TableReaches(mem: seq<byte>, hs: seq<Header>, end: nat)
    requires end < |mem| && Table(mem, hs, end, IpLayer)
    ensures Describe(NewInfo(end), hs).ipBytes == hs[0].totalBytes
    ensures hs[|hs| - 1].start + hs[|hs| - 1].totalBytes <= end
  {
    hide HeaderOk, Follows;
    TableShape(mem, hs, end, |hs| - 1);
    assert |hs| > 1;
    DescribeFields(end, hs);
  }

  lemma LegalIsNotAlone(mem: seq<byte>, hs: seq<Header>, end: nat)
    requires Complete(mem, hs, end) && Legal(mem, hs, end)
    ensures |hs| > 1 && IsIp(hs[0].kind)
  {
    hide HeaderRaw, Nested;
  }

  lemma SameVersion(mem: seq<byte>, h: Header, h': Header)
    requires Versioned(mem, h) && h.kind == h'.kind && h.start == h'.start
    ensures Versioned(mem, h') && h'.start < |mem| && VersionIs(mem, h')
  {
  }

  lemma DescribedHeaders(bytes: nat, hs: seq<Header>)
    requires |hs| > 0
    ensures Describe(NewInfo(bytes), hs).headers == hs
  {
  }

  // ---------------------------------------------------------------------
  // The metadata
  // ---------------------------------------------------------------------

  /** The metadata packet_encapsulate hands over with the packet: the finished
      table, the sum of the lengths and the inner packet's pointers, moved. */
  function Encapsulated(inner: Info, o: nat, hs': seq<Header>): Info {
    Info(o + inner.ipBytes, 0, o + inner.ipBytes, hs',
         Move(inner.ipv4, o), Move(inner.ipv6, o), Move(inner.tcp, o), Move(inner.udp, o),
         Move(inner.icmpv4, o), Move(inner.icmpv6, o))
  }

  function Move(p: Option<nat>, o: nat): Option<nat> {
    if p.Some? then Some(p.value + o) else None
  }

  lemma EncapsulatedIsOwn(inner: Info, o: nat, outerHs: seq<Header>, hs': seq<Header>)
    requires Pointed(inner) && FinishedTable(outerHs + ShiftAll(inner.headers, o), hs')
    ensures Encapsulated(inner, o, hs') == OwnInfo(o + inner.ipBytes, hs')
  {
    hide Describe, FinishedTable;
    LastPlaces(inner.headers, o, outerHs, hs');
    DescribeFields(o + inner.ipBytes, hs');
  }

  /** Where the last two headers end up. */
  lemma LastPlaces(hs: seq<Header>, o: nat, outerHs: seq<Header>, hs': seq<Header>)
    requires |hs| > 1 && FinishedTable(outerHs + ShiftAll(hs, o), hs')
    ensures var n, m := |hs'|, |hs|;
            && n >= m && hs'[n - 1].start == hs[m - 1].start + o && hs'[n - 1].kind == hs[m - 1].kind
            && hs'[n - 2].start == hs[m - 2].start + o && hs'[n - 2].kind == hs[m - 2].kind
  {
    hide Extent;
    var all := outerHs + ShiftAll(hs, o);
    var n, m := |all|, |hs|;
    assert all[n - 1] == Shift(hs[m - 1], o) && all[n - 2] == Shift(hs[m - 2], o);
    assert hs'[n - 1] == all[n - 1].(totalBytes := Extent(all[n - 1..]));
    assert hs'[n - 2] == all[n - 2].(totalBytes := Extent(all[n - 2..]));
  }

  /** The metadata of a table, field by field. */
  lemma DescribeFields(bytes: nat, hs: seq<Header>)
    requires |hs| > 1
    ensures var d := Describe(NewInfo(bytes), hs);
            && d.bufferBytes == bytes && d.l2Bytes == 0 && d.headers == hs && Pointed(d)
            && (IsIp(hs[0].kind) ==> d.ipBytes == hs[0].totalBytes)
  {
    hide HeaderBytes;
    assert [] + hs == hs;
  }
}
