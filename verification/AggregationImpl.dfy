/** aggregate_packets (packet.c) on packet buffers. */
module AggregationImpl {
  import opened Bytes
  import opened Splices
  import opened Packet
  import opened PacketParser
  import opened PacketGrammar
  import opened PacketParserProofs
  import opened PacketParserImpl
  import opened Encapsulation
  import opened EncapsulationRoundTrip
  import opened EncapsulationImpl
  import opened Aggregation
  import opened AggregationTheorems

  // ---------------------------------------------------------------------
  // Sniffed packets
  // ---------------------------------------------------------------------

  /** A packet that parse_packet accepted with this metadata. */
  ghost predicate IsParsed(f: Fragment) {
    && f.info.bufferBytes < |f.mem|
    && ParsePacket(f.mem, f.info.bufferBytes, f.info.bufferBytes, IpLayer) == Parsed(OK, f.info)
  }

  /** The parser's guarantees about it. */
  lemma ParsedTable(f: Fragment)
    requires IsParsed(f)
    ensures f.info.bufferBytes < |f.mem| && Chain(f.mem, f.info.headers, f.info.bufferBytes)
    ensures 1 < |f.info.headers| <= PACKET_MAX_HEADERS && Pointed(f.info) && f.info.l2Bytes == 0
    ensures f.info.headers[0].start == 0 && Versioned(f.mem, f.info.headers[0])
    ensures f.info.ipBytes == f.info.headers[0].totalBytes
  {
    hide ParsePacket, Describe, Chain;
    var n := f.info.bufferBytes;
    ParserIsSound(f.mem, n, n, IpLayer);
    IpIsNotAlone(f.mem, f.info.headers, n);
    DescribeFields(n, f.info.headers);
  }

  lemma IpIsNotAlone(mem: seq<byte>, hs: seq<Header>, end: nat)
    requires end < |mem| && Table(mem, hs, end, IpLayer)
    ensures |hs| > 1
  {
  }

  /** Every packet that the parser accepts at the IP layer is a fragment, and its payload
      starts behind its last header. */
  lemma ParsedIsFragment(f: Fragment)
    requires IsParsed(f)
    ensures IsFragment(f) && PayloadStart(f) == Last(f).start + Last(f).headerBytes
  {
    hide IsParsed, Chain, Versioned, Pointed, HeaderOk;
    ParsedTable(f);
    var hs, n := f.info.headers, f.info.bufferBytes;
    forall i | 0 <= i < |hs|
      ensures HeaderInside(f.mem, hs[i])
    {
      ChainAt(f.mem, hs, n, i);
      OkIsInside(f.mem, hs[i], n);
    }
    TableShape(f.mem, hs, n, 0);
    TableShape(f.mem, hs, n, |hs| - 2);
    TableShape(f.mem, hs, n, |hs| - 1);
    ChainAt(f.mem, hs, n, |hs| - 1);
    OkIsInside(f.mem, hs[|hs| - 1], n);
  }

  lemma OkIsInside(mem: seq<byte>, h: Header, end: nat)
    requires end < |mem| && HeaderOk(mem, h, end)
    ensures HeaderInside(mem, h)
    ensures h.kind == TCP ==> HighNibble(mem[h.start + 12]) * 4 == h.headerBytes
    ensures IsLayer4(h.kind) && h.kind != TCP ==> h.headerBytes == MinimumBytes(h.kind)
  {
  }

  lemma OkIsRaw(mem: seq<byte>, h: Header, end: nat)
    requires end < |mem| && HeaderOk(mem, h, end)
    ensures HeaderRaw(mem, h)
  {
  }

  lemma ParsedIsStacked(f: Fragment)
    requires IsParsed(f)
    ensures Stacked(f.mem, f.info.headers)
  {
    hide IsParsed, Chain, Versioned, Pointed, HeaderOk, HeaderRaw;
    ParsedTable(f);
    var hs, n := f.info.headers, f.info.bufferBytes;
    forall i | 0 <= i < |hs|
      ensures HeaderRaw(f.mem, hs[i])
    {
      ChainAt(f.mem, hs, n, i);
      OkIsRaw(f.mem, hs[i], n);
    }
    forall i | 0 < i < |hs|
      ensures Adjacent(hs[i - 1], hs[i])
    {
      TableShape(f.mem, hs, n, i - 1);
    }
  }

  // ---------------------------------------------------------------------
  // The aggregate before its headers are finished
  // ---------------------------------------------------------------------

  /** A buffer with the TCP header at s given a sequence number and the CWR flag of the
      given flags. */
  function WithSeqAndCwr(m: seq<byte>, s: nat, seqNumber: seq<byte>, flags: byte): (r: seq<byte>)
    requires s + 20 <= |m| && |seqNumber| == 4
    ensures |r| == |m|
  {
    Splice(Splice(m, s + 4, seqNumber), s + 13, [m[s + 13] % 0x80 + flags / 0x80 * 0x80])
  }

  /** The two ends of a list that can be aggregated: packets with the same layer 4
      protocol, of which the last gives the headers. */
  ghost predicate Ends(first: Fragment, last: Fragment) {
    && IsFragment(first) && IsParsed(last) && IsFragment(last)
    && Last(first).kind == Last(last).kind && PayloadStart(last) == Last(last).start + Last(last).headerBytes
  }

  /** The layer 4 header of the aggregate: that of the last fragment, if TCP with the
      sequence number and the CWR flag of the first. */
  function MergedHeader(first: Fragment, last: Fragment): (b: seq<byte>)
    requires IsFragment(first) && IsFragment(last) && Last(first).kind == Last(last).kind
    requires PayloadStart(last) == Last(last).start + Last(last).headerBytes
    ensures |b| == Last(last).headerBytes
  {
    var s, t := Last(last).start, Last(first).start;
    var b := last.mem[s..PayloadStart(last)];
    if Last(last).kind == TCP then WithSeqAndCwr(b, 0, first.mem[t + 4..t + 8], first.mem[t + 13]) else b
  }

  ghost predicate RawAggregate(m: seq<byte>, first: Fragment, last: Fragment, payload: seq<byte>)
    requires Ends(first, last)
  {
    var s, n := Last(last).start, PayloadStart(last) + |payload|;
    && |m| == n + 1
    && m[..s] == last.mem[..s]
    && m[s..PayloadStart(last)] == MergedHeader(first, last)
    && m[PayloadStart(last)..n] == payload
  }

  /** The header table with every total_bytes enlarged. */
  function Enlarged(hs: seq<Header>, extra: nat): seq<Header> {
    seq(|hs|, i requires 0 <= i < |hs| => hs[i].(totalBytes := hs[i].totalBytes + extra))
  }

  /** Where the data of the enlarged layer 4 header ends. */
  function EnlargedEnd(last: Fragment, extra: nat): nat
    requires |last.info.headers| > 0
  {
    Last(last).start + Last(last).totalBytes + extra
  }

  lemma OuterBytesStay(m: seq<byte>, first: Fragment, last: Fragment, payload: seq<byte>, i: nat)
    requires Ends(first, last) && RawAggregate(m, first, last, payload) && i < |last.info.headers| - 1
    ensures SameBytes(last.mem, m, last.info.headers[i], 0) && Shift(last.info.headers[i], 0) == last.info.headers[i]
  {
    hide HeaderRaw, IsFragment, IsParsed, MergedHeader;
    ParsedIsStacked(last);
    var hs, s := last.info.headers, Last(last).start;
    var h := hs[i];
    StackEnds(last.mem, hs, i, |hs| - 1);
    RawAt(last.mem, hs, |hs| - 1);
    RawFits(last.mem, hs[|hs| - 1]);
    SliceOfSlice(m, 0, s, h.start, h.start + h.headerBytes);
    SliceOfSlice(last.mem, 0, s, h.start, h.start + h.headerBytes);
  }

  /** The bytes of the layer 4 header that the parser looks at are the last fragment's. */
  lemma Layer4BytesStay(m: seq<byte>, first: Fragment, last: Fragment, payload: seq<byte>)
    requires Ends(first, last) && RawAggregate(m, first, last, payload)
    ensures var h := Last(last);
            && h.start + h.headerBytes < |m| && MinimumBytes(h.kind) <= h.headerBytes
            && (h.kind == TCP ==> m[h.start + 12] == last.mem[h.start + 12])
            && (h.kind == UDP ==> Be16(m, h.start + 4) == Be16(last.mem, h.start + 4))
  {
    hide IsParsed;
    var h, e := Last(last), PayloadStart(last);
    var b := MergedHeader(first, last);
    assert HeaderInside(last.mem, h);
    assert forall k | 0 <= k < h.headerBytes :: m[h.start + k] == m[h.start..e][k] == b[k];
    assert h.kind == TCP ==> b[12] == last.mem[h.start..e][12] == last.mem[h.start + 12];
    assert h.kind == UDP ==> m[h.start + 4] == last.mem[h.start + 4] && m[h.start + 5] == last.mem[h.start + 5];
  }

  lemma RawTotal(mem: seq<byte>, h: Header, t: nat)
    requires HeaderRaw(mem, h) && !IsLayer4(h.kind)
    ensures HeaderRaw(mem, h.(totalBytes := t))
  {
  }

  lemma Layer4IsRaw(mem: seq<byte>, m: seq<byte>, h: Header, t: nat)
    requires HeaderRaw(mem, h) && IsLayer4(h.kind) && h.totalBytes <= t && h.start + h.headerBytes <= |m|
    requires h.kind == TCP ==> m[h.start + 12] == mem[h.start + 12]
    ensures HeaderRaw(m, h.(totalBytes := t))
  {
  }

  /** The unfinished aggregate is a complete stack. */
  lemma AggregateIsComplete(m: seq<byte>, first: Fragment, last: Fragment, payload: seq<byte>, extra: nat)
    requires Ends(first, last) && RawAggregate(m, first, last, payload)
    ensures Complete(m, Enlarged(last.info.headers, extra), EnlargedEnd(last, extra))
  {
    hide HeaderRaw, IsFragment, IsParsed, MergedHeader, RawAggregate, PayloadStart, SameBytes;
    ParsedIsStacked(last);
    LastIsLayer4(last);
    var hs := last.info.headers;
    var hs' := Enlarged(hs, extra);
    forall i | 0 <= i < |hs'|
      ensures HeaderRaw(m, hs'[i])
    {
      RawAt(last.mem, hs, i);
      if i < |hs| - 1 {
        OuterBytesStay(m, first, last, payload, i);
        RawShift(last.mem, m, hs[i], 0);
        assert Adjacent(hs[i + 1 - 1], hs[i + 1]);
        RawTotal(m, hs[i], hs[i].totalBytes + extra);
      } else {
        Layer4BytesStay(m, first, last, payload);
        Layer4IsRaw(last.mem, m, hs[i], hs[i].totalBytes + extra);
      }
    }
    forall i | 0 < i < |hs'|
      ensures Adjacent(hs'[i - 1], hs'[i])
    {
      assert Adjacent(hs[i - 1], hs[i]);
    }
  }

  lemma LastIsLayer4(f: Fragment)
    requires IsFragment(f)
    ensures |f.info.headers| > 1 && IsLayer4(Last(f).kind) && HeaderInside(f.mem, Last(f))
  {
    hide HeaderInside;
  }

  // ---------------------------------------------------------------------
  // When the aggregate is parsed back
  // ---------------------------------------------------------------------

  /** What has to hold of the last fragment and the payload for the aggregate to be
      parsed back: the last fragment's lengths agree with each other, no IPv4 header has
      options, nobody enlarges the datagram a UDP header gives the length of, and an
      outermost IPv4 header has room for the new length. */
  predicate Reparses(last: Fragment, extra: nat)
    requires |last.info.headers| > 0
  {
    && EnlargedEnd(last, extra) == last.info.ipBytes + extra && NoIpOptions(last.info.headers)
    && (Last(last).kind == UDP ==> extra == 0)
    && (last.info.headers[0].kind == IPV4 ==> last.info.ipBytes + extra <= 0xffff)
  }

  /** Header i of the aggregate, seen from the last fragment. */
  lemma AggregateHeader(m: seq<byte>, first: Fragment, last: Fragment, payload: seq<byte>, extra: nat, i: nat)
    requires Ends(first, last) && RawAggregate(m, first, last, payload) && i < |last.info.headers|
    ensures var h := last.info.headers[i];
            var h' := Enlarged(last.info.headers, extra)[i];
            && (Versioned(m, h') <==> Versioned(last.mem, h))
            && (h.kind == MPLS ==> HeaderLegal(m, h', EnlargedEnd(last, extra)))
            && (h.kind == UDP ==> (HeaderLegal(m, h', EnlargedEnd(last, extra)) <==> extra == 0))
  {
    hide HeaderRaw, IsFragment, IsParsed, MergedHeader, RawAggregate, PayloadStart, SameBytes, StackOf, Chain;
    ParsedIsStacked(last);
    ParsedTable(last);
    LastIsLayer4(last);
    var hs, end := last.info.headers, last.info.bufferBytes;
    var h := hs[i];
    RawAt(last.mem, hs, i);
    ChainAt(last.mem, hs, end, i);
    if i < |hs| - 1 {
      OuterBytesStay(m, first, last, payload, i);
      LegalShift(last.mem, m, h, 0, end);
      TableShape(last.mem, hs, end, i);
    } else {
      Layer4BytesStay(m, first, last, payload);
    }
  }

  lemma FragmentCarries(m: seq<byte>, first: Fragment, last: Fragment, payload: seq<byte>, extra: nat, i: nat)
    requires Ends(first, last) && RawAggregate(m, first, last, payload) && 0 < i < |last.info.headers|
    ensures Carries(m, Enlarged(last.info.headers, extra)[i - 1], Enlarged(last.info.headers, extra)[i])
  {
    hide HeaderRaw, HeaderLegal, HeaderOk, IsFragment, IsParsed, MergedHeader, RawAggregate, PayloadStart, Chain,
         Follows, Versioned, Carries;
    ParsedTable(last);
    var hs, end := last.info.headers, last.info.bufferBytes;
    ChainAt(last.mem, hs, end, i - 1);
    FollowsCarries(last.mem, hs[i - 1], hs[i], end);
    AggregateHeader(m, first, last, payload, extra, i);
    SameCarries(last.mem, m, hs[i - 1], Enlarged(hs, extra)[i - 1], hs[i], Enlarged(hs, extra)[i]);
  }

  lemma EnlargedOptions(hs: seq<Header>, extra: nat)
    ensures NoIpOptions(Enlarged(hs, extra)) <==> NoIpOptions(hs)
  {
    var hs' := Enlarged(hs, extra);
    assert forall i | 0 <= i < |hs| :: hs'[i].kind == hs[i].kind && hs'[i].headerBytes == hs[i].headerBytes;
  }

  lemma AggregateIsLegal(m: seq<byte>, first: Fragment, last: Fragment, payload: seq<byte>, extra: nat)
    requires Ends(first, last) && RawAggregate(m, first, last, payload)
    requires AssertsHold(Enlarged(last.info.headers, extra))
    requires EnlargedEnd(last, extra) == last.info.ipBytes + extra
    ensures Legal(m, Enlarged(last.info.headers, extra), last.info.ipBytes + extra) <==> Reparses(last, extra)
  {
    hide HeaderRaw, StackOf, IsFragment, IsParsed, MergedHeader, RawAggregate, PayloadStart, Chain, Carries, Stacked,
         AssertsHold, LengthsFit, Pointed, NoIpOptions;
    ParsedTable(last);
    AggregateIsComplete(m, first, last, payload, extra);
    LastIsLayer4(last);
    var hs, end := last.info.headers, last.info.ipBytes + extra;
    var hs' := Enlarged(hs, extra);
    EnlargedOptions(hs, extra);
    AggregateHeader(m, first, last, payload, extra, 0);
    if Legal(m, hs', end) {
      NestedHasNoOptions(m, hs', end);
      assert HeaderLegal(m, hs'[0], end) && HeaderLegal(m, hs'[|hs| - 1], end);
      AggregateHeader(m, first, last, payload, extra, |hs| - 1);
    }
    if Reparses(last, extra) {
      AssertsAreLengths(m, hs', end);
      forall i | 0 <= i < |hs'|
        ensures HeaderLegal(m, hs'[i], end)
      {
        AggregateHeader(m, first, last, payload, extra, i);
        SizeIsLegal(m, hs', end, i);
        Layer4IsLast(m, hs', end, i);
        OptionsAt(hs', i);
      }
      forall i | 0 < i < |hs'|
        ensures Carries(m, hs'[i - 1], hs'[i])
      {
        FragmentCarries(m, first, last, payload, extra, i);
      }
    }
  }

  lemma OptionsAt(hs: seq<Header>, i: nat)
    requires NoIpOptions(hs) && i < |hs|
    ensures hs[i].kind == IPV4 ==> hs[i].headerBytes == 20
  {
  }

  lemma Layer4IsLast(mem: seq<byte>, hs: seq<Header>, end: nat, i: nat)
    requires Complete(mem, hs, end) && i < |hs|
    ensures IsLayer4(hs[i].kind) ==> i == |hs| - 1
  {
    if IsLayer4(hs[i].kind) {
      UdpIsLast(mem, hs, end, i);
    }
  }

  /** The metadata that packet_duplicate_info and the finished headers amount to. */
  function AggregateInfo(last: Info, end: nat, hs': seq<Header>): Info {
    last.(bufferBytes := end, ipBytes := end, headers := hs')
  }

  lemma AggregateInfoIsOwn(info: Info, extra: nat, end: nat, hs': seq<Header>)
    requires Pointed(info) && info.l2Bytes == 0 && FinishedTable(Enlarged(info.headers, extra), hs')
    ensures AggregateInfo(info, end, hs') == OwnInfo(end, hs')
  {
    hide Describe, Extent;
    var all, n := Enlarged(info.headers, extra), |info.headers|;
    assert hs'[n - 1] == all[n - 1].(totalBytes := Extent(all[n - 1..]));
    assert hs'[n - 2] == all[n - 2].(totalBytes := Extent(all[n - 2..]));
    DescribeFields(end, hs');
  }

  /** What the finished aggregate is parsed to. */
  lemma AggregateParsesIff(m: seq<byte>, first: Fragment, last: Fragment, payload: seq<byte>, extra: nat)
    requires Ends(first, last) && RawAggregate(m, first, last, payload)
    requires last.info.ipBytes + extra == PayloadStart(last) + |payload|
    requires AssertsHold(Enlarged(last.info.headers, extra))
    ensures var hs, end := Enlarged(last.info.headers, extra), last.info.ipBytes + extra;
            && end < |m| && (forall h | h in hs :: HasRoom(m, h))
            && var (m', hs') := FinishAll(m, hs);
               ParsePacket(m', end, end, IpLayer) == Parsed(OK, AggregateInfo(last.info, end, hs'))
               <==> Reparses(last, extra)
  {
    hide HeaderRaw, IsFragment, IsParsed, MergedHeader, PayloadStart, Chain, Stacked, AssertsHold, Pointed, Legal,
         ParsePacket, FinishAll, FinishedTable, Describe, RawAggregate, NoIpOptions;
    ParsedTable(last);
    RawLength(m, first, last, payload);
    AggregateIsComplete(m, first, last, payload, extra);
    var hs, end := Enlarged(last.info.headers, extra), last.info.ipBytes + extra;
    FinishedStackParsesIff(m, hs, EnlargedEnd(last, extra), end);
    AggregateInfoIsOwn(last.info, extra, end, FinishAll(m, hs).1);
    if EnlargedEnd(last, extra) == end {
      AggregateIsLegal(m, first, last, payload, extra);
    }
  }

  lemma RawLength(m: seq<byte>, first: Fragment, last: Fragment, payload: seq<byte>)
    requires Ends(first, last) && RawAggregate(m, first, last, payload)
    ensures |m| == PayloadStart(last) + |payload| + 1
    ensures m[Last(last).start..PayloadStart(last)] == MergedHeader(first, last)
    ensures m[PayloadStart(last)..PayloadStart(last) + |payload|] == payload
  {
    hide IsFragment, MergedHeader, IsParsed;
  }

  /** The merged header and all payload bytes survive the finishing. */
  lemma AggregateKeeps(m: seq<byte>, first: Fragment, last: Fragment, payload: seq<byte>, extra: nat)
    requires Ends(first, last) && RawAggregate(m, first, last, payload)
    ensures var hs, s, e := Enlarged(last.info.headers, extra), Last(last).start, PayloadStart(last);
            && (forall h | h in hs :: HasRoom(m, h)) && e + |payload| < |m|
            && FinishAll(m, hs).0[s..e] == MergedHeader(first, last)
            && FinishAll(m, hs).0[e..e + |payload|] == payload
            && FinishedTable(hs, FinishAll(m, hs).1)
  {
    hide HeaderRaw, IsFragment, IsParsed, MergedHeader, PayloadStart, Stacked, FinishAll, FinishedTable, RawAggregate;
    RawLength(m, first, last, payload);
    AggregateIsComplete(m, first, last, payload, extra);
    LastIsLayer4(last);
    var hs, s, e := Enlarged(last.info.headers, extra), Last(last).start, PayloadStart(last);
    FinishSparesLayer4(m, hs);
    FinishedPlaces(m, hs, EnlargedEnd(last, extra));
    SliceFrom(m, FinishAll(m, hs).0, s, s, e);
    SliceFrom(m, FinishAll(m, hs).0, s, e, e + |payload|);
  }

  lemma SliceFrom(m: seq<byte>, m': seq<byte>, from: nat, lo: nat, hi: nat)
    requires SameFrom(m, m', from) && from <= lo <= hi <= |m|
    ensures m'[lo..hi] == m[lo..hi]
  {
  }

  // ---------------------------------------------------------------------
  // The copies
  // ---------------------------------------------------------------------

  /** A length as memcpy gets it. */
  function ToSize(n: int): nat {
    n % 0x1_0000_0000_0000_0000
  }

  /** Lengths are ints. */
  predicate Ints(fs: seq<Fragment>)
    requires AllFragments(fs)
  {
    (forall i | 0 <= i < |fs| :: |fs[i].mem| < 0x8000_0000) && Total(fs) < 0x8000_0000
  }

  /** The i-th payload is copied to a place inside the new buffer. */
  predicate CopyInside(fs: seq<Fragment>, i: nat)
    requires AllFragments(fs) && i < |fs|
  {
    var start := PayloadStart(fs[|fs| - 1]);
    0 <= start + Total(fs[..i]) && start + Total(fs[..i]) + ToSize(PayloadLen(fs[i])) <= start + Total(fs)
  }

  lemma PayloadIsInt(f: Fragment)
    requires IsFragment(f) && |f.mem| < 0x8000_0000
    ensures -0x1_0000_0000 < PayloadLen(f) < 0x8000_0000 && PayloadStart(f) < 0x1_0000_0000
  {
    assert HeaderInside(f.mem, Last(f));
  }

  /** A negative length is too much for any buffer. */
  lemma NegativeIsHuge(n: int)
    requires -0x1_0000_0000 < n < 0x8000_0000
    ensures ToSize(n) == if n >= 0 then n else n + 0x1_0000_0000_0000_0000
  {
  }

  lemma {:induction false} TotalGrows(fs: seq<Fragment>, i: nat)
    requires AllFragments(fs) && AllPayloads(fs) && i <= |fs|
    ensures Total(fs[..i]) <= Total(fs)
    decreases |fs| - i
  {
    hide IsFragment, PayloadLen, Total;
    if i < |fs| {
      TotalStep(fs, i);
      TotalGrows(fs, i + 1);
    } else {
      assert fs[..i] == fs;
    }
  }

  /** Every copy stays inside the new buffer if and only if no length is negative. */
  lemma CopiesInsideIff(fs: seq<Fragment>)
    requires AllFragments(fs) && |fs| > 0 && Ints(fs)
    ensures (forall i | 0 <= i < |fs| :: CopyInside(fs, i)) <==> AllPayloads(fs)
  {
    hide IsFragment, PayloadLen, PayloadStart, Total, ToSize;
    PayloadIsInt(fs[|fs| - 1]);
    TotalOfNothing(fs);
    if AllPayloads(fs) {
      forall i | 0 <= i < |fs|
        ensures CopyInside(fs, i)
      {
        PayloadIsInt(fs[i]);
        NegativeIsHuge(PayloadLen(fs[i]));
        TotalStep(fs, i);
        TotalGrows(fs, i + 1);
        TotalGrows(fs[..i], 0);
        assert fs[..i][..0] == fs[..0];
      }
    }
    if forall i | 0 <= i < |fs| :: CopyInside(fs, i) {
      forall i | 0 <= i < |fs|
        ensures PayloadLen(fs[i]) >= 0
      {
        assert CopyInside(fs, i);
        PayloadIsInt(fs[i]);
        NegativeIsHuge(PayloadLen(fs[i]));
      }
    }
  }

  /** The loop over the list: all payloads behind each other, from `at` on, up to the first
      copy that does not stay inside the n bytes of the buffer. */
  method CopyPayloads(mem: array<byte>, at: nat, fs: seq<Fragment>, n: nat) returns (inside: bool)
    requires AllFragments(fs) && Ints(fs) && at + Total(fs) == n < mem.Length && at <= n < 0x2_0000_0000
    modifies mem
    ensures inside <==> AllPayloads(fs)
    ensures inside ==> |Concat(fs)| == Total(fs) && mem[..at] == old(mem[..at]) && mem[at..n] == Concat(fs)
  {
    hide IsFragment, PayloadLen, Payload, Total, Concat, ToSize;
    var iter: nat, i := at, 0;
    TotalOfNothing(fs);
    ghost var before := mem[..at];
    while i < |fs|
      invariant i <= |fs| && at <= iter == at + Total(fs[..i]) <= n
      invariant AllPayloads(fs[..i]) && mem[..at] == before && mem[at..iter] == Concat(fs[..i])
    {
      var len := PayloadLen(fs[i]);
      var size := ToSize(len);
      PayloadIsInt(fs[i]);
      NegativeIsHuge(len);
      TotalStep(fs, i);
      if iter + size > n {
        NotAllInside(fs, i, at, n);
        return false;
      }
      ConcatMore(fs, i);
      var b := Payload(fs[i]);
      ghost var done := mem[..iter];
      Write(mem, iter, b);
      assert mem[..iter] == done;
      assert mem[..at] == done[..at] && mem[at..iter] == done[at..iter];
      iter := iter + |b|;
      assert mem[at..iter] == done[at..] + b;
      i := i + 1;
    }
    assert fs[..i] == fs;
    ConcatLength(fs, |fs|);
    return true;
  }

  lemma NotAllInside(fs: seq<Fragment>, i: nat, at: nat, n: nat)
    requires AllFragments(fs) && i < |fs| && |fs[i].mem| < 0x8000_0000 && n == at + Total(fs)
    requires at + Total(fs[..i]) + ToSize(PayloadLen(fs[i])) > n
    ensures !AllPayloads(fs)
  {
    hide IsFragment, PayloadLen, Total, ToSize;
    if AllPayloads(fs) {
      PayloadIsInt(fs[i]);
      NegativeIsHuge(PayloadLen(fs[i]));
      TotalStep(fs, i);
      TotalGrows(fs, i + 1);
    }
  }

  lemma ConcatMore(fs: seq<Fragment>, i: nat)
    requires AllFragments(fs) && i < |fs| && AllPayloads(fs[..i]) && PayloadLen(fs[i]) >= 0
    ensures AllPayloads(fs[..i + 1]) && |Payload(fs[i])| == PayloadLen(fs[i])
    ensures Concat(fs[..i + 1]) == Concat(fs[..i]) + Payload(fs[i])
  {
    hide IsFragment, PayloadLen, Payload, Concat;
    var gs := fs[..i + 1];
    assert forall k | 0 <= k < i :: gs[k] == fs[..i][k];
    ConcatStep(gs, i);
    assert gs[..i + 1] == gs && gs[..i] == fs[..i];
  }

  // ---------------------------------------------------------------------
  // The code
  // ---------------------------------------------------------------------

  /** packet->tcp->seq = ...; packet->tcp->cwr = ... */
  method PatchTcp(mem: array<byte>, s: nat, seqNumber: seq<byte>, flags: byte)
    requires s + 20 <= mem.Length && |seqNumber| == 4
    modifies mem
    ensures mem[..] == WithSeqAndCwr(old(mem[..]), s, seqNumber, flags)
  {
    mem[s + 4], mem[s + 5], mem[s + 6], mem[s + 7] := seqNumber[0], seqNumber[1], seqNumber[2], seqNumber[3];
    mem[s + 13] := mem[s + 13] % 0x80 + flags / 0x80 * 0x80;
  }

  /** Patching a copied header inside a buffer. */
  lemma PatchInside(m: seq<byte>, s: nat, e: nat, seqNumber: seq<byte>, flags: byte)
    requires s + 20 <= e <= |m| && |seqNumber| == 4
    ensures var m' := WithSeqAndCwr(m, s, seqNumber, flags);
            && m'[..s] == m[..s] && m'[s..e] == WithSeqAndCwr(m[s..e], 0, seqNumber, flags) && m'[e..] == m[e..]
  {
    hide Splice;
    var m1, b := Splice(m, s + 4, seqNumber), [m[s + 13] % 0x80 + flags / 0x80 * 0x80];
    SpliceFrame(m, s + 4, seqNumber, 0, s);
    SpliceFrame(m1, s + 13, b, 0, s);
    SpliceFrame(m, s + 4, seqNumber, e, |m|);
    SpliceFrame(m1, s + 13, b, e, |m|);
    SpliceSlice(m, s + 4, seqNumber, s, e);
    SpliceSlice(m1, s + 13, b, s, e);
  }

  /** The copies, patched if they are TCP. */
  function Patched(m: seq<byte>, first: Fragment, last: Fragment): seq<byte>
    requires IsFragment(first) && IsFragment(last) && Last(first).kind == Last(last).kind
    requires Last(last).start + Last(last).headerBytes <= |m|
  {
    var t := Last(first).start;
    if Last(last).kind == TCP then WithSeqAndCwr(m, Last(last).start, first.mem[t + 4..t + 8], first.mem[t + 13]) else m
  }

  /** The copies and the patch make the unfinished aggregate. */
  lemma PatchedIsRaw(m: seq<byte>, first: Fragment, last: Fragment, payload: seq<byte>)
    requires Ends(first, last)
    requires |m| == PayloadStart(last) + |payload| + 1 && m[..PayloadStart(last)] == last.mem[..PayloadStart(last)]
    requires m[PayloadStart(last)..PayloadStart(last) + |payload|] == payload
    ensures RawAggregate(Patched(m, first, last), first, last, payload)
  {
    hide WithSeqAndCwr, IsParsed, NoIpOptions;
    var s, e, t := Last(last).start, PayloadStart(last), Last(first).start;
    assert HeaderInside(last.mem, Last(last)) && HeaderInside(first.mem, Last(first));
    assert m[..s] == m[..e][..s] == last.mem[..s];
    assert m[s..e] == m[..e][s..] == last.mem[s..e];
    if Last(last).kind == TCP {
      PatchInside(m, s, e, first.mem[t + 4..t + 8], first.mem[t + 13]);
      var m' := Patched(m, first, last);
      assert m'[e..e + |payload|] == m'[e..][..|payload|] == m[e..][..|payload|] == m[e..e + |payload|];
    }
  }

  /** How much longer the aggregate is than the last fragment. */
  function Extra(fs: seq<Fragment>): nat
    requires AllFragments(fs) && AllPayloads(fs) && |fs| > 0
  {
    LastIsPart(fs);
    Total(fs) - PayloadLen(fs[|fs| - 1])
  }

  lemma LastIsPart(fs: seq<Fragment>)
    requires AllFragments(fs) && AllPayloads(fs) && |fs| > 0
    ensures PayloadLen(fs[|fs| - 1]) <= Total(fs)
  {
    hide IsFragment, PayloadLen;
    var n := |fs| - 1;
    TotalOfNothing(fs);
    TotalGrows(fs[..n], 0);
    assert fs[..n][..0] == fs[..0];
  }

  lemma ExtraFits(fs: seq<Fragment>)
    requires AllFragments(fs) && AllPayloads(fs) && |fs| > 0
    ensures fs[|fs| - 1].info.ipBytes + Extra(fs) == PayloadStart(fs[|fs| - 1]) + Total(fs)
  {
    hide IsFragment, PayloadStart, Total;
    LastIsPart(fs);
    LastIsLayer4(fs[|fs| - 1]);
  }

  lemma StartsInside(f: Fragment)
    requires IsFragment(f) && PayloadStart(f) == Last(f).start + Last(f).headerBytes
    ensures PayloadStart(f) <= |f.mem|
  {
    hide PayloadStart;
    assert HeaderInside(f.mem, Last(f));
  }

  /** The headers of the last fragment, the payloads of all, and the patch, unless a copy
      goes outside. */
  method CopyFragments(fs: seq<Fragment>, payloadSize: nat) returns (inside: bool, mem: array<byte>)
    requires AllFragments(fs) && |fs| > 0 && Ints(fs) && payloadSize == Total(fs) && Ends(fs[0], fs[|fs| - 1])
    ensures fresh(mem) && (inside <==> AllPayloads(fs))
    ensures inside ==> |Concat(fs)| == payloadSize && RawAggregate(mem[..], fs[0], fs[|fs| - 1], Concat(fs))
  {
    hide IsFragment, IsParsed, PayloadLen, PayloadStart, MergedHeader, Patched, RawAggregate, Total, Concat;
    var first, last := fs[0], fs[|fs| - 1];
    LastIsLayer4(first);
    LastIsLayer4(last);
    StartsInside(last);
    PayloadIsInt(last);
    var headersLen := PayloadStart(last);
    var n := headersLen + payloadSize;
    mem := new byte[n + 1];
    Write(mem, 0, last.mem[..headersLen]);
    assert mem[..headersLen] == last.mem[..headersLen];
    inside := CopyPayloads(mem, headersLen, fs, n);
    if !inside {
      return;
    }
    ghost var m := mem[..];
    assert m[..headersLen] == last.mem[..headersLen] && m[headersLen..n] == Concat(fs);
    PatchedIsRaw(m, first, last, Concat(fs));
    Patch(mem, first, last);
  }

  method Patch(mem: array<byte>, first: Fragment, last: Fragment)
    requires IsFragment(first) && IsFragment(last) && Last(first).kind == Last(last).kind
    requires Last(last).start + Last(last).headerBytes <= mem.Length
    modifies mem
    ensures mem[..] == Patched(old(mem[..]), first, last)
  {
    hide IsFragment, WithSeqAndCwr;
    LastIsLayer4(first);
    LastIsLayer4(last);
    if Last(last).kind == TCP {
      var t := Last(first).start;
      PatchTcp(mem, Last(last).start, first.mem[t + 4..t + 8], first.mem[t + 13]);
    }
  }

  /** What aggregate_packets comes to: a copy outside its buffer, the assert of
      ipv6_header_finish, or a packet. */
  datatype Making = CopyOutside | FinishAsserts | Made(packet: Fragment)

  /** A list of fragments as the loop hands it over, with the sum of their lengths. */
  ghost predicate Listed(fs: seq<Fragment>, payloadSize: int) {
    AllFragments(fs) && |fs| > 0 && Ints(fs) && payloadSize == Total(fs) && Ends(fs[0], fs[|fs| - 1])
  }

  /** The packet is the aggregate of the fragments. */
  ghost predicate IsGlued(f: Fragment, fs: seq<Fragment>)
    requires AllFragments(fs) && AllPayloads(fs) && |fs| > 0 && Ends(fs[0], fs[|fs| - 1])
  {
    IsAggregate(f, fs[0], fs[|fs| - 1], Concat(fs), Extra(fs))
  }

  /** aggregate_packets: one packet with the headers of the last fragment, the sequence
      number of the first and the payload of all. It is parsed back to its own metadata
      exactly if Reparses says so. */
  method AggregatePackets(fs: seq<Fragment>, payloadSize: nat) returns (r: Making)
    requires Listed(fs, payloadSize)
    ensures r.CopyOutside? <==> !AllPayloads(fs)
    ensures r.FinishAsserts? <==> AllPayloads(fs) && !AssertsHold(Enlarged(fs[|fs| - 1].info.headers, Extra(fs)))
    ensures r.Made? ==> && AllPayloads(fs) && IsGlued(r.packet, fs)
                        && (IsParsed(r.packet) <==> Reparses(fs[|fs| - 1], Extra(fs)))
  {
    hide IsFragment, IsParsed, PayloadLen, PayloadStart, MergedHeader, RawAggregate, Complete, ParsePacket, FinishAll,
         FinishedTable, Total, Concat, AssertsHold, Reparses, Enlarged, EnlargedEnd, Pointed, Chain, Versioned,
         HasRoom;
    var last := fs[|fs| - 1];
    var inside, mem := CopyFragments(fs, payloadSize);
    if !inside {
      return CopyOutside;
    }
    LastIsLayer4(last);
    ExtraFits(fs);
    ParsedTable(last);
    var extra, n := Extra(fs), PayloadStart(last) + payloadSize;
    AggregateIsComplete(mem[..], fs[0], last, Concat(fs), extra);
    AggregateKeeps(mem[..], fs[0], last, Concat(fs), extra);
    if AssertsHold(Enlarged(last.info.headers, extra)) {
      AggregateParsesIff(mem[..], fs[0], last, Concat(fs), extra);
    }
    var ok, hs := FinishHeaders(mem, Enlarged(last.info.headers, extra), EnlargedEnd(last, extra));
    if !ok {
      return FinishAsserts;
    }
    var packet := new PacketObject.WithMeta(mem, AggregateInfo(last.info, n, hs));
    ParsedMeans(packet.mem[..], packet.Meta());
    return Made(Fragment(packet.mem[..], packet.Meta()));
  }

  lemma ParsedMeans(mem: seq<byte>, info: Info)
    requires info.bufferBytes < |mem|
    ensures IsParsed(Fragment(mem, info))
            <==> ParsePacket(mem, info.bufferBytes, info.bufferBytes, IpLayer) == Parsed(OK, info)
  {
    hide ParsePacket;
  }

  // ---------------------------------------------------------------------
  // The aggregate is a fragment again
  // ---------------------------------------------------------------------

  /** The bytes and the metadata of the aggregate. */
  ghost predicate IsAggregate(f: Fragment, first: Fragment, last: Fragment, payload: seq<byte>, extra: nat)
    requires Ends(first, last)
  {
    && PayloadStart(last) + |payload| == f.info.ipBytes < |f.mem|
    && f.mem[Last(last).start..PayloadStart(last)] == MergedHeader(first, last)
    && f.mem[PayloadStart(last)..f.info.ipBytes] == payload
    && FinishedTable(Enlarged(last.info.headers, extra), f.info.headers)
  }

  /** Header i is where it is in the last fragment. */
  lemma AggregatePlace(f: Fragment, last: Fragment, extra: nat, i: nat)
    requires FinishedTable(Enlarged(last.info.headers, extra), f.info.headers) && i < |last.info.headers|
    ensures |f.info.headers| == |last.info.headers|
    ensures var h, h' := last.info.headers[i], f.info.headers[i];
            h'.kind == h.kind && h'.start == h.start && h'.headerBytes == h.headerBytes
  {
    hide Extent;
    var all := Enlarged(last.info.headers, extra);
    assert f.info.headers[i] == all[i].(totalBytes := Extent(all[i..]));
  }

  lemma AggregateHeaders(f: Fragment, first: Fragment, last: Fragment, payload: seq<byte>, extra: nat)
    requires Ends(first, last) && IsAggregate(f, first, last, payload, extra)
    ensures |f.info.headers| == |last.info.headers|
    ensures forall i | 0 <= i < |f.info.headers| :: HeaderInside(f.mem, f.info.headers[i])
  {
    hide HeaderRaw, MergedHeader, IsParsed, PayloadStart, FinishedTable;
    ParsedIsStacked(last);
    var hs := last.info.headers;
    AggregatePlace(f, last, extra, 0);
    forall i | 0 <= i < |f.info.headers|
      ensures HeaderInside(f.mem, f.info.headers[i])
    {
      AggregatePlace(f, last, extra, i);
      StackEnds(last.mem, hs, i, |hs| - 1);
      assert HeaderInside(last.mem, hs[i]);
    }
  }

  lemma MergedOffset(first: Fragment, last: Fragment)
    requires Ends(first, last) && Last(last).kind == TCP
    ensures var b, t := MergedHeader(first, last), Last(first).start;
            && 20 <= |b| && t + 20 <= |first.mem| && b[12] == last.mem[Last(last).start + 12]
            && b[4] == first.mem[t + 4] && b[5] == first.mem[t + 5] && b[6] == first.mem[t + 6]
            && b[7] == first.mem[t + 7]
  {
    hide IsParsed;
    assert HeaderInside(first.mem, Last(first)) && HeaderInside(last.mem, Last(last));
  }

  /** It has the payload of all and, if it is TCP, the sequence number of the first. */
  lemma AggregateIsFragment(f: Fragment, first: Fragment, last: Fragment, payload: seq<byte>, extra: nat)
    requires Ends(first, last) && IsAggregate(f, first, last, payload, extra)
    ensures IsFragment(f) && PayloadLen(f) == |payload| && Payload(f) == payload && (IsTcp(f) <==> IsTcp(first))
    ensures IsTcp(first) ==> SeqOf(f) == SeqOf(first)
  {
    hide HeaderInside, MergedHeader, IsParsed, FinishedTable;
    AggregateHeaders(f, first, last, payload, extra);
    var n, s, b := |last.info.headers|, Last(last).start, MergedHeader(first, last);
    AggregatePlace(f, last, extra, n - 1);
    AggregatePlace(f, last, extra, n - 2);
    if Last(last).kind == TCP {
      MergedOffset(first, last);
      assert forall k | 0 <= k < |b| :: f.mem[s + k] == f.mem[s..PayloadStart(last)][k] == b[k];
      assert f.mem[s + 12] == b[12];
      assert f.mem[s + 4] == b[4] && f.mem[s + 5] == b[5] && f.mem[s + 6] == b[6] && f.mem[s + 7] == b[7];
    }
  }

  // ---------------------------------------------------------------------
  // The loop and the aggregate together
  // ---------------------------------------------------------------------

  /** All sniffed packets went through the parser. */
  ghost predicate AllParsed(stream: seq<Sniff>) {
    forall i | 0 <= i < |stream| && stream[i].Got? :: IsParsed(stream[i].packet)
  }

  /** Nothing more is needed for the loop. */
  lemma ParsedIsSniffed(stream: seq<Sniff>)
    requires AllParsed(stream)
    ensures AllSniffed(stream)
  {
    hide IsParsed, IsFragment;
    forall i | 0 <= i < |stream| && stream[i].Got?
      ensures IsFragment(stream[i].packet)
    {
      ParsedIsFragment(stream[i].packet);
    }
  }

  lemma {:induction false} PacketsAt(stream: seq<Sniff>, i: nat)
    requires forall k | 0 <= k < |stream| :: stream[k].Got?
    ensures |Packets(stream)| == |stream| && (i < |stream| ==> Packets(stream)[i] == stream[i].packet)
  {
    if |stream| > 0 {
      PacketsAt(stream[1..], if i > 0 then i - 1 else 0);
    }
  }

  /** Accepted fragments are packets of the stream, with one layer 4 protocol. */
  lemma AcceptedIsParsed(stream: seq<Sniff>, expected: nat, one: bool, i: nat)
    requires AllSniffed(stream) && AllParsed(stream) && Collect(stream, [], expected, one, true).Accepted?
    requires i < |Collect(stream, [], expected, one, true).fragments|
    ensures var fs := Collect(stream, [], expected, one, true).fragments;
            AllFragments(fs) && IsParsed(fs[i]) && Last(fs[i]).kind == Last(fs[0]).kind
  {
    hide IsParsed, IsFragment, Collect, Run, Total, PayloadLen, TupleOf, Packets;
    var fs := Collect(stream, [], expected, one, true).fragments;
    var k, all := AcceptedIsRun(stream, [], [], expected, one, true);
    RunSharesKind(fs, expected, i);
    var j := |all| - |fs| + i;
    assert all == Packets(stream[..k]) && fs[i] == all[j];
    PacketsAt(stream[..k], j);
    assert stream[..k][j] == stream[j];
  }

  /** Only the first and the last accepted fragment can have a negative length. */
  lemma AcceptedPayloads(stream: seq<Sniff>, expected: nat, one: bool)
    requires AllSniffed(stream) && Collect(stream, [], expected, one, true).Accepted?
    ensures var fs := Collect(stream, [], expected, one, true).fragments;
            && AllFragments(fs) && |fs| > 0
            && (AllPayloads(fs) <==> PayloadLen(fs[0]) >= 0 && PayloadLen(fs[|fs| - 1]) >= 0)
  {
    hide IsFragment, Collect, Run, Total, PayloadLen, TupleOf, Packets;
    var fs := Collect(stream, [], expected, one, true).fragments;
    var k, all := AcceptedIsRun(stream, [], [], expected, one, true);
    RunIsNotEmpty(fs, expected);
    RunHasPayloads(fs, expected);
  }

  /** Lengths are ints in the loop, too. */
  predicate IntStream(stream: seq<Sniff>, expected: nat) {
    expected < 0x8000_0000 && forall i | 0 <= i < |stream| && stream[i].Got? :: |stream[i].packet.mem| < 0x8000_0000
  }

  lemma AcceptedIsInt(stream: seq<Sniff>, expected: nat, one: bool)
    requires AllSniffed(stream) && IntStream(stream, expected) && Collect(stream, [], expected, one, true).Accepted?
    ensures var fs := Collect(stream, [], expected, one, true).fragments; AllFragments(fs) && Ints(fs)
  {
    hide IsFragment, Collect, Run, Total, PayloadLen, TupleOf, Packets;
    var fs := Collect(stream, [], expected, one, true).fragments;
    var k, all := AcceptedIsRun(stream, [], [], expected, one, true);
    forall i | 0 <= i < |fs|
      ensures |fs[i].mem| < 0x8000_0000
    {
      var j := |all| - |fs| + i;
      assert all == Packets(stream[..k]) && fs[i] == all[j];
      PacketsAt(stream[..k], j);
      assert stream[..k][j] == stream[j];
    }
  }

  lemma EndsOf(fs: seq<Fragment>)
    requires AllFragments(fs) && |fs| > 0
    requires IsParsed(fs[|fs| - 1]) && Last(fs[|fs| - 1]).kind == Last(fs[0]).kind
    ensures Ends(fs[0], fs[|fs| - 1])
  {
    hide IsParsed, IsFragment, PayloadStart;
    ParsedIsFragment(fs[|fs| - 1]);
  }

  /** What the packet that the loop goes on with has to do with the accepted fragments. */
  ghost predicate IsLive(live: Fragment, fs: seq<Fragment>)
    requires AllFragments(fs) && |fs| > 0 && AllPayloads(fs)
  {
    && IsFragment(live) && PayloadLen(live) == Total(fs) >= 0 && Payload(live) == Concat(fs)
    && (IsTcp(live) <==> IsTcp(fs[0])) && (IsTcp(fs[0]) ==> SeqOf(live) == SeqOf(fs[0]))
    && (IsParsed(live) <==> |fs| == 1 || Reparses(fs[|fs| - 1], Extra(fs)))
  }

  /** do_outbound_script_packet up to the final comparison, with the checker on. The packet
      it goes on with carries exactly the bytes of the accepted fragments, in order, and
      starts at the first fragment's sequence number; it would be parsed back to its own
      metadata exactly if there is one fragment only or Reparses says so. There is no such
      packet exactly if there are several fragments and the first or the last has a negative
      length, so that a copy goes outside its buffer, or an assert fires. */
  method SniffScriptPacket(stream: seq<Sniff>, expected: nat, strictSegments: bool, isWireServer: bool)
    returns (r: Outcome, live: Option<Making>)
    requires AllSniffed(stream) && AllParsed(stream) && IntStream(stream, expected)
    ensures r == Collect(stream, [], expected, strictSegments && !isWireServer, true)
    ensures live.Some? <==> r.Accepted?
    ensures r.Accepted? ==>
      var fs := r.fragments;
      && AllFragments(fs) && |fs| > 0 && Total(fs) == expected && OneTuple(fs) && EqualSizes(fs) && GapFree(fs)
      && (AllPayloads(fs) <==> PayloadLen(fs[0]) >= 0 && PayloadLen(fs[|fs| - 1]) >= 0)
      && (live.value.CopyOutside? <==> !AllPayloads(fs))
      && (live.value.FinishAsserts? <==>
            |fs| > 1 && AllPayloads(fs) && !AssertsHold(Enlarged(fs[|fs| - 1].info.headers, Extra(fs))))
      && (live.value.Made? ==> IsLive(live.value.packet, fs))
  {
    hide Ends, IsAggregate, IsParsed, IsFragment, IsTcp, SeqOf, Payload, PayloadLen, PayloadStart, Collect, Total,
         Concat, OneTuple, EqualSizes, GapFree, AllParsed, IntStream, MergedHeader, Reparses, AssertsHold, Enlarged,
         Extra, Ints;
    r := SniffLoop(stream, expected, strictSegments, isWireServer, true);
    if !r.Accepted? {
      return r, None;
    }
    ghost var one := strictSegments && !isWireServer;
    AcceptedIsOneStream(stream, expected, one);
    AcceptedPayloads(stream, expected, one);
    AcceptedIsInt(stream, expected, one);
    var fs := r.fragments;
    AcceptedIsParsed(stream, expected, one, |fs| - 1);
    if |fs| == 1 {
      OneFragment(fs);
      live := Some(Made(fs[0]));
    } else {
      EndsOf(fs);
      var made := AggregatePackets(fs, expected);
      if made.Made? {
        AggregateIsFragment(made.packet, fs[0], fs[|fs| - 1], Concat(fs), Extra(fs));
      }
      live := Some(made);
    }
  }

  lemma OneFragment(fs: seq<Fragment>)
    requires AllFragments(fs) && |fs| == 1 && Total(fs) >= 0
    ensures AllPayloads(fs) && Concat(fs) == Payload(fs[0]) && PayloadLen(fs[0]) == Total(fs)
  {
    hide IsFragment, PayloadLen, Payload;
    assert fs[..0] == [];
  }
}
