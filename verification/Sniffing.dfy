/**
From the wire to the sniffing loop (run_packet.c): a packet is parsed, then its sequence
numbers are converted in place, and only then it is looked at again.
 */
module Sniffing {
  import opened Bytes
  import opened Splices
  import opened Packet
  import opened PacketParser
  import opened PacketGrammar
  import opened PacketParserProofs
  import opened Encapsulation
  import opened EncapsulationRoundTrip
  import opened Aggregation
  import opened AggregationImpl
  import S = SeqTranslation
  import T = SeqTranslationTheorems

  // ---------------------------------------------------------------------
  // What the parser does not look at
  // ---------------------------------------------------------------------

  /** The same up to the TCP header at s, and with the same data offset. */
  ghost predicate SameTable(m: seq<byte>, m': seq<byte>, s: nat) {
    |m| == |m'| && s + 12 < |m| && m'[s + 12] == m[s + 12] && forall i | 0 <= i < s :: m'[i] == m[i]
  }

  /** A header in front of it is as right as it was, and announces what it announced. */
  lemma OuterKept(m: seq<byte>, m': seq<byte>, a: Header, b: Header, end: nat, s: nat)
    requires SameTable(m, m', s) && end < |m| && !IsLayer4(a.kind) && a.start + a.headerBytes <= s
    requires HeaderOk(m, a, end) && b.start <= end && Follows(m, a, b, end) && (IsIp(b.kind) ==> b.start < s)
    ensures HeaderOk(m', a, end) && Follows(m', a, b, end)
  {
    if a.kind == MPLS {
      forall i: nat | i < a.headerBytes / 4
        ensures MplsBottom(m', a.start + 4 * i) <==> i == a.headerBytes / 4 - 1
      {
        assert MplsBottom(m, a.start + 4 * i) <==> i == a.headerBytes / 4 - 1;
      }
    } else {
      assert GreLen(m[a.start]) >= 4;
    }
  }

  lemma {:induction false} ChainOrder(m: seq<byte>, hs: seq<Header>, end: nat)
    requires end < |m| && Chain(m, hs, end) && |hs| > 1
    ensures hs[0].start + hs[0].headerBytes <= hs[|hs| - 1].start
    decreases |hs|
  {
    hide HeaderOk;
    if |hs| > 2 {
      ChainOrder(m, hs[1..], end);
    }
  }

  lemma IpHasBytes(m: seq<byte>, h: Header, end: nat)
    requires end < |m| && HeaderOk(m, h, end)
    ensures IsIp(h.kind) ==> h.headerBytes > 0
  {
  }

  lemma {:induction false} ChainKept(m: seq<byte>, m': seq<byte>, hs: seq<Header>, end: nat)
    requires end < |m| && Chain(m, hs, end) && hs[|hs| - 1].kind == TCP && SameTable(m, m', hs[|hs| - 1].start)
    ensures Chain(m', hs, end)
    decreases |hs|
  {
    if |hs| > 1 {
      hide HeaderOk, Follows;
      ChainKept(m, m', hs[1..], end);
      ChainOrder(m, hs, end);
      TableShape(m, hs, end, 0);
      if |hs| > 2 {
        ChainOrder(m, hs[1..], end);
        IpHasBytes(m, hs[1], end);
      }
      OuterKept(m, m', hs[0], hs[1], end, hs[|hs| - 1].start);
    } else {
      TcpKept(m, m', hs[0], end);
    }
  }

  lemma TcpKept(m: seq<byte>, m': seq<byte>, h: Header, end: nat)
    requires end < |m| && HeaderOk(m, h, end) && h.kind == TCP && SameTable(m, m', h.start)
    ensures HeaderOk(m', h, end)
  {
  }

  // ---------------------------------------------------------------------
  // Conversion keeps what the parser found
  // ---------------------------------------------------------------------

  /** The memory that tcp_convert_seq_number gets to is there. */
  predicate CanConvert(f: Fragment) {
    |f.info.headers| > 0 && (Last(f).kind == TCP ==> S.HeaderAt(f.mem, Last(f).start))
  }

  function Converted(f: Fragment, s: S.Isns): Fragment
    requires CanConvert(f)
  {
    if Last(f).kind == TCP then f.(mem := T.Script(f.mem, Last(f).start, s)) else f
  }

  lemma ConvertedIsSameTable(m: seq<byte>, tcp: nat, s: S.Isns)
    requires S.HeaderAt(m, tcp)
    ensures SameTable(m, T.Script(m, tcp, s), tcp)
  {
    hide S.Moved, S.Within;
    var syn := S.IsSyn(m, tcp);
    T.MovedIsMoved(m, tcp, S.LocalLiveToScript(s, syn), S.RemoteLiveToScript(s, syn));
    var m' := T.Script(m, tcp, s);
    assert m'[tcp + 12] == m'[tcp + 12..tcp + 20][0] == m[tcp + 12..tcp + 20][0];
    assert forall i | 0 <= i < tcp :: m'[i] == m'[..tcp + 4][i] == m[..tcp + 4][i] == m[i];
  }

  /** Whatever its options are, a packet that was parsed would be parsed to the same metadata
      after its sequence numbers have been converted. */
  lemma ConvertedIsParsed(f: Fragment, s: S.Isns)
    requires IsParsed(f) && CanConvert(f)
    ensures IsParsed(Converted(f, s))
  {
    hide ParsePacket, Chain, Describe, SameTable, S.HeaderAt, T.Script;
    var n, hs := f.info.bufferBytes, f.info.headers;
    if Last(f).kind == TCP {
      ParserIsSound(f.mem, n, n, IpLayer);
      var m' := T.Script(f.mem, Last(f).start, s);
      ConvertedIsSameTable(f.mem, Last(f).start, s);
      ChainKept(f.mem, m', hs, n);
      VersionStays(f.mem, m', hs, n);
      ParserIsComplete(m', n, hs, n, IpLayer);
    }
  }

  lemma VersionStays(m: seq<byte>, m': seq<byte>, hs: seq<Header>, end: nat)
    requires end < |m| && Table(m, hs, end, IpLayer) && SameTable(m, m', hs[|hs| - 1].start) && hs[|hs| - 1].kind == TCP
    ensures |m'| == |m| && VersionIs(m', hs[0])
  {
    hide HeaderOk, Follows;
    assert |hs| > 1;
    ChainOrder(m, hs, end);
    IpHasBytes(m, hs[0], end);
  }

  /** The payload stays as well if the blocks of every SACK option that is walked over end
      inside the options. */
  lemma ConvertedPayload(f: Fragment, s: S.Isns)
    requires IsParsed(f) && CanConvert(f) && IsFragment(f) && PayloadLen(f) >= 0
    requires Last(f).kind == TCP ==>
               var tcp := Last(f).start; S.Within(f.mem, tcp + 20, S.OptionsEnd(f.mem, tcp), S.OptionsEnd(f.mem, tcp))
    ensures var g := Converted(f, s);
            IsFragment(g) && PayloadLen(g) == PayloadLen(f) && Payload(g) == Payload(f)
  {
    hide IsParsed, IsFragment, S.Within, S.Moved;
    ConvertedIsParsed(f, s);
    ParsedIsFragment(Converted(f, s));
    ParsedIsFragment(f);
    if Last(f).kind == TCP {
      var tcp, syn := Last(f).start, S.IsSyn(f.mem, Last(f).start);
      T.MovedIsMoved(f.mem, tcp, S.LocalLiveToScript(s, syn), S.RemoteLiveToScript(s, syn));
      PayloadBehind(f, tcp);
      var m', p, e := Converted(f, s).mem, PayloadStart(f), f.info.ipBytes;
      PayloadFits(f);
      assert m'[p..e] == f.mem[p..e];
    }
  }

  lemma PayloadBehind(f: Fragment, tcp: nat)
    requires IsParsed(f) && IsFragment(f) && Last(f).kind == TCP && tcp == Last(f).start && S.HeaderAt(f.mem, tcp)
    ensures PayloadStart(f) == S.OptionsEnd(f.mem, tcp) >= tcp + 20
  {
    hide ParsePacket, S.Within;
    ParsedIsFragment(f);
    assert HeaderInside(f.mem, Last(f));
  }

  lemma PayloadFits(f: Fragment)
    requires IsFragment(f) && PayloadLen(f) >= 0
    ensures PayloadStart(f) <= f.info.ipBytes <= |f.mem|
  {
    hide HeaderInside, PayloadStart;
  }

  // ---------------------------------------------------------------------
  // The stream the loop sees
  // ---------------------------------------------------------------------

  /** sniff_outbound_live_packet and then tcp_convert_seq_number, which may report an error. */
  function SniffAndConvert(raw: Sniff, s: S.Isns): Sniff
    requires raw.Got? ==> CanConvert(raw.packet)
  {
    if raw.Failed? then Failed
    else
      var f := raw.packet;
      if Last(f).kind == TCP && !S.NoStop(f.mem, Last(f).start + 20, S.OptionsEnd(f.mem, Last(f).start)) then Failed
      else Got(Converted(f, s))
  }

  /** If the parser accepted all packets, the loop gets what it needs. */
  lemma ConvertedStreamIsParsed(raw: seq<Sniff>, isns: seq<S.Isns>, stream: seq<Sniff>)
    requires |raw| == |isns| == |stream| && AllParsed(raw)
    requires forall i | 0 <= i < |raw| && raw[i].Got? :: CanConvert(raw[i].packet)
    requires forall i | 0 <= i < |raw| :: stream[i] == SniffAndConvert(raw[i], isns[i])
    ensures AllParsed(stream) && AllSniffed(stream)
  {
    hide IsParsed, IsFragment, S.HeaderAt, S.NoStop, Converted;
    forall i | 0 <= i < |stream| && stream[i].Got?
      ensures IsParsed(stream[i].packet)
    {
      assert stream[i] == SniffAndConvert(raw[i], isns[i]);
      ConvertedIsParsed(raw[i].packet, isns[i]);
    }
    ParsedIsSniffed(stream);
  }
}
