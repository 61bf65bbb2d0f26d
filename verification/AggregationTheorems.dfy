/** What the sniffing loop promises about the fragments it accepts. */
module AggregationTheorems {
  import opened Bytes
  import opened Packet
  import opened PacketGrammar
  import opened SeqTranslation
  import opened Aggregation

  /** Fragment i continues fragment i - 1, and the payload before it is not yet all
      that is expected. */
  ghost predicate Link(fs: seq<Fragment>, i: nat, expected: nat)
    requires AllFragments(fs) && 0 < i < |fs|
  {
    && TupleOf(fs[i]) == TupleOf(fs[i - 1])
    && Continues(fs[i], fs[i - 1], Total(fs[..i]), expected)
    && Total(fs[..i]) < expected
  }

  ghost predicate Run(fs: seq<Fragment>, expected: nat)
    requires AllFragments(fs)
  {
    |fs| > 0 && forall i | 0 < i < |fs| :: Link(fs, i, expected)
  }

  /** The fragments fs are the last ones of all that were sniffed, back to the last
      change of addresses or ports. */
  ghost predicate TailOf(all: seq<Fragment>, fs: seq<Fragment>)
    requires AllFragments(all)
  {
    && 0 < |fs| <= |all| && fs == all[|all| - |fs|..]
    && (|fs| < |all| ==> TupleOf(all[|all| - |fs| - 1]) != TupleOf(all[|all| - |fs|]))
  }

  /** What holds between two rounds of the loop. */
  ghost predicate Between(all: seq<Fragment>, sofar: seq<Fragment>, expected: nat)
    requires AllFragments(all) && AllFragments(sofar)
  {
    (all == [] && sofar == []) || (TailOf(all, sofar) && Run(sofar, expected) && Total(sofar) < expected)
  }

  lemma RunGrows(sofar: seq<Fragment>, f: Fragment, expected: nat)
    requires AllFragments(sofar) && IsFragment(f) && Run(sofar, expected) && Total(sofar) < expected
    requires TupleOf(f) == TupleOf(sofar[|sofar| - 1]) && Continues(f, sofar[|sofar| - 1], Total(sofar), expected)
    ensures AllFragments(sofar + [f]) && Run(sofar + [f], expected)
  {
    hide IsFragment, Continues, TupleOf, PayloadLen;
    var fs := sofar + [f];
    forall i | 0 < i < |fs|
      ensures Link(fs, i, expected)
    {
      if i < |sofar| {
        assert Link(sofar, i, expected) && fs[..i] == sofar[..i];
      } else {
        assert fs[..i] == sofar;
      }
    }
  }

  lemma TailGrows(all: seq<Fragment>, sofar: seq<Fragment>, f: Fragment)
    requires AllFragments(all) && IsFragment(f)
    requires (all == [] && sofar == []) || TailOf(all, sofar)
    ensures AllFragments(all + [f])
    ensures sofar != [] ==> TailOf(all + [f], sofar + [f])
    ensures sofar == [] || TupleOf(f) != TupleOf(sofar[|sofar| - 1]) ==> TailOf(all + [f], [f])
  {
    hide IsFragment, TupleOf;
    var all', n := all + [f], |all|;
    assert all'[n..] == [f];
    if sofar != [] {
      assert all'[n - |sofar|..] == all[n - |sofar|..] + [f];
      assert all[n - 1] == sofar[|sofar| - 1];
    }
  }

  /** One round of the loop. */
  lemma ExtendKeeps(all: seq<Fragment>, sofar: seq<Fragment>, f: Fragment, expected: nat)
    requires AllFragments(all) && AllFragments(sofar) && IsFragment(f) && Between(all, sofar, expected)
    ensures AllFragments(all + [f])
    ensures var fs := Extend(sofar, f, expected);
            fs.Some? ==> AllFragments(fs.value) && TailOf(all + [f], fs.value) && Run(fs.value, expected)
  {
    hide IsFragment, Continues, TupleOf, PayloadLen, TailOf, Run;
    TailGrows(all, sofar, f);
    ExtendIsFragments(sofar, f, expected);
    if sofar != [] && TupleOf(f) == TupleOf(sofar[|sofar| - 1]) {
      if Continues(f, sofar[|sofar| - 1], Total(sofar), expected) {
        RunGrows(sofar, f, expected);
      }
    } else {
      RunOfOne(f, expected);
    }
  }

  lemma RunOfOne(f: Fragment, expected: nat)
    requires IsFragment(f)
    ensures AllFragments([f]) && Run([f], expected)
  {
    hide IsFragment;
  }

  function Packets(stream: seq<Sniff>): seq<Fragment>
    requires forall i | 0 <= i < |stream| :: stream[i].Got?
  {
    if stream == [] then [] else [stream[0].packet] + Packets(stream[1..])
  }

  /** Whatever was sniffed: the fragments accepted are the ones sniffed since the last
      change of addresses or ports, each continues the one before it, and with the
      checker on their payloads add up to what was expected. */
  lemma {:induction false} AcceptedIsRun(stream: seq<Sniff>, all: seq<Fragment>, sofar: seq<Fragment>,
                                         expected: nat, one: bool, checker: bool) returns (k: nat, all': seq<Fragment>)
    requires AllSniffed(stream) && AllFragments(all) && AllFragments(sofar) && Between(all, sofar, expected)
    requires Collect(stream, sofar, expected, one, checker).Accepted?
    ensures var fs := Collect(stream, sofar, expected, one, checker).fragments;
            && k <= |stream| && (forall i | 0 <= i < k :: stream[i].Got?) && all' == all + Packets(stream[..k])
            && AllFragments(all') && AllFragments(fs) && TailOf(all', fs) && Run(fs, expected)
            && (checker ==> Total(fs) == expected) && (!one ==> Total(fs) >= expected)
    decreases |stream|
  {
    hide IsFragment, Extend, TailOf, Run, Packets;
    var f := stream[0].packet;
    ExtendKeeps(all, sofar, f, expected);
    var fs := Extend(sofar, f, expected).value;
    if Total(fs) < expected && !one {
      k, all' := AcceptedIsRun(stream[1..], all + [f], fs, expected, one, checker);
      PacketsCons(stream, k);
      k := k + 1;
      assert all + [f] + Packets(stream[1..][..k - 1]) == all + ([f] + Packets(stream[1..][..k - 1]));
    } else {
      k, all' := 1, all + [f];
      PacketsCons(stream, 0);
    }
  }

  lemma PacketsCons(stream: seq<Sniff>, k: nat)
    requires stream != [] && stream[0].Got? && k < |stream| && forall i | 0 <= i < k :: stream[1..][i].Got?
    ensures forall i | 0 <= i < k + 1 :: stream[i].Got?
    ensures Packets(stream[..k + 1]) == [stream[0].packet] + Packets(stream[1..][..k])
    ensures k == 0 ==> Packets(stream[..k + 1]) == [stream[0].packet]
  {
    forall i | 0 <= i < k + 1
      ensures stream[i].Got?
    {
      if i > 0 {
        assert stream[1..][i - 1].Got?;
      }
    }
    assert stream[..k + 1][1..] == stream[1..][..k];
  }

  // ---------------------------------------------------------------------
  // What a run of fragments looks like
  // ---------------------------------------------------------------------

  /** All fragments share one tuple. */
  lemma {:induction false} RunSharesTuple(fs: seq<Fragment>, expected: nat, i: nat)
    requires AllFragments(fs) && Run(fs, expected) && i < |fs|
    ensures TupleOf(fs[i]) == TupleOf(fs[0])
  {
    hide IsFragment, TupleOf, Continues, Total;
    if i > 0 {
      assert Link(fs, i, expected);
      RunSharesTuple(fs, expected, i - 1);
    }
  }

  lemma TotalStep(fs: seq<Fragment>, i: nat)
    requires AllFragments(fs) && i < |fs|
    ensures Total(fs[..i + 1]) == Total(fs[..i]) + PayloadLen(fs[i])
  {
    hide IsFragment, PayloadLen;
    assert fs[..i + 1][..i] == fs[..i];
  }

  lemma ConcatStep(fs: seq<Fragment>, i: nat)
    requires AllFragments(fs) && AllPayloads(fs) && i < |fs|
    ensures Concat(fs[..i + 1]) == Concat(fs[..i]) + Payload(fs[i]) && |Payload(fs[i])| == PayloadLen(fs[i])
  {
    hide IsFragment, PayloadLen, Payload;
    assert fs[..i + 1][..i] == fs[..i];
    PayloadLength(fs[i]);
  }

  lemma PayloadLength(f: Fragment)
    requires IsFragment(f) && PayloadLen(f) >= 0
    ensures |Payload(f)| == PayloadLen(f)
  {
    hide HeaderInside, PayloadStart;
  }

  /** All fragments but the last carry the same number of bytes. */
  lemma {:induction false} RunHasEqualSizes(fs: seq<Fragment>, expected: nat, i: nat)
    requires AllFragments(fs) && Run(fs, expected) && i + 1 < |fs|
    ensures PayloadLen(fs[i]) == PayloadLen(fs[0])
  {
    hide IsFragment, TupleOf, HeadersAgree, PayloadLen, Total;
    if i > 0 {
      assert Link(fs, i, expected) && Link(fs, i + 1, expected);
      TotalStep(fs, i);
      RunHasEqualSizes(fs, expected, i - 1);
    }
  }

  /** Sequence numbers have no gaps: fragment i starts as far behind the first as there
      is payload before it, modulo 2^32. */
  lemma {:induction false} RunIsGapFree(fs: seq<Fragment>, expected: nat, i: nat)
    requires AllFragments(fs) && Run(fs, expected) && i < |fs| && IsTcp(fs[0])
    ensures InSequence(fs, i)
  {
    hide IsFragment, IsTcp, SeqOf, PayloadLen, TupleOf, HeadersAgree, Total, Add;
    if i > 0 {
      assert Link(fs, i, expected);
      RunIsGapFree(fs, expected, i - 1);
      TotalStep(fs, i - 1);
      LastAgrees(fs[i], fs[i - 1]);
      AddRemainders(SeqOf(fs[0]), Total(fs[..i - 1]), PayloadLen(fs[i - 1]));
    } else {
      TotalOfNothing(fs);
      AddNothing(SeqOf(fs[0]));
    }
  }

  lemma AddNothing(x: u32)
    ensures Add(x, 0) == x
  {
  }

  /** The k-th flag of a TCP header, from FIN up, as RFC 793 and RFC 3168 number them. */
  predicate Flag(flags: byte, k: nat) {
    match k
    case 0 => flags % 2 == 1
    case 1 => flags / 2 % 2 == 1
    case 2 => flags / 4 % 2 == 1
    case 3 => flags / 8 % 2 == 1
    case 4 => flags / 16 % 2 == 1
    case 5 => flags / 32 % 2 == 1
    case 6 => flags / 64 % 2 == 1
    case _ => flags / 128 % 2 == 1
  }

  const FIN := 0
  const PSH := 3
  const CWR := 7

  /** No two flags but FIN, PSH and CWR differ. */
  ghost predicate SameButFinPshCwr(x: byte, y: byte) {
    forall k: nat | k < 8 && k != FIN && k != PSH && k != CWR :: Flag(x, k) <==> Flag(y, k)
  }

  /** Which flags two fragments have to have in common. */
  lemma FlagsAgreeIff(x: byte, y: byte)
    ensures StableFlags(x) == StableFlags(y) <==> SameButFinPshCwr(x, y)
  {
    if StableFlags(x) == StableFlags(y) {
      forall k: nat | k < 8 && k != FIN && k != PSH && k != CWR
        ensures Flag(x, k) <==> Flag(y, k)
      {
      }
    }
    if SameButFinPshCwr(x, y) {
      assert Flag(x, 1) <==> Flag(y, 1);
      assert Flag(x, 2) <==> Flag(y, 2);
      assert Flag(x, 4) <==> Flag(y, 4);
      assert Flag(x, 5) <==> Flag(y, 5);
      assert Flag(x, 6) <==> Flag(y, 6);
    }
  }

  /** The parts of a TCP header in which all fragments agree, so that those of the last
      can stand for all: data offset and reserved bits, the flags other than FIN, PSH and
      CWR, ack_seq, window and urgent pointer. */
  ghost predicate SameTcpFields(f: Fragment, g: Fragment)
    requires IsFragment(f) && IsFragment(g) && IsTcp(f) && IsTcp(g)
  {
    var m, s, m', t := f.mem, Last(f).start, g.mem, Last(g).start;
    && HighNibble(m[s + 12]) == HighNibble(m'[t + 12]) && LowNibble(m[s + 12]) == LowNibble(m'[t + 12])
    && SameButFinPshCwr(m[s + 13], m'[t + 13])
    && Be32(m, s + 8) == Be32(m', t + 8) && Be16(m, s + 14) == Be16(m', t + 14) && Be16(m, s + 18) == Be16(m', t + 18)
  }

  lemma {:induction false} RunSharesTcpFields(fs: seq<Fragment>, expected: nat, i: nat)
    requires AllFragments(fs) && Run(fs, expected) && i < |fs| && IsTcp(fs[0])
    ensures IsTcp(fs[i]) && SameTcpFields(fs[i], fs[0])
  {
    hide IsFragment, IsTcp, PayloadLen, TupleOf, HeadersAgree, Total, SameTcpFields;
    if i > 0 {
      assert Link(fs, i, expected);
      RunSharesTcpFields(fs, expected, i - 1);
      LastSharesTcpFields(fs[i], fs[i - 1]);
      TcpFieldsTransitive(fs[i], fs[i - 1], fs[0]);
    } else {
      TcpFieldsReflexive(fs[0]);
    }
  }

  lemma LastSharesTcpFields(cur: Fragment, prev: Fragment)
    requires IsFragment(cur) && IsFragment(prev) && HeadersAgree(cur, prev) && IsTcp(prev)
    ensures IsTcp(cur) && SameTcpFields(cur, prev)
  {
    hide PayloadLen, Be32, Be16, StableFlags, SameButFinPshCwr, Add, PayloadStart;
    var n := |prev.info.headers| - 1;
    FlagsAgreeIff(cur.mem[Last(cur).start + 13], prev.mem[Last(prev).start + 13]);
    assert HeaderAgrees(cur.mem, cur.info.headers[n], prev.mem, prev.info.headers[n], PayloadLen(prev) % 0x1_0000_0000);
  }

  lemma TcpFieldsTransitive(f: Fragment, g: Fragment, h: Fragment)
    requires IsFragment(f) && IsFragment(g) && IsFragment(h) && IsTcp(f) && IsTcp(g) && IsTcp(h)
    requires SameTcpFields(f, g) && SameTcpFields(g, h)
    ensures SameTcpFields(f, h)
  {
    hide IsFragment, IsTcp, Be32, Be16, Flag;
  }

  lemma TcpFieldsReflexive(f: Fragment)
    requires IsFragment(f) && IsTcp(f)
    ensures SameTcpFields(f, f)
  {
    hide IsFragment, IsTcp, Be32, Be16, Flag;
  }

  /** All fragments have a layer 4 header of the same kind. */
  lemma {:induction false} RunSharesKind(fs: seq<Fragment>, expected: nat, i: nat)
    requires AllFragments(fs) && Run(fs, expected) && i < |fs|
    ensures Last(fs[i]).kind == Last(fs[0]).kind
  {
    hide IsFragment, TupleOf, HeadersAgree, PayloadLen, Total;
    if i > 0 {
      assert Link(fs, i, expected);
      RunSharesKind(fs, expected, i - 1);
      LastKindAgrees(fs[i], fs[i - 1]);
    }
  }

  lemma LastKindAgrees(cur: Fragment, prev: Fragment)
    requires IsFragment(cur) && IsFragment(prev) && HeadersAgree(cur, prev)
    ensures Last(cur).kind == Last(prev).kind
  {
    hide PayloadLen, Be32, Be16, StableFlags, Add, PayloadStart, HighNibble;
    var n := |prev.info.headers| - 1;
    assert HeaderAgrees(cur.mem, cur.info.headers[n], prev.mem, prev.info.headers[n], PayloadLen(prev) % 0x1_0000_0000);
  }

  lemma TotalOfNothing(fs: seq<Fragment>)
    requires AllFragments(fs)
    ensures Total(fs[..0]) == 0 && AllPayloads(fs[..0]) && Concat(fs[..0]) == []
  {
    hide IsFragment;
  }

  lemma LastAgrees(cur: Fragment, prev: Fragment)
    requires IsFragment(cur) && IsFragment(prev) && HeadersAgree(cur, prev) && IsTcp(prev)
    ensures IsTcp(cur) && SeqOf(cur) == Add(SeqOf(prev), PayloadLen(prev) % 0x1_0000_0000)
  {
    hide PayloadLen, Be32, Be16, StableFlags, Add, PayloadStart, HighNibble;
    var n := |prev.info.headers| - 1;
    assert HeaderAgrees(cur.mem, cur.info.headers[n], prev.mem, prev.info.headers[n], PayloadLen(prev) % 0x1_0000_0000);
  }

  lemma AddRemainders(x: u32, a: int, b: int)
    ensures Add(Add(x, a % 0x1_0000_0000), b % 0x1_0000_0000) == Add(x, (a + b) % 0x1_0000_0000)
  {
  }

  /** The payloads put together: as long as all of them, each in its place. */
  lemma {:induction false} ConcatHasParts(fs: seq<Fragment>, n: nat, i: nat)
    requires AllFragments(fs) && AllPayloads(fs) && i < n <= |fs|
    ensures |Concat(fs[..n])| == Total(fs[..n]) && 0 <= Total(fs[..i]) <= Total(fs[..i + 1]) <= Total(fs[..n])
    ensures Concat(fs[..n])[Total(fs[..i])..Total(fs[..i + 1])] == Payload(fs[i])
    decreases n
  {
    hide IsFragment, PayloadLen, Payload, Total, Concat;
    TotalStep(fs, n - 1);
    ConcatStep(fs, n - 1);
    ConcatLength(fs, n - 1);
    if i < n - 1 {
      ConcatHasParts(fs, n - 1, i);
      var c, a, b := Concat(fs[..n - 1]), Total(fs[..i]), Total(fs[..i + 1]);
      assert (c + Payload(fs[n - 1]))[a..b] == c[a..b];
    } else {
      var c, p := Concat(fs[..i]), Payload(fs[i]);
      assert (c + p)[|c|..|c| + |p|] == p;
    }
  }

  lemma {:induction false} ConcatLength(fs: seq<Fragment>, n: nat)
    requires AllFragments(fs) && AllPayloads(fs) && n <= |fs|
    ensures |Concat(fs[..n])| == Total(fs[..n])
  {
    hide IsFragment, PayloadLen, Payload, Total, Concat;
    TotalOfNothing(fs);
    if n > 0 {
      ConcatLength(fs, n - 1);
      TotalStep(fs, n - 1);
      ConcatStep(fs, n - 1);
    }
  }

  /** Only the first and the last fragment of a run can tell whether all of them have a
      payload to copy. */
  lemma RunHasPayloads(fs: seq<Fragment>, expected: nat)
    requires AllFragments(fs) && Run(fs, expected)
    ensures AllPayloads(fs) <==> PayloadLen(fs[0]) >= 0 && PayloadLen(fs[|fs| - 1]) >= 0
  {
    hide IsFragment, PayloadLen, TupleOf, Continues, Total;
    if PayloadLen(fs[0]) >= 0 && PayloadLen(fs[|fs| - 1]) >= 0 {
      forall i | 0 <= i < |fs|
        ensures PayloadLen(fs[i]) >= 0
      {
        if i < |fs| - 1 {
          RunHasEqualSizes(fs, expected, i);
        }
      }
    }
  }

  ghost predicate OneTuple(fs: seq<Fragment>)
    requires AllFragments(fs)
  {
    forall i | 0 <= i < |fs| :: TupleOf(fs[i]) == TupleOf(fs[0])
  }

  /** All fragments but the last are of one size. */
  ghost predicate EqualSizes(fs: seq<Fragment>)
    requires AllFragments(fs)
  {
    forall i | 0 <= i < |fs| - 1 :: PayloadLen(fs[i]) == PayloadLen(fs[0])
  }

  ghost predicate InSequence(fs: seq<Fragment>, i: nat)
    requires AllFragments(fs) && i < |fs| && IsTcp(fs[0])
  {
    IsTcp(fs[i]) && SeqOf(fs[i]) == Add(SeqOf(fs[0]), Total(fs[..i]) % 0x1_0000_0000)
  }

  /** TCP fragments have no gaps between them. */
  ghost predicate GapFree(fs: seq<Fragment>)
    requires AllFragments(fs) && |fs| > 0
  {
    IsTcp(fs[0]) ==> forall i | 0 <= i < |fs| :: InSequence(fs, i)
  }

  /** Everything at once, for a whole stream and with the checker on: one stretch of
      one connection's byte stream, as long as expected. */
  lemma AcceptedIsOneStream(stream: seq<Sniff>, expected: nat, one: bool)
    requires AllSniffed(stream) && Collect(stream, [], expected, one, true).Accepted?
    ensures var fs := Collect(stream, [], expected, one, true).fragments;
            && AllFragments(fs) && |fs| > 0 && Total(fs) == expected && (AllPayloads(fs) ==> |Concat(fs)| == expected)
            && OneTuple(fs) && EqualSizes(fs) && GapFree(fs)
  {
    hide IsFragment, TupleOf, PayloadLen, Total, Concat, Collect, Run, IsTcp, SeqOf, InSequence;
    var fs := Collect(stream, [], expected, one, true).fragments;
    var k, all := AcceptedIsRun(stream, [], [], expected, one, true);
    RunIsNotEmpty(fs, expected);
    forall i | 0 <= i < |fs|
      ensures TupleOf(fs[i]) == TupleOf(fs[0])
      ensures i < |fs| - 1 ==> PayloadLen(fs[i]) == PayloadLen(fs[0])
      ensures IsTcp(fs[0]) ==> InSequence(fs, i)
    {
      RunSharesTuple(fs, expected, i);
      if i < |fs| - 1 {
        RunHasEqualSizes(fs, expected, i);
      }
      if IsTcp(fs[0]) {
        RunIsGapFree(fs, expected, i);
      }
    }
    if AllPayloads(fs) {
      ConcatLength(fs, |fs|);
    }
    assert fs[..|fs|] == fs;
  }

  lemma RunIsNotEmpty(fs: seq<Fragment>, expected: nat)
    requires AllFragments(fs) && Run(fs, expected)
    ensures |fs| > 0
  {
  }

  // ---------------------------------------------------------------------
  // Nothing good is turned down
  // ---------------------------------------------------------------------

  lemma RunExtends(fs: seq<Fragment>, i: nat, expected: nat)
    requires AllFragments(fs) && Run(fs, expected) && i < |fs|
    ensures Extend(fs[..i], fs[i], expected) == Some(fs[..i + 1])
  {
    hide IsFragment, Continues, TupleOf, PayloadLen;
    if i == 0 {
      assert fs[..i] == [] && fs[..i + 1] == [fs[0]];
    } else {
      assert Link(fs, i, expected);
      assert fs[..i][i - 1] == fs[i - 1];
      assert fs[..i] + [fs[i]] == fs[..i + 1];
    }
  }

  /** A run that adds up to what is expected is accepted as it is, whatever would be
      sniffed after it. */
  lemma {:induction false} RunIsAccepted(stream: seq<Sniff>, fs: seq<Fragment>, i: nat, expected: nat, one: bool,
                                         checker: bool)
    requires AllFragments(fs) && Run(fs, expected) && Total(fs) == expected && (one ==> |fs| == 1) && i < |fs|
    requires AllSniffed(stream) && |fs| - i <= |stream|
    requires forall j | 0 <= j < |fs| - i :: stream[j] == Got(fs[i + j])
    ensures Collect(stream, fs[..i], expected, one, checker) == Accepted(fs)
    decreases |fs| - i
  {
    hide IsFragment, Continues, TupleOf, PayloadLen;
    assert stream[0] == Got(fs[i + 0]);
    RunExtends(fs, i, expected);
    if i + 1 < |fs| {
      assert Link(fs, i + 1, expected);
      forall j | 0 <= j < |fs| - (i + 1)
        ensures stream[1..][j] == Got(fs[i + 1 + j])
      {
        assert stream[1..][j] == stream[j + 1] == Got(fs[i + (j + 1)]);
      }
      RunIsAccepted(stream[1..], fs, i + 1, expected, one, checker);
    } else {
      assert fs[..i + 1] == fs;
    }
  }
}
