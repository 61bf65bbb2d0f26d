/**
Gluing sniffed segments together (run_packet.c): outbound packets are sniffed until
their payloads add up to what the script expects, and each has to continue the one
before it.
 */
module Aggregation {
  import opened Bytes
  import opened Packet
  import opened PacketGrammar
  import opened SeqTranslation

  /** A sniffed packet: its bytes and its metadata. */
  datatype Fragment = Fragment(mem: seq<byte>, info: Info)

  function Last(f: Fragment): Header
    requires |f.info.headers| > 0
  {
    f.info.headers[|f.info.headers| - 1]
  }

  function MinimumBytes(kind: Kind): nat {
    match kind
    case IPV4 => 20
    case IPV6 => 40
    case TCP => 20
    case UDP => 8
    case ICMPV4 => 8
    case ICMPV6 => 8
    case _ => 4
  }

  predicate HeaderInside(mem: seq<byte>, h: Header) {
    h.start + h.headerBytes <= |mem| && MinimumBytes(h.kind) <= h.headerBytes
  }

  /** packet_payload */
  function PayloadStart(f: Fragment): nat
    requires |f.info.headers| > 0 && HeaderInside(f.mem, Last(f))
  {
    Last(f).start + if Last(f).kind == TCP then HighNibble(f.mem[Last(f).start + 12]) * 4
      else MinimumBytes(Last(f).kind)
  }

  /** A packet captured at the IP layer with an IP and a layer 4 header. */
  predicate IsFragment(f: Fragment) {
    && |f.info.headers| > 1 && f.info.ipBytes <= |f.mem|
    && (forall i | 0 <= i < |f.info.headers| :: HeaderInside(f.mem, f.info.headers[i]))
    && IsLayer4(Last(f).kind) && IsIp(f.info.headers[|f.info.headers| - 2].kind)
  }

  /** packet_payload_len: negative when an inner header lies behind the outermost
      datagram, which the parser allows. */
  function PayloadLen(f: Fragment): int
    requires IsFragment(f)
  {
    f.info.ipBytes - PayloadStart(f)
  }

  function Payload(f: Fragment): seq<byte>
    requires IsFragment(f) && PayloadLen(f) >= 0
  {
    f.mem[PayloadStart(f)..f.info.ipBytes]
  }

  predicate IsTcp(f: Fragment)
    requires IsFragment(f)
  {
    Last(f).kind == TCP
  }

  /** ntohl(packet->tcp->seq) */
  function SeqOf(f: Fragment): u32
    requires IsFragment(f) && IsTcp(f)
  {
    Be32(f.mem, Last(f).start + 4)
  }

  // ---------------------------------------------------------------------
  // What two fragments have to agree on
  // ---------------------------------------------------------------------

  /** The addresses and ports of struct tuple, as bytes. */
  datatype Tuple = Tuple(src: seq<byte>, dst: seq<byte>, srcPort: seq<byte>, dstPort: seq<byte>)

  /** get_packet_tuple */
  function TupleOf(f: Fragment): Tuple
    requires IsFragment(f)
  {
    var m, ip, l4 := f.mem, f.info.headers[|f.info.headers| - 2], Last(f);
    var s := ip.start;
    var (src, dst) := if ip.kind == IPV4 then (m[s + 12..s + 16], m[s + 16..s + 20])
        else (m[s + 8..s + 24], m[s + 24..s + 40]);
    if l4.kind == TCP || l4.kind == UDP
    then Tuple(src, dst, m[l4.start..l4.start + 2], m[l4.start + 2..l4.start + 4])
    else Tuple(src, dst, [0, 0], [0, 0])
  }

  /** TCP flags without FIN, PSH and CWR. */
  function StableFlags(flags: byte): (int, int, int, int, int) {
    (flags / 2 % 2, flags / 4 % 2, flags / 16 % 2, flags / 32 % 2, flags / 64 % 2)
  }

  /** verify_header without strict checks: header c of the current packet against
      header p of the previous one, which has a payload of the given length. */
  predicate HeaderAgrees(cur: seq<byte>, c: Header, prev: seq<byte>, p: Header, payload: u32)
    requires HeaderInside(cur, c) && HeaderInside(prev, p)
  {
    var s, t := c.start, p.start;
    && c.kind == p.kind
    && match c.kind
       case IPV4 =>
         && cur[s] == prev[t] && cur[s + 9] == prev[t + 9]
         && (prev[t + 8] != TTL_CHECK_NONE ==> cur[s + 8] == prev[t + 8])
       case IPV6 =>
         && HighNibble(cur[s]) == HighNibble(prev[t]) && cur[s + 6] == prev[t + 6]
         && (prev[t + 7] != TTL_CHECK_NONE ==> cur[s + 7] == prev[t + 7])
       case GRE => cur[s..s + c.headerBytes] == prev[t..t + p.headerBytes]
       case MPLS => cur[s..s + c.headerBytes] == prev[t..t + p.headerBytes]
       case TCP =>
         && cur[s + 12] == prev[t + 12] && StableFlags(cur[s + 13]) == StableFlags(prev[t + 13])
         && Be32(cur, s + 4) == Add(Be32(prev, t + 4), payload)
         && Be32(cur, s + 8) == Be32(prev, t + 8)
         && Be16(cur, s + 14) == Be16(prev, t + 14) && Be16(cur, s + 18) == Be16(prev, t + 18)
       case UDP => true
       case _ => cur[s] == prev[t] && cur[s + 1] == prev[t + 1]
  }

  /** verify_outbound_live_headers without strict checks. */
  predicate HeadersAgree(cur: Fragment, prev: Fragment)
    requires IsFragment(cur) && IsFragment(prev)
  {
    && |cur.info.headers| == |prev.info.headers|
    && forall i | 0 <= i < |prev.info.headers| ::
         HeaderAgrees(cur.mem, cur.info.headers[i], prev.mem, prev.info.headers[i], PayloadLen(prev) % 0x1_0000_0000)
  }

  /** verify_packet_fragments: a fragment that leaves something to come has to be as
      long as the one before it. */
  predicate Continues(cur: Fragment, prev: Fragment, sniffed: int, expected: nat)
    requires IsFragment(cur) && IsFragment(prev)
  {
    && HeadersAgree(cur, prev)
    && (PayloadLen(cur) < expected - sniffed ==> PayloadLen(cur) == PayloadLen(prev))
  }

  // ---------------------------------------------------------------------
  // The loop
  // ---------------------------------------------------------------------

  /** What sniff_outbound_live_packet and tcp_convert_seq_number give. */
  datatype Sniff = Got(packet: Fragment) | Failed

  datatype Outcome = Accepted(fragments: seq<Fragment>) | SniffFailed | Incompatible | WrongPayload

  predicate AllFragments(fs: seq<Fragment>) {
    forall i | 0 <= i < |fs| :: IsFragment(fs[i])
  }

  predicate AllSniffed(stream: seq<Sniff>) {
    forall i | 0 <= i < |stream| && stream[i].Got? :: IsFragment(stream[i].packet)
  }

  function Total(fs: seq<Fragment>): int
    requires AllFragments(fs)
  {
    if fs == [] then 0 else Total(fs[..|fs| - 1]) + PayloadLen(fs[|fs| - 1])
  }

  /** There is something to copy from every fragment, if only nothing. */
  predicate AllPayloads(fs: seq<Fragment>)
    requires AllFragments(fs)
  {
    forall i | 0 <= i < |fs| :: PayloadLen(fs[i]) >= 0
  }

  function Concat(fs: seq<Fragment>): seq<byte>
    requires AllFragments(fs) && AllPayloads(fs)
  {
    if fs == [] then [] else Concat(fs[..|fs| - 1]) + Payload(fs[|fs| - 1])
  }

  /** The list after one more packet: another tuple starts the list anew, and a packet
      that does not continue the last one is an error. */
  function Extend(sofar: seq<Fragment>, f: Fragment, expected: nat): Option<seq<Fragment>>
    requires AllFragments(sofar) && IsFragment(f)
  {
    if sofar == [] || TupleOf(f) != TupleOf(sofar[|sofar| - 1]) then Some([f])
    else if Continues(f, sofar[|sofar| - 1], Total(sofar), expected) then Some(sofar + [f])
    else None
  }

  lemma ExtendIsFragments(sofar: seq<Fragment>, f: Fragment, expected: nat)
    requires AllFragments(sofar) && IsFragment(f)
    ensures var fs := Extend(sofar, f, expected); fs.Some? ==> fs.value != [] && AllFragments(fs.value)
  {
    hide IsFragment, Continues, TupleOf, Total;
  }

  /** The sniffing loop from the point where the fragments so far have been sniffed.
      `one` is strict_segments outside the wire server, where one packet is sniffed. */
  function Collect(stream: seq<Sniff>, sofar: seq<Fragment>, expected: nat, one: bool, checker: bool): Outcome
    requires AllSniffed(stream) && AllFragments(sofar)
    decreases |stream|
  {
    if stream == [] || stream[0].Failed? then SniffFailed
    else
      match Extend(sofar, stream[0].packet, expected)
      case None => Incompatible
      case Some(fs) => ExtendIsFragments(sofar, stream[0].packet, expected); Decide(stream, fs, expected, one, checker)
  }

  /** The loop condition and the check behind the loop. */
  function Decide(stream: seq<Sniff>, fs: seq<Fragment>, expected: nat, one: bool, checker: bool): Outcome
    requires AllSniffed(stream) && AllFragments(fs) && stream != []
    decreases |stream|, 0
  {
    if Total(fs) < expected && !one then Collect(stream[1..], fs, expected, one, checker)
    else if Total(fs) != expected && checker then WrongPayload
    else Accepted(fs)
  }

  /** The sniffing loop of do_outbound_script_packet. */
  method SniffLoop(stream: seq<Sniff>, expected: nat, strictSegments: bool, isWireServer: bool, checker: bool)
    returns (r: Outcome)
    requires AllSniffed(stream)
    ensures r == Collect(stream, [], expected, strictSegments && !isWireServer, checker)
  {
    hide IsFragment, HeadersAgree, TupleOf, PayloadLen;
    ghost var one := strictSegments && !isWireServer;
    var fragments: seq<Fragment>, sniffedLen, i := [], 0, 0;
    while true
      invariant i <= |stream| && AllFragments(fragments) && sniffedLen == Total(fragments)
      invariant Collect(stream, [], expected, one, checker) == Collect(stream[i..], fragments, expected, one, checker)
      decreases |stream| - i
    {
      if i == |stream| || stream[i].Failed? {
        return SniffFailed;
      }
      assert stream[i..][0] == stream[i] && stream[i..][1..] == stream[i + 1..];
      var live := stream[i].packet;
      i := i + 1;
      if |fragments| > 0 {
        if TupleOf(live) != TupleOf(fragments[|fragments| - 1]) {
          fragments, sniffedLen := [], 0;
        } else if !Continues(live, fragments[|fragments| - 1], sniffedLen, expected) {
          return Incompatible;
        }
      }
      assert (fragments + [live])[..|fragments|] == fragments;
      fragments := fragments + [live];
      sniffedLen := sniffedLen + PayloadLen(live);
      if !(sniffedLen < expected && (!strictSegments || isWireServer)) {
        break;
      }
    }
    if sniffedLen != expected && checker {
      return WrongPayload;
    }
    return Accepted(fragments);
  }
}
