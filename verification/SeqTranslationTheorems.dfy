/**
What translation between script space and live space promises: the two directions
undo each other for each endpoint, sequence distances are kept, and only seq,
ack_seq and SACK edges change.
 */
module SeqTranslationTheorems {
  import opened Bytes
  import opened Splices
  import opened TcpOptions
  import opened SeqTranslation

  // ---------------------------------------------------------------------
  // What is moved
  // ---------------------------------------------------------------------

  /** Up to its options the packet m' is m with seq moved by seqOffset, ack_seq moved by
      ackOffset where the ACK flag is set, and nothing else changed. */
  predicate IsMoved(m: seq<byte>, m': seq<byte>, tcp: nat, seqOffset: u32, ackOffset: u32)
    requires tcp + TCP_HEADER_BYTES <= |m|
  {
    && |m'| == |m|
    && m'[..tcp + 4] == m[..tcp + 4]
    && Seq(m', tcp) == Add(Seq(m, tcp), seqOffset)
    && AckSeq(m', tcp) == (if IsAck(m, tcp) then Add(AckSeq(m, tcp), ackOffset) else AckSeq(m, tcp))
    && m'[tcp + 12..tcp + 20] == m[tcp + 12..tcp + 20]
  }

  lemma SeqMoved(m: seq<byte>, tcp: nat, x: u32)
    requires tcp + TCP_HEADER_BYTES <= |m|
    ensures var r := Splice(m, tcp + 4, Enc32(x));
            r[..tcp + 4] == m[..tcp + 4] && Seq(r, tcp) == x && AckSeq(r, tcp) == AckSeq(m, tcp)
              && r[tcp + 12..] == m[tcp + 12..]
  {
    hide Splice, Be32, Enc32;
    var r := Splice(m, tcp + 4, Enc32(x));
    SpliceFrame(m, tcp + 4, Enc32(x), 0, tcp + 4);
    SpliceFrame(m, tcp + 4, Enc32(x), tcp + 8, tcp + 12);
    SpliceFrame(m, tcp + 4, Enc32(x), tcp + 12, |m|);
    SpliceRead(m, tcp + 4, Enc32(x));
    Be32Slice(r, tcp + 4);
    Be32Slice(r, tcp + 8);
    Be32Slice(m, tcp + 8);
  }

  lemma AckSeqMoved(m: seq<byte>, tcp: nat, x: u32)
    requires tcp + TCP_HEADER_BYTES <= |m|
    ensures var r := Splice(m, tcp + 8, Enc32(x));
            r[..tcp + 4] == m[..tcp + 4] && Seq(r, tcp) == Seq(m, tcp) && AckSeq(r, tcp) == x
              && r[tcp + 12..] == m[tcp + 12..]
  {
    hide Splice, Be32, Enc32;
    var r := Splice(m, tcp + 8, Enc32(x));
    SpliceFrame(m, tcp + 8, Enc32(x), 0, tcp + 4);
    SpliceFrame(m, tcp + 8, Enc32(x), tcp + 4, tcp + 8);
    SpliceFrame(m, tcp + 8, Enc32(x), tcp + 12, |m|);
    SpliceRead(m, tcp + 8, Enc32(x));
    Be32Slice(r, tcp + 8);
    Be32Slice(r, tcp + 4);
    Be32Slice(m, tcp + 4);
  }

  lemma FieldsAreMoved(m: seq<byte>, tcp: nat, seqOffset: u32, ackOffset: u32)
    requires tcp + TCP_HEADER_BYTES <= |m|
    ensures IsMoved(m, FieldsMoved(m, tcp, seqOffset, ackOffset), tcp, seqOffset, ackOffset)
  {
    hide Splice, Be32, Enc32, Seq, AckSeq, Add;
    var m1 := Splice(m, tcp + 4, Enc32(Add(Seq(m, tcp), seqOffset)));
    SeqMoved(m, tcp, Add(Seq(m, tcp), seqOffset));
    AckSeqMoved(m1, tcp, Add(AckSeq(m, tcp), ackOffset));
    var m2 := FieldsMoved(m, tcp, seqOffset, ackOffset);
    assert m2[tcp + 12..] == m[tcp + 12..];
    assert m2[tcp + 12..tcp + 20] == m2[tcp + 12..][..8] == m[tcp + 12..][..8] == m[tcp + 12..tcp + 20];
  }

  /** Bytes up to the options decide whether the fields are moved. */
  lemma SameFields(m: seq<byte>, m1: seq<byte>, m2: seq<byte>, tcp: nat, seqOffset: u32, ackOffset: u32)
    requires tcp + TCP_HEADER_BYTES <= |m| && IsMoved(m, m1, tcp, seqOffset, ackOffset)
    requires |m2| == |m1| && m2[..tcp + 20] == m1[..tcp + 20]
    ensures IsMoved(m, m2, tcp, seqOffset, ackOffset)
  {
    hide Be32, Add;
    assert m2[..tcp + 4] == m2[..tcp + 20][..tcp + 4] == m1[..tcp + 20][..tcp + 4] == m1[..tcp + 4];
    Be32Slice(m1, tcp + 4);
    Be32Slice(m2, tcp + 4);
    Be32Slice(m1, tcp + 8);
    Be32Slice(m2, tcp + 8);
    assert m2[tcp + 4..tcp + 8] == m2[..tcp + 20][tcp + 4..tcp + 8] == m1[..tcp + 20][tcp + 4..tcp + 8]
        == m1[tcp + 4..tcp + 8];
    assert m2[tcp + 8..tcp + 12] == m2[..tcp + 20][tcp + 8..tcp + 12] == m1[..tcp + 20][tcp + 8..tcp + 12]
        == m1[tcp + 8..tcp + 12];
    assert m2[tcp + 12..tcp + 20] == m2[..tcp + 20][tcp + 12..] == m1[..tcp + 20][tcp + 12..] == m1[tcp + 12..tcp + 20];
  }

  /** Moving any packet moves these fields and no others, and nothing behind the options
      if the blocks of every SACK option that is walked over end inside them. */
  lemma MovedIsMoved(m: seq<byte>, tcp: nat, seqOffset: u32, ackOffset: u32)
    requires HeaderAt(m, tcp)
    ensures IsMoved(m, Moved(m, tcp, seqOffset, ackOffset), tcp, seqOffset, ackOffset)
    ensures var end := OptionsEnd(m, tcp);
            Within(m, tcp + 20, end, end) ==>
              SameFrom(m, Moved(m, tcp, seqOffset, ackOffset), if end < tcp + 20 then tcp + 20 else end)
  {
    hide Walked, Within, NoStop, FieldsMoved, IsMoved;
    FieldsStay(m, tcp, seqOffset, ackOffset);
    FieldsAreMoved(m, tcp, seqOffset, ackOffset);
    var m1, r := FieldsMoved(m, tcp, seqOffset, ackOffset), Moved(m, tcp, seqOffset, ackOffset);
    var end := OptionsEnd(m, tcp);
    WalkStartsAt(m1, tcp + 20, end, ackOffset);
    assert r[..tcp + 20] == m1[..tcp + 20];
    SameFields(m, m1, r, tcp, seqOffset, ackOffset);
    if Within(m, tcp + 20, end, end) {
      WalkLooksAhead(m, m1, tcp + 20, end, end);
      InsideStaysInside(m1, tcp + 20, end, ackOffset);
    }
  }

  /** A segment with well-formed options has the edges of its SACK options moved, and is
      again such a segment. */
  lemma OptionsAreMoved(m: seq<byte>, tcp: nat, os: seq<TcpOption>, seqOffset: u32, ackOffset: u32)
    requires SegmentAt(m, tcp, os)
    ensures HeaderAt(m, tcp) && AllWellFormed(ShiftAll(os, ackOffset))
    ensures |WireAll(ShiftAll(os, ackOffset))| == |WireAll(os)|
    ensures SegmentAt(Moved(m, tcp, seqOffset, ackOffset), tcp, ShiftAll(os, ackOffset))
    ensures SameFrom(m, Moved(m, tcp, seqOffset, ackOffset), tcp + 20 + |WireAll(os)|)
  {
    hide Walked, Within, NoStop, FieldsMoved, WireAll, AllWellFormed, ShiftAll, Splice, Moved;
    SegmentIsHeader(m, tcp, os);
    MovedSegment(m, tcp, os, seqOffset, ackOffset);
    MovedIsMoved(m, tcp, seqOffset, ackOffset);
    var m1, r := FieldsMoved(m, tcp, seqOffset, ackOffset), Moved(m, tcp, seqOffset, ackOffset);
    var w := WireAll(ShiftAll(os, ackOffset));
    SpliceRead(m1, tcp + 20, w);
    assert r[tcp + 12] == r[tcp + 12..tcp + 20][0] == m[tcp + 12..tcp + 20][0] == m[tcp + 12];
  }

  // ---------------------------------------------------------------------
  // The two directions
  // ---------------------------------------------------------------------

  /** A packet from the remote end, in live space. */
  function Live(m: seq<byte>, tcp: nat, s: Isns): seq<byte>
    requires HeaderAt(m, tcp)
  {
    Moved(m, tcp, RemoteScriptToLive(s, IsSyn(m, tcp)), LocalScriptToLive(s, IsSyn(m, tcp)))
  }

  /** A packet from the local end, in script space. */
  function Script(m: seq<byte>, tcp: nat, s: Isns): seq<byte>
    requires HeaderAt(m, tcp)
  {
    Moved(m, tcp, LocalLiveToScript(s, IsSyn(m, tcp)), RemoteLiveToScript(s, IsSyn(m, tcp)))
  }

  /** The sequence part of map_inbound_packet: a packet from the remote end goes from
      script space to live space. */
  method MapInbound(mem: array<byte>, tcp: nat, s: Isns) returns (ok: bool)
    requires HeaderAt(mem[..], tcp)
    modifies mem
    ensures ok <==> NoStop(old(mem[..]), tcp + TCP_HEADER_BYTES, OptionsEnd(old(mem[..]), tcp))
    ensures mem[..] == Live(old(mem[..]), tcp, s)
  {
    hide Moved, Within, NoStop;
    var syn := mem[tcp + 13] / 2 % 2 == 1;
    ok := MoveSegment(mem, tcp, RemoteScriptToLive(s, syn), LocalScriptToLive(s, syn));
  }

  /** tcp_convert_seq_number: a packet from the local end goes from live space to script
      space. */
  method ConvertSeqNumber(mem: array<byte>, tcp: nat, s: Isns) returns (ok: bool)
    requires HeaderAt(mem[..], tcp)
    modifies mem
    ensures ok <==> NoStop(old(mem[..]), tcp + TCP_HEADER_BYTES, OptionsEnd(old(mem[..]), tcp))
    ensures mem[..] == Script(old(mem[..]), tcp, s)
  {
    hide Moved, Within, NoStop;
    var syn := mem[tcp + 13] / 2 % 2 == 1;
    ok := MoveSegment(mem, tcp, LocalLiveToScript(s, syn), RemoteLiveToScript(s, syn));
  }

  /** Script space to live space and back, for the remote end and for every packet: the
      offsets are chosen anew from the moved packet's own SYN flag, and every byte is
      restored. */
  lemma InboundAndBack(m: seq<byte>, tcp: nat, s: Isns)
    requires HeaderAt(m, tcp)
    ensures var live := Live(m, tcp, s);
            && HeaderAt(live, tcp)
            && var syn := IsSyn(live, tcp);
               Moved(live, tcp, RemoteLiveToScript(s, syn), LocalLiveToScript(s, syn)) == m
  {
    hide Moved, Within;
    var syn := IsSyn(m, tcp);
    MovingBackRestores(m, tcp, RemoteScriptToLive(s, syn), LocalScriptToLive(s, syn));
  }

  /** Live space to script space and back, for the local end. */
  lemma OutboundAndBack(m: seq<byte>, tcp: nat, s: Isns)
    requires HeaderAt(m, tcp)
    ensures var script := Script(m, tcp, s);
            && HeaderAt(script, tcp)
            && var syn := IsSyn(script, tcp);
               Moved(script, tcp, LocalScriptToLive(s, syn), RemoteScriptToLive(s, syn)) == m
  {
    hide Moved, Within;
    var syn := IsSyn(m, tcp);
    AddGroup(0, 0, LocalScriptToLive(s, syn));
    AddGroup(0, 0, RemoteScriptToLive(s, syn));
    MovingBackRestores(m, tcp, LocalLiveToScript(s, syn), RemoteLiveToScript(s, syn));
  }

  /** What a script sees of a packet the kernel sent. Without SYN: seq counts from the
      local ISN and ack_seq from the remote ISN. With SYN: seq lies as far from the
      script's ISN as the live one does from the live ISN, and ack_seq stays. */
  lemma ScriptNumbersAreRelative(m: seq<byte>, tcp: nat, s: Isns)
    requires HeaderAt(m, tcp)
    ensures var script := Script(m, tcp, s);
            && |script| == |m|
            && (!IsSyn(m, tcp) ==> Seq(script, tcp) == Distance(s.liveLocal, Seq(m, tcp)))
            && (!IsSyn(m, tcp) && IsAck(m, tcp) ==> AckSeq(script, tcp) == Distance(s.liveRemote, AckSeq(m, tcp)))
            && (IsSyn(m, tcp) ==> Distance(s.scriptLocal, Seq(script, tcp)) == Distance(s.liveLocal, Seq(m, tcp)))
            && (IsSyn(m, tcp) || !IsAck(m, tcp) ==> AckSeq(script, tcp) == AckSeq(m, tcp))
  {
    hide Be32, Moved, Within, Seq, AckSeq, IsSyn, IsAck;
    MovedIsMoved(m, tcp, LocalLiveToScript(s, IsSyn(m, tcp)), RemoteLiveToScript(s, IsSyn(m, tcp)));
  }
}
