/**
Translating TCP sequence numbers between script space and live space
(socket.h, run_packet.c): the seq and ack_seq fields and the edges of SACK
blocks, rewritten in place.
 */
module SeqTranslation {
  import opened Bytes
  import opened Splices
  import opened TcpOptions

  const TCP_HEADER_BYTES := 20
  const SACK_BLOCK_BYTES := 8

  /** Addition of u32 values in C. */
  function Add(x: u32, y: u32): u32 {
    if x + y < 0x1_0000_0000 then x + y else x + y - 0x1_0000_0000
  }

  /** Negation of a u32 value in C. */
  function Negate(x: u32): u32 {
    if x == 0 then 0 else 0x1_0000_0000 - x
  }

  /** How far x lies behind y in sequence space. */
  function Distance(x: u32, y: u32): u32 {
    Add(y, Negate(x))
  }

  /** Adding and taking away undo each other; distances are kept. */
  lemma AddGroup(x: u32, y: u32, a: u32)
    ensures Add(Add(x, a), Negate(a)) == x
    ensures Negate(Negate(a)) == a
    ensures Distance(Add(x, a), Add(y, a)) == Distance(x, y)
  {
  }

  // ---------------------------------------------------------------------
  // SACK options as values
  // ---------------------------------------------------------------------

  /** One SACK block with both edges moved by a. */
  function ShiftBlock(b: seq<byte>, a: u32): (r: seq<byte>)
    requires |b| == SACK_BLOCK_BYTES
    ensures |r| == |b|
  {
    Enc32(Add(Be32(b, 0), a)) + Enc32(Add(Be32(b, 4), a))
  }

  /** All whole blocks of a SACK option's data moved by a; a rest of fewer than eight
      bytes stays. */
  function ShiftData(d: seq<byte>, a: u32): (r: seq<byte>)
    ensures |r| == |d|
  {
    if |d| < SACK_BLOCK_BYTES then d
    else ShiftBlock(d[..8], a) + ShiftData(d[8..], a)
  }

  function Shift(o: TcpOption, a: u32): TcpOption {
    if o.kind == TCPOPT_SACK then o.(data := ShiftData(o.data, a)) else o
  }

  /** num_sack_blocks refuses a SACK option without data. */
  predicate Refused(o: TcpOption) {
    o.kind == TCPOPT_SACK && o.data == []
  }

  /** The options offset_sack_blocks leaves behind: a refused option stops it. */
  function ShiftAll(os: seq<TcpOption>, a: u32): seq<TcpOption> {
    if os == [] then []
    else if Refused(os[0]) then os
    else [Shift(os[0], a)] + ShiftAll(os[1..], a)
  }

  // ---------------------------------------------------------------------
  // Shifting is undone by shifting back
  // ---------------------------------------------------------------------

  lemma ShiftBlockBack(b: seq<byte>, a: u32)
    requires |b| == SACK_BLOCK_BYTES
    ensures ShiftBlock(ShiftBlock(b, a), Negate(a)) == b
  {
    hide Enc32, Be32, Add, Negate, Distance;
    var l, r := Enc32(Add(Be32(b, 0), a)), Enc32(Add(Be32(b, 4), a));
    var s := l + r;
    assert s[0..4] == l && s[4..8] == r;
    Be32Slice(s, 0);
    Be32Slice(s, 4);
    AddGroup(Be32(b, 0), 0, a);
    AddGroup(Be32(b, 4), 0, a);
    Be32Slice(b, 0);
    Be32Slice(b, 4);
    Enc32Be32(b[0..4]);
    Enc32Be32(b[4..8]);
    assert b == b[0..4] + b[4..8];
  }

  lemma Be32Slice(s: seq<byte>, i: nat)
    requires i + 4 <= |s|
    ensures Be32(s, i) == Be32(s[i..i + 4], 0)
  {
  }

  lemma {:induction false} ShiftDataBack(d: seq<byte>, a: u32)
    ensures ShiftData(ShiftData(d, a), Negate(a)) == d
  {
    hide ShiftBlock;
    if |d| >= SACK_BLOCK_BYTES {
      var head, rest := ShiftBlock(d[..8], a), ShiftData(d[8..], a);
      assert (head + rest)[..8] == head && (head + rest)[8..] == rest;
      ShiftBlockBack(d[..8], a);
      ShiftDataBack(d[8..], a);
      assert d == d[..8] + d[8..];
    }
  }

  /** As many bytes as there are in whole blocks. */
  function WholeBytes(bytes: nat): (r: nat)
    ensures r <= bytes < r + SACK_BLOCK_BYTES
  {
    bytes - bytes % SACK_BLOCK_BYTES
  }

  lemma FirstBlock(d: seq<byte>, a: u32)
    requires |d| >= SACK_BLOCK_BYTES
    ensures ShiftData(d, a)
         == Enc32(Add(Be32(d[..8], 0), a)) + Enc32(Add(Be32(d[..8], 4), a)) + ShiftData(d[8..], a)
  {
    hide Be32, Enc32, Add;
  }

  /** The j-th word of SACK data is an edge, and it moves by the offset of ack_seq. */
  lemma {:induction false} EdgesMove(d: seq<byte>, a: u32, j: nat)
    requires 4 * j + 4 <= WholeBytes(|d|)
    ensures Be32(ShiftData(d, a), 4 * j) == Add(Be32(d, 4 * j), a)
    decreases |d|
  {
    hide Be32, Enc32, Add, ShiftData;
    var l, r, rest := Enc32(Add(Be32(d[..8], 0), a)), Enc32(Add(Be32(d[..8], 4), a)), ShiftData(d[8..], a);
    var s := ShiftData(d, a);
    FirstBlock(d, a);
    Be32Slice(s, 4 * j);
    Be32Slice(d, 4 * j);
    if j < 2 {
      Be32Slice(d[..8], 4 * j);
      assert d[..8][4 * j..4 * j + 4] == d[4 * j..4 * j + 4];
      assert s[0..4] == l && s[4..8] == r;
    } else {
      EdgesMove(d[8..], a, j - 2);
      Be32Slice(rest, 4 * (j - 2));
      Be32Slice(d[8..], 4 * (j - 2));
      assert s[8..|s|] == rest && d[8..|d|] == d[8..];
      SliceOfSlice(s, 8, |s|, 4 * (j - 2), 4 * (j - 2) + 4);
      SliceOfSlice(d, 8, |d|, 4 * (j - 2), 4 * (j - 2) + 4);
    }
  }

  /** Moving all SACK edges by a and then by -a gives back the same options, also when
      a refused option stops both passes. */
  lemma {:induction false} ShiftAllBack(os: seq<TcpOption>, a: u32)
    ensures ShiftAll(ShiftAll(os, a), Negate(a)) == os
  {
    if os != [] && !Refused(os[0]) {
      var o := Shift(os[0], a);
      ShiftDataBack(os[0].data, a);
      assert !Refused(o) && Shift(o, Negate(a)) == os[0];
      ShiftAllBack(os[1..], a);
      assert ([o] + ShiftAll(os[1..], a))[1..] == ShiftAll(os[1..], a);
    }
  }

  /** Only the data of SACK options is touched: kinds, lengths, every other option and
      the place of every option stay as they are. */
  lemma {:induction false} ShiftAllTouchesOnlySack(os: seq<TcpOption>, a: u32)
    requires AllWellFormed(os)
    ensures |ShiftAll(os, a)| == |os| && AllWellFormed(ShiftAll(os, a))
    ensures forall i | 0 <= i < |os| :: && ShiftAll(os, a)[i].kind == os[i].kind
                                        && |ShiftAll(os, a)[i].data| == |os[i].data|
                                        && (os[i].kind != TCPOPT_SACK ==> ShiftAll(os, a)[i] == os[i])
    ensures |WireAll(ShiftAll(os, a))| == |WireAll(os)|
  {
    if os != [] && !Refused(os[0]) {
      assert os[0] in os;
      ShiftAllTouchesOnlySack(os[1..], a);
      assert WellFormed(Shift(os[0], a));
      assert ShiftAll(os, a)[1..] == ShiftAll(os[1..], a);
    }
  }

  // ---------------------------------------------------------------------
  // offset_sack_blocks
  // ---------------------------------------------------------------------

  /** *q = htonl(val) */
  method PutWord(mem: array<byte>, q: nat, val: u32)
    requires q + 4 <= mem.Length
    modifies mem
    ensures mem[..] == Splice(old(mem[..]), q, Enc32(val))
  {
    var hi, lo := val / 0x1_0000, val % 0x1_0000;
    mem[q], mem[q + 1], mem[q + 2], mem[q + 3] := hi / 0x100, hi % 0x100, lo / 0x100, lo % 0x100;
  }

  /** htonl(ntohl(*q) + offset) */
  method AddToWord(mem: array<byte>, q: nat, offset: u32)
    requires q + 4 <= mem.Length
    modifies mem
    ensures mem[..] == Splice(old(mem[..]), q, Enc32(Add(Be32(old(mem[..]), q), offset)))
  {
    var val: u32 := (mem[q] as int * 0x100 + mem[q + 1] as int) * 0x1_0000
        + (mem[q + 2] as int * 0x100 + mem[q + 3] as int);
    assert val == Be32(mem[..], q);
    hide Enc32, Be32, Be16, Add, Splice;
    PutWord(mem, q, Add(val, offset));
  }

  /** One round of the loop over the blocks of an option. */
  method ShiftBlockAt(mem: array<byte>, q: nat, offset: u32)
    requires q + SACK_BLOCK_BYTES <= mem.Length
    modifies mem
    ensures mem[..] == BlockShifted(old(mem[..]), q, offset)
  {
    hide Enc32, Be32, Splice;
    ghost var m := mem[..];
    AddToWord(mem, q, offset);
    ghost var m' := mem[..];
    AddToWord(mem, q + 4, offset);
    Be32Slice(m, q);
    Be32Slice(m, q + 4);
    Be32Slice(m', q + 4);
    SpliceFrame(m, q, Enc32(Add(Be32(m, q), offset)), q + 4, q + 8);
    Be32Slice(m[q..q + 8], 0);
    Be32Slice(m[q..q + 8], 4);
    assert m[q..q + 8][0..4] == m[q..q + 4] && m[q..q + 8][4..8] == m[q + 4..q + 8];
    SpliceJoin(m, q, Enc32(Add(Be32(m, q), offset)), Enc32(Add(Be32(m, q + 4), offset)));
  }

  /** A packet buffer with the block at q moved. */
  function BlockShifted(m: seq<byte>, q: nat, a: u32): (r: seq<byte>)
    requires q + SACK_BLOCK_BYTES <= |m|
    ensures |r| == |m|
  {
    Splice(m, q, ShiftBlock(m[q..q + 8], a))
  }

  /** A packet buffer with n blocks from q on moved one after the other. */
  function BlocksShifted(m: seq<byte>, q: nat, n: nat, a: u32): seq<byte>
    requires q + n * SACK_BLOCK_BYTES <= |m|
    decreases n
  {
    if n == 0 then m else BlocksShifted(BlockShifted(m, q, a), q + 8, n - 1, a)
  }

  lemma {:induction false} BlocksShiftedIsShiftData(m: seq<byte>, q: nat, bytes: nat, a: u32)
    requires q + bytes <= |m|
    ensures BlocksShifted(m, q, bytes / 8, a) == Splice(m, q, ShiftData(m[q..q + bytes], a))
    decreases bytes
  {
    hide ShiftBlock, Splice;
    if bytes < 8 {
      SpliceSame(m, q, m[q..q + bytes]);
    } else {
      var d, m' := m[q..q + bytes], BlockShifted(m, q, a);
      assert d[..8] == m[q..q + 8] && d[8..] == m[q + 8..q + bytes];
      SpliceFrame(m, q, ShiftBlock(d[..8], a), q + 8, q + bytes);
      BlocksShiftedIsShiftData(m', q + 8, bytes - 8, a);
      SpliceJoin(m, q, ShiftBlock(d[..8], a), ShiftData(d[8..], a));
    }
  }

  /** The loop over the blocks of one option. */
  method ShiftBlocks(mem: array<byte>, q: nat, bytes: nat, offset: u32)
    requires q + bytes <= mem.Length
    modifies mem
    ensures mem[..] == Splice(old(mem[..]), q, ShiftData(old(mem[q..q + bytes]), offset))
  {
    hide BlockShifted, ShiftData, Splice;
    BlocksShiftedIsShiftData(mem[..], q, bytes, offset);
    assert mem[..][q..q + bytes] == mem[q..q + bytes];
    var numBlocks := bytes / SACK_BLOCK_BYTES;
    var i := 0;
    while i < numBlocks
      invariant i <= numBlocks
      invariant BlocksShifted(old(mem[..]), q, numBlocks, offset)
             == BlocksShifted(mem[..], q + 8 * i, numBlocks - i, offset)
    {
      ShiftBlockAt(mem, q + 8 * i, offset);
      i := i + 1;
    }
  }

  /** The bytes at p are those of the options os. */
  predicate OptionsAt(m: seq<byte>, p: nat, os: seq<TcpOption>) {
    && AllWellFormed(os)
    && p + |WireAll(os)| <= |m|
    && m[p..p + |WireAll(os)|] == WireAll(os)
  }

  lemma WireAllEmpty(os: seq<TcpOption>)
    requires AllWellFormed(os)
    ensures |WireAll(os)| == 0 <==> os == []
  {
  }

  lemma FirstOption(m: seq<byte>, p: nat, os: seq<TcpOption>)
    requires OptionsAt(m, p, os) && os != []
    ensures m[p..p + |Wire(os[0])|] == Wire(os[0])
    ensures WellFormed(os[0]) && AllWellFormed(os[1..]) && OptionsAt(m, p + |Wire(os[0])|, os[1..])
    ensures p + |Wire(os[0])| + |WireAll(os[1..])| == p + |WireAll(os)|
  {
    hide Wire;
    var w, b, r := m[p..p + |WireAll(os)|], Wire(os[0]), WireAll(os[1..]);
    assert w == b + r;
    assert m[p..p + |b|] == w[..|b|];
    assert m[p + |b|..p + |b| + |r|] == w[|b|..];
  }

  lemma ShiftAllFirst(os: seq<TcpOption>, a: u32)
    requires AllWellFormed(os) && os != [] && !Refused(os[0])
    ensures WellFormed(Shift(os[0], a)) && |Wire(Shift(os[0], a))| == |Wire(os[0])|
    ensures AllWellFormed(ShiftAll(os, a)) && AllWellFormed(ShiftAll(os[1..], a))
    ensures WireAll(ShiftAll(os, a)) == Wire(Shift(os[0], a)) + WireAll(ShiftAll(os[1..], a))
  {
    assert os[0] in os;
    ShiftAllTouchesOnlySack(os, a);
    ShiftAllTouchesOnlySack(os[1..], a);
    assert ShiftAll(os, a)[1..] == ShiftAll(os[1..], a);
  }

  /** The bytes of an option, one field after the other. */
  lemma OptionBytes(m: seq<byte>, p: nat, o: TcpOption)
    requires WellFormed(o) && p + |Wire(o)| <= |m| && m[p..p + |Wire(o)|] == Wire(o)
    ensures m[p] == o.kind
    ensures !IsBare(o.kind) ==> |Wire(o)| == 2 + |o.data| == m[p + 1] && m[p + 2..p + |Wire(o)|] == o.data
  {
    assert m[p] == Wire(o)[0];
    if !IsBare(o.kind) {
      assert m[p + 1] == Wire(o)[1];
      assert m[p + 2..p + |Wire(o)|] == Wire(o)[2..] == o.data;
    }
  }

  /** Writing only an option's data is writing the whole option with the same kind and
      length. */
  lemma HeaderStays(m: seq<byte>, p: nat, o: TcpOption, d: seq<byte>)
    requires WellFormed(o) && !IsBare(o.kind) && |d| == |o.data|
    requires p + |Wire(o)| <= |m| && m[p..p + |Wire(o)|] == Wire(o)
    ensures Splice(m, p + 2, d) == Splice(m, p, Wire(o.(data := d)))
  {
    var head := [o.kind, 2 + |d|];
    assert m[p..p + 2] == Wire(o)[..2] == head;
    SpliceSame(m, p, head);
    SpliceJoin(m, p, head, d);
  }

  /** No option is refused. */
  predicate NoneRefused(os: seq<TcpOption>) {
    os == [] || (!Refused(os[0]) && NoneRefused(os[1..]))
  }

  // ---------------------------------------------------------------------
  // Whatever bytes the options are
  // ---------------------------------------------------------------------

  /** The SACK option at p is refused for its length byte. */
  predicate Stops(m: seq<byte>, p: nat)
    requires p + 1 < |m|
  {
    m[p] == TCPOPT_SACK && m[p + 1] <= 2
  }

  /** How many bytes of blocks are moved at p, going by the length byte alone. */
  function BlockBytes(m: seq<byte>, p: nat): nat
    requires p + 1 < |m|
  {
    if m[p] == TCPOPT_SACK && m[p + 1] > 2 then WholeBytes(m[p + 1] - 2) else 0
  }

  /** The length byte of the option at p is in memory if it is looked at, and the blocks
      that are moved end at or before `limit`. */
  predicate Fits(m: seq<byte>, p: nat, limit: nat)
    requires p < |m|
  {
    m[p] == TCPOPT_SACK ==> p + 1 < |m| && (BlockBytes(m, p) == 0 || p + 2 + BlockBytes(m, p) <= limit)
  }

  /** The walk over the options from p on stops at the option at p. */
  predicate StopsAt(m: seq<byte>, p: nat)
    requires p < |m|
  {
    p + 1 < |m| && Stops(m, p)
  }

  /** Every option the walk gets to fits. */
  predicate Within(m: seq<byte>, p: nat, end: nat, limit: nat)
    requires end <= |m|
    decreases end - p
  {
    p < end ==>
      && Fits(m, p, limit)
      && (StopsAt(m, p) || Following(m, p, end).None? || Within(m, Following(m, p, end).value, end, limit))
  }

  /** The walk does not stop at a refused option. */
  predicate NoStop(m: seq<byte>, p: nat, end: nat)
    requires end <= |m|
    decreases end - p
  {
    p < end ==> !StopsAt(m, p) && (Following(m, p, end).None? || NoStop(m, Following(m, p, end).value, end))
  }

  /** The buffer m' with the blocks that m has at p moved. */
  function MoveAt(m: seq<byte>, m': seq<byte>, p: nat, a: u32): (r: seq<byte>)
    requires p < |m| == |m'| && Fits(m, p, |m|)
    ensures |r| == |m|
  {
    if p + 1 >= |m| || BlockBytes(m, p) == 0 then m'
    else Splice(m', p + 2, ShiftData(m[p + 2..p + 2 + BlockBytes(m, p)], a))
  }

  /** The buffer after the walk from p on. */
  function Walked(m: seq<byte>, p: nat, end: nat, a: u32): (r: seq<byte>)
    requires end <= |m| && Within(m, p, end, |m|)
    ensures |r| == |m|
    decreases end - p
  {
    if p >= end || StopsAt(m, p) then m
    else MoveAt(m, if Following(m, p, end).None? then m else Walked(m, Following(m, p, end).value, end, a), p, a)
  }

  /** The next option starts behind the blocks of this one. */
  lemma NextIsBehind(m: seq<byte>, p: nat, end: nat)
    requires p < end <= |m| && Following(m, p, end).Some?
    ensures p < Following(m, p, end).value < end
    ensures p + 1 < |m| && BlockBytes(m, p) > 0 ==> p + 2 + BlockBytes(m, p) <= Following(m, p, end).value
  {
  }

  /** One option looks the same. */
  lemma SameOption(m: seq<byte>, m': seq<byte>, p: nat, end: nat)
    requires p < end <= |m| == |m'| && m[p] == m'[p] && (p + 1 < |m| ==> m[p + 1] == m'[p + 1])
    ensures Following(m', p, end) == Following(m, p, end) && StopsAt(m', p) == StopsAt(m, p)
    ensures p + 1 < |m| ==> BlockBytes(m', p) == BlockBytes(m, p)
    ensures forall limit: nat :: Fits(m', p, limit) == Fits(m, p, limit)
  {
  }

  /** The walk only looks at what is in front of it. */
  lemma {:induction false} WalkLooksAhead(m: seq<byte>, m': seq<byte>, p: nat, end: nat, limit: nat)
    requires end <= |m| && SameFrom(m, m', p)
    ensures Within(m', p, end, limit) == Within(m, p, end, limit) && NoStop(m', p, end) == NoStop(m, p, end)
    decreases end - p
  {
    hide Following, StopsAt, Fits, BlockBytes;
    if p < end {
      SameOption(m, m', p, end);
      if Following(m, p, end).Some? {
        NextIsBehind(m, p, end);
        WalkLooksAhead(m, m', Following(m, p, end).value, end, limit);
      }
    }
  }

  /** The walk commutes with writes behind it. */
  lemma {:induction false} WalkFrame(m: seq<byte>, p: nat, end: nat, a: u32, x: nat, b: seq<byte>)
    requires end <= |m| && Within(m, p, end, |m|) && x + |b| <= p && x + |b| <= |m|
    ensures Within(Splice(m, x, b), p, end, |m|) && NoStop(Splice(m, x, b), p, end) == NoStop(m, p, end)
    ensures Walked(Splice(m, x, b), p, end, a) == Splice(Walked(m, p, end, a), x, b)
    decreases end - p
  {
    hide Following, StopsAt, Fits, BlockBytes, Splice, ShiftData;
    var m' := Splice(m, x, b);
    SpliceBehind(m, x, b, p);
    WalkLooksAhead(m, m', p, end, |m|);
    if p < end && !StopsAt(m, p) {
      SameOption(m, m', p, end);
      if Following(m, p, end).Some? {
        NextIsBehind(m, p, end);
        WalkFrame(m, Following(m, p, end).value, end, a, x, b);
        MoveFrame(m, Walked(m, Following(m, p, end).value, end, a), p, a, x, b);
      } else {
        MoveFrame(m, m, p, a, x, b);
      }
    } else if p < end {
      SameOption(m, m', p, end);
    }
  }

  lemma SpliceBehind(m: seq<byte>, x: nat, b: seq<byte>, p: nat)
    requires x + |b| <= p && x + |b| <= |m|
    ensures SameFrom(m, Splice(m, x, b), p)
  {
  }

  lemma MoveFrame(m: seq<byte>, m': seq<byte>, p: nat, a: u32, x: nat, b: seq<byte>)
    requires p < |m| == |m'| && Fits(m, p, |m|) && x + |b| <= p
    ensures Fits(Splice(m, x, b), p, |m|)
    ensures MoveAt(Splice(m, x, b), Splice(m', x, b), p, a) == Splice(MoveAt(m, m', p, a), x, b)
  {
    hide ShiftData, Splice, BlockBytes, Fits, StopsAt, Following;
    SpliceBehind(m, x, b, p);
    SameOption(m, Splice(m, x, b), p, |m|);
    if p + 1 < |m| && BlockBytes(m, p) > 0 {
      FitsBound(m, p, |m|);
      var lo, hi := p + 2, p + 2 + BlockBytes(m, p);
      SpliceFrame(m, x, b, lo, hi);
      SpliceSwap(m', x, b, lo, ShiftData(m[lo..hi], a));
    }
  }

  /** The walk leaves alone what is before the first option's data. */
  lemma {:induction false} WalkStartsAt(m: seq<byte>, p: nat, end: nat, a: u32)
    requires end <= |m| && Within(m, p, end, |m|)
    ensures forall i | 0 <= i < |m| && i < p + 2 :: Walked(m, p, end, a)[i] == m[i]
    decreases end - p
  {
    hide Following, StopsAt, ShiftData, BlockBytes, Fits;
    if p < end && !StopsAt(m, p) {
      var next := Following(m, p, end);
      if next.Some? {
        NextIsBehind(m, p, end);
        WalkStartsAt(m, next.value, end, a);
        MoveStartsAt(m, Walked(m, next.value, end, a), p, a);
      } else {
        MoveStartsAt(m, m, p, a);
      }
    }
  }

  lemma MoveStartsAt(m: seq<byte>, m': seq<byte>, p: nat, a: u32)
    requires p < |m| == |m'| && Fits(m, p, |m|)
    ensures forall i | 0 <= i < |m| && i < p + 2 :: MoveAt(m, m', p, a)[i] == m'[i]
  {
    hide ShiftData, BlockBytes;
  }

  /** The bytes that guide the walk stay as they are. */
  lemma {:induction false} WalkKeepsItsWay(m: seq<byte>, p: nat, end: nat, a: u32, limit: nat)
    requires end <= |m| && Within(m, p, end, |m|)
    ensures Within(Walked(m, p, end, a), p, end, limit) == Within(m, p, end, limit)
    ensures NoStop(Walked(m, p, end, a), p, end) == NoStop(m, p, end)
    decreases end - p
  {
    hide Following, StopsAt, Fits, ShiftData, Splice;
    if p < end {
      WalkStartsAt(m, p, end, a);
      var r, next := Walked(m, p, end, a), Following(m, p, end);
      SameOption(m, r, p, end);
      if !StopsAt(m, p) && next.Some? {
        NextIsBehind(m, p, end);
        WalkKeepsItsWay(m, next.value, end, a, limit);
        MoveEndsBefore(m, Walked(m, next.value, end, a), p, a, next.value);
        WalkLooksAhead(Walked(m, next.value, end, a), r, next.value, end, limit);
      }
    }
  }

  lemma MoveEndsBefore(m: seq<byte>, m': seq<byte>, p: nat, a: u32, q: nat)
    requires p < |m| == |m'| && Fits(m, p, |m|)
    requires p + 1 < |m| && BlockBytes(m, p) > 0 ==> p + 2 + BlockBytes(m, p) <= q
    ensures SameFrom(m', MoveAt(m, m', p, a), q)
  {
    hide ShiftData;
    if p + 1 < |m| && BlockBytes(m, p) > 0 {
      SpliceBehind(m', p + 2, ShiftData(m[p + 2..p + 2 + BlockBytes(m, p)], a), q);
    }
  }

  lemma FitsBound(m: seq<byte>, p: nat, limit: nat)
    requires p + 1 < |m| && Fits(m, p, limit) && BlockBytes(m, p) > 0
    ensures p + 2 + BlockBytes(m, p) <= limit
  {
  }

  /** Moving the blocks at p back, in a buffer that was not touched elsewhere. */
  lemma MoveAtBack(m: seq<byte>, p: nat, a: u32)
    requires p < |m| && Fits(m, p, |m|)
    ensures var r := MoveAt(m, m, p, a); Fits(r, p, |m|) && MoveAt(r, r, p, Negate(a)) == m
  {
    hide ShiftData, Splice, BlockBytes, Fits, StopsAt, Following;
    MoveStartsAt(m, m, p, a);
    SameOption(m, MoveAt(m, m, p, a), p, |m|);
    if p + 1 < |m| && BlockBytes(m, p) > 0 {
      FitsBound(m, p, |m|);
      var lo, hi := p + 2, p + 2 + BlockBytes(m, p);
      var d := m[lo..hi];
      SpliceRead(m, lo, ShiftData(d, a));
      ShiftDataBack(d, a);
      SpliceAgain(m, lo, ShiftData(d, a), d);
      SpliceSame(m, lo, d);
    }
  }

  /** On any bytes, walking with an offset and then with its negation restores every
      byte, wherever the blocks were. */
  lemma {:induction false} WalkBack(m: seq<byte>, p: nat, end: nat, a: u32)
    requires end <= |m| && Within(m, p, end, |m|)
    ensures var r := Walked(m, p, end, a); Within(r, p, end, |m|) && Walked(r, p, end, Negate(a)) == m
    decreases end - p
  {
    hide Following, StopsAt, Fits, ShiftData, Splice, MoveAt, BlockBytes, Negate;
    WalkKeepsItsWay(m, p, end, a, |m|);
    if p < end {
      WalkStartsAt(m, p, end, a);
      var r, next := Walked(m, p, end, a), Following(m, p, end);
      SameOption(m, r, p, end);
      if !StopsAt(m, p) {
        if next.None? {
          MoveAtBack(m, p, a);
        } else {
          NextIsBehind(m, p, end);
          WalkBackStep(m, p, end, a, next.value);
        }
      }
    }
  }

  lemma {:induction false} WalkBackStep(m: seq<byte>, p: nat, end: nat, a: u32, q: nat)
    requires p < q < end <= |m| && Within(m, p, end, |m|) && !StopsAt(m, p) && Following(m, p, end) == Some(q)
    requires p + 1 < |m| && BlockBytes(m, p) > 0 ==> p + 2 + BlockBytes(m, p) <= q
    requires Within(Walked(m, p, end, a), p, end, |m|)
    ensures Walked(Walked(m, p, end, a), p, end, Negate(a)) == m
    decreases end - p, 0
  {
    hide Following, StopsAt, ShiftData, Splice, Negate;
    var n, r, inner := BlockBytes(m, p), Walked(m, p, end, a), Walked(m, q, end, a);
    WalkStartsAt(m, p, end, a);
    WalkStartsAt(m, q, end, a);
    SameOption(m, r, p, end);
    WalkBack(m, q, end, a);
    if n > 0 {
      var lo := p + 2;
      var d := m[lo..lo + n];
      assert r == Splice(inner, lo, ShiftData(d, a));
      WalkFrame(inner, q, end, Negate(a), lo, ShiftData(d, a));
      assert Walked(r, q, end, Negate(a)) == Splice(m, lo, ShiftData(d, a));
      SpliceRead(inner, lo, ShiftData(d, a));
      ShiftDataBack(d, a);
      SpliceAgain(m, lo, ShiftData(d, a), d);
      SpliceSame(m, lo, d);
    }
  }

  // ---------------------------------------------------------------------
  // Where the walk writes
  // ---------------------------------------------------------------------

  /** Blocks that end inside the options are written to inside the options. */
  lemma {:induction false} InsideStaysInside(m: seq<byte>, p: nat, end: nat, a: u32)
    requires end <= |m| && Within(m, p, end, |m|) && Within(m, p, end, end)
    ensures SameFrom(m, Walked(m, p, end, a), end)
    decreases end - p
  {
    hide Following, StopsAt, ShiftData, MoveAt;
    if p < end && !StopsAt(m, p) {
      var next := Following(m, p, end);
      if next.Some? {
        NextIsBehind(m, p, end);
        InsideStaysInside(m, next.value, end, a);
        MoveEndsBefore(m, Walked(m, next.value, end, a), p, a, end);
      } else {
        MoveEndsBefore(m, m, p, a, end);
      }
    }
  }

  /** Adding one to a word changes its last byte. */
  lemma LastByteChanges(m: seq<byte>, m': seq<byte>, i: nat)
    requires i + 4 <= |m| && i + 4 <= |m'| && Be32(m', i) == Add(Be32(m, i), 1)
    ensures m'[i + 3] != m[i + 3]
  {
    LastByte(m, i);
    LastByte(m', i);
  }

  lemma LastByte(m: seq<byte>, i: nat)
    requires i + 4 <= |m|
    ensures Be32(m, i) % 0x100 == m[i + 3]
  {
    assert Be32(m, i) == ((m[i] as int * 0x100 + m[i + 1] as int) * 0x100 + m[i + 2] as int) * 0x100 + m[i + 3] as int;
  }

  /** The last byte of the blocks moved at p changes when the offset is one. */
  lemma LastBlockChanges(m: seq<byte>, p: nat)
    requires p + 1 < |m| && Fits(m, p, |m|) && BlockBytes(m, p) > 0
    ensures MoveAt(m, m, p, 1)[p + 1 + BlockBytes(m, p)] != m[p + 1 + BlockBytes(m, p)]
  {
    hide ShiftData, Splice, Be32, Add;
    var n, lo := BlockBytes(m, p), p + 2;
    var d, r := m[lo..lo + n], MoveAt(m, m, p, 1);
    var e := ShiftData(d, 1);
    SpliceRead(m, lo, e);
    EdgesMove(d, 1, n / 4 - 1);
    LastByteChanges(d, e, n - 4);
    assert r[lo + n - 1] == r[lo..lo + n][n - 1] == e[n - 1];
    assert m[lo + n - 1] == d[n - 1];
  }

  /** Blocks that end behind the options are written to there. */
  lemma {:induction false} OutsideIsWritten(m: seq<byte>, p: nat, end: nat)
    requires end <= |m| && Within(m, p, end, |m|) && !Within(m, p, end, end)
    ensures !SameFrom(m, Walked(m, p, end, 1), end)
    decreases end - p
  {
    hide Following, StopsAt, ShiftData, BlockBytes, MoveAt;
    var next := Following(m, p, end);
    assert p < end && !StopsAt(m, p) by {
      StoppedFits(m, p, end);
    }
    if next.Some? {
      NextIsBehind(m, p, end);
      OutsideIsWritten(m, next.value, end);
      MoveEndsBefore(m, Walked(m, next.value, end, 1), p, 1, end);
    } else {
      LastBlockChanges(m, p);
    }
  }

  /** Nothing is moved where the walk stops. */
  lemma StoppedFits(m: seq<byte>, p: nat, limit: nat)
    requires p < |m|
    ensures StopsAt(m, p) ==> Fits(m, p, limit)
  {
  }

  /** Whatever bytes the options are: no byte behind them is changed, by any offset, if
      and only if the blocks of every SACK option the walk gets to end inside them. */
  lemma WritesInsideIff(m: seq<byte>, p: nat, end: nat)
    requires end <= |m| && Within(m, p, end, |m|)
    ensures Within(m, p, end, end) <==> forall a: u32 :: SameFrom(m, Walked(m, p, end, a), end)
  {
    hide Walked, SameFrom, Within;
    if Within(m, p, end, end) {
      forall a: u32
        ensures SameFrom(m, Walked(m, p, end, a), end)
      {
        InsideStaysInside(m, p, end, a);
      }
    } else {
      OutsideIsWritten(m, p, end);
    }
  }

  predicate AllInside(m: seq<byte>, offsets: seq<nat>) {
    forall i | 0 <= i < |offsets| :: offsets[i] < |m|
  }

  /** The walk gets to the i-th offset the iterator yields. */
  predicate Reached(m: seq<byte>, offsets: seq<nat>, i: nat)
    requires i <= |offsets| && AllInside(m, offsets)
  {
    forall j | 0 <= j < i :: !StopsAt(m, offsets[j])
  }

  /** The same condition, said of the offsets the iterator yields. */
  lemma {:induction false} WithinByOffsets(m: seq<byte>, p: nat, end: nat, limit: nat)
    requires end <= |m|
    ensures AllInside(m, Offsets(m, p, end))
    ensures var os := Offsets(m, p, end);
            Within(m, p, end, limit) <==> forall i | 0 <= i < |os| && Reached(m, os, i) :: Fits(m, os[i], limit)
    decreases end - p
  {
    hide Following, StopsAt, Fits, BlockBytes, Advance, Offsets;
    OffsetsIncrease(m, p, end);
    var os := Offsets(m, p, end);
    if p < end {
      OffsetsStep(m, p, end);
      var next := Following(m, p, end);
      var tail := OffsetsFrom(m, next, end);
      assert AllInside(m, tail) by {
        assert forall i | 0 <= i < |tail| :: tail[i] == os[i + 1];
      }
      if next.Some? {
        NextIsBehind(m, p, end);
        WithinByOffsets(m, next.value, end, limit);
      }
      OffsetsCases(m, p, tail, limit);
    } else {
      OffsetsEmpty(m, p, end);
    }
  }

  lemma ReachedCons(m: seq<byte>, p: nat, tail: seq<nat>, i: nat)
    requires p < |m| && AllInside(m, tail) && i < |tail|
    ensures AllInside(m, [p] + tail)
    ensures ([p] + tail)[i + 1] == tail[i]
    ensures Reached(m, [p] + tail, i + 1) <==> !StopsAt(m, p) && Reached(m, tail, i)
  {
    hide StopsAt;
    var os := [p] + tail;
    if Reached(m, os, i + 1) {
      assert os[0] == p;
      forall j | 0 <= j < i
        ensures !StopsAt(m, tail[j])
      {
        assert os[j + 1] == tail[j];
      }
    }
  }

  lemma OffsetsCases(m: seq<byte>, p: nat, tail: seq<nat>, limit: nat)
    requires p < |m| && AllInside(m, tail)
    ensures AllInside(m, [p] + tail)
    ensures var os := [p] + tail;
            (forall i | 0 <= i < |os| && Reached(m, os, i) :: Fits(m, os[i], limit))
            <==> && Fits(m, p, limit)
                 && (StopsAt(m, p) || forall i | 0 <= i < |tail| && Reached(m, tail, i) :: Fits(m, tail[i], limit))
  {
    hide StopsAt, Fits;
    var os := [p] + tail;
    assert os[0] == p && Reached(m, os, 0);
    if forall i | 0 <= i < |os| && Reached(m, os, i) :: Fits(m, os[i], limit) {
      if !StopsAt(m, p) {
        forall i | 0 <= i < |tail| && Reached(m, tail, i)
          ensures Fits(m, tail[i], limit)
        {
          ReachedCons(m, p, tail, i);
          assert Fits(m, os[i + 1], limit);
        }
      }
    }
    if Fits(m, p, limit) && (StopsAt(m, p) || forall i | 0 <= i < |tail|
      && Reached(m, tail, i) :: Fits(m, tail[i], limit)) {
      forall i | 0 <= i < |os| && Reached(m, os, i)
        ensures Fits(m, os[i], limit)
      {
        if i > 0 {
          ReachedCons(m, p, tail, i - 1);
        }
      }
    }
  }

  /** With 249 bytes of memory behind them, whatever they are, any options can be walked
      over: no option has more than 31 blocks. */
  lemma {:induction false} RoomIsEnough(m: seq<byte>, p: nat, end: nat)
    requires end + 249 <= |m|
    ensures Within(m, p, end, |m|)
    decreases end - p
  {
    hide Following;
    if p < end && Following(m, p, end).Some? {
      NextIsBehind(m, p, end);
      RoomIsEnough(m, Following(m, p, end).value, end);
    }
  }

  /** Such options exist: four bytes that claim a SACK option of 34 bytes, as the iterator
      yields them, have blocks moved up to 30 bytes behind their end. */
  lemma WritesCanBeOutside(behind: seq<byte>)
    requires |behind| >= 30
    ensures var m := [TCPOPT_SACK, 34, 0, 0] + behind;
            && Offsets(m, 0, 4) == [0] && BlockBytes(m, 0) == 32
            && Within(m, 0, 4, |m|) && !Within(m, 0, 4, 4) && !SameFrom(m, Walked(m, 0, 4, 1), 4)
  {
    hide ShiftData, Splice, SameFrom, Walked;
    var m := [TCPOPT_SACK, 34, 0, 0] + behind;
    assert m[0] == TCPOPT_SACK && m[1] == 34;
    assert Following(m, 0, 4) == None && Offsets(m, 34, 4) == [];
    OutsideIsWritten(m, 0, 4);
  }

  // ---------------------------------------------------------------------
  // Well-formed options
  // ---------------------------------------------------------------------

  /** Moving whole blocks of an option's data is moving its data. */
  lemma WholeBlocks(m: seq<byte>, q: nat, bytes: nat, a: u32)
    requires q + bytes <= |m|
    ensures Splice(m, q, ShiftData(m[q..q + WholeBytes(bytes)], a)) == Splice(m, q, ShiftData(m[q..q + bytes], a))
  {
    hide Splice, ShiftData, BlocksShifted;
    BlocksShiftedIsShiftData(m, q, bytes, a);
    BlocksShiftedIsShiftData(m, q, WholeBytes(bytes), a);
    assert WholeBytes(bytes) / 8 == bytes / 8;
  }

  /** One well-formed option: it fits, and what is moved in it is its data. */
  lemma MoveOption(m: seq<byte>, m': seq<byte>, p: nat, o: TcpOption, a: u32)
    requires WellFormed(o) && p + |Wire(o)| <= |m| == |m'| && m[p..p + |Wire(o)|] == Wire(o)
    requires m'[..p + |Wire(o)|] == m[..p + |Wire(o)|]
    ensures Fits(m, p, p + |Wire(o)|) && (StopsAt(m, p) <==> Refused(o))
    ensures WellFormed(Shift(o, a)) && |Wire(Shift(o, a))| == |Wire(o)|
    ensures MoveAt(m, m', p, a) == Splice(m', p, Wire(Shift(o, a)))
  {
    hide Splice, ShiftData;
    var n := |Wire(o)|;
    OptionBytes(m, p, o);
    SliceOfSlice(m', 0, p + n, p, p + n);
    SliceOfSlice(m, 0, p + n, p, p + n);
    assert m'[p..p + n] == m[p..p + n];
    if o.kind == TCPOPT_SACK {
      SliceOfSlice(m', p, p + n, 2, n);
      SliceOfSlice(m, p, p + n, 2, n);
      MoveSack(m, m', p, o.data, a);
      HeaderStays(m', p, o, ShiftData(o.data, a));
    } else {
      SpliceSame(m', p, Wire(o));
    }
  }

  lemma SackBytes(m: seq<byte>, p: nat, d: seq<byte>)
    requires p + 2 + |d| <= |m| && m[p] == TCPOPT_SACK && m[p + 1] == 2 + |d|
    ensures BlockBytes(m, p) == WholeBytes(|d|) && (StopsAt(m, p) <==> d == [])
    ensures Fits(m, p, p + 2 + |d|) && Fits(m, p, |m|)
  {
  }

  lemma MoveSack(m: seq<byte>, m': seq<byte>, p: nat, d: seq<byte>, a: u32)
    requires p + 2 + |d| <= |m| == |m'| && m[p] == TCPOPT_SACK && m[p + 1] == 2 + |d|
    requires m[p + 2..p + 2 + |d|] == d && m'[p + 2..p + 2 + |d|] == d
    ensures Fits(m, p, p + 2 + |d|) && (StopsAt(m, p) <==> d == [])
    ensures MoveAt(m, m', p, a) == Splice(m', p + 2, ShiftData(d, a))
  {
    hide Splice, ShiftData, WholeBytes, BlockBytes, Fits, StopsAt;
    SackBytes(m, p, d);
    var lo, k := p + 2, BlockBytes(m, p);
    if k == 0 {
      NoBlocks(d, a);
      SpliceSame(m', lo, d);
    } else {
      FirstBytes(m, lo, d, k);
      FirstBytes(m', lo, d, k);
      hide MoveAt;
      MoveAtIs(m, m', p, d[..k], a);
      WholeBlocks(m', lo, |d|, a);
    }
  }

  lemma FirstBytes(m: seq<byte>, lo: nat, d: seq<byte>, k: nat)
    requires lo + |d| <= |m| && m[lo..lo + |d|] == d && k <= |d|
    ensures m[lo..lo + k] == d[..k]
  {
    SliceOfSlice(m, lo, lo + |d|, 0, k);
  }

  lemma MoveAtIs(m: seq<byte>, m': seq<byte>, p: nat, d: seq<byte>, a: u32)
    requires p + 1 < |m| == |m'| && Fits(m, p, |m|) && BlockBytes(m, p) == |d| > 0
    requires p + 2 + |d| <= |m| && m[p + 2..p + 2 + |d|] == d
    ensures MoveAt(m, m', p, a) == Splice(m', p + 2, ShiftData(d, a))
  {
    hide BlockBytes, Splice, ShiftData;
  }

  lemma NoBlocks(d: seq<byte>, a: u32)
    requires |d| < 8
    ensures ShiftData(d, a) == d
  {
  }

  /** The walk stays inside the options, leaves the buffer r, and is ok or not. */
  ghost predicate WalkGives(m: seq<byte>, p: nat, end: nat, a: u32, r: seq<byte>, ok: bool) {
    && end <= |m| && Within(m, p, end, end) && Within(m, p, end, |m|)
    && Walked(m, p, end, a) == r && NoStop(m, p, end) == ok
  }

  /** On well-formed options the walk stays inside them, stops at the first refused option
      and moves the edges of all before it. */
  lemma {:induction false} WalkedIsShiftAll(m: seq<byte>, p: nat, os: seq<TcpOption>, a: u32)
    requires OptionsAt(m, p, os)
    ensures AllWellFormed(ShiftAll(os, a)) && |WireAll(ShiftAll(os, a))| == |WireAll(os)|
    ensures WalkGives(m, p, p + |WireAll(os)|, a, Splice(m, p, WireAll(ShiftAll(os, a))), NoneRefused(os))
    decreases |os|
  {
    hide Wire, Shift, Splice, WireAll, AllWellFormed, WellFormed, Following, Refused, StopsAt, Fits, MoveAt, ShiftAll,
         Within, NoStop, Walked;
    ShiftAllTouchesOnlySack(os, a);
    if os == [] {
      EmptySplice(m, p, os, a);
      EmptyWalk(m, p, a);
    } else {
      FirstOption(m, p, os);
      var o, q, end, rest := os[0], p + |Wire(os[0])|, p + |WireAll(os)|, os[1..];
      FollowingOption(m, p, end, o, rest);
      WalkedIsShiftAll(m, q, rest, a);
      var w := WireAll(ShiftAll(rest, a));
      var m' := Splice(m, q, w);
      SpliceFrame(m, q, w, 0, q);
      assert m'[..q] == m[..q];
      MoveOption(m, m', p, o, a);
      FitsMore(m, p, q, end);
      FitsMore(m, p, q, |m|);
      OpenWalk(m, p, end, q, a);
      if Refused(o) {
        ShiftAllRefused(os, a);
        SpliceSame(m, p, WireAll(os));
      } else {
        ShiftAllFirst(os, a);
        SpliceSwap(m, p, Wire(Shift(o, a)), q, w);
        SpliceJoin(m, p, Wire(Shift(o, a)), w);
        if rest == [] {
          EmptySplice(m, q, rest, a);
        }
      }
    }
  }

  lemma EmptyWalk(m: seq<byte>, p: nat, a: u32)
    requires p <= |m|
    ensures Within(m, p, p, p) && Within(m, p, p, |m|) && NoStop(m, p, p) && Walked(m, p, p, a) == m
  {
  }

  lemma FollowingOption(m: seq<byte>, p: nat, end: nat, o: TcpOption, rest: seq<TcpOption>)
    requires WellFormed(o) && AllWellFormed(rest) && p + |Wire(o)| + |WireAll(rest)| == end <= |m|
    requires m[p..p + |Wire(o)|] == Wire(o)
    ensures p < end && Following(m, p, end) == if rest == [] then None else Some(p + |Wire(o)|)
  {
    hide WireAll, AllWellFormed, Advance, HasOption, OptionAt;
    WireAllEmpty(rest);
    ReadsOne(m, p, end, o);
  }

  /** The walk, one option further. */
  lemma OpenWalk(m: seq<byte>, p: nat, end: nat, q: nat, a: u32)
    requires p < end <= |m| && Fits(m, p, end) && Fits(m, p, |m|)
    requires Following(m, p, end) == None || Following(m, p, end) == Some(q)
    requires Within(m, q, end, end) && Within(m, q, end, |m|)
    ensures Within(m, p, end, end) && Within(m, p, end, |m|)
    ensures NoStop(m, p, end) <==> !StopsAt(m, p) && (Following(m, p, end) == None || NoStop(m, q, end))
    ensures Walked(m, p, end, a)
         == if StopsAt(m, p) then m
            else if Following(m, p, end) == None then MoveAt(m, m, p, a)
            else MoveAt(m, Walked(m, q, end, a), p, a)
  {
    hide Fits, Following, StopsAt, MoveAt;
  }

  lemma ShiftAllRefused(os: seq<TcpOption>, a: u32)
    requires os != [] && Refused(os[0])
    ensures ShiftAll(os, a) == os
  {
  }

  lemma EmptySplice(m: seq<byte>, q: nat, os: seq<TcpOption>, a: u32)
    requires os == [] && q <= |m|
    ensures WireAll(os) == [] && ShiftAll(os, a) == os && NoneRefused(os) && Splice(m, q, []) == m
  {
  }

  lemma FitsMore(m: seq<byte>, p: nat, limit: nat, more: nat)
    requires p < |m| && Fits(m, p, limit) && limit <= more
    ensures Fits(m, p, more)
  {
  }

  // ---------------------------------------------------------------------
  // The code
  // ---------------------------------------------------------------------

  /** One round of the loop over the options. */
  lemma WalkStep(m: seq<byte>, p: nat, end: nat, a: u32)
    requires p < end <= |m| && Within(m, p, end, |m|) && !StopsAt(m, p)
    ensures var m', next := MoveAt(m, m, p, a), Following(m, p, end);
            && Following(m', p, end) == next
            && (next.None? ==> NoStop(m, p, end) && Walked(m, p, end, a) == m')
            && (next.Some? ==> && p < next.value < end && Within(m', next.value, end, |m|)
                               && NoStop(m', next.value, end) == NoStop(m, p, end)
                               && Walked(m', next.value, end, a) == Walked(m, p, end, a))
  {
    hide Following, StopsAt, ShiftData, Splice;
    var m', next := MoveAt(m, m, p, a), Following(m, p, end);
    MoveStartsAt(m, m, p, a);
    SameOption(m, m', p, end);
    if next.Some? {
      NextIsBehind(m, p, end);
      if p + 1 < |m| && BlockBytes(m, p) > 0 {
        WalkFrame(m, next.value, end, a, p + 2, ShiftData(m[p + 2..p + 2 + BlockBytes(m, p)], a));
      }
    }
  }

  /** offset_sack_blocks on whatever bytes the options are. All memory it gets to has to
      be there; WritesInsideIff says when that is the options. */
  method OffsetSackBlocks(mem: array<byte>, start: nat, end: nat, offset: u32) returns (ok: bool)
    requires end <= mem.Length && Within(mem[..], start, end, mem.Length)
    modifies mem
    ensures ok <==> NoStop(old(mem[..]), start, end)
    ensures mem[..] == Walked(old(mem[..]), start, end, offset)
  {
    hide Splice, ShiftData, Advance, Following, Walked, NoStop, Within;
    ghost var m0 := mem[..];
    var iter := new OptionsIterator(mem, start, end);
    var option := iter.current;
    if option.None? {
      NothingToWalk(m0, start, end, offset);
    }
    while option.Some?
      invariant iter.mem == mem && iter.end == end && fresh(iter)
      invariant option.Some? ==> iter.current == option && option.value < end
      invariant option.Some? ==> Within(mem[..], option.value, end, mem.Length)
      invariant option.Some? ==> Walked(m0, start, end, offset) == Walked(mem[..], option.value, end, offset)
      invariant option.Some? ==> NoStop(m0, start, end) == NoStop(mem[..], option.value, end)
      invariant option.None? ==> Walked(m0, start, end, offset) == mem[..] && NoStop(m0, start, end)
      decreases if option.Some? then end - option.value else -1
    {
      var at := option.value;
      ghost var m := mem[..];
      FirstFits(m, at, end);
      if mem[at] == TCPOPT_SACK {
        if mem[at + 1] <= 2 {
          StopHere(m, at, end, offset);
          return false;
        }
        ShiftBlocks(mem, at + 2, WholeBytes(mem[at + 1] - 2), offset);
      }
      assert mem[..] == MoveAt(m, m, at, offset) by {
        MovedHere(m, mem[..], at, offset);
      }
      WalkStep(m, at, end, offset);
      option := iter.Next();
    }
    return true;
  }

  lemma NothingToWalk(m: seq<byte>, p: nat, end: nat, a: u32)
    requires end <= p && end <= |m| && Within(m, p, end, |m|)
    ensures Walked(m, p, end, a) == m && NoStop(m, p, end)
  {
  }

  lemma FirstFits(m: seq<byte>, p: nat, end: nat)
    requires p < end <= |m| && Within(m, p, end, |m|)
    ensures Fits(m, p, |m|)
  {
    hide Following;
  }

  lemma StopHere(m: seq<byte>, p: nat, end: nat, a: u32)
    requires p < end <= |m| && Within(m, p, end, |m|) && StopsAt(m, p)
    ensures Walked(m, p, end, a) == m && !NoStop(m, p, end)
  {
    hide Following;
  }

  lemma MovedHere(m: seq<byte>, m': seq<byte>, p: nat, a: u32)
    requires p < |m| && Fits(m, p, |m|)
    requires if m[p] == TCPOPT_SACK && m[p + 1] > 2
             then p + 2 + BlockBytes(m, p) <= |m|
               && m' == Splice(m, p + 2, ShiftData(m[p + 2..p + 2 + BlockBytes(m, p)], a))
             else m' == m
    ensures m' == MoveAt(m, m, p, a)
  {
    if p + 1 < |m| && m[p] == TCPOPT_SACK && BlockBytes(m, p) == 0 && m[p + 1] > 2 {
      SpliceSame(m, p + 2, []);
    }
  }

  // ---------------------------------------------------------------------
  // Whole segments
  // ---------------------------------------------------------------------

  /** The initial sequence numbers of a socket that translation uses. */
  datatype Isns = Isns(liveRemote: u32, liveLocal: u32, scriptLocal: u32)

  /** The offsets of socket.h. */
  function RemoteScriptToLive(s: Isns, syn: bool): u32 {
    if syn then 0 else s.liveRemote
  }

  function RemoteLiveToScript(s: Isns, syn: bool): u32 {
    Negate(RemoteScriptToLive(s, syn))
  }

  function LocalScriptToLive(s: Isns, syn: bool): u32 {
    if syn then Add(s.liveLocal, Negate(s.scriptLocal)) else s.liveLocal
  }

  function LocalLiveToScript(s: Isns, syn: bool): u32 {
    Negate(LocalScriptToLive(s, syn))
  }

  /** There is a TCP header at tcp whose data offset leaves room for exactly the
      options os. */
  predicate SegmentAt(m: seq<byte>, tcp: nat, os: seq<TcpOption>) {
    && OptionsAt(m, tcp + TCP_HEADER_BYTES, os)
    && m[tcp + 12] / 16 * 4 == TCP_HEADER_BYTES + |WireAll(os)|
  }

  predicate IsSyn(m: seq<byte>, tcp: nat)
    requires tcp + TCP_HEADER_BYTES <= |m|
  {
    m[tcp + 13] / 2 % 2 == 1
  }

  predicate IsAck(m: seq<byte>, tcp: nat)
    requires tcp + TCP_HEADER_BYTES <= |m|
  {
    m[tcp + 13] / 16 % 2 == 1
  }

  function Seq(m: seq<byte>, tcp: nat): u32
    requires tcp + TCP_HEADER_BYTES <= |m|
  {
    Be32(m, tcp + 4)
  }

  function AckSeq(m: seq<byte>, tcp: nat): u32
    requires tcp + TCP_HEADER_BYTES <= |m|
  {
    Be32(m, tcp + 8)
  }

  /** The packet with seq moved by seqOffset and, where the ACK flag is set, ack_seq
      moved by ackOffset. */
  function FieldsMoved(m: seq<byte>, tcp: nat, seqOffset: u32, ackOffset: u32): (r: seq<byte>)
    requires tcp + TCP_HEADER_BYTES <= |m|
    ensures |r| == |m|
  {
    var m' := Splice(m, tcp + 4, Enc32(Add(Seq(m, tcp), seqOffset)));
    if IsAck(m, tcp) then Splice(m', tcp + 8, Enc32(Add(AckSeq(m, tcp), ackOffset))) else m'
  }

  /** There is a TCP header at tcp, and all memory that offset_sack_blocks gets to is
      there, whatever the options are. */
  predicate HeaderAt(m: seq<byte>, tcp: nat) {
    && tcp + TCP_HEADER_BYTES <= |m| && OptionsEnd(m, tcp) <= |m|
    && Within(m, tcp + TCP_HEADER_BYTES, OptionsEnd(m, tcp), |m|)
  }

  /** packet_payload of a TCP packet. */
  function OptionsEnd(m: seq<byte>, tcp: nat): nat
    requires tcp + TCP_HEADER_BYTES <= |m|
  {
    tcp + m[tcp + 12] / 16 * 4
  }

  /** The packet with its fields and the SACK edges in its options moved. */
  function Moved(m: seq<byte>, tcp: nat, seqOffset: u32, ackOffset: u32): (r: seq<byte>)
    requires HeaderAt(m, tcp)
    ensures |r| == |m|
  {
    FieldsStay(m, tcp, seqOffset, ackOffset);
    Walked(FieldsMoved(m, tcp, seqOffset, ackOffset), tcp + TCP_HEADER_BYTES, OptionsEnd(m, tcp), ackOffset)
  }

  /** seq and ack_seq as they are written. */
  function Words(m: seq<byte>, tcp: nat, seqOffset: u32, ackOffset: u32): (b: seq<byte>)
    requires tcp + TCP_HEADER_BYTES <= |m|
    ensures |b| == 8
  {
    Enc32(Add(Seq(m, tcp), seqOffset))
    + if IsAck(m, tcp) then Enc32(Add(AckSeq(m, tcp), ackOffset)) else m[tcp + 8..tcp + 12]
  }

  /** Moving the two fields is one write. */
  lemma FieldsAreWords(m: seq<byte>, tcp: nat, seqOffset: u32, ackOffset: u32)
    requires tcp + TCP_HEADER_BYTES <= |m|
    ensures FieldsMoved(m, tcp, seqOffset, ackOffset) == Splice(m, tcp + 4, Words(m, tcp, seqOffset, ackOffset))
  {
    hide Splice, Be32, Enc32, Add;
    var x, y := Enc32(Add(Seq(m, tcp), seqOffset)), Enc32(Add(AckSeq(m, tcp), ackOffset));
    SpliceJoin(m, tcp + 4, x, y);
    SpliceJoin(m, tcp + 4, x, m[tcp + 8..tcp + 12]);
    SpliceFrame(m, tcp + 4, x, tcp + 8, tcp + 12);
    SpliceSame(Splice(m, tcp + 4, x), tcp + 8, m[tcp + 8..tcp + 12]);
  }

  /** Moving the two fields leaves everything from the data offset on alone. */
  lemma FieldsStay(m: seq<byte>, tcp: nat, seqOffset: u32, ackOffset: u32)
    requires tcp + TCP_HEADER_BYTES <= |m|
    ensures var m' := FieldsMoved(m, tcp, seqOffset, ackOffset);
            && SameFrom(m, m', tcp + 12) && m'[tcp + 12] == m[tcp + 12] && m'[tcp + 13] == m[tcp + 13]
            && (HeaderAt(m, tcp) ==> HeaderAt(m', tcp))
            && (OptionsEnd(m, tcp) <= |m| ==>
                  NoStop(m', tcp + 20, OptionsEnd(m, tcp)) == NoStop(m, tcp + 20, OptionsEnd(m, tcp)))
  {
    hide Splice, Words, FieldsMoved, Within, NoStop;
    FieldsAreWords(m, tcp, seqOffset, ackOffset);
    var m' := FieldsMoved(m, tcp, seqOffset, ackOffset);
    SpliceBehind(m, tcp + 4, Words(m, tcp, seqOffset, ackOffset), tcp + 12);
    assert SameFrom(m, m', tcp + 20);
    if OptionsEnd(m, tcp) <= |m| {
      WalkLooksAhead(m, m', tcp + 20, OptionsEnd(m, tcp), |m|);
    }
  }

  /** The common body of map_inbound_packet and tcp_convert_seq_number. */
  method MoveSegment(mem: array<byte>, tcp: nat, seqOffset: u32, ackOffset: u32) returns (ok: bool)
    requires HeaderAt(mem[..], tcp)
    modifies mem
    ensures ok <==> NoStop(old(mem[..]), tcp + TCP_HEADER_BYTES, OptionsEnd(old(mem[..]), tcp))
    ensures mem[..] == Moved(old(mem[..]), tcp, seqOffset, ackOffset)
  {
    hide Splice, Be32, Enc32, Add, Within, NoStop, Walked;
    ghost var m := mem[..];
    AddToWord(mem, tcp + 4, seqOffset);
    OtherWord(m, tcp, seqOffset);
    if mem[tcp + 13] / 16 % 2 == 1 {
      AddToWord(mem, tcp + 8, ackOffset);
    }
    FieldsStay(m, tcp, seqOffset, ackOffset);
    ok := OffsetSackBlocks(mem, tcp + TCP_HEADER_BYTES, tcp + mem[tcp + 12] / 16 * 4, ackOffset);
  }

  /** Writing seq leaves ack_seq and the flags alone. */
  lemma OtherWord(m: seq<byte>, tcp: nat, a: u32)
    requires tcp + TCP_HEADER_BYTES <= |m|
    ensures var m' := Splice(m, tcp + 4, Enc32(Add(Seq(m, tcp), a)));
            AckSeq(m', tcp) == AckSeq(m, tcp) && IsAck(m', tcp) == IsAck(m, tcp)
  {
    hide Splice, Be32, Enc32, Add;
    var b := Enc32(Add(Seq(m, tcp), a));
    SpliceFrame(m, tcp + 4, b, tcp + 8, tcp + 12);
    SpliceFrame(m, tcp + 4, b, tcp + 13, tcp + 14);
    Be32Slice(m, tcp + 8);
    Be32Slice(Splice(m, tcp + 4, b), tcp + 8);
    assert m[tcp + 13] == m[tcp + 13..tcp + 14][0] == Splice(m, tcp + 4, b)[tcp + 13..tcp + 14][0];
  }

  /** A segment with well-formed options: the walk stays inside them. */
  lemma SegmentIsHeader(m: seq<byte>, tcp: nat, os: seq<TcpOption>)
    requires SegmentAt(m, tcp, os)
    ensures HeaderAt(m, tcp) && OptionsEnd(m, tcp) == tcp + TCP_HEADER_BYTES + |WireAll(os)|
    ensures Within(m, tcp + TCP_HEADER_BYTES, OptionsEnd(m, tcp), OptionsEnd(m, tcp))
    ensures NoStop(m, tcp + TCP_HEADER_BYTES, OptionsEnd(m, tcp)) <==> NoneRefused(os)
  {
    hide Within, NoStop, WireAll, AllWellFormed, Walked;
    WalkedIsShiftAll(m, tcp + TCP_HEADER_BYTES, os, 0);
  }

  /** Its options are replaced by the moved ones. */
  lemma MovedSegment(m: seq<byte>, tcp: nat, os: seq<TcpOption>, seqOffset: u32, ackOffset: u32)
    requires SegmentAt(m, tcp, os)
    ensures HeaderAt(m, tcp) && AllWellFormed(ShiftAll(os, ackOffset))
    ensures |WireAll(ShiftAll(os, ackOffset))| == |WireAll(os)|
    ensures Moved(m, tcp, seqOffset, ackOffset)
         == Splice(FieldsMoved(m, tcp, seqOffset, ackOffset), tcp + TCP_HEADER_BYTES, WireAll(ShiftAll(os, ackOffset)))
  {
    hide Within, NoStop, WireAll, AllWellFormed, Walked, FieldsMoved, Splice, ShiftAll;
    SegmentIsHeader(m, tcp, os);
    FieldsStay(m, tcp, seqOffset, ackOffset);
    var m', lo, hi := FieldsMoved(m, tcp, seqOffset, ackOffset), tcp + TCP_HEADER_BYTES, OptionsEnd(m, tcp);
    assert m'[lo..hi] == m[lo..hi] by {
      assert forall i | lo <= i < hi :: m'[i] == m[i];
    }
    WalkedIsShiftAll(m', lo, os, ackOffset);
  }

  // ---------------------------------------------------------------------
  // Moving back
  // ---------------------------------------------------------------------

  /** The words written for the way back are those that were there. */
  lemma WordsBack(m: seq<byte>, r: seq<byte>, tcp: nat, a: u32, b: u32)
    requires tcp + TCP_HEADER_BYTES <= |m| == |r|
    requires r[tcp + 4..tcp + 12] == Words(m, tcp, a, b) && r[tcp + 13] == m[tcp + 13]
    ensures Words(r, tcp, Negate(a), Negate(b)) == m[tcp + 4..tcp + 12]
  {
    hide Be32, Enc32, Add, Negate, Distance;
    var w := Words(m, tcp, a, b);
    var x := Enc32(Add(Seq(m, tcp), a));
    assert r[tcp + 4..tcp + 8] == r[tcp + 4..tcp + 12][..4] == w[..4] == x;
    assert r[tcp + 8..tcp + 12] == r[tcp + 4..tcp + 12][4..] == w[4..];
    Be32Slice(r, tcp + 4);
    Be32Slice(r, tcp + 8);
    AddGroup(Seq(m, tcp), 0, a);
    AddGroup(AckSeq(m, tcp), 0, b);
    WordIsItself(m, tcp + 4);
    WordIsItself(m, tcp + 8);
    assert m[tcp + 4..tcp + 12] == m[tcp + 4..tcp + 8] + m[tcp + 8..tcp + 12];
  }

  lemma WordIsItself(m: seq<byte>, i: nat)
    requires i + 4 <= |m|
    ensures Enc32(Be32(m, i)) == m[i..i + 4]
  {
    hide Be32, Enc32;
    Be32Slice(m, i);
    Enc32Be32(m[i..i + 4]);
  }

  /** For every packet, whatever its options are: moving it by any offsets and then by
      their negations restores every byte, and the flags that select the offsets are the
      same both times. */
  lemma MovingBackRestores(m: seq<byte>, tcp: nat, a: u32, b: u32)
    requires HeaderAt(m, tcp)
    ensures var m' := Moved(m, tcp, a, b);
            && HeaderAt(m', tcp) && IsSyn(m', tcp) == IsSyn(m, tcp) && IsAck(m', tcp) == IsAck(m, tcp)
            && Moved(m', tcp, Negate(a), Negate(b)) == m
  {
    hide Within, NoStop, Walked, FieldsMoved, Splice, Words, Negate;
    var lo, hi, w := tcp + TCP_HEADER_BYTES, OptionsEnd(m, tcp), Words(m, tcp, a, b);
    FieldsAreWords(m, tcp, a, b);
    FieldsStay(m, tcp, a, b);
    var m1, r := FieldsMoved(m, tcp, a, b), Moved(m, tcp, a, b);
    var walked := Walked(m, lo, hi, b);
    WalkFrame(m, lo, hi, b, tcp + 4, w);
    WalkStartsAt(m, lo, hi, b);
    WalkStartsAt(m1, lo, hi, b);
    WalkKeepsItsWay(m1, lo, hi, b, |m|);
    SpliceRead(walked, tcp + 4, w);
    assert r == Splice(walked, tcp + 4, w);
    WordsBack(m, r, tcp, a, b);
    FieldsAreWords(r, tcp, Negate(a), Negate(b));
    SpliceAgain(walked, tcp + 4, w, m[tcp + 4..tcp + 12]);
    assert walked[tcp + 4..tcp + 12] == m[tcp + 4..tcp + 12];
    SpliceSame(walked, tcp + 4, m[tcp + 4..tcp + 12]);
    WalkBack(m, lo, hi, b);
  }
}
