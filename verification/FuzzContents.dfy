/** What is in a fuzz packet: its fields, its payload and its options. */
module FuzzContents {
  import opened Bytes
  import opened Splices
  import opened TcpOptions
  import opened Packet
  import opened PacketChecksum
  import opened FuzzPacket

  /** A packet made of a plan: its bytes, with whatever checksums were filled in. */
  predicate Made(p: Plan, packetSeq: u32, b: seq<byte>) {
    Sound(p) && OnlyFields(FuzzBytes(p, packetSeq), b, 10, 36)
  }

  /** The byte is that of the plan, unless it belongs to a checksum. */
  lemma MadeKeeps(p: Plan, packetSeq: u32, b: seq<byte>)
    requires Made(p, packetSeq, b)
    ensures var a := FuzzBytes(p, packetSeq);
            && |b| == |a| >= 40 && (forall k | 0 <= k < |a| && k !in {10, 11, 36, 37} :: b[k] == a[k])
  {
    hide FuzzBytes;
    HeaderFields(p, packetSeq);
  }

  // ---------------------------------------------------------------------
  // Fields
  // ---------------------------------------------------------------------

  /** The headers as they are pushed. */
  lemma PushedHeaders(p: Plan, packetSeq: u32)
    requires Sound(p)
    ensures var b := FuzzBytes(p, packetSeq);
            && |b| >= 40 && b[4..20] == IP_START[4..20]
            && b[20..32] == TcpStart(p)[..12] && b[33..40] == TcpStart(p)[13..]
  {
    hide TcpStart, Data, ZeroBytes, OffsetByte;
    TcpStartLength(p);
    var s, b := Pushed(p, packetSeq), FuzzBytes(p, packetSeq);
    assert s[..20] == IP_START && s[20..40] == TcpStart(p);
    assert forall k | 4 <= k < 20 :: b[k] == s[k] == s[..20][k];
    assert forall k | 20 <= k < 40 && k != 32 :: b[k] == s[k] == s[20..40][k - 20];
  }

  /** Every field of the headers besides lengths and checksums: addresses and ports are zero, a
      hop limit of 255, the drawn sequence number, window and urgent pointer, an acknowledgement
      of 1 and no flag but ACK. */
  predicate HasFields(p: Plan, b: seq<byte>) {
    && |b| >= 40 && b[8] == 255 && Be32(b, 12) == 0 && Be32(b, 16) == 0 && Be16(b, 20) == 0 && Be16(b, 22) == 0
    && b[24..28] == p.seqNumber && Be32(b, 28) == 1 && b[33] == 0x10 && b[34..36] == p.window && b[38..40] == p.urgent
  }

  lemma FuzzFields(p: Plan, packetSeq: u32, b: seq<byte>)
    requires Made(p, packetSeq, b)
    ensures HasFields(p, b)
  {
    hide FuzzBytes, OnlyFields;
    MadeKeeps(p, packetSeq, b);
    PushedHeaders(p, packetSeq);
    var a, t := FuzzBytes(p, packetSeq), TcpStart(p);
    assert forall k | 4 <= k < 20 && k !in {10, 11} :: b[k] == a[k] == a[4..20][k - 4];
    assert forall k | 20 <= k < 32 :: b[k] == a[k] == a[20..32][k - 20] == t[k - 20];
    assert forall k | 33 <= k < 40 && k !in {36, 37} :: b[k] == a[k] == a[33..40][k - 33] == t[k - 20];
    assert b[24..28] == t[4..8] == p.seqNumber;
    assert b[34..36] == t[14..16] == p.window;
    assert b[38..40] == t[18..20] == p.urgent;
  }

  lemma {:induction false} ReadInside(file: seq<byte>, i: nat, n: nat)
    requires i + n <= |file|
    ensures Read(file, i, n) == file[i..i + n] && Skip(file, i, n) == i + n
    decreases n
  {
    if n > 0 {
      ReadInside(file, i + 1, n - 1);
    }
  }

  /** Where in the input they are drawn, as long as it lasts: a sequence number only without
      dependency, then the window, the urgent pointer, the options and the length of the data. */
  lemma DrawnFrom(file: seq<byte>, i: nat, mode: Mode)
    requires i + 8 <= |file|
    ensures var p, j := Draws(file, i, mode), if mode.withoutDependency then i + 4 else i;
            && p.seqNumber == (if mode.withoutDependency then file[i..i + 4] else Enc32(mode.packetSeq))
            && p.window == file[j..j + 2] && p.urgent == file[j + 2..j + 4]
            && (!mode.options ==> p.options.index == j + 4 && p.options.bytes == [] && p.options.zeros == 0)
    ensures var p, k := Draws(file, i, mode), Draws(file, i, mode).options.index;
            && (!mode.data ==> p.dataLength == 0 && EndIndex(file, k, mode) == k)
            && (mode.data && k + 4 <= |file| ==>
                  p.dataLength == Be32(file, k) % 10000 && EndIndex(file, k, mode) == k + 4)
  {
    hide DrawOptions, Enc32;
    ReadInside(file, i, 4);
    var j := if mode.withoutDependency then i + 4 else i;
    ReadInside(file, j, 2);
    ReadInside(file, j + 2, 2);
    var k := Draws(file, i, mode).options.index;
    if k + 4 <= |file| {
      ReadInside(file, k, 4);
    }
  }

  // ---------------------------------------------------------------------
  // Payload
  // ---------------------------------------------------------------------

  /** The data is the end of the packet, and each byte of it is the last decimal digit of its
      place in sequence space. */
  predicate HasPayload(p: Plan, packetSeq: u32, b: seq<byte>) {
    && |b| >= 40 + p.dataLength
    && var d := b[|b| - p.dataLength..]; forall k | 0 <= k < |d| :: d[k] == (packetSeq + k) % 0x1_0000_0000 % 10
  }

  lemma FuzzPayload(p: Plan, packetSeq: u32, b: seq<byte>)
    requires Made(p, packetSeq, b)
    ensures HasPayload(p, packetSeq, b)
  {
    hide FuzzBytes, OnlyFields;
    MadeKeeps(p, packetSeq, b);
    var d := b[|b| - p.dataLength..];
    forall k | 0 <= k < |d|
      ensures d[k] == (packetSeq + k) % 0x1_0000_0000 % 10
    {
      DataInPlace(p, packetSeq, k);
    }
  }

  lemma DataInPlace(p: Plan, packetSeq: u32, k: nat)
    requires Sound(p) && k < p.dataLength
    ensures var b := FuzzBytes(p, packetSeq);
            && |b| >= 40 + p.dataLength
            && b[|b| - p.dataLength + k] == (packetSeq + k) % 0x1_0000_0000 % 10
  {
    hide TcpStart, ZeroBytes, OffsetByte;
    TcpStartLength(p);
    var s, b, d := Pushed(p, packetSeq), FuzzBytes(p, packetSeq), Data(packetSeq, p.dataLength);
    assert s[|s| - |d|..] == d;
    assert b[|b| - |d| + k] == s[|s| - |d| + k] == s[|s| - |d|..][k] == d[k];
  }

  /** Where the headers say the payload starts. */
  function PayloadAt(b: seq<byte>): nat
    requires |b| >= 40
  {
    20 + HighNibble(b[32]) * 4
  }

  /** It starts there unless options of length zero were drawn. */
  lemma PayloadStartsAtData(p: Plan, packetSeq: u32, b: seq<byte>)
    requires Made(p, packetSeq, b) && p.options.zeros == 0
    ensures |b| >= 40 && PayloadAt(b) + p.dataLength == |b| == Be16(b, 2)
  {
    hide FuzzBytes, OnlyFields;
    MadeKeeps(p, packetSeq, b);
    HeaderFields(p, packetSeq);
    Lengths(p);
    OffsetNibble(p);
  }

  lemma OffsetNibble(p: Plan)
    requires Sound(p)
    ensures HighNibble(OffsetByte(p)) * 4 == TcpHeaderLength(p)
  {
    Lengths(p);
    var off := TcpHeaderLength(p) / 4;
    assert (off * 16 + off) / 16 == off;
  }

  /** What a receiver sees at place x of the sequence space: the byte of the payload that the
      packet's own header fields put there. */
  ghost predicate Carries(b: seq<byte>, x: u32, value: byte) {
    |b| >= 40 && exists k: nat {:trigger CarriesAt(b, x, value, k)} :: CarriesAt(b, x, value, k)
  }

  predicate CarriesAt(b: seq<byte>, x: u32, value: byte, k: nat)
    requires |b| >= 40
  {
    PayloadAt(b) + k < Be16(b, 2) <= |b| && (Be32(b, 24) + k) % 0x1_0000_0000 == x && b[PayloadAt(b) + k] == value
  }

  /** A packet whose sequence number is its place in the stream and that has no option of length
      zero. */
  predicate Placed(p: Plan, packetSeq: u32, b: seq<byte>) {
    Made(p, packetSeq, b) && p.options.zeros == 0 && p.seqNumber == Enc32(packetSeq)
  }

  lemma PlacedFields(p: Plan, packetSeq: u32, b: seq<byte>)
    requires Placed(p, packetSeq, b)
    ensures |b| >= 40 && PayloadAt(b) + p.dataLength == |b| == Be16(b, 2) && Be32(b, 24) == packetSeq
  {
    hide Made;
    PayloadStartsAtData(p, packetSeq, b);
    FuzzFields(p, packetSeq, b);
    assert forall k | 0 <= k < 4 :: b[24 + k] == b[24..28][k];
  }

  /** What it carries at a place is the last decimal digit of the place. */
  lemma CarriesDigit(p: Plan, packetSeq: u32, b: seq<byte>, x: u32, value: byte)
    requires Placed(p, packetSeq, b) && Carries(b, x, value)
    ensures value == x % 10
  {
    hide Made, Be32, Enc32;
    PlacedFields(p, packetSeq, b);
    FuzzPayload(p, packetSeq, b);
    var k: nat :| CarriesAt(b, x, value, k);
    assert b[PayloadAt(b) + k] == b[|b| - p.dataLength..][k];
  }

  /** Packets that overlap in sequence space carry the same bytes there. */
  lemma OverlapsAgree(p: Plan, s: u32, b: seq<byte>, q: Plan, t: u32, c: seq<byte>, x: u32, v: byte, w: byte)
    requires Placed(p, s, b) && Placed(q, t, c) && Carries(b, x, v) && Carries(c, x, w)
    ensures v == w
  {
    hide Carries, Placed;
    CarriesDigit(p, s, b, x, v);
    CarriesDigit(q, t, c, x, w);
  }

  /** Every place the packet covers has a byte: dataLength of them from its sequence number on. */
  lemma CoversItsData(p: Plan, packetSeq: u32, b: seq<byte>, k: nat)
    requires Placed(p, packetSeq, b) && k < p.dataLength
    ensures var x := (packetSeq + k) % 0x1_0000_0000; Carries(b, x, x % 10)
  {
    hide Made, Be32, Enc32;
    var x := (packetSeq + k) % 0x1_0000_0000;
    PlacedFields(p, packetSeq, b);
    FuzzPayload(p, packetSeq, b);
    assert b[PayloadAt(b) + k] == b[|b| - p.dataLength..][k] == x % 10;
    assert CarriesAt(b, x, x % 10, k);
  }

  // ---------------------------------------------------------------------
  // The switch over the selector
  // ---------------------------------------------------------------------

  /** The value of a byte as a signed char. */
  function Signed(b: byte): int {
    if b < 0x80 then b else b - 0x100
  }

  /** The selector is the remainder by 17 that C takes: it differs by a multiple of 17, is smaller
      than 17 and has the sign of the byte. */
  lemma ChoiceIsRemainder(b: byte) returns (q: int)
    ensures Signed(b) == 17 * q + Choice(b) && -17 < Choice(b) < 17
    ensures (Signed(b) >= 0 ==> Choice(b) >= 0) && (Signed(b) <= 0 ==> Choice(b) <= 0)
  {
    q := if b < 0x80 then b / 17 else -((0x100 - b) / 17);
  }

  /** The kinds and lengths drawn, by number: EOL, NOP, maximum segment size, window scale, SACK
      permitted, SACK, timestamps, Fast Open and experimental; any other byte is a kind itself. */
  lemma DrawnKinds(file: seq<byte>, i: nat)
    ensures var d, b, more := DrawKind(file, i), ByteAt(file, i), ByteAt(file, i + 1);
            match Choice(b)
            case 0 => d.kind == 0 && d.length == 1 && d.read == 1
            case 1 => d.kind == 1 && d.length == 1 && d.read == 1
            case 2 => d.kind == 2 && d.length == 4 && d.read == 1
            case 3 => d.kind == 3 && d.length == 3 && d.read == 1
            case 4 => d.kind == 4 && d.length == 2 && d.read == 1
            case 5 => d.kind == 5 && d.length in {8, 16, 24, 32} && d.length / 8 == more % 4 + 1 && d.read == 2
            case 6 => d.kind == 8 && d.length == 10 && d.read == 1
            case 7 => d.kind == 34 && d.length < 40 && (more - d.length) % 40 == 0 && d.read == 2
            case 8 => d.kind == 254 && d.length < 40 && (more - d.length) % 40 == 0 && d.read == 2
            case _ => d.kind == b && d.kind > 1 && d.length > 0 && (more > 0 ==> d.length == more) && d.read == 2
    ensures DrawKind(file, i).length == 0 ==> DrawKind(file, i).kind in {34, 254}
  {
  }

  // ---------------------------------------------------------------------
  // Iterating over the options
  // ---------------------------------------------------------------------

  /** An option as it was drawn and pushed. */
  datatype Item = Item(kind: byte, length: byte, data: seq<byte>)

  function ItemBytes(it: Item): seq<byte> {
    [it.kind] + (if it.length > 1 then [it.length] else []) + it.data
  }

  function Flat(items: seq<Item>): seq<byte> {
    if items == [] then [] else ItemBytes(items[0]) + Flat(items[1..])
  }

  /** The options that are pushed, up to the first that does not fit. */
  function Items(file: seq<byte>, i: nat, count: nat, counted: nat): seq<Item>
    decreases count
  {
    if count == 0 then []
    else
      var d := DrawKind(file, i);
      var j := Skip(file, i, d.read);
      if counted + d.length > MAX_OPTIONS_LENGTH then []
      else
        [Item(d.kind, d.length, Read(file, j, DataBytes(d.length)))]
        + Items(file, Skip(file, j, DataBytes(d.length)), count - 1, counted + d.length)
  }

  predicate ItemOk(it: Item) {
    && |it.data| == DataBytes(it.length) && it.length > 0 && (IsBare(it.kind) ==> it.length == 1)
  }

  predicate AllOk(items: seq<Item>) {
    forall k | 0 <= k < |items| :: ItemOk(items[k])
  }

  /** Drawing one option more: an option, the index behind it and whether it fits. */
  lemma OneItem(file: seq<byte>, i: nat, count: nat, counted: nat)
    requires count > 0
    ensures var d := DrawKind(file, i);
            var j, n := Skip(file, i, d.read), DataBytes(d.length);
            var o, items := DrawOptions(file, i, count, counted), Items(file, i, count, counted);
            if counted + d.length > MAX_OPTIONS_LENGTH then o.bytes == [] && o.zeros == 0 && items == []
            else
              var it, k := Item(d.kind, d.length, Read(file, j, n)), Skip(file, j, n);
              var o' := DrawOptions(file, k, count - 1, counted + d.length);
              var rest := Items(file, k, count - 1, counted + d.length);
              && items == [it] + rest && o.bytes == ItemBytes(it) + o'.bytes
              && o.zeros == o'.zeros + (if d.length == 0 then 1 else 0)
  {
    hide Skip, Read, DrawKind, DataBytes;
  }

  lemma {:induction false} ItemsArePushed(file: seq<byte>, i: nat, count: nat, counted: nat)
    ensures var o, items := DrawOptions(file, i, count, counted), Items(file, i, count, counted);
            Flat(items) == o.bytes && (o.zeros == 0 ==> AllOk(items))
    decreases count
  {
    hide Skip, Read, DrawKind, ItemBytes, Items, DrawOptions;
    if count == 0 {
      NoItems(file, i, counted);
    } else {
      OneItem(file, i, count, counted);
      var d := DrawKind(file, i);
      var j := Skip(file, i, d.read);
      if counted + d.length <= MAX_OPTIONS_LENGTH {
        var first := Item(d.kind, d.length, Read(file, j, DataBytes(d.length)));
        var rest := Items(file, Skip(file, j, DataBytes(d.length)), count - 1, counted + d.length);
        ItemsArePushed(file, Skip(file, j, DataBytes(d.length)), count - 1, counted + d.length);
        assert ([first] + rest)[1..] == rest;
        BareIsOne(file, i);
      }
    }
  }

  lemma NoItems(file: seq<byte>, i: nat, counted: nat)
    ensures Items(file, i, 0, counted) == [] && DrawOptions(file, i, 0, counted).bytes == []
    ensures DrawOptions(file, i, 0, counted).zeros == 0
  {
  }

  lemma BareIsOne(file: seq<byte>, i: nat)
    ensures IsBare(DrawKind(file, i).kind) ==> DrawKind(file, i).length == 1
  {
    DrawnKinds(file, i);
  }

  /** Where the options start. */
  function Starts(items: seq<Item>, p: nat): seq<nat> {
    if items == [] then [] else [p] + Starts(items[1..], p + |ItemBytes(items[0])|)
  }

  /** There are the kinds and lengths of the options. */
  predicate Holds(mem: seq<byte>, starts: seq<nat>, items: seq<Item>) {
    |starts| == |items| && forall k | 0 <= k < |items| :: HoldsAt(mem, starts[k], items[k])
  }

  predicate HoldsAt(mem: seq<byte>, p: nat, it: Item) {
    p + it.length <= |mem| && it.length > 0 && mem[p] == it.kind && (it.length > 1 ==> mem[p + 1] == it.length)
  }

  /** The iterator finds its way over the option: it has a length byte, or needs none. */
  predicate Aligned(it: Item) {
    IsBare(it.kind) || it.length >= 2
  }

  /** Every option but the last is aligned, or has a NOP behind it, whose 1 is taken for the
      missing length. */
  predicate Readable(items: seq<Item>) {
    forall k | 0 <= k < |items| - 1 :: Aligned(items[k]) || items[k + 1].kind == TCPOPT_NOP
  }

  lemma ReadableFirst(items: seq<Item>)
    requires |items| > 1
    ensures Readable(items) <==> (Aligned(items[0]) || items[1].kind == TCPOPT_NOP) && Readable(items[1..])
  {
    hide Aligned;
    var rest := items[1..];
    assert forall k | 0 <= k < |rest| :: rest[k] == items[k + 1];
    if Readable(items) {
      assert Aligned(items[0]) || items[0 + 1].kind == TCPOPT_NOP;
      forall k | 0 <= k < |rest| - 1
        ensures Aligned(rest[k]) || rest[k + 1].kind == TCPOPT_NOP
      {
        assert Aligned(items[k + 1]) || items[k + 1 + 1].kind == TCPOPT_NOP;
      }
    }
    if (Aligned(items[0]) || items[1].kind == TCPOPT_NOP) && Readable(rest) {
      forall k | 0 <= k < |items| - 1
        ensures Aligned(items[k]) || items[k + 1].kind == TCPOPT_NOP
      {
        if k > 0 {
          assert Aligned(rest[k - 1]) || rest[k - 1 + 1].kind == TCPOPT_NOP;
        }
      }
    }
  }

  /** The bytes of the options are there. */
  predicate FlatAt(mem: seq<byte>, p: nat, items: seq<Item>) {
    p + |Flat(items)| <= |mem| && mem[p..p + |Flat(items)|] == Flat(items)
  }

  lemma FlatFirst(mem: seq<byte>, p: nat, items: seq<Item>)
    requires FlatAt(mem, p, items) && items != []
    ensures var q := p + |ItemBytes(items[0])|;
            && q + |Flat(items[1..])| == p + |Flat(items)| && FlatAt(mem, q, items[1..])
            && mem[p..q] == ItemBytes(items[0])
  {
    hide ItemBytes;
    var b, r := ItemBytes(items[0]), Flat(items[1..]);
    var w := mem[p..p + |b| + |r|];
    assert w == b + r;
    assert mem[p..p + |b|] == w[..|b|] && mem[p + |b|..p + |b| + |r|] == w[|b|..];
  }

  /** The iterator goes on from the first option to the second exactly if it is readable. */
  lemma NextItem(mem: seq<byte>, p: nat, end: nat, items: seq<Item>)
    requires |items| > 1 && AllOk(items) && FlatAt(mem, p, items) && p + |Flat(items)| <= end <= |mem|
    ensures var q := p + |ItemBytes(items[0])|;
            && p < q < end
            && (Following(mem, p, end) == Some(q) <==> Aligned(items[0]) || items[1].kind == TCPOPT_NOP)
  {
    hide Flat, FlatAt;
    FlatFirst(mem, p, items);
    var it, q := items[0], p + |ItemBytes(items[0])|;
    FlatFirst(mem, q, items[1..]);
    assert ItemOk(items[0]) && ItemOk(items[1]) && items[1..][0] == items[1];
    FirstBytes(mem, p, it);
    FirstBytes(mem, q, items[1]);
  }

  lemma FirstBytes(mem: seq<byte>, p: nat, it: Item)
    requires p + |ItemBytes(it)| <= |mem| && mem[p..p + |ItemBytes(it)|] == ItemBytes(it) && ItemOk(it)
    ensures mem[p] == it.kind && (it.length > 1 ==> mem[p + 1] == it.length)
    ensures |ItemBytes(it)| == it.length
  {
    var b := ItemBytes(it);
    assert mem[p] == mem[p..p + |b|][0];
    if it.length > 1 {
      assert mem[p + 1] == mem[p..p + |b|][1];
    }
  }

  lemma {:induction false} StartsHold(mem: seq<byte>, p: nat, items: seq<Item>)
    requires AllOk(items) && FlatAt(mem, p, items)
    ensures Holds(mem, Starts(items, p), items)
    decreases |items|
  {
    hide FlatAt, Flat, ItemBytes, ItemOk;
    if items != [] {
      FlatFirst(mem, p, items);
      var rest, q := items[1..], p + |ItemBytes(items[0])|;
      assert ItemOk(items[0]);
      FlatInside(mem, q, rest);
      FirstBytes(mem, p, items[0]);
      OkHasLength(items[0]);
      assert forall k | 0 <= k < |rest| :: rest[k] == items[k + 1];
      StartsHold(mem, q, rest);
      assert Starts(items, p) == [p] + Starts(rest, q);
      forall k | 0 <= k < |items|
        ensures HoldsAt(mem, Starts(items, p)[k], items[k])
      {
        if k > 0 {
          assert HoldsAt(mem, Starts(rest, q)[k - 1], rest[k - 1]);
        }
      }
    }
  }

  lemma FlatInside(mem: seq<byte>, p: nat, items: seq<Item>)
    requires FlatAt(mem, p, items)
    ensures p <= |mem|
  {
  }

  lemma OkHasLength(it: Item)
    requires ItemOk(it)
    ensures it.length > 0
  {
  }

  lemma OffsetsHead(mem: seq<byte>, p: nat, end: nat)
    requires p < end <= |mem|
    ensures Offsets(mem, p, end) != [] && Offsets(mem, p, end)[0] == p
  {
  }

  /** Over the bytes that were pushed, the iterator yields the options that were drawn, in order
      and at their places, if and only if they are readable. */
  lemma {:induction false} IterationIff(mem: seq<byte>, p: nat, end: nat, items: seq<Item>)
    requires AllOk(items) && FlatAt(mem, p, items) && p + |Flat(items)| <= end <= |mem|
    ensures Starts(items, p) <= Offsets(mem, p, end) <==> Readable(items)
    decreases |items|
  {
    hide Aligned, ItemBytes, FlatAt, Flat, Following, ItemOk, Offsets, Readable;
    if items == [] {
      NothingToRead(mem, p, end);
    } else {
      AnItemHasBytes(mem, p, end, items);
      OffsetsStep(mem, p, end);
      var rest, q := items[1..], p + |ItemBytes(items[0])|;
      if rest == [] {
        OneIsReadable(items);
        assert Starts(items, p) == [p] + Starts(rest, q);
      } else {
        FlatFirst(mem, p, items);
        NextItem(mem, p, end, items);
        ReadableFirst(items);
        assert AllOk(rest) by {
          assert forall k | 0 <= k < |rest| :: rest[k] == items[k + 1];
        }
        IterationIff(mem, q, end, rest);
        StepIff(mem, p, end, q, Starts(rest, q));
        assert Starts(rest, q)[0] == q;
      }
    }
  }

  lemma NothingToRead(mem: seq<byte>, p: nat, end: nat)
    requires end <= |mem|
    ensures Starts([], p) <= Offsets(mem, p, end) && Readable([])
  {
  }

  lemma AnItemHasBytes(mem: seq<byte>, p: nat, end: nat, items: seq<Item>)
    requires items != [] && FlatAt(mem, p, items) && p + |Flat(items)| <= end <= |mem|
    ensures p < end
  {
  }

  lemma OneIsReadable(items: seq<Item>)
    requires items != [] && items[1..] == []
    ensures Readable(items)
  {
  }

  lemma StepIff(mem: seq<byte>, p: nat, end: nat, q: nat, starts: seq<nat>)
    requires p < q < end <= |mem| && starts != [] && starts[0] == q
    ensures [p] + starts <= Offsets(mem, p, end)
            <==> Following(mem, p, end) == Some(q) && starts <= Offsets(mem, q, end)
  {
    hide Offsets, Following;
    OffsetsStep(mem, p, end);
    var next := Following(mem, p, end);
    var tail := OffsetsFrom(mem, next, end);
    assert Offsets(mem, p, end) == [p] + tail;
    assert ([p] + starts)[1..] == starts && ([p] + tail)[1..] == tail;
    if next.Some? {
      FollowingInside(mem, p, end);
      OffsetsHead(mem, next.value, end);
    }
    if [p] + starts <= [p] + tail {
      assert starts == ([p] + starts)[1..] && starts <= tail;
      assert tail[0] == q;
    }
  }

  lemma FollowingInside(mem: seq<byte>, p: nat, end: nat)
    requires p < end <= |mem| && Following(mem, p, end).Some?
    ensures Following(mem, p, end).value < end
  {
  }

  // ---------------------------------------------------------------------
  // The options of a packet
  // ---------------------------------------------------------------------

  /** The options of a packet start behind the fixed part of its TCP header. */
  lemma OptionsInPlace(p: Plan, packetSeq: u32, b: seq<byte>)
    requires Made(p, packetSeq, b) && p.options.zeros == 0
    ensures var n := |p.options.bytes|;
            && |b| >= 40 && 40 + n <= PayloadAt(b) <= |b| && b[40..40 + n] == p.options.bytes
  {
    hide TcpStart, ZeroBytes, OffsetByte, Data, OnlyFields;
    MadeKeeps(p, packetSeq, b);
    TcpStartLength(p);
    OffsetNibble(p);
    Lengths(p);
    HeaderFields(p, packetSeq);
    var s, a, n := Pushed(p, packetSeq), FuzzBytes(p, packetSeq), |p.options.bytes|;
    assert s[40..40 + n] == p.options.bytes;
    assert forall k | 40 <= k < 40 + n :: b[k] == a[k] == s[k] == s[40..40 + n][k - 40];
  }

  /** Of a packet without options of length zero, the iterator yields exactly the options that
      were drawn, with their kinds and lengths and before it comes to the padding, if and only if
      every option but the last has at least two bytes, is an EOL or NOP, or has a NOP behind it. */
  lemma FuzzOptionsIff(file: seq<byte>, i: nat, mode: Mode, b: seq<byte>)
    requires mode.options && Made(Draws(file, i, mode), mode.packetSeq, b) && Draws(file, i, mode).options.zeros == 0
    ensures var items := DrawnItems(file, i, mode);
            && |b| >= 40 && PayloadAt(b) <= |b| && Holds(b, Starts(items, 40), items)
            && (Starts(items, 40) <= Offsets(b, 40, PayloadAt(b)) <==> Readable(items))
  {
    hide Made, Items, DrawOptions, Readable, Offsets, Starts, Read, Be32, Enc32, Holds;
    var p, items := Draws(file, i, mode), DrawnItems(file, i, mode);
    var i2 := HeaderIndex(file, i, mode);
    ItemsArePushed(file, Skip(file, i2, 1), ByteAt(file, i2) % 11, 0);
    OptionsInPlace(p, mode.packetSeq, b);
    StartsHold(b, 40, items);
    IterationIff(b, 40, PayloadAt(b), items);
  }

  function DrawnItems(file: seq<byte>, i: nat, mode: Mode): seq<Item> {
    var j := HeaderIndex(file, i, mode);
    Items(file, Skip(file, j, 1), ByteAt(file, j) % 11, 0)
  }

  const UNREADABLE: seq<byte> := [0, 0, 0, 0, 2, 7, 1, 2, 0, 0]

  /** Options that are not readable do occur, also without length zero: this input draws a Fast
      Open option of length one, which has no length byte, and a maximum segment size behind it. */
  lemma UnreadableIsDrawn()
    ensures var mode := Mode(true, false, false, 1);
            && DrawnItems(UNREADABLE, 0, mode) == [Item(TCPOPT_FASTOPEN, 1, []), Item(TCPOPT_MAXSEG, 4, [0, 0])]
            && Draws(UNREADABLE, 0, mode).options.zeros == 0 && !Readable(DrawnItems(UNREADABLE, 0, mode))
  {
    hide Items, DrawOptions, DrawKind, Read;
    var mode := Mode(true, false, false, 1);
    assert HeaderIndex(UNREADABLE, 0, mode) == 4 && Skip(UNREADABLE, 4, 1) == 5;
    UnreadableDraws();
    UnreadableData();
    OneItem(UNREADABLE, 5, 2, 0);
    OneItem(UNREADABLE, 7, 1, 1);
    NoItems(UNREADABLE, 10, 5);
    var a, b := Item(TCPOPT_FASTOPEN, 1, []), Item(TCPOPT_MAXSEG, 4, [0, 0]);
    assert [a, b][0] == a && [a, b][0 + 1] == b && !Aligned([a, b][0]);
  }

  lemma UnreadableDraws()
    ensures DrawKind(UNREADABLE, 5) == Draw(TCPOPT_FASTOPEN, 1, 2) && Skip(UNREADABLE, 5, 2) == 7
    ensures DrawKind(UNREADABLE, 7) == Draw(TCPOPT_MAXSEG, 4, 1) && Skip(UNREADABLE, 7, 1) == 8
  {
  }

  lemma UnreadableData()
    ensures Read(UNREADABLE, 7, 0) == [] && Skip(UNREADABLE, 7, 0) == 7
    ensures Read(UNREADABLE, 8, 2) == [0, 0] && Skip(UNREADABLE, 8, 2) == 10
  {
    ReadInside(UNREADABLE, 8, 2);
  }
}
