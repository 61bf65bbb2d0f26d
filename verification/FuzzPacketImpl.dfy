/** fuzz_to_packet, with its growing buffer and its input file. */
module FuzzPacketImpl {
  import opened Bytes
  import opened TcpOptions
  import opened Packet
  import opened PacketParser
  import opened PacketGrammar
  import opened PacketParserImpl
  import opened PacketChecksum
  import opened FuzzPacket
  import opened FuzzContents

  /** The buffer that push_data grows. */
  class DataBuffer {
    var data: array<byte>
    var size: nat

    ghost predicate Valid()
      reads this
    {
      size <= data.Length && data.Length > 0
    }

    ghost function Contents(): seq<byte>
      requires Valid()
      reads this, data
    {
      data[..size]
    }

    constructor (capacity: nat)
      requires capacity > 0
      ensures Valid() && fresh(data) && Contents() == []
    {
      data := new byte[capacity];
      size := 0;
    }

    /** push_data: double the capacity when it is used up. */
    method Push(value: byte)
      requires Valid()
      modifies this, data
      ensures Valid() && Contents() == old(Contents()) + [value] && (data == old(data) || fresh(data))
    {
      if size >= data.Length {
        var bigger := new byte[data.Length * 2];
        forall i | 0 <= i < size {
          bigger[i] := data[i];
        }
        data := bigger;
        assert data[..size] == old(data[..size]);
      }
      data[size] := value;
      size := size + 1;
      assert data[..size] == old(data[..size]) + [value];
    }

    method PushAll(values: seq<byte>)
      requires Valid()
      modifies this, data
      ensures Valid() && Contents() == old(Contents()) + values && (data == old(data) || fresh(data))
    {
      var i := 0;
      while i < |values|
        invariant i <= |values| && Valid() && (data == old(data) || fresh(data))
        invariant Contents() == old(Contents()) + values[..i]
      {
        Push(values[i]);
        assert values[..i + 1] == values[..i] + [values[i]];
        i := i + 1;
      }
      assert values[..i] == values;
    }
  }

  /** The fuzz input file and the global index into it. */
  class FuzzInput {
    const file: seq<byte>
    var index: nat

    constructor (file: seq<byte>)
      ensures this.file == file && index == 0
    {
      this.file, index := file, 0;
    }

    /** read_byte */
    method ReadByte() returns (b: byte)
      modifies this
      ensures b == ByteAt(file, old(index)) && index == Skip(file, old(index), 1)
    {
      if index >= |file| {
        return 0;
      }
      b := file[index];
      index := index + 1;
    }

    /** read_int */
    method ReadInt() returns (r: u32)
      modifies this
      ensures r == Be32(Read(file, old(index), 4), 0) && index == Skip(file, old(index), 4)
    {
      ghost var i := index;
      var a := ReadByte();
      var b := ReadByte();
      var c := ReadByte();
      var d := ReadByte();
      r := ((a as int * 0x100 + b as int) * 0x100 + c as int) * 0x100 + d as int;
      ReadFour(file, i);
    }
  }

  lemma SkipAdds(file: seq<byte>, i: nat, n: nat)
    ensures Skip(file, Skip(file, i, 1), n) == Skip(file, i, n + 1)
    ensures Skip(file, i, 0) == i
  {
  }

  lemma ReadFour(file: seq<byte>, i: nat)
    ensures var i1 := Skip(file, i, 1);
            var i2 := Skip(file, i1, 1);
            var i3 := Skip(file, i2, 1);
            && Read(file, i, 4) == [ByteAt(file, i), ByteAt(file, i1), ByteAt(file, i2), ByteAt(file, i3)]
            && Skip(file, i3, 1) == Skip(file, i, 4)
  {
    var i1 := Skip(file, i, 1);
    var i2 := Skip(file, i1, 1);
    var i3 := Skip(file, i2, 1);
    SkipAdds(file, i3, 0);
    SkipAdds(file, i2, 1);
    SkipAdds(file, i1, 2);
    SkipAdds(file, i, 3);
    hide Skip, ByteAt;
    assert Read(file, i3, 1) == [ByteAt(file, i3)] + Read(file, Skip(file, i3, 1), 0);
    assert Read(file, i2, 2) == [ByteAt(file, i2)] + Read(file, i3, 1);
    assert Read(file, i1, 3) == [ByteAt(file, i1)] + Read(file, i2, 2);
  }

  /** Reading n bytes and pushing each of them. */
  method PushRead(input: FuzzInput, buffer: DataBuffer, n: nat)
    requires buffer.Valid()
    modifies input, buffer, buffer.data
    ensures buffer.Valid() && (buffer.data == old(buffer.data) || fresh(buffer.data))
    ensures buffer.Contents() == old(buffer.Contents()) + Read(input.file, old(input.index), n)
    ensures input.index == Skip(input.file, old(input.index), n)
  {
    hide Skip, ByteAt;
    ghost var before, start := buffer.Contents(), input.index;
    var j := 0;
    SkipAdds(input.file, start, 0);
    while j < n
      invariant j <= n && buffer.Valid() && (buffer.data == old(buffer.data) || fresh(buffer.data))
      invariant before + Read(input.file, start, n) == buffer.Contents() + Read(input.file, input.index, n - j)
      invariant Skip(input.file, start, n) == Skip(input.file, input.index, n - j)
    {
      ghost var c, i := buffer.Contents(), input.index;
      var b := input.ReadByte();
      buffer.Push(b);
      SkipAdds(input.file, i, n - j - 1);
      assert c + ([b] + Read(input.file, input.index, n - j - 1)) == c + [b] + Read(input.file, input.index, n - j - 1);
      j := j + 1;
    }
    SkipAdds(input.file, input.index, 0);
  }

  /** The switch over the first byte of an option. */
  method ReadKind(input: FuzzInput) returns (kind: byte, length: byte)
    modifies input
    ensures var d := DrawKind(input.file, old(input.index));
            kind == d.kind && length == d.length && input.index == Skip(input.file, old(input.index), d.read)
  {
    var tmp := input.ReadByte();
    match Choice(tmp) {
      case 0 => kind, length := TCPOPT_EOL, 1;
      case 1 => kind, length := TCPOPT_NOP, 1;
      case 2 => kind, length := TCPOPT_MAXSEG, 4;
      case 3 => kind, length := TCPOPT_WINDOW, 3;
      case 4 => kind, length := TCPOPT_SACK_PERMITTED, 2;
      case 5 =>
        kind := TCPOPT_SACK;
        var b := input.ReadByte();
        length := (b % 4 + 1) * 8;
      case 6 => kind, length := TCPOPT_TIMESTAMP, 10;
      case 7 =>
        kind := TCPOPT_FASTOPEN;
        var b := input.ReadByte();
        length := b % MAX_OPTIONS_LENGTH;
      case 8 =>
        kind := TCPOPT_EXP;
        var b := input.ReadByte();
        length := b % MAX_OPTIONS_LENGTH;
      case _ =>
        kind := tmp;
        length := input.ReadByte();
        if length == 0 {
          length := 2;
        }
    }
  }

  /** What is left to draw brings the buffer from c to what it ends up as. */
  ghost predicate Pending(all: Options, before: seq<byte>, now: seq<byte>, rest: Options) {
    before + all.bytes == now + rest.bytes && all.counted == rest.counted && all.index == rest.index
  }

  /** The loop over the options. */
  method PushOptions(input: FuzzInput, buffer: DataBuffer, count: nat) returns (optionsLength: nat)
    requires buffer.Valid()
    modifies input, buffer, buffer.data
    ensures buffer.Valid() && (buffer.data == old(buffer.data) || fresh(buffer.data))
    ensures var o := DrawOptions(input.file, old(input.index), count, 0);
            buffer.Contents() == old(buffer.Contents()) + o.bytes && optionsLength == o.counted
              && input.index == o.index
  {
    hide Skip, DrawKind, DrawOptions, OptionBytes, Pending;
    ghost var file, before, all := input.file, buffer.Contents(), DrawOptions(input.file, input.index, count, 0);
    optionsLength := 0;
    var i := 0;
    PendingStart(all, before);
    while i < count
      invariant i <= count && buffer.Valid() && (buffer.data == old(buffer.data) || fresh(buffer.data))
      invariant Pending(all, before, buffer.Contents(), DrawOptions(file, input.index, count - i, optionsLength))
    {
      ghost var c, j := buffer.Contents(), input.index;
      var kind, length := ReadKind(input);
      if optionsLength + length > MAX_OPTIONS_LENGTH {
        PendingStop(file, j, count - i, optionsLength, all, before, c);
        return;
      }
      PushOption(input, buffer, kind, length, DrawKind(file, j));
      PendingStep(file, j, count - i, optionsLength, all, before, c);
      optionsLength := optionsLength + length;
      i := i + 1;
    }
    PendingEnd(file, input.index, optionsLength, all, before, buffer.Contents());
  }

  /** The bytes of one option. */
  method PushOption(input: FuzzInput, buffer: DataBuffer, kind: byte, length: byte, ghost d: Draw)
    requires buffer.Valid() && d.kind == kind && d.length == length
    modifies input, buffer, buffer.data
    ensures buffer.Valid() && (buffer.data == old(buffer.data) || fresh(buffer.data))
    ensures buffer.Contents() == old(buffer.Contents()) + OptionBytes(input.file, old(input.index), d)
    ensures input.index == Skip(input.file, old(input.index), DataBytes(length))
  {
    hide Skip, Read;
    buffer.Push(kind);
    if length > 1 {
      buffer.Push(length);
    }
    PushRead(input, buffer, if length > 2 then length - 2 else 0);
  }

  lemma PendingStart(all: Options, before: seq<byte>)
    ensures Pending(all, before, before, all)
  {
  }

  lemma PendingStop(file: seq<byte>, j: nat, count: nat, counted: nat, all: Options, before: seq<byte>, c: seq<byte>)
    requires count > 0 && Pending(all, before, c, DrawOptions(file, j, count, counted))
    requires counted + DrawKind(file, j).length > MAX_OPTIONS_LENGTH
    ensures c == before + all.bytes && counted == all.counted && Skip(file, j, DrawKind(file, j).read) == all.index
  {
    hide Skip, DrawKind;
  }

  lemma PendingEnd(file: seq<byte>, j: nat, counted: nat, all: Options, before: seq<byte>, c: seq<byte>)
    requires Pending(all, before, c, DrawOptions(file, j, 0, counted))
    ensures c == before + all.bytes && counted == all.counted && j == all.index
  {
  }

  lemma PendingStep(file: seq<byte>, j: nat, count: nat, counted: nat, all: Options, before: seq<byte>, c: seq<byte>)
    requires count > 0 && Pending(all, before, c, DrawOptions(file, j, count, counted))
    requires counted + DrawKind(file, j).length <= MAX_OPTIONS_LENGTH
    ensures var d := DrawKind(file, j);
            var j1 := Skip(file, j, d.read);
            Pending(all, before, c + OptionBytes(file, j1, d),
                    DrawOptions(file, Skip(file, j1, DataBytes(d.length)), count - 1, counted + d.length))
  {
    hide Skip, ByteAt, DrawKind, Read, OptionBytes;
    var d := DrawKind(file, j);
    var j1 := Skip(file, j, d.read);
    var b := OptionBytes(file, j1, d);
    var rest := DrawOptions(file, Skip(file, j1, DataBytes(d.length)), count - 1, counted + d.length);
    assert c + (b + rest.bytes) == c + b + rest.bytes;
  }

  lemma SkipTwice(file: seq<byte>, i: nat)
    ensures Skip(file, Skip(file, i, 2), 2) == Skip(file, i, 4)
  {
  }

  /** A plan's parts and the indices they are drawn at. */
  lemma DrawsFields(file: seq<byte>, i: nat, mode: Mode)
    ensures var p := Draws(file, i, mode);
            var i1 := if mode.withoutDependency then Skip(file, i, 4) else i;
            var i2 := HeaderIndex(file, i, mode);
            && p.seqNumber == (if mode.withoutDependency then Read(file, i, 4) else Enc32(mode.packetSeq))
            && p.window == Read(file, i1, 2) && p.urgent == Read(file, Skip(file, i1, 2), 2)
            && p.options == (if mode.options then DrawOptions(file, Skip(file, i2, 1), ByteAt(file, i2) % 11, 0)
                             else Options([], 0, 0, i2))
            && p.dataLength == (if mode.data then Be32(Read(file, p.options.index, 4), 0) % MAX_PACKET_DATA_LENGTH
                                else 0)
  {
    hide Skip, Read, DrawOptions, Be32, Enc32, ByteAt;
  }

  /** The IP header and the TCP header up to its options. */
  method PushHeaders(input: FuzzInput, buffer: DataBuffer, mode: Mode)
    requires buffer.Valid() && buffer.Contents() == []
    modifies input, buffer, buffer.data
    ensures buffer.Valid() && (buffer.data == old(buffer.data) || fresh(buffer.data))
    ensures buffer.Contents() == IP_START + TcpStart(Draws(input.file, old(input.index), mode))
    ensures input.index == HeaderIndex(input.file, old(input.index), mode)
  {
    hide Skip, Read, Draws, TcpStart, Enc32;
    ghost var p := Draws(input.file, input.index, mode);
    DrawsFields(input.file, input.index, mode);
    buffer.PushAll(IP_START);
    buffer.PushAll([0, 0, 0, 0]);
    if mode.withoutDependency {
      PushRead(input, buffer, 4);
    } else {
      buffer.PushAll(Enc32(mode.packetSeq));
    }
    PushTcpFields(input, buffer);
    HeadersJoin(p, buffer.Contents());
  }

  /** Acknowledgement number, flags, window, checksum and urgent pointer. */
  method PushTcpFields(input: FuzzInput, buffer: DataBuffer)
    requires buffer.Valid()
    modifies input, buffer, buffer.data
    ensures buffer.Valid() && (buffer.data == old(buffer.data) || fresh(buffer.data))
    ensures var f, i := input.file, old(input.index);
            buffer.Contents() == old(buffer.Contents()) + [0, 0, 0, 1, 0, 0x10] + Read(f, i, 2) + [0, 0]
              + Read(f, Skip(f, i, 2), 2)
    ensures input.index == Skip(input.file, old(input.index), 4)
  {
    hide Skip, Read;
    SkipTwice(input.file, input.index);
    buffer.PushAll([0, 0, 0, 1, 0, 0x10]);
    PushRead(input, buffer, 2);
    buffer.PushAll([0, 0]);
    PushRead(input, buffer, 2);
  }

  lemma HeadersJoin(p: Plan, c: seq<byte>)
    requires c == [] + IP_START + [0, 0, 0, 0] + p.seqNumber + [0, 0, 0, 1, 0, 0x10] + p.window + [0, 0] + p.urgent
    ensures c == IP_START + TcpStart(p)
  {
  }

  /** The length of the data. */
  method DrawLength(input: FuzzInput, mode: Mode) returns (n: nat)
    modifies input
    ensures n == (if mode.data then Be32(Read(input.file, old(input.index), 4), 0) % MAX_PACKET_DATA_LENGTH else 0)
    ensures input.index == EndIndex(input.file, old(input.index), mode)
  {
    hide Skip, Read, Be32;
    n := 0;
    if mode.data {
      var r := input.ReadInt();
      n := r % MAX_PACKET_DATA_LENGTH;
    }
  }

  /** The padding, and the length of the TCP header with it. */
  method PushPadding(buffer: DataBuffer, optionsLength: nat) returns (tcpHeaderLength: nat)
    requires buffer.Valid()
    modifies buffer, buffer.data
    ensures buffer.Valid() && (buffer.data == old(buffer.data) || fresh(buffer.data))
    ensures buffer.Contents() == old(buffer.Contents()) + ZeroBytes(Padding(optionsLength))
    ensures tcpHeaderLength == 20 + optionsLength + Padding(optionsLength)
  {
    hide ZeroBytes;
    tcpHeaderLength := 20 + optionsLength;
    var padding := 4 - optionsLength % 4;
    if padding < 4 {
      buffer.PushAll(ZeroBytes(padding));
      tcpHeaderLength := tcpHeaderLength + padding;
    } else {
      NothingMore(buffer.Contents());
      assert ZeroBytes(0) == [];
    }
  }

  /** Everything that is pushed, with the data offset stored on the way. */
  method PushPacket(input: FuzzInput, mode: Mode) returns (buffer: DataBuffer, dataLength: nat, ghost p: Plan)
    modifies input
    ensures p == Draws(input.file, old(input.index), mode) && Sound(p) && dataLength == p.dataLength
    ensures input.index == EndIndex(input.file, p.options.index, mode)
    ensures fresh(buffer) && fresh(buffer.data) && buffer.Valid() && buffer.Contents() == FuzzBytes(p, mode.packetSeq)
  {
    hide Skip, Read, Draws, DrawOptions, TcpStart, HeaderIndex, EndIndex, Sound, Data, ZeroBytes, FuzzBytes, Be32;
    ghost var file, start := input.file, input.index;
    p := Draws(file, start, mode);
    DrawsFields(file, start, mode);
    DrawsAreSound(file, start, mode);
    buffer := new DataBuffer(200);
    PushHeaders(input, buffer, mode);
    var optionsLength := 0;
    if mode.options {
      var count := input.ReadByte();
      optionsLength := PushOptions(input, buffer, count % 11);
    }
    NothingMore(buffer.Contents());
    assert optionsLength == p.options.counted && input.index == p.options.index;
    assert buffer.Contents() == IP_START + TcpStart(p) + p.options.bytes;
    var tcpHeaderLength := PushPadding(buffer, optionsLength);
    dataLength := DrawLength(input, mode);
    buffer.PushAll(Data(mode.packetSeq, dataLength));
    FillIn(buffer, tcpHeaderLength, dataLength, p, mode.packetSeq);
  }

  lemma NothingMore(c: seq<byte>)
    ensures c + [] == c
  {
  }

  lemma PushedLength(p: Plan, packetSeq: u32)
    requires Sound(p)
    ensures |Pushed(p, packetSeq)| >= 40
  {
  }

  /** data[32] and tot_len. */
  method FillIn(buffer: DataBuffer, tcpHeaderLength: nat, dataLength: nat, ghost p: Plan, ghost packetSeq: u32)
    requires buffer.Valid() && Sound(p) && tcpHeaderLength == TcpHeaderLength(p) && dataLength == p.dataLength
    requires buffer.Contents() == Pushed(p, packetSeq)
    modifies buffer.data
    ensures buffer.Valid() && buffer.Contents() == FuzzBytes(p, packetSeq)
  {
    hide TcpStart, Data, ZeroBytes, Padding;
    Lengths(p);
    PushedLength(p, packetSeq);
    var off := tcpHeaderLength / 4;
    buffer.data[32] := off * 16 + off;
    var ipLength := 20 + tcpHeaderLength + dataLength;
    buffer.data[2], buffer.data[3] := ipLength / 0x100, ipLength % 0x100;
  }

  /** fuzz_to_packet: the parser accepts the packet, its checksums are right, and it holds the
      fields and the payload of its plan; the input is read up to the end of the plan. */
  method FuzzToPacket(input: FuzzInput, mode: Mode) returns (packet: PacketObject, r: Result, dataLength: nat)
    modifies input
    ensures r == OK
    ensures var p := Draws(input.file, old(input.index), mode);
            && Sound(p) && packet.bufferBytes == |FuzzBytes(p, mode.packetSeq)| < packet.mem.Length
            && packet.Meta() == Describe(NewInfo(packet.bufferBytes), FuzzTable(p))
            && dataLength == p.dataLength && input.index == EndIndex(input.file, p.options.index, mode)
    ensures var p, b := Draws(input.file, old(input.index), mode), packet.mem[..packet.bufferBytes];
            Made(p, mode.packetSeq, b) && HasFields(p, b) && HasPayload(p, mode.packetSeq, b)
    ensures Ready4(packet.mem[..], packet.Meta()) && Verifies4(packet.mem[..], packet.Meta())
  {
    hide Draws, FuzzBytes, ParsePacket, Describe, Ready4, Verifies4, Field4, OnlyFields, Sound, HasFields, HasPayload;
    ghost var start := input.index;
    var buffer;
    ghost var p;
    buffer, dataLength, p := PushPacket(input, mode);
    var n := buffer.size;
    var mem := new byte[n + 1];
    forall i | 0 <= i < n {
      mem[i] := buffer.data[i];
    }
    ghost var m := mem[..];
    assert m[..n] == buffer.Contents();
    packet := new PacketObject(mem, n);
    FuzzPacketIsAccepted(input.file, start, mode, m);
    r := packet.Parse(n, IpLayer);
    FuzzIsReady(p, mode.packetSeq, m);
    ChecksumIpv4Packet(packet);
    FieldsOfPrefix(m, mem[..], n);
    assert mem[..][..n] == mem[..n];
    FuzzFields(p, mode.packetSeq, mem[..n]);
    FuzzPayload(p, mode.packetSeq, mem[..n]);
  }

  lemma FieldsOfPrefix(m: seq<byte>, m': seq<byte>, n: nat)
    requires OnlyFields(m, m', 10, 36) && n <= |m|
    ensures OnlyFields(m[..n], m'[..n], 10, 36)
  {
  }

  lemma FuzzIsReady(p: Plan, packetSeq: u32, m: seq<byte>)
    requires Sound(p) && FuzzBytes(p, packetSeq) < m
    requires var n := |FuzzBytes(p, packetSeq)|;
             ParsePacket(m, n, n, IpLayer) == Parsed(OK, Describe(NewInfo(n), FuzzTable(p)))
    ensures var info := Describe(NewInfo(|FuzzBytes(p, packetSeq)|), FuzzTable(p));
            && info.ipv4 == Some(0) && info.tcp == Some(20) && Ready4(m, info) && Field4(m, info) == 36
  {
    hide FuzzBytes, ParsePacket, Be16;
    var n := |FuzzBytes(p, packetSeq)|;
    PlainIsReady(m, n, n);
    HeaderFields(p, packetSeq);
    Lengths(p);
    FuzzPacketLength(p, packetSeq, m);
  }

  lemma FuzzPacketLength(p: Plan, packetSeq: u32, m: seq<byte>)
    requires Sound(p) && FuzzBytes(p, packetSeq) < m
    ensures |m| >= 40 && m[0] == 0x45 && Be16(m, 2) == IpLength(p)
  {
    hide FuzzBytes;
    HeaderFields(p, packetSeq);
    var b := FuzzBytes(p, packetSeq);
    assert m[0] == b[0] && m[2] == b[2] && m[3] == b[3];
  }
}
