/**
Message framing over a TCP byte stream (wire_conn.c). The kernel may cut every
read and every write short, or interrupt it; the messages that come out are the
messages that went in.
 */
module WireConn {
  import opened Bytes

  const HEADER_BYTES := 8
  const MAX_MESSAGE_BYTES := 10_000_000

  datatype Message = Message(op: u32, body: seq<byte>)

  /** What the kernel does with one read or write call. */
  datatype Io = Moved(bytes: nat) | Interrupted | Broken

  // ---------------------------------------------------------------------
  // The stream format
  // ---------------------------------------------------------------------

  /** The bytes wire_conn_write puts on the stream; a body's length is an int. */
  function Frame(m: Message): (b: seq<byte>)
    requires |m.body| < 0x8000_0000
    ensures |b| == 8 + |m.body|
  {
    Enc32(HEADER_BYTES + |m.body|) + Enc32(m.op) + m.body
  }

  function FrameAll(ms: seq<Message>): seq<byte>
    requires forall m | m in ms :: |m.body| <= MAX_MESSAGE_BYTES
  {
    if ms == [] then [] else Frame(ms[0]) + FrameAll(ms[1..])
  }

  /** The conversion of an unsigned 64-bit value to a 32-bit int. */
  function ToInt32(x: int): (r: int)
    ensures -0x8000_0000 <= r < 0x8000_0000 && (r - x) % 0x1_0000_0000 == 0
  {
    var low := x % 0x1_0000_0000;
    if low < 0x8000_0000 then low else low - 0x1_0000_0000
  }

  /** The body length wire_conn_read computes from the header's length field. */
  function BodyLength(length: u32): int {
    ToInt32(length - HEADER_BYTES)
  }

  /** What one wire_conn_read makes of the bytes that have arrived. */
  datatype Reading = Got(m: Message, rest: seq<byte>) | Incomplete | Invalid

  function ReadOne(b: seq<byte>): Reading {
    if |b| < HEADER_BYTES then Incomplete
    else
      var len := BodyLength(Be32(b, 0));
      if len < 0 || len > MAX_MESSAGE_BYTES then Invalid
      else if |b| < HEADER_BYTES + len then Incomplete
      else Got(Message(Be32(b, 4), b[HEADER_BYTES..HEADER_BYTES + len]), b[HEADER_BYTES + len..])
  }

  /** Every message that can be read from the bytes that have arrived. */
  function ReadAll(b: seq<byte>): seq<Message>
    decreases |b|
  {
    match ReadOne(b)
    case Got(m, rest) => [m] + ReadAll(rest)
    case _ => []
  }

  /** A length is accepted exactly when it covers the header and a body of at
      most MAX_MESSAGE_BYTES, whatever the 32-bit conversion does. */
  lemma LengthAccepted(length: u32)
    ensures 0 <= BodyLength(length) <= MAX_MESSAGE_BYTES <==> 8 <= length <= 10_000_008
    ensures 8 <= length <= 10_000_008 ==> BodyLength(length) == length - 8
  {
  }

  /** Reading inverts writing, however much of the following data has arrived. What is
      too long for the reader can be written, and is refused. */
  lemma ReadFrame(m: Message, rest: seq<byte>)
    requires |m.body| < 0x8000_0000
    ensures ReadOne(Frame(m) + rest) == if |m.body| <= 10_000_000 then Got(m, rest) else Invalid
  {
    var b := Frame(m) + rest;
    LengthAccepted(HEADER_BYTES + |m.body|);
    assert b[..4] == Enc32(HEADER_BYTES + |m.body|);
    assert b[4..8] == Enc32(m.op);
    assert b[8..8 + |m.body|] == m.body;
    assert b[8 + |m.body|..] == rest;
  }

  /** Before the whole frame is there, a read waits; it never misreads. */
  lemma ReadPartOfFrame(m: Message, k: nat)
    requires |m.body| <= MAX_MESSAGE_BYTES && k < |Frame(m)|
    ensures ReadOne(Frame(m)[..k]) == Incomplete
  {
    if k >= HEADER_BYTES {
      var b := Frame(m)[..k];
      LengthAccepted(HEADER_BYTES + |m.body|);
      assert b[..4] == Enc32(HEADER_BYTES + |m.body|);
    }
  }

  /** How many messages n bytes of their stream cover completely. */
  function WholeFrames(ms: seq<Message>, n: nat): (k: nat)
    requires forall m | m in ms :: |m.body| <= MAX_MESSAGE_BYTES
    ensures k <= |ms|
    ensures n >= |FrameAll(ms)| ==> k == |ms|
  {
    if ms == [] || n < |Frame(ms[0])| then 0 else 1 + WholeFrames(ms[1..], n - |Frame(ms[0])|)
  }

  lemma ReadNothing()
    ensures ReadOne([]) == Incomplete
  {
  }

  /** However the stream is cut, the messages read from what has arrived are
      exactly the messages whose frames have arrived whole; all of them once the
      stream is complete. */
  lemma {:induction false} ReadsWhatWasWritten(ms: seq<Message>, arrived: seq<byte>)
    requires forall m | m in ms :: |m.body| <= MAX_MESSAGE_BYTES
    requires arrived <= FrameAll(ms)
    ensures ReadAll(arrived) == ms[..WholeFrames(ms, |arrived|)]
  {
    hide ReadOne, Frame;
    if ms == [] {
      ReadNothing();
    } else {
      var first := Frame(ms[0]);
      if |arrived| < |first| {
        assert arrived == first[..|arrived|];
        ReadPartOfFrame(ms[0], |arrived|);
      } else {
        var rest := arrived[|first|..];
        assert arrived == first + rest;
        ReadFrame(ms[0], rest);
        ReadsWhatWasWritten(ms[1..], rest);
        var k := WholeFrames(ms[1..], |rest|);
        assert ms[..k + 1] == [ms[0]] + ms[1..][..k];
      }
    }
  }

  // ---------------------------------------------------------------------
  // The connection
  // ---------------------------------------------------------------------

  function Min(a: nat, b: nat): nat { if a < b then a else b }

  /** One direction of the TCP connection: the bytes in flight, and what the
      kernel will do with the next calls. Once the plan is used up every call
      moves as much as it can. */
  class Stream {
    var bytes: seq<byte>
    var plan: seq<Io>

    constructor (plan: seq<Io>)
      ensures bytes == [] && this.plan == plan
    {
      bytes := [];
      this.plan := plan;
    }

    /** What the kernel does with the next call. */
    function NextIo(): Io
      reads this
    {
      if plan == [] then Moved(0x1_0000_0000) else plan[0]
    }

    function Healthy(): (h: bool)
      reads this
    {
      Broken !in plan
    }

    /** write(2) */
    method Write(buf: seq<byte>) returns (io: Io, k: nat)
      requires |buf| < 0x1_0000_0000
      modifies this
      ensures io == old(NextIo())
      ensures plan == if old(plan) == [] then [] else old(plan)[1..]
      ensures k == if io.Moved? then Min(io.bytes, |buf|) else 0
      ensures bytes == old(bytes) + buf[..k]
    {
      io := NextIo();
      if plan != [] {
        plan := plan[1..];
      }
      k := if io.Moved? then Min(io.bytes, |buf|) else 0;
      bytes := bytes + buf[..k];
    }

    /** read(2) of at most n bytes: it returns 0 bytes only at the end of the
        stream. */
    method Read(n: nat) returns (io: Io, got: seq<byte>)
      requires 0 < n < 0x1_0000_0000
      modifies this
      ensures io == old(NextIo())
      ensures plan == if old(plan) == [] then [] else old(plan)[1..]
      ensures old(bytes) == got + bytes && |got| <= n
      ensures io.Moved? && old(bytes) != []
          ==> |got| == Min(n, Min(|old(bytes)|, if io.bytes == 0 then 1 else io.bytes))
      ensures !io.Moved? ==> got == []
    {
      io := NextIo();
      if plan != [] {
        plan := plan[1..];
      }
      var k := if io.Moved? then Min(n, Min(|bytes|, if io.bytes == 0 then 1 else io.bytes)) else 0;
      got := bytes[..k];
      bytes := bytes[k..];
    }
  }

  class Connection {
    const out: Stream   // what this side writes
    const inn: Stream   // what the other side wrote
    var buf: array<byte>  // in.buf; in.buf_space is its length

    constructor (out: Stream, inn: Stream)
      requires out != inn
      ensures this.out == out && this.inn == inn && buf.Length == 0 && fresh(buf)
    {
      this.out := out;
      this.inn := inn;
      this.buf := new byte[0];
    }

    /** write_bytes: repeat until every byte is written. */
    method WriteBytes(data: seq<byte>) returns (ok: bool)
      requires |data| < 0x1_0000_0000
      modifies out
      ensures old(out.Healthy()) ==> ok && out.Healthy()
      ensures ok ==> out.bytes == old(out.bytes) + data
      ensures exists k: nat :: k <= |data| && out.bytes == old(out.bytes) + data[..k]
    {
      var done := 0;
      while done < |data|
        invariant done <= |data| && out.bytes == old(out.bytes) + data[..done]
        invariant old(out.Healthy()) ==> out.Healthy()
        decreases |out.plan|, |data| - done
      {
        var io, k := out.Write(data[done..]);
        if io == Broken {
          assert data[done..][..k] == [];
          return false;
        }
        assert data[..done] + data[done..][..k] == data[..done + k];
        done := done + k;
      }
      assert data[..done] == data;
      return true;
    }

    /** wire_conn_write: the header, then the body. */
    method WriteMessage(m: Message) returns (ok: bool)
      requires |m.body| < 0x8000_0000
      modifies out
      ensures old(out.Healthy()) ==> ok && out.Healthy()
      ensures ok ==> out.bytes == old(out.bytes) + Frame(m)
    {
      ok := WriteBytes(Enc32(HEADER_BYTES + |m.body|) + Enc32(m.op));
      if ok {
        ok := WriteBytes(m.body);
      }
    }

    /** read_bytes into the start of a buffer that has room for them. */
    method ReadBytes(into: array<byte>, n: nat) returns (ok: bool)
      requires n <= into.Length && n < 0x1_0000_0000
      modifies inn, into
      ensures old(inn.Healthy()) ==> inn.Healthy() && (ok <==> n <= |old(inn.bytes)|)
      ensures ok ==> n <= |old(inn.bytes)| && into[..n] == old(inn.bytes)[..n] && inn.bytes == old(inn.bytes)[n..]
    {
      var done: nat := 0;
      ghost var all := inn.bytes;
      while done < n
        invariant done <= n && done <= |all| && inn.bytes == all[done..]
        invariant into[..done] == all[..done]
        invariant old(inn.Healthy()) ==> inn.Healthy()
        decreases |inn.plan|, n - done
      {
        var io, got := inn.Read(n - done);
        if io == Broken {
          return false;
        }
        if io.Moved? && got == [] {
          return false;
        }
        forall i | 0 <= i < |got| {
          into[done + i] := got[i];
        }
        assert into[..done + |got|] == all[..done] + got;
        assert all[..done] + got == all[..done + |got|];
        done := done + |got|;
      }
      return true;
    }

    /** wire_conn_read. The body is left in buf, which always has room for it. */
    method ReadMessage() returns (ok: bool, op: u32, len: int)
      modifies this, inn, buf
      ensures len <= buf.Length || !ok
      ensures old(inn.Healthy()) ==> inn.Healthy() && (ok <==> ReadOne(old(inn.bytes)).Got?)
      ensures ok ==> 0 <= len && ReadOne(old(inn.bytes)) == Got(Message(op, buf[..len]), inn.bytes)
      ensures buf == old(buf) || fresh(buf)
    {
      ghost var all := inn.bytes;
      var header := new byte[HEADER_BYTES];
      op, len := 0, 0;
      ok := ReadBytes(header, HEADER_BYTES);
      if !ok {
        return;
      }
      var h := header[..];
      assert h[..4] == all[..4] && h[4..8] == all[4..8];
      op := Be32(h, 4);
      len := BodyLength(Be32(h, 0));
      if len < 0 || len > MAX_MESSAGE_BYTES {
        ok := false;
        return;
      }
      if buf.Length < len {
        buf := new byte[2 * len];
      }
      ok := ReadBytes(buf, len);
    }
  }

  /** A whole exchange: one side writes its messages while the other reads; `turns` says
      who is next whenever both can go on. Whatever the kernel does short of breaking the
      connection, the messages read are the messages written. */
  method Exchange(sender: Connection, receiver: Connection, ms: seq<Message>, turns: nat -> bool)
    returns (received: seq<Message>)
    requires sender.out == receiver.inn && sender.out.Healthy() && sender.out.bytes == []
    requires forall m | m in ms :: |m.body| <= MAX_MESSAGE_BYTES
    modifies sender.out, receiver, receiver.buf
    ensures received == ms && sender.out.bytes == []
  {
    hide Frame, ReadOne, FrameAll;
    received := [];
    var sent := 0;
    NothingFramed();
    assert ms[0..0] == [];
    while |received| < |ms|
      invariant |received| <= sent <= |ms| && received == ms[..|received|]
      invariant sender.out.Healthy() && sender.out.bytes == FrameAll(ms[|received|..sent])
      invariant receiver.buf == old(receiver.buf) || fresh(receiver.buf)
      decreases |ms| - sent, |ms| - |received|
    {
      ghost var flying := ms[|received|..sent];
      if |received| == sent || (sent < |ms| && turns(sent + |received|)) {
        var ok := sender.WriteMessage(ms[sent]);
        assert ms[|received|..sent + 1] == flying + [ms[sent]];
        FrameAllAppend(flying, ms[sent]);
        sent := sent + 1;
      } else {
        ReadFirst(flying);
        var ok, op, len := receiver.ReadMessage();
        received := received + [Message(op, receiver.buf[..len])];
        assert flying[1..] == ms[|received|..sent];
      }
    }
    assert ms[|received|..sent] == [];
    NothingFramed();
  }

  lemma NothingFramed()
    ensures FrameAll([]) == []
  {
  }

  lemma ReadFirst(ms: seq<Message>)
    requires ms != [] && forall m | m in ms :: |m.body| <= MAX_MESSAGE_BYTES
    ensures ReadOne(FrameAll(ms)) == Got(ms[0], FrameAll(ms[1..]))
  {
    hide Frame, ReadOne;
    ReadFrame(ms[0], FrameAll(ms[1..]));
  }

  lemma {:induction false} FrameAllAppend(ms: seq<Message>, m: Message)
    requires forall x | x in ms + [m] :: |x.body| <= MAX_MESSAGE_BYTES
    ensures FrameAll(ms + [m]) == FrameAll(ms) + Frame(m)
  {
    if ms == [] {
      assert [] + [m] == [m] && FrameAll([m]) == Frame(m) + FrameAll([]);
    } else {
      assert (ms + [m])[1..] == ms[1..] + [m];
      FrameAllAppend(ms[1..], m);
    }
  }
}
