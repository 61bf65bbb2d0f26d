/**
TCP options: appending them to an option list (tcp_options.c) and iterating over
them in a packet (tcp_options_iterator.c).
 */
module TcpOptions {
  import opened Bytes

  const TCPOPT_EOL := 0
  const TCPOPT_NOP := 1
  const TCPOPT_MAXSEG := 2
  const TCPOPT_WINDOW := 3
  const TCPOPT_SACK_PERMITTED := 4
  const TCPOPT_SACK := 5
  const TCPOPT_TIMESTAMP := 8
  const TCPOPT_FASTOPEN := 34
  const TCPOPT_EXP := 254

  const MAX_TCP_OPTION_BYTES := 40

  // ---------------------------------------------------------------------
  // Options and their wire format
  // ---------------------------------------------------------------------

  /** A single option. EOL and NOP have no length byte and no data. */
  datatype TcpOption = TcpOption(kind: byte, data: seq<byte>)

  predicate IsBare(kind: byte) {
    kind == TCPOPT_EOL || kind == TCPOPT_NOP
  }

  predicate WellFormed(o: TcpOption) {
    if IsBare(o.kind) then o.data == [] else |o.data| <= 0xff - 2
  }

  function Wire(o: TcpOption): (b: seq<byte>)
    requires WellFormed(o)
    ensures |b| >= 1
  {
    if IsBare(o.kind) then [o.kind] else [o.kind, 2 + |o.data|] + o.data
  }

  predicate AllWellFormed(os: seq<TcpOption>) {
    forall o | o in os :: WellFormed(o)
  }

  function WireAll(os: seq<TcpOption>): seq<byte>
    requires AllWellFormed(os)
  {
    if os == [] then [] else Wire(os[0]) + WireAll(os[1..])
  }

  lemma {:induction false} WireAllAppend(os: seq<TcpOption>, o: TcpOption)
    requires AllWellFormed(os + [o])
    ensures WireAll(os + [o]) == WireAll(os) + Wire(o)
  {
    if os == [] {
      assert [] + [o] == [o] && WireAll([o]) == Wire(o) + WireAll([]);
    } else {
      assert (os + [o])[1..] == os[1..] + [o];
      WireAllAppend(os[1..], o);
    }
  }

  /** struct tcp_options: the option bytes and how many there are. */
  class OptionList {
    const data: array<byte>
    var length: nat

    ghost predicate Valid()
      reads this
    {
      data.Length == MAX_TCP_OPTION_BYTES && length <= MAX_TCP_OPTION_BYTES
    }

    ghost function Contents(): seq<byte>
      requires Valid()
      reads this, data
    {
      data[..length]
    }

    /** tcp_options_new */
    constructor ()
      ensures Valid() && fresh(data) && Contents() == []
    {
      data := new byte[MAX_TCP_OPTION_BYTES];
      length := 0;
    }

    /** tcp_options_append: copy the option's bytes behind the others, or refuse. */
    method Append(o: TcpOption) returns (ok: bool)
      requires Valid() && WellFormed(o)
      modifies this, data
      ensures Valid() && (ok <==> old(length) + |Wire(o)| <= 40)
      ensures Contents() == old(Contents()) + if ok then Wire(o) else []
    {
      var b := Wire(o);
      if length + |b| > MAX_TCP_OPTION_BYTES {
        return false;
      }
      ghost var before := data[..length];
      forall i | 0 <= i < |b| {
        data[length + i] := b[i];
      }
      assert data[..length + |b|] == before + b;
      length := length + |b|;
      return true;
    }
  }

  lemma {:induction false} WireAllPrefix(os: seq<TcpOption>, i: nat)
    requires AllWellFormed(os) && i <= |os|
    ensures AllWellFormed(os[..i]) && |WireAll(os[..i])| <= |WireAll(os)|
    decreases |os| - i
  {
    hide Wire;
    if i == |os| {
      assert os[..i] == os;
    } else {
      WireAllPrefix(os, i + 1);
      assert os[..i + 1] == os[..i] + [os[i]];
      WireAllAppend(os[..i], os[i]);
    }
  }

  /** Appending options one by one: all of them fit exactly when their bytes do, and
      then the list holds those bytes. */
  method AppendAll(os: seq<TcpOption>) returns (list: OptionList, ok: bool)
    requires AllWellFormed(os)
    ensures fresh(list) && list.Valid()
    ensures ok <==> |WireAll(os)| <= 40
    ensures ok ==> list.Contents() == WireAll(os)
  {
    hide Wire, WireAll;
    list := new OptionList();
    var i := 0;
    WireAllNone(os[..0]);
    while i < |os|
      invariant i <= |os| && AllWellFormed(os[..i]) && fresh(list) && fresh(list.data) && list.Valid()
      invariant list.Contents() == WireAll(os[..i])
    {
      assert os[..i + 1] == os[..i] + [os[i]];
      WireAllAppend(os[..i], os[i]);
      ok := list.Append(os[i]);
      if !ok {
        WireAllPrefix(os, i + 1);
        return;
      }
      i := i + 1;
    }
    assert os[..i] == os;
    ok := true;
  }

  lemma WireAllNone(os: seq<TcpOption>)
    requires os == []
    ensures WireAll(os) == []
  {
  }

  // ---------------------------------------------------------------------
  // The iterator
  // ---------------------------------------------------------------------

  /** How far tcp_options_next moves on from the option at p, for whatever bytes are
      there: nothing when the length byte is missing or zero. */
  function Advance(mem: seq<byte>, p: nat, end: nat): (step: Option<nat>)
    requires p < end <= |mem|
    ensures step.Some? ==> 0 < step.value < 0x100
  {
    if IsBare(mem[p]) then Some(1)
    else if p + 1 >= end then None
    else if mem[p + 1] == 0 then None
    else Some(mem[p + 1])
  }

  /** The option after the one at p: tcp_options_next. */
  function Following(mem: seq<byte>, p: nat, end: nat): Option<nat>
    requires p < end <= |mem|
  {
    match Advance(mem, p, end)
    case None => None
    case Some(step) => if p + step < end then Some(p + step) else None
  }

  /** The offsets the iterator yields, for whatever bytes are there. */
  function Offsets(mem: seq<byte>, p: nat, end: nat): seq<nat>
    requires end <= |mem|
    decreases end - p
  {
    if p >= end then []
    else match Advance(mem, p, end)
         case None => [p]
         case Some(step) => [p] + Offsets(mem, p + step, end)
  }

  function OffsetsFrom(mem: seq<byte>, option: Option<nat>, end: nat): seq<nat>
    requires end <= |mem|
  {
    if option.Some? then Offsets(mem, option.value, end) else []
  }

  /** On arbitrary bytes the iterator moves strictly forward, stays inside the
      options and stops after at most as many steps as there are bytes. */
  lemma {:induction false} OffsetsIncrease(mem: seq<byte>, p: nat, end: nat)
    requires end <= |mem|
    ensures |Offsets(mem, p, end)| <= if p < end then end - p else 0
    ensures forall i | 0 <= i < |Offsets(mem, p, end)| :: p <= Offsets(mem, p, end)[i] < end
    ensures forall i, j | 0 <= i < j < |Offsets(mem, p, end)| :: Offsets(mem, p, end)[i] < Offsets(mem, p, end)[j]
    decreases end - p
  {
    if p < end && Advance(mem, p, end).Some? {
      OffsetsIncrease(mem, p + Advance(mem, p, end).value, end);
    }
  }

  class OptionsIterator {
    const mem: array<byte>
    const end: nat              // options_end
    var current: Option<nat>    // current_option, or nothing at the end

    /** tcp_options_begin */
    constructor (mem: array<byte>, start: nat, end: nat)
      requires end <= mem.Length
      ensures this.mem == mem && this.end == end
      ensures current == if start < end then Some(start) else None
    {
      this.mem, this.end := mem, end;
      current := if start >= end then None else Some(start);
    }

    /** tcp_options_next: the option after the current one. */
    method Next() returns (option: Option<nat>)
      requires end <= mem.Length && current.Some? && current.value < end
      modifies this
      ensures option == Following(mem[..], old(current.value), end)
      ensures option.Some? ==> old(current.value) < option.value < end
      ensures option.Some? ==> current == option
    {
      var p := current.value;
      var length := 0;
      if IsBare(mem[p]) {
        length := 1;
      } else {
        if p + 1 >= end {
          return None;
        }
        length := mem[p + 1];
      }
      if length <= 0 {
        return None;
      }
      current := Some(p + length);
      if current.value >= end {
        current := None;
      }
      return current;
    }
  }

  /** The offsets from p on are p and those from where the iterator goes next. */
  lemma OffsetsStep(mem: seq<byte>, p: nat, end: nat)
    requires p < end <= |mem|
    ensures Offsets(mem, p, end) == [p] + OffsetsFrom(mem, Following(mem, p, end), end)
  {
  }

  lemma OffsetsEmpty(mem: seq<byte>, p: nat, end: nat)
    requires end <= p && end <= |mem|
    ensures Offsets(mem, p, end) == []
  {
  }

  /** The loop every user of the iterator runs. */
  method Walk(mem: array<byte>, start: nat, end: nat) returns (visited: seq<nat>)
    requires end <= mem.Length
    ensures visited == Offsets(mem[..], start, end)
  {
    hide Advance, Offsets, Following;
    var iter := new OptionsIterator(mem, start, end);
    var option := iter.current;
    ghost var bytes := mem[..];
    visited := [];
    if start >= end {
      OffsetsEmpty(bytes, start, end);
    }
    while option.Some?
      invariant option.Some? ==> start <= option.value < end && iter.current == option
      invariant iter.mem == mem && iter.end == end && fresh(iter)
      invariant Offsets(bytes, start, end) == visited + OffsetsFrom(bytes, option, end)
      decreases if option.Some? then end - option.value else -1
    {
      ghost var p, before := option.value, visited;
      visited := visited + [option.value];
      option := iter.Next();
      OffsetsStep(bytes, p, end);
      assert before + ([p] + OffsetsFrom(bytes, option, end)) == visited + OffsetsFrom(bytes, option, end);
    }
  }

  // ---------------------------------------------------------------------
  // Round trip
  // ---------------------------------------------------------------------

  /** There is a whole option at p. */
  predicate HasOption(mem: seq<byte>, p: nat, end: nat) {
    && p < end <= |mem|
    && (IsBare(mem[p]) || (p + 1 < end && 2 <= mem[p + 1] && p + mem[p + 1] as int <= end))
  }

  /** The option at p, read back from its bytes. */
  function OptionAt(mem: seq<byte>, p: nat, end: nat): TcpOption
    requires HasOption(mem, p, end)
  {
    if IsBare(mem[p]) then TcpOption(mem[p], []) else TcpOption(mem[p], mem[p + 2..p + mem[p + 1] as int])
  }

  /** Iterating over the bytes of a list of options yields as many options as were
      appended, and the i-th has the kind and the data of the i-th appended. */
  lemma {:induction false} IterationReadsBack(mem: seq<byte>, p: nat, end: nat, os: seq<TcpOption>, i: nat)
    requires AllWellFormed(os) && p <= end <= |mem| && mem[p..end] == WireAll(os)
    ensures |Offsets(mem, p, end)| == |os|
    ensures i < |os| ==> HasOption(mem, Offsets(mem, p, end)[i], end)
                         && OptionAt(mem, Offsets(mem, p, end)[i], end) == os[i]
    decreases |os|
  {
    hide Wire, Advance, HasOption, OptionAt;
    if os != [] {
      var b := Wire(os[0]);
      var q := p + |b|;
      assert mem[p..end] == b + WireAll(os[1..]);
      assert mem[p..q] == mem[p..end][..|b|] == b;
      assert mem[q..end] == mem[p..end][|b|..] == WireAll(os[1..]);
      ReadsOne(mem, p, end, os[0]);
      assert Offsets(mem, p, end) == [p] + Offsets(mem, q, end);
      IterationReadsBack(mem, q, end, os[1..], if i > 0 then i - 1 else 0);
    }
  }

  lemma ReadsOne(mem: seq<byte>, p: nat, end: nat, o: TcpOption)
    requires WellFormed(o) && p + |Wire(o)| <= end <= |mem| && mem[p..p + |Wire(o)|] == Wire(o)
    ensures Advance(mem, p, end) == Some(|Wire(o)|)
    ensures HasOption(mem, p, end) && OptionAt(mem, p, end) == o
  {
    var b := Wire(o);
    assert mem[p] == b[0];
    if !IsBare(o.kind) {
      assert mem[p + 1] == b[1] == 2 + |o.data|;
      assert mem[p + 2..p + |b|] == b[2..] == o.data;
    }
  }
}
