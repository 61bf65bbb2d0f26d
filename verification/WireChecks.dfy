/** What a node makes of a message, whoever sent it: the checks turn down all but those the other
    node would have built. */
module WireChecks {
  import opened Bytes
  import opened WireProtocol

  /** Four bytes are their own number's. */
  lemma EncodedAgain(b: seq<byte>, i: nat)
    requires i + 4 <= |b|
    ensures b[i..i + 4] == Enc32(Be32(b, i))
  {
    hide Be32, Enc32;
    Be32Slice(b, i);
    Enc32Be32(b[i..i + 4]);
  }

  /** A body is that of a DONE message if and only if it has nine bytes or more, the last of them
      zero. */
  lemma DoneBody(body: seq<byte>)
    requires |body| >= 9 && body[|body| - 1] == 0
    ensures body == DoneMsg(Be32(body, 0), Be32(body, 4), body[8..|body| - 1]).body
  {
    hide Enc32, Be32;
    EncodedAgain(body, 0);
    EncodedAgain(body, 4);
    var n := |body| - 1;
    assert body == body[0..0 + 4] + body[4..4 + 4] + body[8..n] + [body[n]];
  }

  lemma DoneReadsBack(result: u32, num: u32, text: seq<byte>)
    ensures var b := DoneMsg(result, num, text).body;
            && |b| == 9 + |text| && b[|b| - 1] == 0 && Be32(b, 0) == result && Be32(b, 4) == num
            && b[8..|b| - 1] == text
  {
    hide Enc32, Be32;
    var b := DoneMsg(result, num, text).body;
    assert b[0..4] == Enc32(result) && b[4..8] == Enc32(num);
    Be32Slice(b, 0);
    Be32Slice(b, 4);
  }

  lemma Be32Slice(b: seq<byte>, i: nat)
    requires i + 4 <= |b|
    ensures Be32(b, i) == Be32(b[i..i + 4], 0)
  {
  }

  /** The bytes of DONE messages: a result of zero or minus one, the count, the text and a
      terminator. */
  lemma DoneOnTheWire(num: u32, text: seq<byte>)
    ensures DoneMsg(STATUS_OK, num, text).body == [0, 0, 0, 0] + Enc32(num) + text + [0]
    ensures DoneMsg(STATUS_ERR, num, text).body == [0xff, 0xff, 0xff, 0xff] + Enc32(num) + text + [0]
  {
    assert Enc32(0) == [0, 0, 0, 0] && Enc32(0xffff_ffff) == [0xff, 0xff, 0xff, 0xff];
  }

  ghost predicate IsDone(m: Msg, num: u32) {
    exists result: u32, text :: result != STATUS_ERR && m == DoneMsg(result, num, text)
  }

  ghost predicate IsError(m: Msg, text: seq<byte>) {
    exists num: u32 :: m == DoneMsg(STATUS_ERR, num, text)
  }

  /** The client goes on with a DONE message of its own count and no other, and dies of a packet
      error exactly when the message says so. */
  lemma DoneTakenIff(body: seq<byte>, num: nat)
    ensures CheckDone(body, num) == None <==> IsDone(Msg(PacketsDone, body), U32(num))
    ensures forall text :: CheckDone(body, num) == Some(PacketError(text)) <==> IsError(Msg(PacketsDone, body), text)
  {
    hide DoneMsg;
    var m, n := Msg(PacketsDone, body), |body|;
    if n >= 9 && body[n - 1] == 0 {
      DoneIs(body);
      assert m == DoneMsg(Be32(body, 0), Be32(body, 4), body[8..n - 1]);
    }
    forall result: u32, k: u32, text | m == DoneMsg(result, k, text)
      ensures n >= 9 && body[n - 1] == 0 && Be32(body, 0) == result && Be32(body, 4) == k && body[8..n - 1] == text
    {
      DoneReadsBack(result, k, text);
    }
  }

  lemma DoneIs(body: seq<byte>)
    requires |body| >= 9 && body[|body| - 1] == 0
    ensures Msg(PacketsDone, body) == DoneMsg(Be32(body, 0), Be32(body, 4), body[8..|body| - 1])
  {
    DoneBody(body);
  }

  /** A client that waits for DONE, with any message before it. */
  lemma ClientTakesIff(cfg: Config, s: State)
    requires s.client.phase == CAwaitDone && s.s2c != []
    ensures var m, s' := s.s2c[0], ClientStep(cfg, s);
            && s'.Some?
            && (!s'.value.client.phase.CDead? <==> m.op == PacketsWarn || IsDone(m, U32(s.client.num)))
            && forall text :: s'.value.client.phase == CDead(PacketError(text)) <==> IsError(m, text)
  {
    hide CheckDone;
    var m := s.s2c[0];
    if m.op == PacketsDone {
      DoneTakenIff(m.body, s.client.num);
    }
  }

  /** A server that waits for START goes on with a START message of its own count and no other. */
  lemma StartTakenIff(cfg: Config, s: State, outcome: Outcome)
    requires s.server.phase == SAwaitStart && s.c2s != []
    ensures var s' := ServerStep(cfg, s, outcome);
            && s'.Some?
            && (!s'.value.server.phase.SDead? <==> s.c2s[0] == StartMsg(U32(s.server.num)))
  {
    hide Enc32, Be32;
    var m := s.c2s[0];
    if |m.body| == 4 {
      EncodedAgain(m.body, 0);
      assert m.body[0..0 + 4] == m.body;
    }
  }

  /** A server in the greeting takes the four messages in their order, the last only with the six
      bytes of a hardware address, and one that waits for the client to start takes nothing but
      that. */
  lemma GreetingTakenIff(cfg: Config, s: State, outcome: Outcome)
    requires s.c2s != []
    ensures var m, s' := s.c2s[0], ServerStep(cfg, s, outcome);
            match s.server.phase
            case SGreeting(k) =>
              k <= 3 ==> s'.Some? && (!s'.value.server.phase.SDead?
                                      <==> m.op == GreetingMsg(cfg, k).op && (k == 3 ==> |m.body| == 6))
            case SAwaitStarting =>
              s'.Some? && (!s'.value.server.phase.SDead? <==> m == Msg(ClientStarting, []))
            case _ => true
  {
  }
}
