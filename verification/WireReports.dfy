/** What the client learns about the packets the server runs: every warning and the error. */
module WireReports {
  import opened Bytes
  import opened WireProtocol
  import opened WireProtocolSafety
  import opened WireProtocolTheorems

  // ---------------------------------------------------------------------
  // Runs with their moves
  // ---------------------------------------------------------------------

  /** Who moves, and what the packet does if it is a packet the server runs. */
  datatype WireMove = ByClient | ByServer(outcome: Outcome)

  ghost predicate Makes(cfg: Config, s: State, m: WireMove, s': State) {
    if m.ByClient? then ClientStep(cfg, s) == Some(s') else ServerStep(cfg, s, m.outcome) == Some(s')
  }

  ghost predicate IsMovedRun(cfg: Config, run: seq<State>, moves: seq<WireMove>) {
    && |run| == |moves| + 1 && run[0] == Init()
    && forall i | 0 <= i < |moves| :: Makes(cfg, run[i], moves[i], run[i + 1])
  }

  lemma MovedIsRun(cfg: Config, run: seq<State>, moves: seq<WireMove>)
    requires IsMovedRun(cfg, run, moves)
    ensures IsRun(cfg, run)
  {
    hide ClientStep, ServerStep;
    forall i | 0 < i < |run|
      ensures Next(cfg, run[i - 1], run[i])
    {
      assert Makes(cfg, run[i - 1], moves[i - 1], run[i - 1 + 1]);
      if moves[i - 1].ByServer? {
        assert ServerMoves(cfg, run[i - 1], run[i]);
      }
    }
  }

  /** Every run has its moves. */
  lemma {:induction false} RunIsMoved(cfg: Config, run: seq<State>) returns (moves: seq<WireMove>)
    requires IsRun(cfg, run)
    ensures IsMovedRun(cfg, run, moves)
    decreases |run|
  {
    hide ClientStep, ServerStep;
    var n := |run|;
    if n == 1 {
      moves := [];
    } else {
      var before := RunIsMoved(cfg, run[..n - 1]);
      assert Next(cfg, run[n - 1 - 1], run[n - 1]);
      var m;
      if ClientStep(cfg, run[n - 2]) == Some(run[n - 1]) {
        m := ByClient;
      } else {
        var outcome :| ServerStep(cfg, run[n - 2], outcome) == Some(run[n - 1]);
        m := ByServer(outcome);
      }
      moves := before + [m];
      MovesGrow(cfg, run, before, m);
    }
  }

  lemma MovesGrow(cfg: Config, run: seq<State>, moves: seq<WireMove>, m: WireMove)
    requires |run| > 1 && IsMovedRun(cfg, run[..|run| - 1], moves) && Makes(cfg, run[|run| - 2], m, run[|run| - 1])
    ensures IsMovedRun(cfg, run, moves + [m])
  {
    hide Makes;
    var before, all := run[..|run| - 1], moves + [m];
    forall i | 0 <= i < |all|
      ensures Makes(cfg, run[i], all[i], run[i + 1])
    {
      if i < |moves| {
        assert Makes(cfg, before[i], moves[i], before[i + 1]);
      }
    }
  }

  // ---------------------------------------------------------------------
  // What the packets did
  // ---------------------------------------------------------------------

  /** The outcome of the packet that a move runs, if it runs one: the server executes
      packets only. */
  function Happened(s: State, m: WireMove, s': State): seq<Outcome> {
    if m.ByServer? && |s'.trace| > |s.trace| then [m.outcome] else []
  }

  /** The outcomes of all packets run in the first n moves. */
  function Outcomes(run: seq<State>, moves: seq<WireMove>, n: nat): seq<Outcome>
    requires n <= |moves| < |run|
  {
    if n == 0 then [] else Outcomes(run, moves, n - 1) + Happened(run[n - 1], moves[n - 1], run[n])
  }

  /** The texts of the warnings among them. */
  function WarnTexts(os: seq<Outcome>): seq<seq<byte>> {
    if os == [] then []
    else WarnTexts(os[..|os| - 1]) + if os[|os| - 1].Warn? then [UpToNul(os[|os| - 1].text)] else []
  }

  /** The warnings among the messages on their way. */
  function InFlight(ms: seq<Msg>): seq<seq<byte>> {
    if ms == [] then []
    else InFlight(ms[..|ms| - 1]) + if ms[|ms| - 1].op == PacketsWarn then [UpToNul(ms[|ms| - 1].body)] else []
  }

  lemma InFlightGrows(ms: seq<Msg>, m: Msg)
    ensures InFlight(ms + [m]) == InFlight(ms) + if m.op == PacketsWarn then [UpToNul(m.body)] else []
  {
    assert (ms + [m])[..|ms|] == ms;
  }

  lemma {:induction false} InFlightHead(ms: seq<Msg>)
    requires ms != []
    ensures InFlight(ms) == (if ms[0].op == PacketsWarn then [UpToNul(ms[0].body)] else []) + InFlight(ms[1..])
    decreases |ms|
  {
    var n := |ms| - 1;
    if n > 0 {
      InFlightHead(ms[..n]);
      assert ms[..n][1..] == ms[1..][..n - 1] && ms[1..][n - 1] == ms[n];
    } else {
      assert ms[..0] == [] && ms[1..] == [];
    }
  }

  lemma WarnTextsGrow(os: seq<Outcome>, more: seq<Outcome>)
    requires |more| <= 1
    ensures WarnTexts(os + more) == WarnTexts(os) + WarnTexts(more)
  {
    hide UpToNul;
    if more == [] {
      assert os + more == os;
    } else {
      assert (os + more)[..|os|] == os && more[..0] == [];
    }
  }

  // ---------------------------------------------------------------------
  // Warnings
  // ---------------------------------------------------------------------

  /** What the client has printed or will. */
  function Warnings(s: State): seq<seq<byte>> {
    s.printed + InFlight(s.s2c)
  }

  lemma ClientKeepsWarnings(cfg: Config, s: State, s': State)
    requires ClientStep(cfg, s) == Some(s')
    ensures Warnings(s') == Warnings(s) && (s.server == s'.server)
  {
    hide InFlight, UpToNul, GreetingMsg, StartMsg, CheckDone;
    if s.s2c != [] {
      InFlightHead(s.s2c);
    }
  }

  lemma ServerAddsWarnings(cfg: Config, s: State, s': State, outcome: Outcome)
    requires ServerStep(cfg, s, outcome) == Some(s')
    ensures Warnings(s') == Warnings(s) + WarnTexts(Happened(s, ByServer(outcome), s'))
  {
    hide InFlight, UpToNul, GoodGreeting, GoodStart;
    if |s'.s2c| > |s.s2c| {
      assert s'.s2c == s.s2c + [s'.s2c[|s.s2c|]];
      InFlightGrows(s.s2c, s'.s2c[|s.s2c|]);
    }
    assert [outcome][..0] == [];
  }

  lemma MoveAddsWarnings(cfg: Config, s: State, m: WireMove, s': State)
    requires Makes(cfg, s, m, s')
    ensures Warnings(s') == Warnings(s) + WarnTexts(Happened(s, m, s')) && |Happened(s, m, s')| <= 1
  {
    hide ClientStep, ServerStep, Warnings;
    if m.ByClient? {
      ClientKeepsWarnings(cfg, s, s');
    } else {
      ServerAddsWarnings(cfg, s, s', m.outcome);
    }
  }

  /** At every point of every run, the warnings the client has printed and those on their way
      to it are the warnings of the packets run so far, in order. */
  lemma {:induction false} WarningsArrive(cfg: Config, run: seq<State>, moves: seq<WireMove>, n: nat)
    requires IsMovedRun(cfg, run, moves) && n <= |moves|
    ensures Warnings(run[n]) == WarnTexts(Outcomes(run, moves, n))
  {
    hide Makes, Happened, Warnings, WarnTexts;
    if n > 0 {
      WarningsArrive(cfg, run, moves, n - 1);
      assert Makes(cfg, run[n - 1], moves[n - 1], run[n - 1 + 1]);
      MoveAddsWarnings(cfg, run[n - 1], moves[n - 1], run[n]);
      WarnTextsGrow(Outcomes(run, moves, n - 1), Happened(run[n - 1], moves[n - 1], run[n]));
    } else {
      NothingToReport();
    }
  }

  lemma HappenedIsOne(s: State, m: WireMove, s': State)
    ensures |Happened(s, m, s')| <= 1 && (m.ByClient? ==> Happened(s, m, s') == [])
  {
  }

  lemma NothingToReport()
    ensures Warnings(Init()) == [] == WarnTexts([])
  {
  }

  // ---------------------------------------------------------------------
  // Errors
  // ---------------------------------------------------------------------

  /** The text of the error that the last packet ended with. */
  function ErrorText(os: seq<Outcome>): Option<seq<byte>> {
    if os != [] && os[|os| - 1].Err? then Some(os[|os| - 1].text) else None
  }

  function ServerError(v: Server): Option<seq<byte>> {
    if v.phase.SDead? && v.phase.why.PacketError? then Some(v.phase.why.text) else None
  }

  function ClientError(c: Client): Option<seq<byte>> {
    if c.phase.CDead? && c.phase.why.PacketError? then Some(c.phase.why.text) else None
  }

  ghost predicate OnlyLastFails(os: seq<Outcome>) {
    forall i | 0 <= i < |os| - 1 :: !os[i].Err?
  }

  lemma ServerErrorStep(cfg: Config, s: State, s': State, outcome: Outcome)
    requires ServerStep(cfg, s, outcome) == Some(s')
    ensures ServerError(s.server) == None
    ensures ServerError(s'.server) == ErrorText(Happened(s, ByServer(outcome), s'))
  {
    hide GoodGreeting, GoodStart, UpToNul, DoneMsg;
  }

  /** The server is dead of a packet error exactly when the last packet failed, with that
      packet's text, and no packet before it failed. */
  lemma {:induction false} ServerDiesOfError(cfg: Config, run: seq<State>, moves: seq<WireMove>, n: nat)
    requires IsMovedRun(cfg, run, moves) && n <= |moves|
    ensures var os := Outcomes(run, moves, n); ServerError(run[n].server) == ErrorText(os) && OnlyLastFails(os)
  {
    hide ClientStep, ServerStep, Happened, ErrorText, OnlyLastFails, ServerError, Makes;
    if n == 0 {
      NoErrorYet();
    } else {
      ServerDiesOfError(cfg, run, moves, n - 1);
      var s, m, s' := run[n - 1], moves[n - 1], run[n];
      assert Makes(cfg, run[n - 1], moves[n - 1], run[n - 1 + 1]);
      HappenedIsOne(s, m, s');
      MoveErrors(cfg, s, m, s');
      ErrorsGrow(Outcomes(run, moves, n - 1), Happened(s, m, s'));
    }
  }

  lemma NoErrorYet()
    ensures ServerError(Init().server) == None == ErrorText([]) && OnlyLastFails([])
  {
  }

  /** A server that is dead of an error stays as it is, and one that is not dies exactly of a
      packet that fails. */
  lemma MoveErrors(cfg: Config, s: State, m: WireMove, s': State)
    requires Makes(cfg, s, m, s')
    ensures Happened(s, m, s') == [] ==> ServerError(s'.server) == ServerError(s.server)
    ensures Happened(s, m, s') != [] ==>
      ServerError(s.server) == None && ServerError(s'.server) == ErrorText(Happened(s, m, s'))
  {
    hide ClientStep, ServerStep, Happened;
    HappenedIsOne(s, m, s');
    if m.ByClient? {
      ClientKeepsWarnings(cfg, s, s');
    } else {
      ServerErrorStep(cfg, s, s', m.outcome);
    }
  }

  lemma ErrorsGrow(os: seq<Outcome>, more: seq<Outcome>)
    requires OnlyLastFails(os) && |more| <= 1 && (more != [] ==> ErrorText(os) == None)
    ensures OnlyLastFails(os + more) && ErrorText(os + more) == if more == [] then ErrorText(os) else ErrorText(more)
  {
    if more == [] {
      assert os + more == os;
    }
  }

  lemma ClientErrorIsServers(cfg: Config, s: State)
    requires Inv(cfg, s)
    ensures ClientError(s.client).Some? ==> ClientError(s.client) == ServerError(s.server)
  {
    hide Be16, Be32, Enc16, Enc32;
    var mode :| InvIn(cfg, s, mode);
  }

  /** A client that dies of a packet error shows the text of the packet that failed. */
  lemma ErrorsArrive(cfg: Config, run: seq<State>, moves: seq<WireMove>, n: nat)
    requires ValidConfig(cfg) && IsMovedRun(cfg, run, moves) && n <= |moves|
    ensures ClientError(run[n].client).Some? ==> ClientError(run[n].client) == ErrorText(Outcomes(run, moves, n))
  {
    hide ValidConfig, Inv, Makes;
    MovedIsRun(cfg, run, moves);
    RunKeepsInv(cfg, run, n);
    ClientErrorIsServers(cfg, run[n]);
    ServerDiesOfError(cfg, run, moves, n);
  }

  // ---------------------------------------------------------------------
  // The end
  // ---------------------------------------------------------------------

  /** The client has shown every warning, and dies of an error exactly when a packet failed,
      of that one. */
  ghost predicate AllReported(s: State, os: seq<Outcome>) {
    s.printed == WarnTexts(os) && ClientError(s.client) == ErrorText(os) && OnlyLastFails(os)
  }

  lemma SettledErrors(cfg: Config, s: State)
    requires Settled(cfg, s)
    ensures s.s2c == [] && ClientError(s.client) == ServerError(s.server)
  {
    hide TraceTo;
  }

  /** A run that cannot go on has reported everything. */
  lemma EverythingIsReported(cfg: Config, run: seq<State>, moves: seq<WireMove>)
    requires ValidConfig(cfg) && IsMovedRun(cfg, run, moves) && Settled(cfg, run[|moves|])
    ensures AllReported(run[|moves|], Outcomes(run, moves, |moves|))
  {
    hide ValidConfig, Settled, Makes;
    var n := |moves|;
    WarningsArrive(cfg, run, moves, n);
    ServerDiesOfError(cfg, run, moves, n);
    SettledErrors(cfg, run[n]);
    assert InFlight([]) == [];
  }
}
