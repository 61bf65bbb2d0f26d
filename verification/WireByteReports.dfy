/** What the client learns about the packets the server runs, over byte streams. */
module WireByteReports {
  import opened Bytes
  import opened WireConn
  import opened WireProtocol
  import opened WireProtocolSafety
  import opened WireProtocolTheorems
  import opened WireReports
  import opened WireBytes

  /** A node moves, or bytes do. */
  datatype ByteMove = NodeMove(move: WireMove) | Carry(bytes: nat)

  ghost predicate ByteMakes(cfg: Config, b: Net, m: ByteMove, b': Net) {
    match m
    case NodeMove(ByClient) => ClientActs(cfg, b, b')
    case NodeMove(ByServer(outcome)) => SmallOutcome(outcome) && ServerActs(cfg, b, b', outcome)
    case Carry(k) => BytesMove(b, b', k)
  }

  ghost predicate IsMovedByteRun(cfg: Config, net: seq<Net>, moves: seq<ByteMove>) {
    && |net| == |moves| + 1 && net[0] == Start()
    && forall i | 0 <= i < |moves| :: ByteMakes(cfg, net[i], moves[i], net[i + 1])
  }

  lemma MovedIsByteRun(cfg: Config, net: seq<Net>, moves: seq<ByteMove>)
    requires IsMovedByteRun(cfg, net, moves)
    ensures IsByteRun(cfg, net)
  {
    hide ClientActs, ServerActs, BytesMove, SmallOutcome;
    forall i | 0 < i < |net|
      ensures ByteNext(cfg, net[i - 1], net[i])
    {
      assert ByteMakes(cfg, net[i - 1], moves[i - 1], net[i - 1 + 1]);
    }
  }

  /** The outcome of the packet that a move runs, if it runs one. */
  function ByteHappened(b: Net, m: ByteMove, b': Net): seq<Outcome> {
    if m.NodeMove? && m.move.ByServer? && |b'.trace| > |b.trace| then [m.move.outcome] else []
  }

  function ByteOutcomes(net: seq<Net>, moves: seq<ByteMove>, n: nat): seq<Outcome>
    requires n <= |moves| < |net|
  {
    if n == 0 then [] else ByteOutcomes(net, moves, n - 1) + ByteHappened(net[n - 1], moves[n - 1], net[n])
  }

  /** A run over messages that ends where the run over bytes is, with the same packets. */
  ghost predicate Mirrors(cfg: Config, b: Net, os: seq<Outcome>, run: seq<State>, ms: seq<WireMove>) {
    IsMovedRun(cfg, run, ms) && Abs(b, run[|ms|]) && Outcomes(run, ms, |ms|) == os
  }

  lemma {:induction false} OutcomesBefore(run: seq<State>, run': seq<State>, ms: seq<WireMove>, ms': seq<WireMove>,
                                          n: nat)
    requires n <= |ms| < |run| && n <= |ms'| < |run'|
    requires run[..n + 1] == run'[..n + 1] && ms[..n] == ms'[..n]
    ensures Outcomes(run, ms, n) == Outcomes(run', ms', n)
  {
    hide Happened;
    if n > 0 {
      assert run[..n] == run[..n + 1][..n] && run'[..n] == run'[..n + 1][..n];
      assert ms[..n - 1] == ms[..n][..n - 1] && ms'[..n - 1] == ms'[..n][..n - 1];
      OutcomesBefore(run, run', ms, ms', n - 1);
      assert run[n] == run[..n + 1][n] && run[n - 1] == run[..n + 1][n - 1] && ms[n - 1] == ms[..n][n - 1];
      assert run'[n] == run'[..n + 1][n] && run'[n - 1] == run'[..n + 1][n - 1] && ms'[n - 1] == ms'[..n][n - 1];
    }
  }

  /** One more move over messages. */
  lemma MirrorGrows(cfg: Config, b: Net, b': Net, os: seq<Outcome>, run: seq<State>, ms: seq<WireMove>,
                    m: WireMove, s': State)
    requires Mirrors(cfg, b, os, run, ms) && Makes(cfg, run[|ms|], m, s') && Abs(b', s')
    ensures Mirrors(cfg, b', os + ByteHappened(b, NodeMove(m), b'), run + [s'], ms + [m])
  {
    hide Makes, Holds;
    var n, all, moves := |ms|, run + [s'], ms + [m];
    assert all[..|all| - 1] == run;
    MovesGrow(cfg, all, ms, m);
    assert all[..n + 1] == run[..n + 1] && moves[..n] == ms[..n];
    OutcomesBefore(run, all, ms, moves, n);
  }

  lemma MoveMirrors(cfg: Config, b: Net, b': Net, m: ByteMove, os: seq<Outcome>, run: seq<State>, ms: seq<WireMove>)
    returns (run': seq<State>, ms': seq<WireMove>)
    requires Mirrors(cfg, b, os, run, ms) && ByteMakes(cfg, b, m, b')
    ensures Mirrors(cfg, b', os + ByteHappened(b, m, b'), run', ms')
  {
    hide Holds, ClientStep, ServerStep, ClientActs, ServerActs, BytesMove, Outcomes, IsMovedRun, SmallOutcome;
    RunLength(cfg, run, ms);
    var s := run[|ms|];
    match m
    case NodeMove(ByClient) =>
      var s' := ClientActsRefines(cfg, b, b', s);
      MirrorGrows(cfg, b, b', os, run, ms, ByClient, s');
      run', ms' := run + [s'], ms + [ByClient];
    case NodeMove(ByServer(outcome)) =>
      var s' := ServerActsRefines(cfg, b, b', s, outcome);
      MirrorGrows(cfg, b, b', os, run, ms, ByServer(outcome), s');
      run', ms' := run + [s'], ms + [ByServer(outcome)];
    case Carry(k) =>
      BytesMoveRefines(b, b', k, s);
      run', ms' := run, ms;
      assert os + [] == os;
  }

  lemma RunLength(cfg: Config, run: seq<State>, ms: seq<WireMove>)
    requires IsMovedRun(cfg, run, ms)
    ensures |run| == |ms| + 1
  {
    hide Makes;
  }

  /** Every run over bytes is a run over messages with the same packets and outcomes. */
  lemma {:induction false} ByteRunMirrors(cfg: Config, net: seq<Net>, moves: seq<ByteMove>, n: nat)
    returns (run: seq<State>, ms: seq<WireMove>)
    requires IsMovedByteRun(cfg, net, moves) && n <= |moves|
    ensures Mirrors(cfg, net[n], ByteOutcomes(net, moves, n), run, ms)
  {
    hide ByteMakes, ByteHappened;
    if n == 0 {
      run, ms := [Init()], [];
      StartHolds();
    } else {
      hide Mirrors;
      var before, msBefore := ByteRunMirrors(cfg, net, moves, n - 1);
      assert ByteMakes(cfg, net[n - 1], moves[n - 1], net[n - 1 + 1]);
      run, ms := MoveMirrors(cfg, net[n - 1], net[n], moves[n - 1], ByteOutcomes(net, moves, n - 1), before, msBefore);
    }
  }

  /** Over bytes, too: what the client has printed are the first warnings of the packets run so
      far, in order, and an error it dies of is that of the packet that failed. */
  lemma ByteReportsArrive(cfg: Config, net: seq<Net>, moves: seq<ByteMove>, n: nat)
    requires ValidConfig(cfg) && IsMovedByteRun(cfg, net, moves) && n <= |moves|
    ensures var os := ByteOutcomes(net, moves, n);
            && net[n].printed <= WarnTexts(os)
            && (ClientError(net[n].client).Some? ==> ClientError(net[n].client) == ErrorText(os))
  {
    hide ValidConfig, ByteMakes, Makes, Holds, ByteOutcomes, Outcomes, WarnTexts, InFlight, ErrorText;
    var run, ms := ByteRunMirrors(cfg, net, moves, n);
    WarningsArrive(cfg, run, ms, |ms|);
    ErrorsArrive(cfg, run, ms, |ms|);
  }

  /** A run over bytes that cannot go on has reported everything to the client. */
  lemma ByteEverythingIsReported(cfg: Config, net: seq<Net>, moves: seq<ByteMove>)
    requires ValidConfig(cfg) && SmallConfig(cfg) && IsMovedByteRun(cfg, net, moves) && ByteStuck(cfg, net[|moves|])
    ensures var b, os := net[|moves|], ByteOutcomes(net, moves, |moves|);
            && b.printed == WarnTexts(os) && ClientError(b.client) == ErrorText(os) && OnlyLastFails(os)
  {
    hide ValidConfig, SmallConfig, ByteStuck, ByteMakes, Makes, Holds, ByteOutcomes, Outcomes, WarnTexts, ErrorText,
         Settled;
    var n := |moves|;
    var run, ms := ByteRunMirrors(cfg, net, moves, n);
    MovedIsByteRun(cfg, net, moves);
    ByteRunsSettle(cfg, net);
    NothingHeld(net[n], run[|ms|]);
    EverythingIsReported(cfg, run, ms);
  }

  lemma NothingHeld(b: Net, s: State)
    requires Abs(b, s) && b.up == Pipe([], [], []) && b.down == Pipe([], [], [])
    ensures s == State(b.client, b.server, [], [], b.trace, b.printed)
  {
    NothingEncoded(s.c2s);
    NothingEncoded(s.s2c);
  }

  lemma NothingEncoded(ms: seq<Msg>)
    requires AllSmall(ms) && |Encode(ms)| == 0
    ensures ms == []
  {
  }
}
