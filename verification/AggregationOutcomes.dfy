/** How the sniffing loop ends, for every stream of packets and every setting. */
module AggregationOutcomes {
  import opened Bytes
  import opened Packet
  import opened PacketGrammar
  import opened Aggregation
  import opened AggregationTheorems

  /** The packets up to the first that cannot be sniffed. */
  function Sniffed(stream: seq<Sniff>): (ps: seq<Fragment>)
    requires AllSniffed(stream)
    ensures AllFragments(ps)
  {
    if stream == [] || stream[0].Failed? then []
    else
      assert IsFragment(stream[0].packet);
      [stream[0].packet] + Sniffed(stream[1..])
  }

  /** The first of the n packets ps[..n] from which on they all have one tuple. */
  function GroupStart(ps: seq<Fragment>, n: nat): (a: nat)
    requires AllFragments(ps) && 0 < n <= |ps|
    ensures a < n
  {
    if n == 1 || TupleOf(ps[n - 1]) != TupleOf(ps[n - 2]) then n - 1 else GroupStart(ps, n - 1)
  }

  function Group(ps: seq<Fragment>, n: nat): (g: seq<Fragment>)
    requires AllFragments(ps) && n <= |ps|
    ensures AllFragments(g)
  {
    if n == 0 then [] else ps[GroupStart(ps, n)..n]
  }

  /** Packet n has another tuple than the one before it, or continues that one. */
  predicate Passes(ps: seq<Fragment>, n: nat, expected: nat)
    requires AllFragments(ps) && n < |ps|
  {
    || n == 0 || TupleOf(ps[n]) != TupleOf(ps[n - 1])
    || Continues(ps[n], ps[n - 1], Total(Group(ps, n)), expected)
  }

  /** The loop is not through with the first n packets: there is more than one to be sniffed, and
      the last group lacks payload. */
  predicate Wants(ps: seq<Fragment>, n: nat, expected: nat, one: bool)
    requires AllFragments(ps) && n <= |ps|
  {
    !one && Total(Group(ps, n)) < expected
  }

  /** The loop gets to the packet behind the first n. */
  ghost predicate GoesOn(ps: seq<Fragment>, n: nat, expected: nat, one: bool)
    requires AllFragments(ps)
  {
    n <= |ps| && forall m | 0 <= m < n :: Passes(ps, m, expected) && Wants(ps, m + 1, expected, one)
  }

  /** It ends there: nothing more can be sniffed, or the next packet does not continue the one
      before it, or with that packet the loop has what it wants. */
  ghost predicate Ends(ps: seq<Fragment>, n: nat, expected: nat, one: bool, checker: bool, r: Outcome)
    requires AllFragments(ps)
  {
    && GoesOn(ps, n, expected, one)
    && if n == |ps| then r == SniffFailed
       else if !Passes(ps, n, expected) then r == Incompatible
       else
         var g := Group(ps, n + 1);
         && !Wants(ps, n + 1, expected, one)
         && r == if checker && Total(g) != expected then WrongPayload else Accepted(g)
  }

  lemma GroupGrows(ps: seq<Fragment>, n: nat, expected: nat)
    requires AllFragments(ps) && n < |ps|
    ensures Extend(Group(ps, n), ps[n], expected)
         == if Passes(ps, n, expected) then Some(Group(ps, n + 1)) else None
  {
    hide IsFragment, TupleOf, Continues, Total;
    if n > 0 {
      var g := Group(ps, n);
      assert g[|g| - 1] == ps[n - 1];
      if TupleOf(ps[n]) == TupleOf(ps[n - 1]) {
        assert GroupStart(ps, n + 1) == GroupStart(ps, n);
        assert Group(ps, n + 1) == g + [ps[n]];
      } else {
        assert Group(ps, n + 1) == [ps[n]];
      }
    } else {
      assert Group(ps, 1) == [ps[0]];
    }
  }

  lemma {:induction false} CollectEnds(stream: seq<Sniff>, ps: seq<Fragment>, k: nat, expected: nat,
                                       one: bool, checker: bool) returns (n: nat)
    requires AllSniffed(stream) && AllFragments(ps) && GoesOn(ps, k, expected, one) && Sniffed(stream) == ps[k..]
    ensures Ends(ps, n, expected, one, checker, Collect(stream, Group(ps, k), expected, one, checker))
    decreases |stream|
  {
    hide IsFragment, Passes, Wants, Group, Extend, Total;
    n := k;
    if k < |ps| {
      assert ps[k] == ps[k..][0] == stream[0].packet;
      GroupGrows(ps, k, expected);
      ExtendIsFragments(Group(ps, k), ps[k], expected);
      if Passes(ps, k, expected) {
        DecideIs(stream, Group(ps, k + 1), expected, one, checker);
        WantsIs(ps, k + 1, expected, one);
        if Wants(ps, k + 1, expected, one) {
          assert ps[k + 1..] == ps[k..][1..] == Sniffed(stream[1..]);
          n := CollectEnds(stream[1..], ps, k + 1, expected, one, checker);
        }
      }
    }
  }

  lemma WantsIs(ps: seq<Fragment>, n: nat, expected: nat, one: bool)
    requires AllFragments(ps) && n <= |ps|
    ensures Wants(ps, n, expected, one) <==> !one && Total(Group(ps, n)) < expected
  {
  }

  lemma DecideIs(stream: seq<Sniff>, fs: seq<Fragment>, expected: nat, one: bool, checker: bool)
    requires AllSniffed(stream) && AllFragments(fs) && stream != []
    ensures Decide(stream, fs, expected, one, checker)
         == if !one && Total(fs) < expected then Collect(stream[1..], fs, expected, one, checker)
            else if checker && Total(fs) != expected then WrongPayload else Accepted(fs)
  {
    hide IsFragment, Total, Collect;
  }

  /** There is one way for it to end. */
  lemma EndsOnce(ps: seq<Fragment>, n: nat, n': nat, expected: nat, one: bool, checker: bool, r: Outcome, r': Outcome)
    requires AllFragments(ps) && n <= n'
    requires Ends(ps, n, expected, one, checker, r) && Ends(ps, n', expected, one, checker, r')
    ensures n == n' && r == r'
  {
    hide IsFragment, Passes, Wants, Group, Total;
  }

  /** The loop has an outcome exactly when the packets sniffed lead to it. */
  lemma OutcomeIff(stream: seq<Sniff>, expected: nat, one: bool, checker: bool, r: Outcome)
    requires AllSniffed(stream)
    ensures Collect(stream, [], expected, one, checker) == r
       <==> exists n: nat :: Ends(Sniffed(stream), n, expected, one, checker, r)
  {
    hide IsFragment, Sniffed, Collect, Ends;
    var ps := Sniffed(stream);
    assert ps[0..] == ps;
    var m := CollectEnds(stream, ps, 0, expected, one, checker);
    if exists n: nat :: Ends(ps, n, expected, one, checker, r) {
      var n: nat :| Ends(ps, n, expected, one, checker, r);
      if n <= m {
        EndsOnce(ps, n, m, expected, one, checker, r, Collect(stream, [], expected, one, checker));
      } else {
        EndsOnce(ps, m, n, expected, one, checker, Collect(stream, [], expected, one, checker), r);
      }
    }
  }
}
