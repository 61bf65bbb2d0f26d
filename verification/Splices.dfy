/** Overwriting part of a byte buffer, as a value. */
module Splices {
  import opened Bytes

  /** The buffer m with the bytes b written at p. */
  function Splice(m: seq<byte>, p: nat, b: seq<byte>): (r: seq<byte>)
    requires p + |b| <= |m|
    ensures |r| == |m|
  {
    m[..p] + b + m[p + |b|..]
  }

  /** The two buffers are the same from there on. */
  ghost predicate SameFrom(m: seq<byte>, m': seq<byte>, from: nat) {
    |m| == |m'| && forall i | from <= i < |m| :: m[i] == m'[i]
  }

  /** What was written is there. */
  lemma SpliceRead(m: seq<byte>, p: nat, b: seq<byte>)
    requires p + |b| <= |m|
    ensures Splice(m, p, b)[p..p + |b|] == b
  {
  }

  /** Bytes before or behind what was written stay. */
  lemma SpliceFrame(m: seq<byte>, p: nat, b: seq<byte>, lo: nat, hi: nat)
    requires p + |b| <= |m| && lo <= hi <= |m| && (hi <= p || p + |b| <= lo)
    ensures Splice(m, p, b)[lo..hi] == m[lo..hi]
  {
  }

  /** Writing what is there already changes nothing. */
  lemma SpliceSame(m: seq<byte>, p: nat, b: seq<byte>)
    requires p + |b| <= |m| && m[p..p + |b|] == b
    ensures Splice(m, p, b) == m
  {
  }

  /** Writes to adjacent places are one write. */
  lemma SpliceJoin(m: seq<byte>, p: nat, b: seq<byte>, c: seq<byte>)
    requires p + |b| + |c| <= |m|
    ensures Splice(Splice(m, p, b), p + |b|, c) == Splice(m, p, b + c)
  {
    var s := Splice(m, p, b);
    assert s[..p + |b|] == m[..p] + b;
    assert s[p + |b| + |c|..] == m[p + |b| + |c|..];
    assert m[..p] + b + c == m[..p] + (b + c);
  }

  /** Writes to places that do not overlap can be swapped. */
  lemma SpliceSwap(m: seq<byte>, p: nat, b: seq<byte>, q: nat, c: seq<byte>)
    requires p + |b| <= q && q + |c| <= |m|
    ensures Splice(Splice(m, p, b), q, c) == Splice(Splice(m, q, c), p, b)
  {
    var x, y := Splice(Splice(m, p, b), q, c), Splice(Splice(m, q, c), p, b);
    assert |x| == |y|;
    assert forall i | 0 <= i < |m| :: x[i] == y[i];
  }

  /** A later write to the same place is the one that stays. */
  lemma SpliceAgain(m: seq<byte>, p: nat, b: seq<byte>, c: seq<byte>)
    requires p + |b| <= |m| && |b| == |c|
    ensures Splice(Splice(m, p, b), p, c) == Splice(m, p, c)
  {
    var s := Splice(m, p, b);
    assert s[..p] == m[..p] && s[p + |b|..] == m[p + |b|..];
  }

  /** A window onto the buffer sees a write inside it. */
  lemma SpliceSlice(m: seq<byte>, p: nat, b: seq<byte>, lo: nat, hi: nat)
    requires lo <= p && p + |b| <= hi <= |m|
    ensures Splice(m, p, b)[lo..hi] == Splice(m[lo..hi], p - lo, b)
  {
  }

  /** A window onto a window. */
  lemma SliceOfSlice(m: seq<byte>, lo: nat, hi: nat, a: nat, b: nat)
    requires lo <= hi <= |m| && a <= b <= hi - lo
    ensures m[lo..hi][a..b] == m[lo + a..lo + b]
  {
    var x, y := m[lo..hi][a..b], m[lo + a..lo + b];
    assert |x| == |y|;
    assert forall i | 0 <= i < |x| :: x[i] == m[lo + a + i] == y[i];
  }

  /** memcpy into a buffer. */
  method Write(mem: array<byte>, at: nat, b: seq<byte>)
    requires at + |b| <= mem.Length
    modifies mem
    ensures mem[..] == Splice(old(mem[..]), at, b)
  {
    forall i | 0 <= i < |b| {
      mem[at + i] := b[i];
    }
  }
}
