/**
The Internet checksum (checksum.c). The code adds 32-bit little-endian words into
a 64-bit sum and folds at the end; section 1 of RFC 1071 defines a 16-bit sum with
end-around carry. They agree on every byte string, odd lengths included, and on
every byte order.
 */
module Checksum {
  import opened Bytes

  // ---------------------------------------------------------------------
  // The definition in RFC 1071
  // ---------------------------------------------------------------------

  /** 16-bit one's complement addition: the carry comes back in at the bottom. */
  function EndAround(a: u16, b: u16): u16 {
    if a + b < 0x1_0000 then a + b else a + b - 0xffff
  }

  /** The one's complement sum of the 16-bit words of b in network byte order; an
      odd byte at the end is padded with a zero on the right. */
  function RfcSum(b: seq<byte>): u16 {
    if b == [] then 0
    else if |b| == 1 then b[0] as int * 0x100
    else EndAround(b[0] as int * 0x100 + b[1] as int, RfcSum(b[2..]))
  }

  /** The checksum field for b, network byte order. */
  function RfcChecksum(b: seq<byte>): u16 {
    0xffff - RfcSum(b)
  }

  // ---------------------------------------------------------------------
  // What the code computes
  // ---------------------------------------------------------------------

  function Le16(lo: byte, hi: byte): u16 {
    lo as int + hi as int * 0x100
  }

  /** The plain sum of the 16-bit little-endian words of b. */
  function Sum16(b: seq<byte>): nat {
    if b == [] then 0
    else if |b| == 1 then b[0]
    else Le16(b[0], b[1]) as int + Sum16(b[2..])
  }

  /** What ip_checksum_partial adds up: 32-bit words, then at most one 16-bit word
      and at most one byte. */
  function Sum32(b: seq<byte>): nat {
    if |b| < 4 then Sum16(b)
    else Le16(b[0], b[1]) as int + 0x1_0000 * Le16(b[2], b[3]) as int + Sum32(b[4..])
  }

  /** The 16-bit value every way of folding with end-around carry arrives at. */
  function Folded(x: nat): (r: u16)
    ensures r == 0 <==> x == 0
  {
    if x == 0 then 0 else 1 + (x - 1) % 0xffff
  }

  /** ip_checksum_fold of a running sum, as the u16 it is in host byte order. */
  function Checksum16(sum: nat): u16 {
    0xffff - Folded(sum)
  }

  // ---------------------------------------------------------------------
  // Arithmetic of folding
  // ---------------------------------------------------------------------

  /** Multiples of 0xffff fold away. */
  lemma FoldMultiple(x: nat, k: nat)
    requires x > 0
    ensures Folded(x + 0xffff * k) == Folded(x)
  {
    assert (x - 1 + 0xffff * k) % 0xffff == (x - 1) % 0xffff;
  }

  lemma FoldSmall(x: nat)
    requires x <= 0xffff
    ensures Folded(x) == x
  {
  }

  lemma FoldIsClose(x: nat) returns (k: nat)
    ensures x == Folded(x) as int + 0xffff * k
  {
    k := if x == 0 then 0 else (x - 1) / 0xffff;
  }

  /** End-around addition is addition up to folding. */
  lemma EndAroundFolds(x: nat, y: nat)
    ensures EndAround(Folded(x), Folded(y)) == Folded(x + y)
  {
    var j := FoldIsClose(x);
    var k := FoldIsClose(y);
    var a: int, b: int := Folded(x), Folded(y);
    assert x + y == (a + b) + 0xffff * (j + k);
    if a + b > 0 {
      FoldMultiple(a + b, j + k);
      if a + b > 0xffff {
        FoldMultiple(a + b - 0xffff, 1);
        FoldSmall(a + b - 0xffff);
      } else {
        FoldSmall(a + b);
      }
    }
  }

  /** Exchanging the two bytes of a word. */
  function Swap(x: u16): u16 {
    (x % 0x100) * 0x100 + x / 0x100
  }

  lemma SwapLe(lo: byte, hi: byte)
    ensures Swap(Le16(lo, hi)) == lo as int * 0x100 + hi as int
  {
    SplitWord(Le16(lo, hi), hi, lo);
  }

  lemma SplitWord(x: u16, hi: byte, lo: byte)
    requires x == hi as int * 0x100 + lo as int
    ensures x / 0x100 == hi && x % 0x100 == lo
  {
  }

  /** Byte order drops out of the sum: swapping is multiplying by 256 up to folding. */
  lemma SwapFolds(x: nat)
    ensures Swap(Folded(x)) == Folded(0x100 * x)
  {
    var k := FoldIsClose(x);
    var f := Folded(x);
    var h, l := f / 0x100, f % 0x100;
    assert 0x100 * x == Swap(f) as int + 0xffff * (h + 0x100 * k);
    if f > 0 {
      FoldMultiple(Swap(f), h + 0x100 * k);
      FoldSmall(Swap(f));
    }
  }

  // ---------------------------------------------------------------------
  // The code's sum is the RFC's sum
  // ---------------------------------------------------------------------

  /** Adding 32-bit words instead of 16-bit words changes the sum by a multiple of
      0xffff, and never between zero and non-zero. */
  lemma {:induction false} WideSum(b: seq<byte>) returns (k: nat)
    ensures Sum32(b) == Sum16(b) + 0xffff * k
    ensures Sum16(b) == 0 ==> k == 0
  {
    if |b| < 4 {
      k := 0;
    } else {
      var j := WideSum(b[4..]);
      assert b[2..][2..] == b[4..];
      assert Sum16(b) == Le16(b[0], b[1]) as int + Sum16(b[2..]);
      assert Sum16(b[2..]) == Le16(b[2], b[3]) as int + Sum16(b[4..]);
      k := j + Le16(b[2], b[3]);
    }
  }

  lemma WideFolds(b: seq<byte>, sum: nat)
    ensures Folded(sum + Sum32(b)) == Folded(sum + Sum16(b))
  {
    var k := WideSum(b);
    if sum + Sum16(b) > 0 {
      FoldMultiple(sum + Sum16(b), k);
    }
  }

  lemma {:induction false} RfcSumFolds(b: seq<byte>)
    ensures RfcSum(b) == Folded(0x100 * Sum16(b))
  {
    hide Folded, Swap, Le16, EndAround;
    if b == [] {
      FoldSmall(0);
    } else if |b| == 1 {
      FoldSmall(0x100 * b[0] as int);
    } else {
      RfcSumFolds(b[2..]);
      var w := Le16(b[0], b[1]);
      FoldSmall(w);
      SwapFolds(w);
      SwapLe(b[0], b[1]);
      EndAroundFolds(0x100 * w as int, 0x100 * Sum16(b[2..]));
      assert 0x100 * w as int + 0x100 * Sum16(b[2..]) == 0x100 * Sum16(b);
    }
  }

  /** The bytes the code stores, low byte first, are the bytes of the RFC's
      checksum, high byte first. */
  lemma ChecksumIsRfc(b: seq<byte>)
    ensures [Checksum16(Sum32(b)) % 0x100, Checksum16(Sum32(b)) / 0x100] == Enc16(RfcChecksum(b))
  {
    hide Folded, Sum16, Sum32, RfcSum, Swap, Enc16;
    WideFolds(b, 0);
    RfcSumFolds(b);
    SwapFolds(Sum16(b));
    SwappedComplement(Folded(Sum16(b)));
  }

  lemma SwappedComplement(f: u16)
    ensures [(0xffff - f) % 0x100, (0xffff - f) / 0x100] == Enc16(0xffff - Swap(f))
  {
    var h: int, l: int := f / 0x100, f % 0x100;
    SplitWord(0xffff - f, 0xff - h, 0xff - l);
    SplitWord(0xffff - Swap(f), 0xff - l, 0xff - h);
  }

  /** A sum over an even number of bytes carries on where it stopped: a pseudo-header
      and a payload sum up like their concatenation. */
  lemma {:induction false} Sum16Concat(a: seq<byte>, b: seq<byte>)
    requires |a| % 2 == 0
    ensures Sum16(a + b) == Sum16(a) + Sum16(b)
  {
    if a == [] {
      assert a + b == b;
    } else {
      assert (a + b)[2..] == a[2..] + b;
      Sum16Concat(a[2..], b);
    }
  }

  lemma ChecksumOfParts(a: seq<byte>, b: seq<byte>)
    requires |a| % 2 == 0
    ensures Checksum16(Sum32(a) + Sum32(b)) == Checksum16(Sum32(a + b))
  {
    hide Folded, Sum16, Sum32;
    WideFolds(b, Sum32(a));
    WideFolds(a, Sum16(b));
    WideFolds(a + b, 0);
    Sum16Concat(a, b);
  }

  /** Storing the checksum of a message into its zeroed checksum field makes the
      checksum of the message zero, whatever was summed before it. */
  lemma StoredChecksumVerifies(b: seq<byte>, at: nat, b': seq<byte>, sum: nat)
    requires at % 2 == 0 && at + 2 <= |b| && b[at] == 0 && b[at + 1] == 0
    requires b' == b[at := Checksum16(sum + Sum32(b)) % 0x100][at + 1 := Checksum16(sum + Sum32(b)) / 0x100]
    ensures Checksum16(sum + Sum32(b')) == 0
  {
    hide Folded, Sum16, Sum32;
    var c := Checksum16(sum + Sum32(b));
    Sum16Store(b, at, c % 0x100, c / 0x100);
    WideFolds(b, sum);
    WideFolds(b', sum);
    var s := sum + Sum16(b);
    var k := FoldIsClose(s);
    assert s + c as int == 0xffff + 0xffff * k;
    FoldMultiple(0xffff, k);
    FoldSmall(0xffff);
  }

  /** Overwriting two zero bytes at an even offset adds one word to the sum. */
  lemma {:induction false} Sum16Store(b: seq<byte>, at: nat, lo: byte, hi: byte)
    requires at % 2 == 0 && at + 2 <= |b| && b[at] == 0 && b[at + 1] == 0
    ensures Sum16(b[at := lo][at + 1 := hi]) == Sum16(b) + Le16(lo, hi) as int
  {
    var b' := b[at := lo][at + 1 := hi];
    if at == 0 {
      assert b'[2..] == b[2..];
    } else {
      assert b'[2..] == b[2..][at - 2 := lo][at - 1 := hi];
      Sum16Store(b[2..], at - 2, lo, hi);
    }
  }

  // ---------------------------------------------------------------------
  // The code
  // ---------------------------------------------------------------------

  /** No byte adds more than 2^30 to the sum on average, so a 64-bit sum cannot
      overflow on anything a 32-bit length describes. */
  lemma {:induction false} SumBound(b: seq<byte>)
    ensures Sum32(b) <= 0x4000_0000 * |b|
  {
    if |b| >= 4 {
      SumBound(b[4..]);
    } else if |b| == 3 {
      assert Sum16(b) == Le16(b[0], b[1]) as int + Sum16(b[2..]);
    } else if |b| == 2 {
      assert Sum16(b) == Le16(b[0], b[1]) as int + Sum16(b[2..]);
    }
  }

  /** ip_checksum_partial over mem[p..p + len]. */
  method ChecksumPartial(mem: array<byte>, p: nat, len: nat, sum: u64) returns (r: u64)
    requires p + len <= mem.Length && len < 0x1_0000_0000 && sum < 0x8000_0000_0000_0000
    ensures r == sum + Sum32(mem[p..p + len])
  {
    var q, left := p, len;
    r := sum;
    ghost var all := mem[p..p + len];
    SumBound(all);
    while left >= 4
      invariant p <= q && q + left == p + len
      invariant r + Sum32(mem[q..p + len]) == sum + Sum32(all)
    {
      ghost var rest := mem[q..p + len];
      assert rest[4..] == mem[q + 4..p + len];
      r := r + Le16(mem[q], mem[q + 1]) + 0x1_0000 * Le16(mem[q + 2], mem[q + 3]);
      q := q + 4;
      left := left - 4;
    }
    ghost var rest := mem[q..p + len];
    if left >= 2 {
      assert Sum16(rest) == Le16(rest[0], rest[1]) as int + Sum16(rest[2..]);
      assert rest[2..] == mem[q + 2..p + len];
      r := r + Le16(mem[q], mem[q + 1]);
      q := q + 2;
      left := left - 2;
    }
    if left > 0 {
      r := r + mem[q];
    }
  }

  /** ip_checksum_fold: both loops end, and leave the folded sum. */
  method ChecksumFold(sum: u64) returns (c: u16)
    ensures c == Checksum16(sum)
  {
    var s := sum;
    while s >= 0x1_0000_0000
      invariant s < 0x1_0000_0000_0000_0000 && Folded(s) == Folded(sum)
    {
      var hi, lo := s / 0x1_0000_0000, s % 0x1_0000_0000;
      FoldMultiple(hi + lo, 0x1_0001 * hi);
      s := hi + lo;
    }
    while s >= 0x1_0000
      invariant s < 0x1_0000_0000 && Folded(s) == Folded(sum)
    {
      var hi, lo := s / 0x1_0000, s % 0x1_0000;
      FoldMultiple(hi + lo, hi);
      s := hi + lo;
    }
    FoldSmall(s);
    c := 0xffff - s;
  }
}
