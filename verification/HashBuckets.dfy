/** How the hash map picks a bucket for a key (hash_map.c), and how keys spread. */
module HashBuckets {
  import opened Arithmetic
  import opened Bytes
  import Murmur

  const MAX_BUCKETS := 0x4000_0000

  function Pow2(k: nat): (p: nat)
    ensures p > 0
  {
    if k == 0 then 1 else 2 * Pow2(k - 1)
  }

  /** a & b */
  function BitAnd(a: nat, b: nat): nat
    decreases b
  {
    if b == 0 then 0 else (a % 2) * (b % 2) + 2 * BitAnd(a / 2, b / 2)
  }

  /** A u32 as a machine word, and back. */
  function Word(x: u32): bv32 { x as bv32 }

  function Number(w: bv32): u32 { w as int }

  /** hash_key */
  function HashKey(key: u32): u32 {
    Number(Murmur.Hash(Murmur.KeyBytes(Word(key)), 4, 0))
  }

  /** hash_bucket_num */
  function BucketOf(key: u32, bucketMask: nat): nat {
    BitAnd(HashKey(key), bucketMask)
  }

  /** Masking with one less than a power of two is taking the remainder. */
  lemma {:induction false} MaskIsRemainder(a: nat, k: nat)
    ensures BitAnd(a, Pow2(k) - 1) == Remainder(a, Pow2(k))
    decreases k
  {
    hide BitAnd, Remainder;
    if k == 0 {
      MaskNothing(a);
    } else {
      var p := Pow2(k - 1);
      MaskIsRemainder(a / 2, k - 1);
      MaskStep(a, p);
      HalfRemainder(a, p);
    }
  }

  function Remainder(a: nat, m: nat): nat
    requires m > 0
  {
    a % m
  }

  lemma MaskNothing(a: nat)
    ensures BitAnd(a, 0) == Remainder(a, 1)
  {
  }

  lemma MaskStep(a: nat, p: nat)
    requires p > 0
    ensures BitAnd(a, 2 * p - 1) == a % 2 + 2 * BitAnd(a / 2, p - 1)
  {
    assert (2 * p - 1) / 2 == p - 1 && (2 * p - 1) % 2 == 1;
  }

  lemma HalfRemainder(a: nat, p: nat)
    requires p > 0
    ensures Remainder(a, 2 * p) == a % 2 + 2 * Remainder(a / 2, p)
  {
    var h := a / 2;
    var q, r := h / p, h % p;
    assert h == q * p + r;
    assert 2 * h == q * (2 * p) + 2 * r;
    QuotientIs(a, 2 * p, q, a % 2 + 2 * r);
  }

  lemma BucketInRange(key: u32, k: nat)
    ensures BucketOf(key, Pow2(k) - 1) < Pow2(k)
  {
    hide BitAnd, HashKey, Pow2;
    MaskIsRemainder(HashKey(key), k);
  }

  // ---------------------------------------------------------------------
  // Every bucket gets the same number of keys
  // ---------------------------------------------------------------------

  function UnhashKey(h: u32): u32 {
    Number(Murmur.Unhash(Word(h)))
  }

  lemma WordOfNumber(w: bv32)
    ensures Word(Number(w)) == w
  {
  }

  lemma JoinBytes(hi: bv8, lo: bv8)
    ensures (((hi as bv16) << 8) | (lo as bv16)) as int == (hi as int) * 0x100 + (lo as int)
  {
  }

  lemma JoinHalves(hi: bv16, lo: bv16)
    ensures (((hi as bv32) << 16) | (lo as bv32)) as int == (hi as int) * 0x1_0000 + (lo as int)
  {
  }

  lemma JoinNibbles(hi: bv4, lo: bv4)
    ensures (((hi as bv8) << 4) | (lo as bv8)) as int == (hi as int) * 0x10 + (lo as int)
  {
  }

  lemma NibbleExists(x: int) returns (w: bv4)
    requires 0 <= x < 0x10
    ensures w as int == x
  {
    w := x as bv4;
  }

  lemma ByteExists(x: byte) returns (w: bv8)
    ensures w as int == x
  {
    var hi := NibbleExists(x / 0x10);
    var lo := NibbleExists(x % 0x10);
    JoinNibbles(hi, lo);
    w := ((hi as bv8) << 4) | (lo as bv8);
  }

  lemma HalfExists(x: u16) returns (w: bv16)
    ensures w as int == x
  {
    var hi := ByteExists(x / 0x100);
    var lo := ByteExists(x % 0x100);
    JoinBytes(hi, lo);
    w := ((hi as bv16) << 8) | (lo as bv16);
  }

  lemma NumberOfWord(x: u32)
    ensures Number(Word(x)) == x
  {
    hide Number, Word;
    var w := WordExists(x);
    WordOfNumber(w);
  }

  lemma WordExists(x: u32) returns (w: bv32)
    ensures Number(w) == x
  {
    var hi := HalfExists(x / 0x1_0000);
    var lo := HalfExists(x % 0x1_0000);
    JoinHalves(hi, lo);
    w := ((hi as bv32) << 16) | (lo as bv32);
  }

  lemma HashKeyBijective(x: u32)
    ensures UnhashKey(HashKey(x)) == x && HashKey(UnhashKey(x)) == x
  {
    hide Murmur.Hash, Murmur.Unhash, Murmur.KeyBytes, Word, Number;
    Murmur.HashIsBijective(Word(x));
    NumberOfWord(x);
    WordOfNumber(Murmur.Hash(Murmur.KeyBytes(Word(x)), 4, 0));
    WordOfNumber(Murmur.Unhash(Word(x)));
  }

  ghost function KeysOf(b: nat, bucketMask: nat): set<int> {
    set key | 0 <= key < 0x1_0000_0000 && BucketOf(key, bucketMask) == b
  }

  ghost function Residues(n: nat, m: nat, b: nat): set<int>
    requires m > 0
  {
    set h | 0 <= h < n * m && h % m == b
  }

  lemma {:induction false} CountResidues(n: nat, m: nat, b: nat)
    requires b < m
    ensures |Residues(n, m, b)| == n
  {
    if n > 0 {
      CountResidues(n - 1, m, b);
      var lo := (n - 1) * m;
      assert n * m == lo + m;
      QuotientIs(lo + b, m, n - 1, b);
      forall h | lo <= h < lo + m
        ensures h % m == h - lo
      {
        QuotientIs(h, m, n - 1, h - lo);
      }
      assert Residues(n, m, b) == Residues(n - 1, m, b) + {lo + b};
    }
  }

  ghost function HashesOf(keys: set<int>): set<int>
    requires forall key | key in keys :: 0 <= key < 0x1_0000_0000
  {
    set key | key in keys :: HashKey(key) as int
  }

  lemma Pick<T>(s: set<T>) returns (x: T)
    requires s != {}
    ensures x in s
  {
    x :| x in s;
  }

  /** Hashing a set of keys keeps its size. */
  lemma {:induction false} HashesCount(keys: set<int>)
    requires forall key | key in keys :: 0 <= key < 0x1_0000_0000
    ensures |HashesOf(keys)| == |keys|
    decreases |keys|
  {
    hide HashKey, UnhashKey;
    if keys != {} {
      var key := Pick(keys);
      var rest := keys - {key};
      HashesCount(rest);
      HashKeyBijective(key);
      forall other | other in rest
        ensures HashKey(other) != HashKey(key)
      {
        HashKeyBijective(other);
      }
      assert HashesOf(keys) == HashesOf(rest) + {HashKey(key) as int};
    }
  }

  lemma {:induction false} Pow2Adds(a: nat, b: nat)
    ensures Pow2(a + b) == Pow2(a) * Pow2(b)
  {
    if a > 0 {
      Pow2Adds(a - 1, b);
      DoubleProduct(Pow2(a - 1), Pow2(b));
      assert a + b - 1 == a - 1 + b;
    }
  }

  lemma DoubleProduct(x: nat, y: nat)
    ensures 2 * (x * y) == (2 * x) * y
  {
  }

  lemma {:induction false} Pow2Grows(a: nat, b: nat)
    requires a < b
    ensures 2 * Pow2(a) <= Pow2(b)
  {
    if a + 1 < b {
      Pow2Grows(a, b - 1);
    }
  }

  /** Below the maximum there is room to double. */
  lemma DoubleFits(log: nat)
    requires Pow2(log) < MAX_BUCKETS
    ensures 2 * Pow2(log) <= MAX_BUCKETS
  {
    assert Pow2(10) == 0x400;
    Pow2Adds(10, 10);
    Pow2Adds(20, 10);
    if log < 30 {
      Pow2Grows(log, 30);
    } else if log > 30 {
      Pow2Grows(30, log);
    }
  }

  lemma Pow2Of32()
    ensures Pow2(32) == 0x1_0000_0000
  {
    assert Pow2(8) == 0x100;
    Pow2Adds(8, 8);
    Pow2Adds(16, 16);
  }

  /** Of all 2^32 keys, each of 2^k buckets receives exactly 2^(32-k). */
  lemma KeysSpreadEvenly(k: nat, b: nat)
    requires k <= 32 && b < Pow2(k)
    ensures |KeysOf(b, Pow2(k) - 1)| == Pow2(32 - k)
  {
    hide HashKey, UnhashKey, BitAnd;
    var m, n := Pow2(k), Pow2(32 - k);
    Pow2Adds(32 - k, k);
    Pow2Of32();
    var keys := KeysOf(b, m - 1);
    forall h
      ensures h in HashesOf(keys) <==> h in Residues(n, m, b)
    {
      if h in Residues(n, m, b) {
        HashKeyBijective(h);
        MaskIsRemainder(h, k);
        assert UnhashKey(h) in keys;
      }
      if h in HashesOf(keys) {
        MaskIsRemainder(h, k);
      }
    }
    assert HashesOf(keys) == Residues(n, m, b);
    HashesCount(keys);
    CountResidues(n, m, b);
  }
}
