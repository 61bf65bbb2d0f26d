/**
MurmurHash3_x86_32 (hash.c). Bytes are bv8 and hashes bv32, so that arithmetic wraps
as it does in the code. On four-byte keys with seed 0, which is all the hash map
uses, the hash is a bijection.
 */
module Murmur {
  import opened Bits

  // ---------------------------------------------------------------------
  // The hash
  // ---------------------------------------------------------------------

  // The constants of the code, each with the operation it is used in.

  function TimesC1(x: bv32): bv32 { x * 0xcc9e_2d51 }

  function TimesC2(x: bv32): bv32 { x * 0x1b87_3593 }

  function TimesF1(x: bv32): bv32 { x * 0x85eb_ca6b }

  function TimesF2(x: bv32): bv32 { x * 0xc2b2_ae35 }

  function FiveTimes(h: bv32): bv32 { h * 5 + 0xe654_6b64 }

  function Rotl15(x: bv32): bv32 { (x << 15) | (x >> 17) }

  function Rotl13(x: bv32): bv32 { (x << 13) | (x >> 19) }

  function ScrambleBlock(k: bv32): bv32 { TimesC2(Rotl15(TimesC1(k))) }

  /** One round of the loop over the blocks. */
  function Round(h: bv32, k: bv32): bv32 { FiveTimes(Rotl13(Xor(h, ScrambleBlock(k)))) }

  function Mix16(h: bv32): bv32 { h ^ (h >> 16) }

  function Mix13(h: bv32): bv32 { h ^ (h >> 13) }

  /** fmix_32 */
  function Finish(h: bv32): bv32 { Mix16(TimesF2(Mix13(TimesF1(Mix16(h))))) }

  /** The i-th block of four bytes, little-endian. */
  function Block(b: seq<bv8>, i: nat): bv32
    requires 4 * i + 4 <= |b|
  {
    ((b[4 * i] as bv32) | ((b[4 * i + 1] as bv32) << 8))
      | (((b[4 * i + 2] as bv32) << 16) | ((b[4 * i + 3] as bv32) << 24))
  }

  /** The state after the first n blocks. */
  function Blocks(b: seq<bv8>, n: nat, seed: bv32): bv32
    requires 4 * n <= |b|
  {
    if n == 0 then seed else Round(Blocks(b, n - 1, seed), Block(b, n - 1))
  }

  /** The one to three bytes behind the last block, little-endian. */
  function TailBlock(t: seq<bv8>): bv32
    requires |t| < 4
  {
    (if |t| == 3 then (t[2] as bv32) << 16 else 0) ^ (if |t| >= 2 then (t[1] as bv32) << 8 else 0)
      ^ (if |t| >= 1 then t[0] as bv32 else 0)
  }

  /** The hash of b; len is |b| as a u32. */
  function Hash(b: seq<bv8>, len: bv32, seed: bv32): bv32 {
    var h, t := Blocks(b, |b| / 4, seed), b[|b| / 4 * 4..];
    Finish(Xor(if t == [] then h else Xor(h, ScrambleBlock(TailBlock(t))), len))
  }

  /** The switch over the bytes behind the last block. */
  method ReadTail(key: array<bv8>, from: nat) returns (k: bv32)
    requires from <= key.Length < from + 4
    ensures k == TailBlock(key[..][from..])
  {
    var n := key.Length - from;
    k := 0;
    if n == 3 {
      k := k ^ ((key[from + 2] as bv32) << 16);
    }
    if n >= 2 {
      k := k ^ ((key[from + 1] as bv32) << 8);
    }
    if n >= 1 {
      k := k ^ (key[from] as bv32);
    }
  }

  /** MurmurHash3_x86_32: the block index runs from -nblocks up to zero. */
  method MurmurHash(key: array<bv8>, len: bv32, seed: bv32) returns (h: bv32)
    ensures h == Hash(key[..], len, seed)
  {
    hide ScrambleBlock, Round, Finish, Block, TailBlock, Xor;
    var nblocks := key.Length / 4;
    h := seed;
    var i := -nblocks;
    while i != 0
      invariant -nblocks <= i <= 0 && h == Blocks(key[..], nblocks + i, seed)
      decreases -i
    {
      h := Round(h, Block(key[..], nblocks + i));
      i := i + 1;
    }
    var k := ReadTail(key, nblocks * 4);
    if key.Length % 4 != 0 {
      h := Xor(h, ScrambleBlock(k));
    }
    h := Finish(Xor(h, len));
  }

  // ---------------------------------------------------------------------
  // Four-byte keys
  // ---------------------------------------------------------------------

  /** The bytes of a u32 in memory. */
  function KeyBytes(key: bv32): (b: seq<bv8>)
    ensures |b| == 4
  {
    [(key & 0xff) as bv8, ((key >> 8) & 0xff) as bv8, ((key >> 16) & 0xff) as bv8, ((key >> 24) & 0xff) as bv8]
  }

  /** hash_key in straight-line form. */
  function KeyHash(key: bv32): bv32 {
    Finish(Xor(Round(0, key), 4))
  }

  lemma BlockOfKey(key: bv32)
    ensures Block(KeyBytes(key), 0) == key
  {
  }

  lemma KeyHashIsHash(key: bv32)
    ensures Hash(KeyBytes(key), 4, 0) == KeyHash(key)
  {
    hide Round, Finish, Block, KeyBytes;
    BlockOfKey(key);
    var b := KeyBytes(key);
    assert Blocks(b, 1, 0) == Round(Blocks(b, 0, 0), Block(b, 0));
    assert b[4..] == [];
  }

  // ---------------------------------------------------------------------
  // Every step can be taken back
  // ---------------------------------------------------------------------

  function OverC1(x: bv32): bv32 { x * 0xdee1_3bb1 }

  function OverC2(x: bv32): bv32 { x * 0x56ed_309b }

  function OverF1(x: bv32): bv32 { x * 0xa5cb_9243 }

  function OverF2(x: bv32): bv32 { x * 0x7ed1_b41d }

  function Fifth(h: bv32): bv32 { (h - 0xe654_6b64) * 0xcccc_cccd }

  function Rotr15(x: bv32): bv32 { (x >> 15) | (x << 17) }

  function Rotr13(x: bv32): bv32 { (x >> 13) | (x << 19) }

  function Unmix13(h: bv32): bv32 { h ^ (h >> 13) ^ (h >> 26) }

  function Unscramble(k: bv32): bv32 { OverC1(Rotr15(OverC2(k))) }

  /** The block that made Round(0, k). */
  function Unround(h: bv32): bv32 { Unscramble(Rotr13(Fifth(h))) }

  function Unfinish(h: bv32): bv32 { Mix16(OverF1(Unmix13(OverF2(Mix16(h))))) }

  /** The key with a given hash. */
  function Unhash(h: bv32): bv32 { Unround(Xor(Unfinish(h), 4)) }

  lemma C1Back(x: bv32)
    ensures OverC1(TimesC1(x)) == x && TimesC1(OverC1(x)) == x
  {
    assert OverC1(x * 0xcc9e_2d51) == x;
    assert TimesC1(x * 0xdee1_3bb1) == x;
  }

  lemma C2Back(x: bv32)
    ensures OverC2(TimesC2(x)) == x && TimesC2(OverC2(x)) == x
  {
    assert OverC2(x * 0x1b87_3593) == x;
    assert TimesC2(x * 0x56ed_309b) == x;
  }

  lemma F1Back(x: bv32)
    ensures OverF1(TimesF1(x)) == x && TimesF1(OverF1(x)) == x
  {
    assert OverF1(x * 0x85eb_ca6b) == x;
    assert TimesF1(x * 0xa5cb_9243) == x;
  }

  lemma F2Back(x: bv32)
    ensures OverF2(TimesF2(x)) == x && TimesF2(OverF2(x)) == x
  {
    assert OverF2(x * 0xc2b2_ae35) == x;
    assert TimesF2(x * 0x7ed1_b41d) == x;
  }

  lemma FiveBack(x: bv32)
    ensures Fifth(FiveTimes(x)) == x && FiveTimes(Fifth(x)) == x
  {
    assert Fifth(x * 5 + 0xe654_6b64) == x;
    assert FiveTimes((x - 0xe654_6b64) * 0xcccc_cccd) == x;
  }

  lemma RotateBack(x: bv32)
    ensures Rotr15(Rotl15(x)) == x && Rotl15(Rotr15(x)) == x
    ensures Rotr13(Rotl13(x)) == x && Rotl13(Rotr13(x)) == x
  {
  }

  lemma Mix16Back(x: bv32)
    ensures Mix16(Mix16(x)) == x
  {
    assert Mix16(x ^ (x >> 16)) == x;
  }

  lemma Mix13Back(x: bv32)
    ensures Unmix13(Mix13(x)) == x && Mix13(Unmix13(x)) == x
  {
    assert Unmix13(x ^ (x >> 13)) == x;
    assert Mix13(x ^ (x >> 13) ^ (x >> 26)) == x;
  }

  lemma RoundBack(k: bv32)
    ensures Unround(Round(0, k)) == k && Round(0, Unround(k)) == k
  {
    hide TimesC1, TimesC2, OverC1, OverC2, FiveTimes, Fifth, Rotl15, Rotl13, Rotr15, Rotr13, Xor;
    C1Back(k);
    var a := Rotl15(TimesC1(k));
    RotateBack(TimesC1(k));
    C2Back(a);
    XorZero(ScrambleBlock(k));
    RotateBack(ScrambleBlock(k));
    FiveBack(Rotl13(ScrambleBlock(k)));
    FiveBack(k);
    var b := Rotr13(Fifth(k));
    RotateBack(Fifth(k));
    C2Back(b);
    RotateBack(OverC2(b));
    C1Back(Rotr15(OverC2(b)));
    XorZero(ScrambleBlock(Unround(k)));
  }

  lemma FinishBack(h: bv32)
    ensures Unfinish(Finish(h)) == h && Finish(Unfinish(h)) == h
  {
    hide TimesF1, TimesF2, OverF1, OverF2, Mix16, Mix13, Unmix13;
    var a := Mix16(h);
    Mix16Back(h);
    F1Back(a);
    Mix13Back(TimesF1(a));
    F2Back(Mix13(TimesF1(a)));
    Mix16Back(TimesF2(Mix13(TimesF1(a))));
    F2Back(a);
    Mix13Back(OverF2(a));
    F1Back(Unmix13(OverF2(a)));
    Mix16Back(OverF1(Unmix13(OverF2(a))));
  }

  /** On four-byte keys with seed 0 the hash is a bijection. */
  lemma HashIsBijective(x: bv32)
    ensures Unhash(Hash(KeyBytes(x), 4, 0)) == x
    ensures Hash(KeyBytes(Unhash(x)), 4, 0) == x
  {
    hide Hash, KeyBytes, Finish, Round, Unfinish, Unround, Xor;
    KeyHashIsHash(x);
    KeyHashIsHash(Unhash(x));
    FinishBack(Xor(Round(0, x), 4));
    XorCancels(Round(0, x), 4);
    RoundBack(x);
    var y := Xor(Unfinish(x), 4);
    RoundBack(y);
    XorCancels(Unfinish(x), 4);
    FinishBack(x);
  }

  // ---------------------------------------------------------------------
  // Known values
  // ---------------------------------------------------------------------

  /** Published values of MurmurHash3_x86_32: one for each length of the tail, with and without
      blocks and a seed. */
  lemma KnownHashes()
    ensures Hash([], 0, 1) == 0x514e_28b7
    ensures Hash([0x21], 1, 0) == 0x7266_1cf4
    ensures Hash([0x21, 0x43], 2, 0) == 0xa0f7_b07a
    ensures Hash([0x21, 0x43, 0x65], 3, 0) == 0x7e4a_8634
    ensures Hash([0x21, 0x43, 0x65, 0x87], 4, 0) == 0xf55b_516b
    ensures Hash([0x21, 0x43, 0x65, 0x87], 4, 0x5082_edee) == 0x2362_f9de
  {
    var b: seq<bv8> := [0x21, 0x43, 0x65, 0x87];
    assert Blocks(b, 0, 0) == 0 && Blocks(b, 0, 0x5082_edee) == 0x5082_edee;
    assert Block(b, 0) == 0x8765_4321;
    assert b[4..] == [];
  }
}
