/** Bytes, fixed-width integers and network byte order. */
module Bytes {

  type byte = x: int | 0 <= x < 0x100
  type u16 = x: int | 0 <= x < 0x1_0000
  type u32 = x: int | 0 <= x < 0x1_0000_0000
  type u64 = x: int | 0 <= x < 0x1_0000_0000_0000_0000

  datatype Option<+T> = None | Some(value: T)

  /** ntohs of the two bytes at b[i]. */
  function Be16(b: seq<byte>, i: nat): u16
    requires i + 2 <= |b|
  {
    b[i] as int * 0x100 + b[i + 1] as int
  }

  /** ntohl of the four bytes at b[i]. */
  function Be32(b: seq<byte>, i: nat): u32
    requires i + 4 <= |b|
  {
    Be16(b, i) as int * 0x1_0000 + Be16(b, i + 2) as int
  }

  /** The bytes htons(x) has in memory. */
  function Enc16(x: u16): (b: seq<byte>)
    ensures |b| == 2 && Be16(b, 0) == x
  {
    [x / 0x100, x % 0x100]
  }

  /** The bytes htonl(x) has in memory. */
  function Enc32(x: u32): (b: seq<byte>)
    ensures |b| == 4 && Be32(b, 0) == x
  {
    Enc16(x / 0x1_0000) + Enc16(x % 0x1_0000)
  }

  /** Be32 is injective: four bytes are determined by their value. */
  lemma Enc32Be32(b: seq<byte>)
    requires |b| == 4
    ensures Enc32(Be32(b, 0)) == b
  {
    var hi, lo := Be16(b, 0), Be16(b, 2);
    assert Be32(b, 0) / 0x1_0000 == hi && Be32(b, 0) % 0x1_0000 == lo;
    assert Enc16(hi) == b[..2];
    assert Enc16(lo) == b[2..];
  }

  function ZeroBytes(n: nat): (b: seq<byte>)
    ensures |b| == n && forall i | 0 <= i < n :: b[i] == 0
  {
    seq(n, i requires 0 <= i < n => 0)
  }
}
