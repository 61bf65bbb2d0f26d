/** Operations on 32-bit words, under names that proofs can keep folded. */
module Bits {

  function Xor(a: bv32, b: bv32): bv32 {
    a ^ b
  }

  lemma XorZero(a: bv32)
    ensures Xor(0, a) == a
  {
  }

  lemma XorCancels(a: bv32, b: bv32)
    ensures Xor(Xor(a, b), b) == a
  {
  }
}
