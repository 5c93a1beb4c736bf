/**
 * The membership bitmap of the finder: an array of bytes in which bit `b % 8`
 * of byte `b / 8` stands for the value `b`.
 */
module Bitmap {

  /** `1 << bit` as a byte, for bit positions 0..7. */
  function Mask(bit: nat): (m: bv8)
    requires bit < 8
    ensures m != 0 && m & (m - 1) == 0
  {
    (1 as bv8) << bit
  }

  /** `(byte & (1 << bit)) != 0` */
  predicate BitSet(byte: bv8, bit: nat)
    requires bit < 8
  {
    byte & Mask(bit) != 0
  }

  /** Setting bit `j` of a byte sets that bit and leaves the other seven as they were. */
  lemma SetBitEffect(byte: bv8, j: nat, k: nat)
    requires j < 8 && k < 8
    ensures BitSet(byte | Mask(j), k) <==> (k == j || BitSet(byte, k))
  {
  }

  /** A zeroed byte has no bit set. */
  lemma ZeroByteClear(k: nat)
    requires k < 8
    ensures !BitSet(0, k)
  {
  }

  /** The bitmap `bm` records exactly the values of `s` that it can hold: bit `8 * index + bit` is set iff that value occurs in `s`. */
  ghost predicate Marks(bm: seq<bv8>, s: seq<int>) {
    forall index, bit :: 0 <= index < |bm| && 0 <= bit < 8 ==>
      (BitSet(bm[index], bit) <==> 8 * index + bit in s)
  }
}
