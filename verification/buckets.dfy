/**
  The bucket index of a table's hash part.

  A table keeps `lsizenode`, the base-2 logarithm of its node count, so the
  node count is always `1 << lsizenode`.  `lmod(s, size)` picks a bucket by
  masking the hash with `size - 1` instead of dividing, which equals the
  remainder exactly when `size` is a power of two.
 */
module Buckets {
  import opened CBits

  /**
    `lmod(s, size)`: `(int)(s & (size - 1))`.  The hash `s` is an `unsigned
    int` or an `int`; `size - 1` must not overflow.
   */
  function Lmod(s: int, size: Int32): (r: Int32)
    requires InInt32(s) || 0 <= s < TwoTo32
    requires size > -TwoTo31
    ensures 1 <= size ==> 0 <= r < size
  {
    BitAnd(s, size - 1)
  }

  /** The node count of a hash part whose log2 size is `lsizenode`. */
  function SizeNode(lsizenode: Byte): (n: Int32)
    requires lsizenode <= 30
    ensures n == Pow2(lsizenode)
  {
    Pow2Below31(lsizenode + 1);
    Shl(1, lsizenode)
  }

  /** For a power-of-two size the mask is the (Euclidean) remainder, for negative hashes too. */
  lemma LmodPowerOfTwo(s: int, k: nat)
    requires InInt32(s) || 0 <= s < TwoTo32
    requires k <= 30
    ensures Pow2(k) < TwoTo31
    ensures Lmod(s, Pow2(k)) == s % Pow2(k)
  {
    Pow2Below31(k + 1);
    BitAndLowMask(s, k);
  }

  /** The bucket of a hash in a node array of `1 << lsizenode` entries: its remainder, in range. */
  function NodeIndex(hash: Uint32, lsizenode: Byte): (r: Int32)
    requires lsizenode <= 30
    ensures 0 <= r < Pow2(lsizenode)
    ensures r == hash % Pow2(lsizenode)
  {
    LmodPowerOfTwo(hash, lsizenode);
    Lmod(hash, SizeNode(lsizenode))
  }

  /** Without a power-of-two size the mask is not the remainder: `3 & (3 - 1) == 2`, but `3 % 3 == 0`. */
  lemma LmodNeedsPowerOfTwo()
    ensures Lmod(3, 3) == 2 && 3 % 3 == 0
  {
    assert And(3, 2) == 2 * And(1, 1);
    assert And(1, 1) == 2 * And(0, 0) + 1;
    assert U32(3) == 3 && U32(2) == 2;
  }
}
