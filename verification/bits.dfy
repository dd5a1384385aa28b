/**
  C integer representation and the bitwise operators the tag protocol uses.

  A C `int` is a 32-bit two's-complement integer and `unsigned int` holds
  32 bits.  The bitwise operators are defined arithmetically, bit by bit, on
  natural numbers; a signed operand takes part through its two's-complement
  bit pattern (`U32`), and a result is read back as an `int` by `ToInt32`.
 */
module CBits {

  const TwoTo31: int := 0x8000_0000
  const TwoTo32: int := 0x1_0000_0000

  /** A value of C type `int`. */
  type Int32 = x: int | -0x8000_0000 <= x < 0x8000_0000

  /** A value of C type `unsigned int`. */
  type Uint32 = x: int | 0 <= x < 0x1_0000_0000

  /** A value of type `u8` (the kernel's `unsigned char`). */
  type Byte = x: int | 0 <= x < 0x100

  predicate InInt32(x: int) { -TwoTo31 <= x < TwoTo31 }

  function Pow2(k: nat): (r: nat)
    ensures r >= 1
  {
    if k == 0 then 1 else 2 * Pow2(k - 1)
  }

  /** The 32-bit pattern of `x`: its residue modulo 2^32. */
  function U32(x: int): Uint32
  {
    x % TwoTo32
  }

  /** Reads a 32-bit pattern as a two's-complement `int`. */
  function ToInt32(u: Uint32): (r: Int32)
    ensures U32(r) == u
    ensures u < TwoTo31 ==> r == u
  {
    if u < TwoTo31 then u else u - TwoTo32
  }

  /** Bitwise AND of two bit patterns. */
  function And(a: nat, b: nat): (r: nat)
    ensures r <= a && r <= b
  {
    if a == 0 || b == 0 then 0
    else 2 * And(a / 2, b / 2) + (if a % 2 == 1 && b % 2 == 1 then 1 else 0)
  }

  /** Bitwise OR of two bit patterns. */
  function Or(a: nat, b: nat): (r: nat)
    ensures a <= r && b <= r && r <= a + b
  {
    if a == 0 then b
    else if b == 0 then a
    else 2 * Or(a / 2, b / 2) + (if a % 2 == 1 || b % 2 == 1 then 1 else 0)
  }

  /** C `x & y` on two `int` operands (or an `int` and an `unsigned int`). */
  function BitAnd(x: int, y: int): (r: Int32)
    requires InInt32(x) || 0 <= x < TwoTo32
    requires InInt32(y) || 0 <= y < TwoTo32
    ensures 0 <= y < TwoTo31 ==> 0 <= r <= y
  {
    ToInt32(And(U32(x), U32(y)))
  }

  /** C `x | y` on two `int` operands. */
  function BitOr(x: Int32, y: Int32): (r: Int32)
    ensures 0 <= x && 0 <= y ==> x <= r && y <= r
  {
    Pow2Is32();
    OrBelowPow2(U32(x), U32(y), 32);
    if 0 <= x && 0 <= y then
      OrBelowPow2(x, y, 31);
      ToInt32(Or(x, y))
    else
      ToInt32(Or(U32(x), U32(y)))
  }

  /** C `v << n` on a non-negative `int`; shifting into or past the sign bit is undefined. */
  function Shl(v: Int32, n: nat): (r: Int32)
    requires n < 32
    requires 0 <= v && v * Pow2(n) < TwoTo31
    ensures r == v * Pow2(n)
    decreases n
  {
    if n == 0 then v
    else
      assert v * Pow2(n) == 2 * v * Pow2(n - 1);
      Shl(2 * v, n - 1)
  }

  // ---------------------------------------------------------------------------
  // Arithmetic facts about the bit-level definitions
  // ---------------------------------------------------------------------------

  /** Residues are unique: `a == m * q + t` with `0 <= t < m` gives `a % m == t`. */
  lemma ModUnique(a: int, m: int, q: int, t: int)
    requires 0 < m && 0 <= t < m && a == m * q + t
    ensures a % m == t
  {
    var q', t' := a / m, a % m;
    assert a == m * q' + t';
    var d := q - q';
    assert m * q - m * q' == m * d;
    assert m * d == t' - t;
    if d >= 1 {
      MulMonotone(m, 1, d);
    } else if d <= -1 {
      MulMonotone(m, 1, -d);
    }
  }

  lemma MulMonotone(m: int, x: int, y: int)
    requires 0 <= m && x <= y
    ensures m * x <= m * y
  {
    assert m * y - m * x == m * (y - x);
  }

  lemma Pow2Add(j: nat, k: nat)
    ensures Pow2(j + k) == Pow2(j) * Pow2(k)
  {
    if j > 0 {
      Pow2Add(j - 1, k);
    }
  }

  /** Masking with `2^k - 1` keeps the low `k` bits: `a & (2^k - 1) == a % 2^k`. */
  lemma {:induction false} AndLowBits(a: nat, k: nat)
    ensures And(a, Pow2(k) - 1) == a % Pow2(k)
  {
    if k == 0 {
    } else if a == 0 {
    } else {
      var p := Pow2(k - 1);
      var m := Pow2(k) - 1;
      assert m == 2 * (p - 1) + 1;
      var h, b := a / 2, a % 2;
      AndLowBits(h, k - 1);
      var s, t := h / p, h % p;
      assert And(a, m) == 2 * t + b;
      DivMod(h, p);
      MulAssoc(2, p, s);
      assert a == (2 * p) * s + (2 * t + b);
      ModUnique(a, 2 * p, s, 2 * t + b);
    }
  }

  lemma DivMod(a: int, m: int)
    requires m > 0
    ensures a == m * (a / m) + a % m && 0 <= a % m < m
  {
  }

  lemma Distrib(x: int, y: int, z: int)
    ensures x * (y + z) == x * y + x * z
  {
  }

  lemma MulAssoc(x: int, y: int, z: int)
    ensures (x * y) * z == x * (y * z)
  {
  }

  /** OR-ing a value below `2^k` into a multiple of `2^k` is addition. */
  lemma {:induction false} OrDisjoint(lo: nat, hi: nat, k: nat)
    requires lo < Pow2(k)
    ensures Or(lo, hi * Pow2(k)) == lo + hi * Pow2(k)
  {
    if k == 0 {
    } else if lo == 0 || hi == 0 {
    } else {
      var p := Pow2(k - 1);
      assert hi * Pow2(k) == 2 * (hi * p);
      assert (hi * Pow2(k)) / 2 == hi * p && (hi * Pow2(k)) % 2 == 0;
      OrDisjoint(lo / 2, hi, k - 1);
    }
  }

  /** OR never sets a bit at or above position `k` that neither operand had. */
  lemma {:induction false} OrBelowPow2(a: nat, b: nat, k: nat)
    requires a < Pow2(k) && b < Pow2(k)
    ensures Or(a, b) < Pow2(k)
  {
    if a == 0 || b == 0 {
    } else {
      assert k > 0;
      OrBelowPow2(a / 2, b / 2, k - 1);
    }
  }

  /** Reducing modulo 2^32 first does not change a residue modulo `2^k`, `k <= 32`. */
  lemma U32Mod(x: int, k: nat)
    requires k <= 32
    ensures U32(x) % Pow2(k) == x % Pow2(k)
  {
    var p := Pow2(k);
    var c := Pow2(32 - k);
    Pow2Add(k, 32 - k);
    Pow2Is32();
    assert TwoTo32 == p * c;
    var q, u := x / TwoTo32, U32(x);
    assert x == TwoTo32 * q + u;
    MulAssoc(p, c, q);
    var s, r := u / p, u % p;
    DivMod(u, p);
    Distrib(p, c * q, s);
    ModUnique(x, p, c * q + s, r);
  }

  lemma Pow2Is32()
    ensures Pow2(4) == 16 && Pow2(6) == 64 && Pow2(31) == TwoTo31 && Pow2(32) == TwoTo32
  {
    Pow2Add(4, 4);
    Pow2Add(8, 8);
    Pow2Add(16, 15);
    Pow2Add(16, 16);
    assert Pow2(15) == 0x8000;
  }

  lemma Pow2Below31(k: nat)
    requires k <= 31
    ensures Pow2(k) <= TwoTo31
  {
    Pow2Add(k, 31 - k);
    Pow2Is32();
    MulMonotone(Pow2(k), 1, Pow2(31 - k));
  }

  /** `x & (2^k - 1)` on C `int`s is the (non-negative) residue of `x` modulo `2^k`. */
  lemma BitAndLowMask(x: int, k: nat)
    requires InInt32(x) || 0 <= x < TwoTo32
    requires k <= 31
    ensures Pow2(k) - 1 < TwoTo31
    ensures BitAnd(x, Pow2(k) - 1) == x % Pow2(k)
  {
    Pow2Below31(k);
    var m := Pow2(k) - 1;
    assert U32(m) == m;
    AndLowBits(U32(x), k);
    U32Mod(x, k);
    var a := And(U32(x), U32(m));
    assert a == x % Pow2(k) < TwoTo31;
  }
}
