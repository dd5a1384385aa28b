/**
  Script numbers: `ktap_Number` is a C `int`, and the `NUM*` macros are the C
  operators on it.  Signed overflow is undefined in C, so each operation
  requires its exact result to fit; division and remainder truncate toward
  zero, unlike Dafny's Euclidean `/` and `%`.
 */
module Numbers {
  import opened CBits

  /** `NUMADD`: adding a positive number moves up, a negative one down. */
  function NumAdd(a: Int32, b: Int32): (r: Int32)
    requires InInt32(a + b)
    ensures a < r <==> 0 < b
    ensures r == a <==> b == 0
  {
    a + b
  }

  /** `NUMSUB`: adding the subtrahend back restores the minuend. */
  function NumSub(a: Int32, b: Int32): (r: Int32)
    requires InInt32(a - b)
    ensures InInt32(r + b) && NumAdd(r, b) == a
  {
    a - b
  }

  /** `NUMMUL`: a product divided by a non-zero factor gives the other factor back, with no remainder. */
  function NumMul(a: Int32, b: Int32): (r: Int32)
    requires InInt32(a * b)
    ensures b != 0 ==> !(r == -TwoTo31 && b == -1)
    ensures b != 0 ==> NumDiv(r, b) == a && NumMod(r, b) == 0
  {
    if b == 0 then a * b
    else
      MulThenDiv(a, b);
      a * b
  }

  /** `NUMUNM`: the negation is the additive inverse, and subtracting from 0 gives it too. */
  function NumUnm(a: Int32): (r: Int32)
    requires a != -TwoTo31
    ensures r != -TwoTo31
    ensures InInt32(a + r) && NumAdd(a, r) == 0
    ensures InInt32(0 - a) && NumSub(0, a) == r
  {
    -a
  }

  /** `NUMLE`: `a <= b` exactly when the difference `b - a`, where C defines it, is not negative. */
  predicate NumLe(a: Int32, b: Int32)
    ensures InInt32(b - a) ==> (NumLe(a, b) <==> 0 <= NumSub(b, a))
  {
    a <= b
  }

  /** `NUMEQ`: equality is `<=` both ways. */
  predicate NumEq(a: Int32, b: Int32)
    ensures NumEq(a, b) <==> NumLe(a, b) && NumLe(b, a)
  {
    a == b
  }

  /** `NUMLT`: the strict form of `NUMLE`. */
  predicate NumLt(a: Int32, b: Int32)
    ensures NumLt(a, b) <==> NumLe(a, b) && !NumEq(a, b)
    ensures NumLt(a, b) <==> !NumLe(b, a)
    ensures NumLe(a, b) || NumLe(b, a)
  {
    a < b
  }

  /** `NUMISNAN(a)` is `!NUMEQ(a, a)`: an `int` is never NaN. */
  function NumIsNan(a: Int32): (r: bool)
    ensures !r
  {
    !NumEq(a, a)
  }

  function Abs(x: int): nat { if x < 0 then -x else x }

  /**
    `NUMDIV`: C division, truncating toward zero: the magnitude of the
    quotient is the largest whose multiple of the divisor's magnitude does
    not exceed the dividend's, and a non-zero quotient is negative exactly
    when the operands' signs differ.
   */
  function NumDiv(a: Int32, b: Int32): (q: Int32)
    requires b != 0 && !(a == -TwoTo31 && b == -1)
    ensures Abs(b) * Abs(q) <= Abs(a) < Abs(b) * (Abs(q) + 1)
    ensures q != 0 ==> (q < 0 <==> (a < 0) != (b < 0))
    ensures Abs(q) <= Abs(a)
  {
    var m: int := Quot(Abs(a), Abs(b));
    if (a < 0) == (b < 0) then m else -m
  }

  /**
    `NUMMOD`: C remainder, `a - b * (a / b)` with the truncating quotient:
    smaller than the divisor in magnitude, and never of the opposite sign to
    the dividend.
   */
  function NumMod(a: Int32, b: Int32): (r: Int32)
    requires b != 0 && !(a == -TwoTo31 && b == -1)
    ensures Abs(r) < Abs(b) && Abs(r) <= Abs(a)
    ensures r == 0 || (r < 0 <==> a < 0)
    ensures a == b * NumDiv(a, b) + r
  {
    TruncDivMod(a, b);
    a - b * NumDiv(a, b)
  }

  /** Division of magnitudes. */
  function Quot(x: nat, y: nat): (m: nat)
    requires y >= 1
    ensures m <= x && (y >= 2 ==> 2 * m <= x)
    ensures x == y * m + x % y
    ensures y * m <= x < y * (m + 1)
  {
    QuotientBound(x, y);
    Distrib(y, x / y, 1);
    x / y
  }

  /** A quotient by at least 1 is at most the dividend, and by at least 2 at most half of it. */
  lemma QuotientBound(x: nat, y: nat)
    requires y >= 1
    ensures x / y <= x
    ensures y >= 2 ==> 2 * (x / y) <= x
  {
    DivMod(x, y);
    MulMonotone(x / y, 1, y);
    if y >= 2 {
      MulMonotone(x / y, 2, y);
    }
  }

  /**
    The truncating quotient and remainder: `a == b * q + r`, the remainder is
    smaller than the divisor in magnitude and has the sign of the dividend,
    and the quotient does not overshoot `a / b`.
   */
  lemma TruncDivMod(a: Int32, b: Int32)
    requires b != 0 && !(a == -TwoTo31 && b == -1)
    ensures var q, r := NumDiv(a, b), a - b * NumDiv(a, b);
      && a == b * q + r
      && Abs(r) < Abs(b)
      && Abs(r) <= Abs(a)
      && (r == 0 || (r < 0 <==> a < 0))
      && Abs(b) * Abs(q) <= Abs(a)
  {
    var x: int, y: int := Abs(a), Abs(b);
    var m: int, t: int := Quot(x, y), x % y;
    var q := NumDiv(a, b);
    SignedProduct(a, b, m);
    assert q == (if (a < 0) == (b < 0) then m else -m);
    assert b * q == (if a < 0 then -(y * m) else y * m);
    assert a - b * q == (if a < 0 then -t else t);
    assert Abs(b) * Abs(q) == y * m;
  }

  /** `b` times the signed quotient magnitude `m` carries the sign of `a`. */
  lemma SignedProduct(a: int, b: int, m: int)
    requires b != 0
    ensures b * (if (a < 0) == (b < 0) then m else -m) == (if a < 0 then -(Abs(b) * m) else Abs(b) * m)
  {
    if b < 0 {
      MulNeg(-b, m);
    } else {
      MulNeg(b, m);
    }
  }

  lemma MulNeg(x: int, y: int)
    ensures x * -y == -(x * y) && -x * y == -(x * y) && -x * -y == x * y
  {
  }

  /** The magnitude of a product is the product of the magnitudes. */
  lemma AbsMul(x: int, y: int)
    ensures Abs(x * y) == Abs(x) * Abs(y)
  {
    MulNeg(x, y);
    MulNeg(-x, y);
  }

  /**
    A product divided by one of its factors gives the other factor back
    exactly: the truncating quotient of an exact multiple has no remainder.
   */
  lemma MulThenDiv(a: Int32, b: Int32)
    requires b != 0 && InInt32(a * b)
    ensures !(a * b == -TwoTo31 && b == -1)
    ensures NumDiv(a * b, b) == a
    ensures a * b - b * NumDiv(a * b, b) == 0
  {
    var p := a * b;
    MulNeg(a, 1);
    assert b == -1 ==> p == -a;
    TruncDivMod(p, b);
    var q: int := NumDiv(p, b);
    var d := a - q;
    Distrib(b, a, -q);
    MulNeg(b, q);
    assert p - b * q == b * d;
    if d != 0 {
      AbsMul(b, d);
      MulMonotone(Abs(b), 1, Abs(d));
    }
  }

  /** The truncating operators differ from the Euclidean ones on negative operands. */
  lemma TruncationDiffers()
    ensures NumDiv(-7, 2) == -3 && NumMod(-7, 2) == -1
    ensures -7 / 2 == -4 && -7 % 2 == 1
    ensures NumDiv(7, -2) == -3 && NumMod(7, -2) == 1
  {
  }
}
