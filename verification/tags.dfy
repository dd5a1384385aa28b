/**
  The type-tag protocol of ktap values.

  A tag is a C `int`.  Bits 0-3 hold the base kind; strings and functions
  carry a variant number in bits 4-5, written `kind | (variant << 4)`.
  `Novariant` drops the variant bits (mask 0x0F) and `TType` keeps the six
  low bits (mask 0x3F).
 */
module Tags {
  import opened CBits

  const TNONE: Int32 := -1

  const TNIL: Int32 := 0
  const TBOOLEAN: Int32 := 1
  const TLIGHTUSERDATA: Int32 := 2
  const TNUMBER: Int32 := 3
  const TSTRING: Int32 := 4
  /** short strings */
  const TSHRSTR: Int32 := BitOr(TSTRING, Shl(0, 4))
  /** long strings */
  const TLNGSTR: Int32 := BitOr(TSTRING, Shl(1, 4))
  const TTABLE: Int32 := 5
  const TFUNCTION: Int32 := 6
  /** script closure */
  const TLCL: Int32 := BitOr(TFUNCTION, Shl(0, 4))
  /** light C function */
  const TLCF: Int32 := BitOr(TFUNCTION, Shl(1, 4))
  /** C closure */
  const TCCL: Int32 := BitOr(TFUNCTION, Shl(2, 4))
  const TUSERDATA: Int32 := 7
  const TTHREAD: Int32 := 8

  /** Number of base kinds visible to scripts. */
  const NUMTAGS: Int32 := 9

  const TPROTO: Int32 := 11
  const TUPVAL: Int32 := 12
  const TEVENT: Int32 := 13

  /** The tag with its variant bits removed (bits 0-3). */
  function Novariant(x: Int32): (r: Int32)
    ensures 0 <= r < 16
    ensures r == x % 16
  {
    BitAndLowMask(x, 4);
    Pow2Is32();
    BitAnd(x, 0x0F)
  }

  /** The tag restricted to its kind and variant bits (bits 0-5). */
  function TType(x: Int32): (r: Int32)
    ensures 0 <= r < 64
    ensures r == x % 64
  {
    BitAndLowMask(x, 6);
    Pow2Is32();
    BitAnd(x, 0x3F)
  }

  /** Every non-negative tag constant defined by the protocol, in declaration order. */
  function DefinedTags(): seq<Int32>
  {
    [TNIL, TBOOLEAN, TLIGHTUSERDATA, TNUMBER, TSTRING, TSHRSTR, TLNGSTR, TTABLE,
     TFUNCTION, TLCL, TLCF, TCCL, TUSERDATA, TTHREAD, TPROTO, TUPVAL, TEVENT]
  }

  /** The tags a value can carry: all of the above except the aliases TSTRING and TFUNCTION. */
  function ValueTags(): seq<Int32>
  {
    [TNIL, TBOOLEAN, TLIGHTUSERDATA, TNUMBER, TSHRSTR, TLNGSTR, TTABLE,
     TLCL, TLCF, TCCL, TUSERDATA, TTHREAD, TPROTO, TUPVAL, TEVENT]
  }

  /**
    The encoding `kind | (variant << 4)`: for a base kind in bits 0-3 it is
    `kind + 16 * variant`, and `Novariant` recovers the kind.  For a variant
    below 4, `TType` leaves the tag as it is.
   */
  lemma VariantEncoding(kind: Int32, variant: Int32)
    requires 0 <= kind < 16 && 0 <= variant && variant * 16 < TwoTo31
    ensures Shl(variant, 4) == variant * 16
    ensures BitOr(kind, Shl(variant, 4)) == kind + 16 * variant
    ensures Novariant(BitOr(kind, Shl(variant, 4))) == kind
    ensures variant < 4 ==> TType(BitOr(kind, Shl(variant, 4))) == kind + 16 * variant
  {
    Pow2Is32();
    OrLowNibble(kind, variant);
    ModUnique(kind + 16 * variant, 16, variant, kind);
    if variant < 4 {
      ModUnique(kind + 16 * variant, 64, 0, kind + 16 * variant);
    }
  }

  /** C `|` of a value below 16 and a multiple of 16 is their sum. */
  lemma OrLowNibble(lo: Int32, hi: Int32)
    requires 0 <= lo < 16 && 0 <= hi && hi * 16 < TwoTo31
    ensures BitOr(lo, hi * 16) == lo + hi * 16
  {
    Pow2Is32();
    OrDisjoint(lo, hi, 4);
    assert Or(lo, hi * 16) == lo + hi * 16;
  }

  /** The variant tags have the values 4, 20, 6, 22 and 38. */
  lemma TagValues()
    ensures TSHRSTR == 4 && TLNGSTR == 20
    ensures TLCL == 6 && TLCF == 22 && TCCL == 38
  {
    VariantEncoding(TSTRING, 0);
    VariantEncoding(TSTRING, 1);
    VariantEncoding(TFUNCTION, 0);
    VariantEncoding(TFUNCTION, 1);
    VariantEncoding(TFUNCTION, 2);
  }

  /** Short and long strings are distinct tags of the one base kind TSTRING. */
  lemma StringVariantsShareKind()
    ensures Novariant(TSHRSTR) == TSTRING && Novariant(TLNGSTR) == TSTRING
    ensures TSHRSTR == TSTRING && TSHRSTR != TLNGSTR
  {
    TagValues();
  }

  /** The three function variants are distinct tags of the one base kind TFUNCTION. */
  lemma FunctionVariantsShareKind()
    ensures Novariant(TLCL) == TFUNCTION && Novariant(TLCF) == TFUNCTION
    ensures Novariant(TCCL) == TFUNCTION
    ensures TLCL == TFUNCTION
    ensures TLCL != TLCF && TLCF != TCCL && TLCL != TCCL
  {
    TagValues();
  }

  /** `TType` is the identity on every non-negative tag constant. */
  lemma TTypeFixesDefinedTags()
    ensures forall i :: 0 <= i < |DefinedTags()| ==> TType(DefinedTags()[i]) == DefinedTags()[i]
  {
    TagValues();
    var tags := DefinedTags();
    assert tags == [0, 1, 2, 3, 4, 4, 20, 5, 6, 6, 22, 38, 7, 8, 11, 12, 13];
    forall i | 0 <= i < |tags|
      ensures TType(tags[i]) == tags[i]
    {
      ModUnique(tags[i], 64, 0, tags[i]);
    }
  }

  /** The tags a value can carry are pairwise distinct. */
  lemma ValueTagsDistinct()
    ensures forall i, j :: 0 <= i < j < |ValueTags()| ==> ValueTags()[i] != ValueTags()[j]
  {
    TagValues();
    assert ValueTags() == [0, 1, 2, 3, 4, 20, 5, 6, 22, 38, 7, 8, 11, 12, 13];
  }

  /**
    Every tag a value can carry has a base kind below NUMTAGS, except the
    three runtime-internal tags for prototypes, upvalues and events.
   */
  lemma KindsBelowNumTags()
    ensures forall i :: 0 <= i < |ValueTags()| ==>
      (Novariant(ValueTags()[i]) < NUMTAGS <==> ValueTags()[i] !in {TPROTO, TUPVAL, TEVENT})
  {
    TagValues();
    var tags := ValueTags();
    assert tags == [0, 1, 2, 3, 4, 20, 5, 6, 22, 38, 7, 8, 11, 12, 13];
    forall i | 0 <= i < |tags|
      ensures Novariant(tags[i]) < NUMTAGS <==> tags[i] !in {TPROTO, TUPVAL, TEVENT}
    {
      if tags[i] == 20 {
        ModUnique(20, 16, 1, 4);
      } else if tags[i] == 22 {
        ModUnique(22, 16, 1, 6);
      } else if tags[i] == 38 {
        ModUnique(38, 16, 2, 6);
      } else {
        ModUnique(tags[i], 16, 0, tags[i]);
      }
    }
  }

  /** TNONE (-1) is all ones, so neither mask leaves it unchanged. */
  lemma NoneUnderMasks()
    ensures Novariant(TNONE) == 15 && TType(TNONE) == 63
    ensures Novariant(TNONE) !in ValueTags() && TType(TNONE) !in ValueTags()
  {
    ModUnique(-1, 16, -1, 15);
    ModUnique(-1, 64, -1, 63);
    TagValues();
    assert ValueTags() == [0, 1, 2, 3, 4, 20, 5, 6, 22, 38, 7, 8, 11, 12, 13];
  }

  /** Keeping bits 0-5 and then bits 0-3 is the same as keeping bits 0-3. */
  lemma NovariantOfTType(x: Int32)
    ensures Novariant(TType(x)) == Novariant(x)
  {
    var q := x / 64;
    DivMod(x, 64);
    var s := TType(x) / 16;
    DivMod(TType(x), 16);
    assert x == 16 * (4 * q + s) + TType(x) % 16;
    ModUnique(x, 16, 4 * q + s, TType(x) % 16);
  }
}
