/**
  Tagged values: `struct ktap_value`, its type predicates, its constructors
  (`set*value`, `setobj`) and the tag gate of raw equality.

  A value is a payload (the C union `_ktap_value`) and a type tag.  The
  payload remembers which union member was written last: a collectable
  object (`gc`), a light pointer (`p`), an `int` (`b` and `n` are both
  `int`, so they share one member) or a C function pointer (`f`).
  Pointers are modelled as plain addresses.
 */
module Values {
  import opened CBits
  import opened Tags

  type Address = nat

  /** The union `_ktap_value`, as the member last written. */
  datatype Payload =
    | Gc(gc: Address)
    | Light(p: Address)
    | Int(n: Int32)
    | CFunction(f: Address)

  /** `struct ktap_value`: the union and the `int` type tag. */
  datatype Value = Value(val: Payload, typ: Int32)

  /** A string object as `setsvalue` sees it: its address and the type tag of its common header. */
  datatype TString = TString(addr: Address, tt: Byte)

  // ---------------------------------------------------------------------------
  // Reading a value
  // ---------------------------------------------------------------------------

  /** `rttype`: the raw tag; `settype` with it rebuilds the value, and its base kind is `ttypenv`. */
  function RawType(o: Value): (r: Int32)
    ensures SetType(o, r) == o
    ensures Novariant(r) == TTypeNv(o) && TType(r) == TTypeOf(o)
  {
    o.typ
  }

  /** `ttype`: the tag with kind and variant bits only. */
  function TTypeOf(o: Value): (r: Int32)
    ensures 0 <= r < 64
    ensures r == o.typ % 64
  {
    TType(o.typ)
  }

  /** `ttypenv`: the base kind of the tag. */
  function TTypeNv(o: Value): (r: Int32)
    ensures 0 <= r < 16
    ensures r == o.typ % 16
  {
    Novariant(o.typ)
  }

  /**
    `bvalue` and `nvalue`: the `int` member.  Writing it back with the
    constructor for the value's tag rebuilds the value.
   */
  function IntValue(o: Value): (n: Int32)
    requires o.val.Int?
    ensures IsBoolean(o) ==> SetBValue(o, n) == o
    ensures TtIsNumber(o) ==> SetNValue(o, n) == o
  {
    o.val.n
  }

  /**
    `gcvalue`, and the casts `hvalue`, `clvalue`, `rawtsvalue`, `rawuvalue`
    built on it.  Writing it back with the constructor for the value's tag
    rebuilds the value.
   */
  function GcValue(o: Value): (a: Address)
    requires o.val.Gc?
    ensures RawType(o) == TTABLE ==> SetHValue(o, a) == o
    ensures RawType(o) == TLCL ==> SetClLValue(o, a) == o
    ensures RawType(o) == TTHREAD ==> SetThValue(o, a) == o
    ensures 0 <= RawType(o) < 0x100 ==> SetSValue(o, TString(a, RawType(o))) == o
  {
    o.val.gc
  }

  /** `evalue`: the light-pointer member; `setevalue` with it rebuilds an event. */
  function EValue(o: Value): (p: Address)
    requires o.val.Light?
    ensures TtIsEvent(o) ==> SetEValue(o, p) == o
  {
    o.val.p
  }

  /** `fvalue`: the C function member; `setfvalue` with it rebuilds a light C function. */
  function FValue(o: Value): (f: Address)
    requires o.val.CFunction?
    ensures RawType(o) == TLCF ==> SetFValue(o, f) == o
  {
    o.val.f
  }

  // ---------------------------------------------------------------------------
  // Type predicates
  // ---------------------------------------------------------------------------

  /** `isnil` and `ttisnil`: a nil value has kind and variant bits 0. */
  predicate IsNil(o: Value)
    ensures IsNil(o) ==> TTypeOf(o) == TNIL && TTypeNv(o) == TNIL
  {
    o.typ == TNIL
  }

  /** `isboolean` and `ttisboolean`: a boolean is not a string. */
  predicate IsBoolean(o: Value)
    ensures IsBoolean(o) ==> TTypeNv(o) == TBOOLEAN && !TtIsString(o)
  {
    o.typ == TBOOLEAN
  }

  /**
    `isfalse`: nil, or a boolean whose `b` member is 0.  Only the nil and
    boolean kinds can be false.
   */
  predicate IsFalse(o: Value)
    requires IsBoolean(o) ==> o.val.Int?
    ensures IsFalse(o) ==> TTypeNv(o) <= TBOOLEAN
    ensures o.typ != TNIL && o.typ != TBOOLEAN ==> !IsFalse(o)
  {
    IsNil(o) || (IsBoolean(o) && IntValue(o) == 0)
  }

  /** `ttisshrstring`: the raw tag is TSHRSTR, so the value is a string. */
  predicate TtIsShrString(o: Value)
    ensures TtIsShrString(o) ==> TtIsString(o) && TTypeNv(o) == TSTRING
  {
    o.typ == TSHRSTR
  }

  /** `ttisstring`: the tag masked with 0x0F is the string kind, i.e. the tag is 4 modulo 16. */
  predicate TtIsString(o: Value)
    ensures TtIsString(o) <==> o.typ % 16 == TSTRING
  {
    BitAndLowMask(o.typ, 4);
    Pow2Is32();
    BitAnd(o.typ, 0x0F) == TSTRING
  }

  /** `ttisnumber`: a number is not false, whatever its payload. */
  predicate TtIsNumber(o: Value)
    ensures TtIsNumber(o) ==> TTypeNv(o) == TNUMBER && !IsNil(o) && !IsBoolean(o)
  {
    o.typ == TNUMBER
  }

  /** `ttisfunc` compares the raw tag with TFUNCTION, which is also TLCL. */
  predicate TtIsFunc(o: Value)
    ensures TtIsFunc(o) <==> o.typ == TLCL
    ensures TtIsFunc(o) ==> TTypeNv(o) == TFUNCTION
  {
    TagValues();
    o.typ == TFUNCTION
  }

  /**
    `ttisequal`: equal raw tags, hence equal `ttype` and equal base kinds.
    It sees the variant bits: on tags within bits 0-5 it is equality of `ttype`.
   */
  predicate TtIsEqual(o1: Value, o2: Value)
    ensures TtIsEqual(o1, o2) ==> TTypeOf(o1) == TTypeOf(o2) && TTypeNv(o1) == TTypeNv(o2)
    ensures 0 <= o1.typ < 64 && 0 <= o2.typ < 64 ==> (TtIsEqual(o1, o2) <==> TTypeOf(o1) == TTypeOf(o2))
  {
    if 0 <= o1.typ < 64 && 0 <= o2.typ < 64 then
      ModUnique(o1.typ, 64, 0, o1.typ);
      ModUnique(o2.typ, 64, 0, o2.typ);
      o1.typ == o2.typ
    else
      o1.typ == o2.typ
  }

  /** `ttisevent`: an event's base kind lies outside the kinds visible to scripts. */
  predicate TtIsEvent(o: Value)
    ensures TtIsEvent(o) ==> TTypeNv(o) == TEVENT && TTypeNv(o) >= NUMTAGS
  {
    ModUnique(TEVENT, 16, 0, TEVENT);
    o.typ == TEVENT
  }

  /**
    The invariant the constructors keep: the tag says which union member
    holds the payload.  A nil value may keep whatever payload it had before.
   */
  predicate WellTagged(o: Value)
  {
    match o.val
    case Int(_) => o.typ in {TNIL, TBOOLEAN, TNUMBER}
    case Light(_) => o.typ in {TNIL, TLIGHTUSERDATA, TEVENT}
    case CFunction(_) => o.typ in {TNIL, TLCF}
    case Gc(_) => o.typ in {TNIL, TSHRSTR, TLNGSTR, TTABLE, TLCL, TCCL, TUSERDATA, TTHREAD, TPROTO, TUPVAL}
  }

  // ---------------------------------------------------------------------------
  // Constructors
  // ---------------------------------------------------------------------------

  /** `settype`: overwrites the tag, keeps the payload. */
  function SetType(o: Value, t: Int32): (r: Value)
    ensures r.typ == t && r.val == o.val
  {
    o.(typ := t)
  }

  /** `setnilvalue` writes only the tag: the old payload stays in the union. */
  function SetNilValue(o: Value): (r: Value)
    ensures IsNil(r) && IsFalse(r)
    ensures r.val == o.val
  {
    SetType(o, TNIL)
  }

  function SetBValue(o: Value, x: Int32): (r: Value)
    ensures IsBoolean(r) && r.val.Int? && r.val.n == x
  {
    Value(Int(x), TBOOLEAN)
  }

  function SetNValue(o: Value, x: Int32): (r: Value)
    ensures TtIsNumber(r) && r.val.Int? && r.val.n == x
  {
    Value(Int(x), TNUMBER)
  }

  /** `setsvalue` takes the tag from the string object's own header. */
  function SetSValue(o: Value, x: TString): (r: Value)
    ensures r.typ == x.tt && r.val.Gc? && r.val.gc == x.addr
  {
    Value(Gc(x.addr), x.tt)
  }

  /** `setcllvalue`: a script closure. */
  function SetClLValue(o: Value, x: Address): (r: Value)
    ensures r.typ == TLCL && r.val.Gc? && r.val.gc == x
  {
    Value(Gc(x), TLCL)
  }

  /** `sethvalue`: a table. */
  function SetHValue(o: Value, x: Address): (r: Value)
    ensures r.typ == TTABLE && r.val.Gc? && r.val.gc == x
  {
    Value(Gc(x), TTABLE)
  }

  /** `setfvalue`: a light C function. */
  function SetFValue(o: Value, x: Address): (r: Value)
    ensures r.typ == TLCF && r.val.CFunction? && r.val.f == x
  {
    Value(CFunction(x), TLCF)
  }

  /** `setthvalue`: a thread (the state argument is unused). */
  function SetThValue(o: Value, x: Address): (r: Value)
    ensures r.typ == TTHREAD && r.val.Gc? && r.val.gc == x
  {
    Value(Gc(x), TTHREAD)
  }

  /** `setevalue`: an event, stored in the light-pointer member. */
  function SetEValue(o: Value, x: Address): (r: Value)
    ensures TtIsEvent(r) && r.val.Light? && r.val.p == x
  {
    Value(Light(x), TEVENT)
  }

  /**
    `setobj(obj1, obj2)` on two slots of one value array: slot `dst` receives
    the payload and the tag of slot `src`, and no other slot changes.
   */
  function SetObj(slots: seq<Value>, dst: nat, src: nat): (r: seq<Value>)
    requires dst < |slots| && src < |slots|
    ensures |r| == |slots|
    ensures r[dst].val == slots[src].val && TtIsEqual(r[dst], slots[src])
    ensures forall i :: 0 <= i < |slots| && i != dst ==> r[i] == slots[i]
  {
    slots[dst := slots[src]]
  }

  // ---------------------------------------------------------------------------
  // Raw equality
  // ---------------------------------------------------------------------------

  /**
    `rawequalobj`: equal raw tags, then the payload comparison `kp_equalobjv`,
    whose body is not part of this model and is passed in as `equalv`.
    `equalobj` is the same test.
   */
  predicate RawEqualObj(equalv: (Value, Value) -> bool, t1: Value, t2: Value)
    ensures RawEqualObj(equalv, t1, t2) ==> TTypeNv(t1) == TTypeNv(t2) && equalv(t1, t2)
    ensures TtIsEqual(t1, t2) ==> (RawEqualObj(equalv, t1, t2) <==> equalv(t1, t2))
    ensures !TtIsEqual(t1, t2) ==> !RawEqualObj(equalv, t1, t2)
  {
    TtIsEqual(t1, t2) && equalv(t1, t2)
  }

  // ---------------------------------------------------------------------------
  // Properties
  // ---------------------------------------------------------------------------

  /** `ttisstring` holds exactly for tags congruent to TSTRING modulo 16; a short string is a string. */
  lemma StringPredicates(o: Value)
    ensures TtIsString(o) <==> Novariant(o.typ) == TSTRING
    ensures TtIsString(o) <==> o.typ % 16 == TSTRING
    ensures TtIsShrString(o) ==> TtIsString(o)
  {
    BitAndLowMask(o.typ, 4);
    Pow2Is32();
    TagValues();
  }

  /** A short-string object gives a short string; a long-string object a string that is not short. */
  lemma StringValueVariants(o: Value, x: TString)
    ensures x.tt == TSHRSTR ==> TtIsString(SetSValue(o, x)) && TtIsShrString(SetSValue(o, x))
    ensures x.tt == TLNGSTR ==> TtIsString(SetSValue(o, x)) && !TtIsShrString(SetSValue(o, x))
    ensures x.tt == TSHRSTR || x.tt == TLNGSTR ==> TTypeNv(SetSValue(o, x)) == TSTRING
  {
    StringVariantsShareKind();
    StringPredicates(SetSValue(o, x));
  }

  /**
    `ttisfunc` holds only for script closures: a light C function and a
    C closure have the function kind but fail the test.
   */
  lemma FuncPredicate(o: Value, x: Address, v: Value)
    ensures TtIsFunc(v) <==> RawType(v) == TLCL
    ensures TtIsFunc(SetClLValue(o, x))
    ensures !TtIsFunc(SetFValue(o, x)) && TTypeNv(SetFValue(o, x)) == TFUNCTION
    ensures RawType(v) == TCCL ==> !TtIsFunc(v) && TTypeNv(v) == TFUNCTION
  {
    FunctionVariantsShareKind();
  }

  /** A value is false exactly when it is nil or the boolean 0; the number 0 is not false. */
  lemma IsFalseCases(o: Value, x: Int32, v: Value)
    requires IsBoolean(v) ==> v.val.Int?
    ensures IsFalse(SetNilValue(o))
    ensures IsFalse(SetBValue(o, x)) <==> x == 0
    ensures !IsFalse(SetNValue(o, x))
    ensures IsFalse(v) ==> RawType(v) == TNIL || (RawType(v) == TBOOLEAN && IntValue(v) == 0)
    ensures RawType(v) != TNIL && RawType(v) != TBOOLEAN ==> !IsFalse(v)
  {
  }

  /** Every constructor yields a well-tagged value (for a string object whose header carries a string tag). */
  lemma ConstructorsWellTagged(o: Value, x: Int32, a: Address, s: TString)
    ensures WellTagged(SetNilValue(o))
    ensures WellTagged(SetBValue(o, x)) && WellTagged(SetNValue(o, x))
    ensures s.tt == TSHRSTR || s.tt == TLNGSTR ==> WellTagged(SetSValue(o, s))
    ensures WellTagged(SetClLValue(o, a)) && WellTagged(SetHValue(o, a))
    ensures WellTagged(SetFValue(o, a)) && WellTagged(SetThValue(o, a))
    ensures WellTagged(SetEValue(o, a))
  {
  }

  /**
    After `setobj` the destination holds exactly the source's value, so the
    two slots have equal tags and are raw-equal under any reflexive payload
    comparison; the source slot is unchanged and well-tagged slots stay so.
   */
  lemma SetObjCopies(slots: seq<Value>, dst: nat, src: nat, equalv: (Value, Value) -> bool)
    requires dst < |slots| && src < |slots|
    ensures SetObj(slots, dst, src)[dst] == SetObj(slots, dst, src)[src] == slots[src]
    ensures TtIsEqual(SetObj(slots, dst, src)[dst], SetObj(slots, dst, src)[src])
    ensures equalv(slots[src], slots[src]) ==>
      RawEqualObj(equalv, SetObj(slots, dst, src)[dst], SetObj(slots, dst, src)[src])
    ensures (forall i :: 0 <= i < |slots| ==> WellTagged(slots[i])) ==>
      forall i :: 0 <= i < |slots| ==> WellTagged(SetObj(slots, dst, src)[i])
  {
  }

  /** Values with different raw tags are never raw-equal, whatever the payload comparison says. */
  lemma RawEqualNeedsSameTag(equalv: (Value, Value) -> bool, t1: Value, t2: Value)
    ensures RawType(t1) != RawType(t2) ==> !RawEqualObj(equalv, t1, t2)
    ensures RawEqualObj(equalv, t1, t2) ==> TTypeNv(t1) == TTypeNv(t2)
  {
  }

  /**
    A short and a long string are never raw-equal, even at one address, and
    neither are the number 0 and the boolean false.
   */
  lemma VariantsNeverRawEqual(equalv: (Value, Value) -> bool, o1: Value, o2: Value, s1: TString, s2: TString)
    requires s1.tt == TSHRSTR && s2.tt == TLNGSTR
    ensures !RawEqualObj(equalv, SetSValue(o1, s1), SetSValue(o2, s2))
    ensures !RawEqualObj(equalv, SetNValue(o1, 0), SetBValue(o2, 0))
  {
    StringVariantsShareKind();
  }
}
