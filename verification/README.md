# ktap tagged values and type tags, in Dafny

This project models the value representation of the ktap tracing runtime, as
declared in `include/ktap_types.h`:

- **Type tags** (`Tags`). A tag is a C `int`. The base kind (nil, boolean,
  light userdata, number, string, table, function, userdata, thread, and the
  internal prototype, upvalue and event tags) sits in bits 0-3. Strings and
  functions add a variant number in bits 4-5, written `kind | (variant << 4)`.
  `novariant` masks the tag with `0x0F` and `ttype` masks it with `0x3F`.
- **Values** (`Values`). A `ktap_value` is a payload union plus an `int` tag.
  The module covers:
  - the readers (`rttype`, `ttype`, `ttypenv`, `bvalue`/`nvalue`, `gcvalue`, `evalue`, `fvalue`);
  - the type predicates (`isnil`, `isboolean`, `isfalse`, `ttis*`);
  - the constructors (`settype`, `set*value`, `setobj`);
  - the tag gate of `rawequalobj` / `equalobj`.
- **Bucket index** (`Buckets`). `lmod(s, size)` masks a hash with `size - 1`.
  A table's hash part has `1 << lsizenode` nodes.
- **Numbers** (`Numbers`). `ktap_Number` is a C `int` and the `NUM*` macros
  are the C operators on it.
- **Chunk header constants** (`Header`). These are `VERSION` and
  `KTAPC_HEADERSIZE`.

C's integers and bitwise operators are modelled in `CBits`:

- An `int` is a 32-bit two's-complement integer.
- `&` and `|` are defined bit by bit on the 32-bit patterns.
- A left shift into the sign bit is undefined in C, so it is a precondition.

Pointers are plain addresses. A payload records which union member was last
written. `b` and `n` are both `int`, so they share one member.

The header's macros fix three behaviours a reader might not expect:

- `setnilvalue` writes only the tag, so the previous payload stays in the union.
  Constructors do not always replace the payload together with the tag.
- `ttisfunc` compares the raw tag with `KTAP_TFUNCTION`, which equals `KTAP_TLCL`.
  So it is false for light C functions and C closures, even though they have the
  function base kind.
- `ttisshrstring` and `rawequalobj` compare raw tags, variant bits included.

## Model

| member | source | states |
|---|---|---|
| CBits.BitAndLowMask | include/ktap_types.h:395-404 | masking a C `int` (negative ones included) with `2^k - 1` yields its non-negative residue modulo `2^k` |
| CBits.OrDisjoint | include/ktap_types.h:377-383 | OR-ing a value below `2^k` into a multiple of `2^k` is addition, which is why a kind OR-ed with `v << 4` is `kind + 16 * v` |
| Tags.Novariant | include/ktap_types.h:403-404 | `x & 0x0F` is the residue of the tag modulo 16, so it lies in 0..15 |
| Tags.TType | include/ktap_types.h:395 | `x & 0x3F` is the residue of the tag modulo 64, so it lies in 0..63 |
| Tags.VariantEncoding | include/ktap_types.h:377-383 | for a kind below 16, the kind OR-ed with `variant << 4` equals `kind + 16 * variant`; `novariant` recovers the kind, and `ttype` keeps a variant below 4 |
| Tags.TagValues | include/ktap_types.h:376-383 | the variant tags are TSHRSTR = 4, TLNGSTR = 20, TLCL = 6, TLCF = 22, TCCL = 38 |
| Tags.StringVariantsShareKind | include/ktap_types.h:376-378 | short and long strings are different tags with the same base kind TSTRING; TSHRSTR equals TSTRING |
| Tags.FunctionVariantsShareKind | include/ktap_types.h:380-383 | the three function variants are pairwise distinct tags, all with base kind TFUNCTION; TLCL equals TFUNCTION |
| Tags.TTypeFixesDefinedTags | include/ktap_types.h:372-395 | `ttype` leaves every non-negative tag constant unchanged |
| Tags.ValueTagsDistinct | include/ktap_types.h:372-392 | the fifteen tags a value can carry are pairwise distinct |
| Tags.KindsBelowNumTags | include/ktap_types.h:387-392 | a value tag's base kind is below NUMTAGS exactly when the tag is not one of the internal tags TPROTO, TUPVAL, TEVENT |
| Tags.NoneUnderMasks | include/ktap_types.h:370-404 | TNONE (-1) masks to 15 and 63, and neither is a tag a value can carry |
| Tags.NovariantOfTType | include/ktap_types.h:395-407 | taking `novariant` after `ttype` gives the same result as `novariant` alone |
| Values.RawType | include/ktap_types.h:396-401 | `settype` with the raw tag rebuilds the value; masking the raw tag gives `ttype` and `ttypenv` |
| Values.IntValue | include/ktap_types.h:411-412 | writing `bvalue`/`nvalue` back with `setbvalue`/`setnvalue` rebuilds a boolean or number value |
| Values.GcValue | include/ktap_types.h:413-424 | writing `gcvalue` back with `sethvalue`, `setcllvalue`, `setthvalue` or `setsvalue` rebuilds a table, script closure, thread or string value |
| Values.EValue | include/ktap_types.h:422 | writing `evalue` back with `setevalue` rebuilds an event value |
| Values.FValue | include/ktap_types.h:419 | writing `fvalue` back with `setfvalue` rebuilds a light C function value |
| Values.IsNil | include/ktap_types.h:426 | a nil value has `ttype` and base kind 0 |
| Values.IsBoolean | include/ktap_types.h:427 | a boolean has base kind TBOOLEAN and is not a string |
| Values.IsFalse | include/ktap_types.h:428 | only values of the nil or boolean kind can be false; every other raw tag is never false |
| Values.TtIsShrString | include/ktap_types.h:430 | a short string passes `ttisstring` and has base kind TSTRING |
| Values.TtIsString | include/ktap_types.h:431 | `(type & 0x0F) == TSTRING` holds exactly when the tag is 4 modulo 16, negative tags included |
| Values.TtIsNumber | include/ktap_types.h:432 | a number has base kind TNUMBER and is neither nil nor boolean |
| Values.TtIsFunc | include/ktap_types.h:433 | `ttisfunc` holds exactly for the raw tag TLCL, and then the base kind is TFUNCTION |
| Values.TtIsEqual | include/ktap_types.h:436 | equal raw tags have equal `ttype` and base kind; on tags within bits 0-5 the test is exactly equality of `ttype`, so it tells variants of one kind apart |
| Values.TtIsEvent | include/ktap_types.h:437 | an event's base kind is TEVENT, outside the NUMTAGS kinds visible to scripts |
| Values.RawEqualObj | include/ktap_types.h:476-479 | with equal raw tags the result is the payload comparison; with different raw tags it is false; raw-equal values share a base kind |
| Values.TTypeOf | include/ktap_types.h:395 | a value's `ttype` is its tag modulo 64, in 0..63 |
| Values.TTypeNv | include/ktap_types.h:407 | a value's `ttypenv` is its tag modulo 16, in 0..15 |
| Values.SetType | include/ktap_types.h:396 | `settype` sets the raw tag and leaves the payload as it was |
| Values.SetNilValue | include/ktap_types.h:441 | the result is nil and false, and keeps the old payload |
| Values.SetBValue | include/ktap_types.h:443-444 | the result is a boolean whose `bvalue` reads back `x` |
| Values.SetNValue | include/ktap_types.h:446-447 | the result is a number whose `nvalue` reads back `x` |
| Values.SetSValue | include/ktap_types.h:449-452 | the result's tag is the string object's own header tag, and its `gcvalue` is the object |
| Values.SetClLValue | include/ktap_types.h:454-456 | the result is tagged TLCL and refers to the closure |
| Values.SetHValue | include/ktap_types.h:458-460 | the result is tagged TTABLE and refers to the table |
| Values.SetFValue | include/ktap_types.h:462-463 | the result is tagged TLCF and `fvalue` reads back the C function |
| Values.SetThValue | include/ktap_types.h:465-467 | the result is tagged TTHREAD and refers to the thread |
| Values.SetEValue | include/ktap_types.h:469-470 | the result is an event whose `evalue` reads back the pointer |
| Values.SetObj | include/ktap_types.h:472-474 | the destination gets the source's payload and tag, so `ttisequal` holds; the length and every other slot are unchanged |
| Values.StringPredicates | include/ktap_types.h:430-431 | `ttisstring` holds exactly when the tag's base kind is TSTRING (the tag is congruent to 4 modulo 16); a short string is a string |
| Values.StringValueVariants | include/ktap_types.h:430-431 | a string value from a short-string object passes both string tests; one from a long-string object passes `ttisstring` but not `ttisshrstring`; both have base kind TSTRING |
| Values.FuncPredicate | include/ktap_types.h:433 | `ttisfunc` holds exactly for the raw tag TLCL; a light C function or C closure fails it despite having base kind TFUNCTION |
| Values.IsFalseCases | include/ktap_types.h:426-428 | `isfalse` holds exactly for nil and the boolean 0; the number 0 is not false, and no other tag is false |
| Values.ConstructorsWellTagged | include/ktap_types.h:441-470 | every constructor leaves the tag naming the union member that holds the payload (for a string object with a string header tag) |
| Values.SetObjCopies | include/ktap_types.h:472-477 | after `setobj` both slots hold the source value, are raw-equal under any reflexive payload comparison, and a well-tagged array stays well-tagged |
| Values.RawEqualNeedsSameTag | include/ktap_types.h:476-479 | values with different raw tags are never raw-equal, whatever the payload comparison says; raw-equal values have the same base kind |
| Values.VariantsNeverRawEqual | include/ktap_types.h:436-477 | a short and a long string are never raw-equal, and neither are the number 0 and boolean false |
| Buckets.Lmod | include/ktap_types.h:248 | for a positive size, `s & (size - 1)` lies in `[0, size)` |
| Buckets.SizeNode | include/ktap_types.h:240 | the node count of a hash part is `2^lsizenode` |
| Buckets.LmodPowerOfTwo | include/ktap_types.h:248 | for a power-of-two size, the mask equals the non-negative residue of the hash, negative hashes included |
| Buckets.NodeIndex | include/ktap_types.h:240-248 | a hash's bucket in a `1 << lsizenode` node array is the hash modulo the node count, and lies in range |
| Buckets.LmodNeedsPowerOfTwo | include/ktap_types.h:248 | for size 3 the mask differs from the remainder (`3 & 2 == 2`, while `3 % 3 == 0`) |
| Numbers.NumIsNan | include/ktap_types.h:491 | `NUMISNAN` is never true of an `int` |
| Numbers.NumAdd | include/ktap_types.h:483 | adding a positive number gives a larger one, and the sum equals `a` only when `b` is 0 |
| Numbers.NumSub | include/ktap_types.h:484 | adding the subtrahend back with `NUMADD` restores the minuend |
| Numbers.NumMul | include/ktap_types.h:485 | dividing the product by a non-zero factor with `NUMDIV` gives the other factor, and `NUMMOD` gives 0 |
| Numbers.NumUnm | include/ktap_types.h:487 | the negation is the additive inverse (`NUMADD(a, -a) == 0`), and equals `NUMSUB(0, a)` |
| Numbers.NumEq | include/ktap_types.h:488 | equality is `NUMLE` in both directions |
| Numbers.NumLt | include/ktap_types.h:489 | `NUMLT` is `NUMLE` without equality, and is the negation of the swapped `NUMLE`; any two numbers are `NUMLE`-comparable |
| Numbers.NumLe | include/ktap_types.h:490 | `a <= b` exactly when the difference `b - a`, where it fits, is not negative |
| Numbers.NumDiv | include/ktap_types.h:486 | C division truncates toward zero: the quotient's magnitude `m` is the largest whose multiple of the divisor's magnitude does not exceed the dividend's magnitude, and a non-zero quotient is negative exactly when the operands' signs differ |
| Numbers.NumMod | include/ktap_types.h:494 | the C remainder is smaller than the divisor and no larger than the dividend in magnitude, and never has the opposite sign to the dividend; with the truncating quotient it satisfies `a == b * (a / b) + a % b` |
| Numbers.MulThenDiv | include/ktap_types.h:485-486 | an exact product divided by one factor gives the other factor with no remainder, and `INT_MIN / -1` cannot arise from it |
| Numbers.TruncDivMod | include/ktap_types.h:486-494 | `a == b * q + r`; `r` has the sign of `a` and is smaller than `b` in magnitude; the magnitude of `b * q` is at most that of `a` |
| Numbers.TruncationDiffers | include/ktap_types.h:486-494 | `-7 / 2` is -3 and `-7 % 2` is -1 in C, while the Euclidean results are -4 and 1 |
| Header.MyInt | include/ktap_types.h:51 | `s[0] - '0'` lies in 0..9 exactly when the first character is a decimal digit |
| Header.Version | include/ktap_types.h:44-52 | `VERSION` is 1: the major version in the high nibble and the minor in the low one |
| Header.HeaderSize | include/ktap_types.h:55-62 | `KTAPC_HEADERSIZE` is 5 + 2 + 6 + 6 = 19 bytes |

Signed overflow is undefined in C, so `Numbers.NumAdd`, `NumSub`, `NumMul`
and `NumUnm` require their exact results to fit in an `int`, and `NumDiv` and
`NumMod` exclude a zero divisor and `INT_MIN / -1`. The comparisons
`NumEq`, `NumLt` and `NumLe` need no precondition.

## Left out

- Values.IsFalse: requires a boolean-tagged value to hold the `int` member. In C, `bvalue` of a mistagged value reads whatever bytes the union holds; union type-punning is not modelled.
- Values.IntValue, Values.GcValue, Values.EValue, Values.FValue: require that the member read is the one last written. Reading another member is union type-punning, which is not modelled.
- The union type-punning in `Gcobject`, `Tkey` and `ktap_closure`, and the casts `hvalue`, `clvalue`, `rawtsvalue` and `uvalue`. These are memory-layout aliasing; the model keeps only the address.
- `pvalue` (line 418) returns the address of the union field, not a value. There is no memory model to point into.
- `getstr` and `eqshrstr` (lines 84-85) depend on object layout and pointer identity. The string bytes and interning are not modelled.
- The functions declared without bodies (lines 498-535): `kp_tstring_*`, `kp_table_*`, `kp_newobject`, `kp_equalobjv`, `kp_str2d` and the others. Their behaviour is not in the header. `kp_equalobjv` appears only as the payload-comparison parameter of `Values.RawEqualObj`.
- The struct layouts of `Upval`, closures, `Proto`, `Callinfo`, `Table`, `Stringtable`, `ktap_global_state` and `ktap_state` (lines 135-309). These are data shapes with no operation in the header. `Table.lsizenode` appears only as the argument of `Buckets.SizeNode` and `Buckets.NodeIndex`.
- Allocator, error and kernel plumbing: `kp_malloc`, `kp_realloc`, `kp_free`, `kp_runerror`, `kp_exit`, `G`, the spinlock stubs and kernel-only fields (lines 537-576). These are foreign calls and I/O.
- The command enum (lines 24-39) is a protocol with a front end that is not part of this model.
- `NUMPOW` (line 495) calls floating-point `pow`.
- `ktap_number2int` (line 361) is the identity on an `int`. `check_exp` and `ktap_assert` expand to their argument or to nothing.
- `incr_top` moves a stack pointer, and the stack is not modelled.
- The string constants `KTAP_ENV`, `KTAP_VERSION`, `KTAP_COPYRIGHT`, `KTAP_AUTHORS` and `KTAP_QL`/`KTAP_QS`, and the registry indices: they carry no behaviour.
- A string object is seen only through its address and its header tag `tt`. Its `marked` and `extra` bytes, hash, length and characters are read only by code that is not part of this model.
- `u8` is `char` outside the kernel, which may be signed. The header tag `tt` is modelled as 0..255. Every tag a string header holds (4 or 20) has the same value either way.
