/** Packing rows into a binding table (src/core/bindtab.c, cl_bindtab_pack and its parsers) and
    reading a table back as rows (entry_row). */
module TablePacker {
  import opened Digits
  import opened Magnitude
  import opened Integers
  import opened Names
  import opened TableFormat
  import opened TableProbe

  // ---- rows as written ----

  /** The character codes of a string designator. */
  type Chars = seq<int>

  datatype InputValue = IntegerValue(x: Integer) | StringValue(chars: Chars) | OtherValue

  /** A keyword that names no C type is code -1. */
  datatype InputType = ScalarType(ctype: int) | ArrayType(ctype: int, count: int) | StructType(size: int)

  datatype InputOption = NotMorphosOption | MorphosOption | VersionOption(n: int) | OtherOption

  datatype InputField = InputField(name: Chars, typ: InputType, offset: int)

  /** `Malformed` stands for rows of the wrong length or of an unknown kind. */
  datatype InputRow =
    | ConstRow(name: Chars, value: InputValue)
    | VarRow(name: Chars, value: InputValue)
    | FnRow(name: Chars, lvo: int, regs: seq<int>, result: int, options: seq<InputOption>)
    | FieldRow(name: Chars, typ: InputType, offset: int)
    | StructRow(name: Chars, size: int, fields: seq<InputField>)
    | NameRow(name: Chars)
    | Malformed

  // ---- rows as read back ----

  /** `stride` is the distance from one element of an array field to the next, in bytes. */
  datatype FieldType = Scalar(ctype: int) | Elements(ctype: int, count: int, stride: int) | Embedded

  datatype Row =
    | ConstOf(name: Name, value: TableValue)
    | VarOf(name: Name, value: TableValue)
    | CallOf(name: Name, lvo: int, regs: seq<int>, result: int, notMorphos: bool, morphos: bool, version: int)
    | FieldOf(name: Name, typ: FieldType, offset: int)
    | NameOf(name: Name)

  function FieldTypeOf(a: int, b: int, c: int, d: int): FieldType {
    if d == STUB_FIELD_PTR then Embedded
    else if d == STUB_PEEK_IDX then Elements(c, a / 0x1_0000, b)
    else Scalar(c)
  }

  function FieldOffset(a: int, d: int): int { if d == STUB_PEEK_IDX then a % 0x1_0000 else a }

  function Registers(a: int, count: nat): seq<int> { seq(count, k requires 0 <= k < count => Nibble(a, k)) }

  /** entry_row, with the stride of an array field as its accessors read it. */
  function RowOf(name: Name, kind: Byte, flags: Byte, a: int, b: int, c: Byte, d: Byte, value: TableValue): Row {
    if kind == KIND_CONST then ConstOf(name, value)
    else if kind == KIND_VAR then VarOf(name, value)
    else if kind == KIND_LIBCALL then
      CallOf(name, b, Registers(a, c), ResultKind(a), HasFlag(flags, NOT_MORPHOS), HasFlag(flags, MORPHOS), d)
    else if kind == KIND_FIELD then FieldOf(name, FieldTypeOf(a, b, c, d), FieldOffset(a, d))
    else NameOf(name)
  }

  function RowOfBinding(b: Binding): Row { RowOf(b.name, b.kind, b.flags, b.a, b.b, b.c, b.d, b.value) }

  /** %BINDING-TABLE-ENTRIES: the rows of a table, in its order. */
  function DecodeRows(s: Blob): (rows: seq<Row>)
    requires WellFormed(s)
    ensures |rows| == EntryCount(s)
  {
    seq(EntryCount(s), i requires 0 <= i < EntryCount(s) => RowOfBinding(BindingAt(s, i)))
  }

  // ---- when a row can be used ----

  /** A call is for the platforms and the library versions its row names; any other row is for all. */
  ghost predicate Usable(env: Environment, row: Row) {
    row.CallOf? ==>
      && !(row.notMorphos && env.morphos)
      && !(row.morphos && !env.morphos)
      && (row.version == 0 || (env.version.Some? && env.version.value >= row.version))
  }

  /** The guard of an entry decides what its row says. Another entry than a call can carry a platform guard
      only in a table that the packer did not make. */
  lemma UsableRow(env: Environment, b: Binding)
    ensures b.kind == KIND_LIBCALL || !PlatformFlags(b.flags) ==> (GuardOk(env, b) <==> Usable(env, RowOfBinding(b)))
    ensures b.kind != KIND_LIBCALL ==>
      (GuardOk(env, b) <==> if env.morphos then !HasFlag(b.flags, NOT_MORPHOS) else !HasFlag(b.flags, MORPHOS))
  {
    hide Registers, ResultKind, FieldTypeOf, FieldOffset;
  }

  // ---- what rows mean ----

  predicate NameOk(chars: Chars) {
    0 < |chars| <= 255 && forall k :: 0 <= k < |chars| ==> 0 < chars[k] < 0x80
  }

  predicate TextOk(chars: Chars) {
    |chars| <= 255 && forall k :: 0 <= k < |chars| ==> 0 <= chars[k] < 0x80
  }

  function BytesOf(chars: Chars): (s: Blob)
    requires forall k :: 0 <= k < |chars| ==> 0 <= chars[k] < 0x80
    ensures |s| == |chars| && Ascii(s) && forall k :: 0 <= k < |chars| ==> s[k] == chars[k]
  {
    seq(|chars|, k requires 0 <= k < |chars| => chars[k])
  }

  ghost predicate ValueOk(v: InputValue) {
    match v
    case IntegerValue(x) => Canonical(x) && (x.Bignum? ==> |x.limbs| * 2 <= 255)
    case StringValue(chars) => TextOk(chars)
    case OtherValue => false
  }

  ghost function ValueOf(v: InputValue): TableValue
    requires ValueOk(v)
  {
    match v
    case IntegerValue(x) => Number(ToInt(x))
    case StringValue(chars) => Text(BytesOf(chars))
  }

  predicate TypeOk(t: InputType, offset: int) {
    match t
    case ScalarType(ctype) => 0 <= ctype <= CTYPE_MAX
    case ArrayType(ctype, count) => 0 <= ctype <= CTYPE_MAX && 0 < count <= 0xFFFF && offset <= 0xFFFF
    case StructType(size) => 0 <= size <= FIXNUM_MAX
  }

  /** The bytes of an element, in the order of the type codes: :U8 and :I8, :U16 and :I16, :U32 and :I32, the two
      kinds of address, :SINGLE, :DOUBLE. */
  const TYPE_BYTES: seq<int> := [1, 1, 2, 2, 4, 4, 4, 4, 4, 8]

  /** The size of a (:struct n) field is not kept. The elements of an array follow one another. */
  function TypeOf(t: InputType): FieldType {
    match t
    case ScalarType(ctype) => Scalar(ctype)
    case ArrayType(ctype, count) => Elements(ctype, count, if 0 <= ctype <= CTYPE_MAX then TYPE_BYTES[ctype] else 0)
    case StructType(_) => Embedded
  }

  predicate FieldAccepted(typ: InputType, offset: int) {
    0 <= offset <= FIXNUM_MAX && TypeOk(typ, offset)
  }

  predicate OptionOk(o: InputOption) {
    match o
    case VersionOption(n) => 0 < n <= 255
    case OtherOption => false
    case _ => true
  }

  /** The last version option counts. */
  function VersionOf(options: seq<InputOption>): int {
    if options == [] then 0
    else
      var last := options[|options| - 1];
      if last.VersionOption? then last.n else VersionOf(options[..|options| - 1])
  }

  /** `k` is the place of the last version option, -1 when there is none. */
  lemma {:induction false} VersionMeans(options: seq<InputOption>, k: int)
    requires -1 <= k < |options| && forall j :: k < j < |options| ==> !options[j].VersionOption?
    requires k >= 0 ==> options[k].VersionOption?
    ensures VersionOf(options) == if k >= 0 then options[k].n else 0
  {
    if k < |options| - 1 { VersionMeans(options[..|options| - 1], k); }
  }

  predicate CallAccepted(lvo: int, regs: seq<int>, result: int, options: seq<InputOption>) {
    && -32768 <= lvo < 0
    && |regs| <= 7
    && (forall k :: 0 <= k < |regs| ==> 0 <= regs[k] < REGISTERS)
    && 0 <= result <= RESULT_MAX
    && (forall k :: 0 <= k < |options| ==> OptionOk(options[k]))
    && !(NotMorphosOption in options && MorphosOption in options)
  }

  const SIZE_SUFFIX: Name := [0x2D, 0x53, 0x49, 0x5A, 0x45, 0x2A]

  /** *NAME-SIZE*. */
  function SizeName(name: Name): Name { [0x2A] + name + SIZE_SUFFIX }

  /** NAME-FIELD. */
  function AccessorName(name: Name, field: Name): Name { name + [0x2D] + field }

  function Codes(s: string): Chars { seq(|s|, i requires 0 <= i < |s| => s[i] as int) }

  /** The names made from other names, as they are spelled. */
  lemma DerivedNames(name: Name, field: Name)
    ensures SizeName(name) == Codes("*") + name + Codes("-SIZE*")
    ensures AccessorName(name, field) == name + Codes("-") + field
    ensures SetterName(field) == Codes("%SET-") + field
  {
    assert Codes("-SIZE*") == SIZE_SUFFIX;
    assert Codes("%SET-") == SETTER_PREFIX;
  }

  predicate StructFieldAccepted(name: Chars, f: InputField) {
    NameOk(f.name) && |name| + 1 + |f.name| <= 255 && FieldAccepted(f.typ, f.offset)
  }

  ghost predicate Accepted(r: InputRow) {
    match r
    case ConstRow(name, value) => NameOk(name) && ValueOk(value)
    case VarRow(name, value) => NameOk(name) && ValueOk(value)
    case FnRow(name, lvo, regs, result, options) => NameOk(name) && CallAccepted(lvo, regs, result, options)
    case FieldRow(name, typ, offset) => NameOk(name) && FieldAccepted(typ, offset)
    case StructRow(name, size, fields) =>
      && NameOk(name) && 0 <= size <= FIXNUM_MAX && |name| + 7 <= 255
      && forall k :: 0 <= k < |fields| ==> StructFieldAccepted(name, fields[k])
    case NameRow(name) => NameOk(name)
    case Malformed => false
  }

  function StructField(name: Chars, f: InputField): Row
    requires NameOk(name) && StructFieldAccepted(name, f)
  {
    FieldOf(AccessorName(BytesOf(name), BytesOf(f.name)), TypeOf(f.typ), f.offset)
  }

  function StructFields(name: Chars, fields: seq<InputField>): seq<Row>
    requires NameOk(name) && forall k :: 0 <= k < |fields| ==> StructFieldAccepted(name, fields[k])
  {
    seq(|fields|, k requires 0 <= k < |fields| && StructFieldAccepted(name, fields[k]) => StructField(name, fields[k]))
  }

  /** The entries one row stands for. */
  ghost function Expansion(r: InputRow): seq<Row>
    requires Accepted(r)
  {
    match r
    case ConstRow(name, value) => [ConstOf(BytesOf(name), ValueOf(value))]
    case VarRow(name, value) => [VarOf(BytesOf(name), ValueOf(value))]
    case FnRow(name, lvo, regs, result, options) =>
      [CallOf(BytesOf(name), lvo, regs, result, NotMorphosOption in options, MorphosOption in options,
        VersionOf(options))]
    case FieldRow(name, typ, offset) => [FieldOf(BytesOf(name), TypeOf(typ), offset)]
    case StructRow(name, size, fields) =>
      [VarOf(SizeName(BytesOf(name)), Number(size))] + StructFields(name, fields)
    case NameRow(name) => [NameOf(BytesOf(name))]
  }

  ghost predicate AllAccepted(rows: seq<InputRow>) { forall i :: 0 <= i < |rows| ==> Accepted(rows[i]) }

  ghost function ExpandAll(rows: seq<InputRow>): seq<Row>
    requires AllAccepted(rows)
  {
    if rows == [] then [] else ExpandAll(rows[..|rows| - 1]) + Expansion(rows[|rows| - 1])
  }

  // ---- records ----

  /** BtRec. `wideOff` is the place of a payload in the wide arena. */
  datatype Rec =
    Rec(name: Name, order: nat, kind: Byte, flags: Byte, a: Word32, b: int, c: Byte, d: Byte, wideOff: Option<nat>)

  function RecA(r: Rec): int { if r.wideOff.Some? then r.wideOff.value else r.a }

  /** A record that will make a valid entry. */
  predicate RecOk(r: Rec, wide: Blob) {
    && 0 < |r.name| <= 255 && Ascii(r.name)
    && r.kind <= KIND_NAME && r.flags < 32 && -0x8000 <= r.b < 0x8000
    && KindOk(wide, Entry(0, 1, r.kind, r.flags, RecA(r), r.b, r.c, r.d))
    && (r.wideOff.Some? <==> HoldsValue(r.kind) && (HasFlag(r.flags, WIDE) || HasFlag(r.flags, STRING)))
  }

  function RecRow(r: Rec, wide: Blob): Row
    requires RecOk(r, wide)
  {
    RowOf(r.name, r.kind, r.flags, r.a, r.b, r.c, r.d,
      if HoldsValue(r.kind) then StoredValue(wide, r.flags, RecA(r)) else Number(0))
  }

  predicate RecsOk(recs: seq<Rec>, wide: Blob) { forall i :: 0 <= i < |recs| ==> RecOk(recs[i], wide) }

  function RecRows(recs: seq<Rec>, wide: Blob): seq<Row>
    requires RecsOk(recs, wide)
  {
    seq(|recs|, i requires 0 <= i < |recs| => RecRow(recs[i], wide))
  }

  lemma RecRowsSnoc(recs: seq<Rec>, r: Rec, wide: Blob)
    requires RecsOk(recs, wide) && RecOk(r, wide)
    ensures RecsOk(recs + [r], wide) && RecRows(recs + [r], wide) == RecRows(recs, wide) + [RecRow(r, wide)]
  {
    hide RecOk, RecRow;
  }

  /** Payloads already written keep their meaning when the arena grows at either end. */
  lemma PayloadInside(before: Blob, wide: Blob, after: Blob, flags: Byte, a: nat)
    requires HasFlag(flags, WIDE) || HasFlag(flags, STRING)
    requires PayloadOk(wide, flags, a)
    ensures PayloadOk(before + wide + after, flags, |before| + a)
    ensures StoredValue(before + wide + after, flags, |before| + a) == StoredValue(wide, flags, a)
  {
    var all := before + wide + after;
    var n := wide[a];
    assert all[|before| + a] == n;
    if HasFlag(flags, WIDE) {
      assert all[|before| + a + 1] == wide[a + 1];
      assert all[|before| + a + 2..|before| + a + 2 + n] == wide[a + 2..a + 2 + n];
    } else {
      assert all[|before| + a + 1..|before| + a + 1 + n] == wide[a + 1..a + 1 + n];
    }
  }

  lemma RecGrows(r: Rec, wide: Blob, more: Blob)
    requires RecOk(r, wide)
    ensures RecOk(r, wide + more) && RecRow(r, wide + more) == RecRow(r, wide)
  {
    hide RowOf, StoredValue, Nibble, HasFlag, Ascii, PayloadOk;
    if r.wideOff.Some? {
      PayloadInside([], wide, more, r.flags, r.wideOff.value);
      assert [] + wide + more == wide + more;
    } else if HoldsValue(r.kind) {
      PlainValue(wide, wide + more, r.flags, r.a);
    }
  }

  lemma PlainValue(arena: Blob, arena': Blob, flags: Byte, a: int)
    requires !HasFlag(flags, WIDE) && !HasFlag(flags, STRING)
    ensures PayloadOk(arena, flags, a) && PayloadOk(arena', flags, a)
    ensures StoredValue(arena, flags, a) == StoredValue(arena', flags, a)
  {}

  // ---- register specifications ----

  /** The nibble at place `k` is the digit in base 16. */
  lemma {:induction false} NibbleIsDigit(s: seq<int>, k: nat)
    requires InBase(s, 16) && k < |s|
    ensures Nibble(Value(s, 16), k) == s[k]
    decreases k
  {
    hide Value;
    assert 0 <= s[0] < 16;
    ValueCons(s, 16);
    DivModUnique(Value(s, 16), 16, Value(s[1..], 16), s[0]);
    if k > 0 { NibbleIsDigit(s[1..], k - 1); }
  }

  function Padded(regs: seq<int>, n: nat): (s: seq<int>)
    ensures |s| == |regs| + n
  {
    regs + seq(n, _ => 0)
  }

  /** Seven register nibbles and a result kind in one word. */
  function RegSpec(nibbles: int, result: int): int { nibbles % 0x1000_0000 + result * 0x1000_0000 }

  lemma RegSpecReads(regs: seq<int>, result: int)
    requires |regs| <= 7 && 0 <= result <= RESULT_MAX
    requires forall k :: 0 <= k < |regs| ==> 0 <= regs[k] < REGISTERS
    ensures 0 <= Value(regs, 16) < 0x1000_0000
    ensures var a := RegSpec(Value(regs, 16), result);
      && 0 <= a < 0x1_0000_0000
      && Registers(a, |regs|) == regs && ResultKind(a) == result && RegistersOk(a, |regs|)
  {
    hide Value, Pow, Nibble, RegSpec, InBase;
    var spec := RegSpecDigits(regs, result);
    var a := RegSpec(Value(regs, 16), result);
    forall k | 0 <= k < |regs| ensures Nibble(a, k) == regs[k] {
      NibbleIsDigit(spec, k);
    }
    assert Registers(a, |regs|) == regs;
    RegSpecResult(Value(regs, 16), result);
  }

  /** The word is the number whose base-16 digits are the registers, zeros up to seven, and the result. */
  lemma RegSpecDigits(regs: seq<int>, result: int) returns (spec: seq<int>)
    requires |regs| <= 7 && 0 <= result <= RESULT_MAX
    requires forall k :: 0 <= k < |regs| ==> 0 <= regs[k] < REGISTERS
    ensures 0 <= Value(regs, 16) < 0x1000_0000
    ensures |spec| == 8 && InBase(spec, 16) && forall k :: 0 <= k < |regs| ==> spec[k] == regs[k]
    ensures Value(spec, 16) == RegSpec(Value(regs, 16), result)
  {
    hide Value, Pow;
    var full := Padded(regs, 7 - |regs|);
    ValuePad(full, |regs|, 16);
    assert full[..|regs|] == regs;
    ValueBound(full, 16);
    SixteenToSeven();
    spec := full + [result];
    ValueSnoc(full, result, 16);
  }

  lemma RegSpecResult(nibbles: int, result: int)
    requires 0 <= nibbles < 0x1000_0000 && 0 <= result <= RESULT_MAX
    ensures 0 <= RegSpec(nibbles, result) < 0x1_0000_0000 && ResultKind(RegSpec(nibbles, result)) == result
  {}

  lemma SixteenToSeven()
    ensures Pow(16, 7) == 0x1000_0000
  {
    PowAdd(16, 3, 4);
    assert Pow(16, 3) == 0x1000 && Pow(16, 4) == 0x1_0000;
  }

  // ---- values into bytes ----

  /** The bytes of `m` above its last 4 - i. */
  function TopBytes(m: nat, i: nat): nat
    requires i <= 4
  {
    if i == 0 then 0 else if i == 1 then m / 0x100_0000 else if i == 2 then m / 0x1_0000 else if i == 3 then m / 0x100
    else m
  }

  lemma TopStep(m: nat, i: nat)
    requires i < 4 && m < 0x1_0000_0000
    ensures TopBytes(m, i + 1) == TopBytes(m, i) * 256 + TopBytes(m, i + 1) % 256
  {}

  /** The magnitude of a fixnum, big-endian, without leading zero bytes. */
  method FixnumBytes(m: nat) returns (mag: Blob)
    requires m < 0x1_0000_0000
    ensures BigEndian(mag) == m && |mag| <= 4
  {
    hide BigEndian;
    mag := [];
    EmptyBigEndian(mag);
    for i := 0 to 4
      invariant BigEndian(mag) == TopBytes(m, i) && |mag| <= i
    {
      var byte: Byte := TopBytes(m, i + 1) % 256;
      TopStep(m, i);
      BigEndianSnoc(mag, byte);
      if |mag| == 0 && byte == 0 {
        EmptyBigEndian(mag);
      } else {
        mag := mag + [byte];
      }
    }
  }

  /** The magnitude of a bignum, from its top limb down. */
  method LimbBytes(limbs: seq<Limb>) returns (mag: Blob)
    ensures BigEndian(mag) == Mag(limbs) && |mag| <= 2 * |limbs|
  {
    hide BigEndian, Value;
    mag := [];
    EmptyBigEndian(mag);
    EmptyLimbs();
    var i := |limbs|;
    assert limbs[i..] == [];
    while i > 0
      invariant 0 <= i <= |limbs|
      invariant BigEndian(mag) == Value(limbs[i..], BASE) && |mag| <= 2 * (|limbs| - i)
    {
      i := i - 1;
      var hi: Byte, lo: Byte := limbs[i] / 0x100, limbs[i] % 0x100;
      ValueCons(limbs[i..], BASE);
      assert limbs[i..][1..] == limbs[i + 1..];
      LimbBytesStep(mag, limbs[i], hi, lo);
      if |mag| == 0 && hi == 0 {
        if lo != 0 { mag := mag + [lo]; }
      } else {
        mag := mag + [hi, lo];
      }
    }
    assert limbs[0..] == limbs;
  }

  lemma LimbBytesStep(mag: Blob, limb: Limb, hi: Byte, lo: Byte)
    requires limb == Pair(hi, lo)
    ensures BigEndian(mag + [hi, lo]) == BigEndian(mag) * BASE + limb
    ensures mag == [] && hi == 0 ==> BigEndian(mag + [lo]) == limb && BigEndian(mag) == 0
  {
    hide BigEndian;
    BigEndianPair(mag, hi, lo);
    BigEndianSnoc(mag, lo);
    if mag == [] { EmptyBigEndian(mag); }
  }

  method FoldWord(mag: Blob) returns (m: Word32)
    requires |mag| <= 4
    ensures m == BigEndian(mag)
  {
    hide BigEndian;
    var v: int := 0;
    EmptyBigEndian(mag[..0]);
    for i := 0 to |mag|
      invariant v == BigEndian(mag[..i]) && 0 <= v
      invariant i == 0 ==> v == 0
      invariant i == 1 ==> v < 0x100
      invariant i == 2 ==> v < 0x1_0000
      invariant i == 3 ==> v < 0x100_0000
      invariant v < 0x1_0000_0000
    {
      BigEndianSnoc(mag[..i], mag[i]);
      assert mag[..i] + [mag[i]] == mag[..i + 1];
      v := v * 256 + mag[i];
    }
    assert mag[..|mag|] == mag;
    m := v;
  }

  // ---- the builder ----

  function NamesLen(recs: seq<Rec>): nat {
    if recs == [] then 0 else NamesLen(recs[..|recs| - 1]) + |recs[|recs| - 1].name|
  }

  /** How one value is stored: in the entry, or as a payload in the wide arena. */
  datatype Stored = Stored(flags: Byte, a: Word32, wideOff: Option<nat>)

  function StoredA(s: Stored): int { if s.wideOff.Some? then s.wideOff.value else s.a }

  predicate StoredOk(s: Stored, wide: Blob) {
    && s.flags < 32 && !PlatformFlags(s.flags) && PayloadOk(wide, s.flags, StoredA(s))
    && (s.wideOff.Some? <==> HasFlag(s.flags, WIDE) || HasFlag(s.flags, STRING))
  }

  /** The longest payload: a length byte, a sign byte and 255 magnitude bytes. */
  const PAYLOAD_MAX: int := 257

  /** BtBuild. */
  class Build {
    var recs: seq<Rec>
    var namesLen: nat
    var wide: Blob
    var hasLibcall: bool

    /** The records are good and counted; the last payload may still lack its record. */
    ghost predicate Coherent()
      reads this
    {
      && RecsOk(recs, wide)
      && (forall i :: 0 <= i < |recs| ==> recs[i].order == i)
      && namesLen == NamesLen(recs)
      && (forall i :: 0 <= i < |recs| && recs[i].kind != KIND_LIBCALL ==> !PlatformFlags(recs[i].flags))
      && (hasLibcall <==> exists i :: 0 <= i < |recs| && recs[i].kind == KIND_LIBCALL)
    }

    ghost predicate Valid()
      reads this
    {
      && Coherent()
      && (wide != [] ==> exists i :: 0 <= i < |recs| && recs[i].wideOff.Some?)
      && |wide| <= PAYLOAD_MAX * |recs|
    }

    ghost function Rows(): seq<Row>
      reads this
      requires Valid()
    {
      RecRows(recs, wide)
    }

    constructor ()
      ensures Valid() && Rows() == []
    {
      recs, namesLen, wide, hasLibcall := [], 0, [], false;
    }

    /** encode_value on an integer's sign and magnitude bytes. */
    method EncodeInteger(neg: bool, mag: Blob) returns (s: Stored)
      requires |mag| <= 255
      modifies this`wide
      ensures old(wide) <= wide
      ensures StoredOk(s, wide)
      ensures StoredValue(wide, s.flags, StoredA(s)) == Number(Integers.Signed(neg, BigEndian(mag)))
      ensures s.wideOff.None? ==> wide == old(wide)
      ensures |wide| <= |old(wide)| + PAYLOAD_MAX
    {
      hide BigEndian, HasFlag;
      IntegerFlags();
      if |mag| <= 4 {
        var m := FoldWord(mag);
        if !neg { return Stored(0, m, None); }
        if m <= 0x8000_0000 {
          var v: int := m;
          return Stored(SIGNED, (0 - v) % 0x1_0000_0000, None);
        }
        WideNotEmpty(mag);
      }
      s := Stored(WIDE, 0, Some(|wide|));
      var sign: Byte := if neg then 1 else 0;
      ghost var before := wide;
      wide := wide + [|mag|, sign] + mag;
      assert wide[|before|] == |mag| && wide[|before| + 1] == sign;
      assert wide[|before| + 2..|before| + 2 + |mag|] == mag;
    }

    method EncodeString(text: Blob) returns (s: Stored)
      requires |text| <= 255 && Ascii(text)
      modifies this`wide
      ensures old(wide) <= wide
      ensures StoredOk(s, wide) && StoredValue(wide, s.flags, StoredA(s)) == Text(text)
      ensures s.wideOff.Some? && |wide| <= |old(wide)| + PAYLOAD_MAX
    {
      s := Stored(STRING, 0, Some(|wide|));
      ghost var before := wide;
      wide := wide + [|text|] + text;
      assert wide[|before|] == |text|;
      assert wide[|before| + 1..|before| + 1 + |text|] == text;
    }

    /** encode_value. */
    method EncodeValue(v: InputValue) returns (s: Option<Stored>)
      requires v.IntegerValue? ==> Canonical(v.x)
      modifies this`wide
      ensures old(wide) <= wide
      ensures s.Some? <==> ValueOk(v)
      ensures s.None? || s.value.wideOff.None? ==> wide == old(wide)
      ensures |wide| <= |old(wide)| + PAYLOAD_MAX
      ensures s.Some? ==> StoredOk(s.value, wide) && StoredValue(wide, s.value.flags, StoredA(s.value)) == ValueOf(v)
    {
      hide BigEndian, StoredValue, Value, StoredOk;
      match v
      case StringValue(chars) =>
        var ok := CheckText(chars);
        if !ok { return None; }
        var st := EncodeString(BytesOf(chars));
        s := Some(st);
      case IntegerValue(x) =>
        match x {
          case Fixnum(n) =>
            var mag := FixnumBytes(if n < 0 then 0 - n else n);
            var st := EncodeInteger(n < 0, mag);
            s := Some(st);
          case Bignum(neg, limbs) =>
            if |limbs| * 2 > 255 { return None; }
            var mag := LimbBytes(limbs);
            var st := EncodeInteger(neg, mag);
            s := Some(st);
        }
      case OtherValue => s := None;
    }

    /** build_add, with the fields filled in. */
    method Add(r: Rec)
      requires Coherent() && r.order == |recs| && RecOk(r, wide)
      requires wide != [] && r.wideOff.None? ==> exists i :: 0 <= i < |recs| && recs[i].wideOff.Some?
      requires |wide| <= PAYLOAD_MAX * (|recs| + 1) && (r.kind != KIND_LIBCALL ==> !PlatformFlags(r.flags))
      modifies this`recs, this`namesLen, this`hasLibcall
      ensures Valid() && Rows() == RecRows(old(recs), wide) + [RecRow(r, wide)]
    {
      hide RecOk, RecRow, RecRows, RecsOk, PlatformFlags;
      RecRowsSnoc(recs, r, wide);
      ghost var before := recs;
      recs := recs + [r];
      namesLen := namesLen + |r.name|;
      if r.kind == KIND_LIBCALL { hasLibcall := true; }
      assert recs[..|recs| - 1] == before;
      assert recs[|recs| - 1] == r;
      forall i | 0 <= i < |before| ensures recs[i] == before[i] {}
    }

    method AddValue(name: Name, kind: Byte, value: InputValue) returns (ok: bool)
      requires Valid() && 0 < |name| <= 255 && Ascii(name) && HoldsValue(kind)
      requires value.IntegerValue? ==> Canonical(value.x)
      modifies this
      ensures Valid() && (ok <==> ValueOk(value))
      ensures ok ==>
        Rows() == old(Rows()) +
          [if kind == KIND_CONST then ConstOf(name, ValueOf(value)) else VarOf(name, ValueOf(value))]
    {
      hide StoredValue, PayloadOk, HasFlag, RecsOk;
      ghost var before := wide;
      var s := EncodeValue(value);
      RecsGrow(recs, before, wide);
      if s.None? { return false; }
      var st := s.value;
      Add(Rec(name, |recs|, kind, st.flags, st.a, 0, 0, 0, st.wideOff));
      ok := true;
    }

    method AddName(name: Name)
      requires Valid() && 0 < |name| <= 255 && Ascii(name)
      modifies this
      ensures Valid() && Rows() == old(Rows()) + [NameOf(name)]
    {
      hide StoredValue, RecsOk;
      Add(Rec(name, |recs|, KIND_NAME, 0, 0, 0, 0, 0, None));
    }

    /** add_field and parse_field_type. */
    method AddField(name: Name, typ: InputType, offset: int) returns (ok: bool)
      requires Valid() && 0 < |name| <= 255 && Ascii(name)
      modifies this
      ensures Valid() && (ok <==> FieldAccepted(typ, offset))
      ensures ok ==> Rows() == old(Rows()) + [FieldOf(name, TypeOf(typ), offset)]
    {
      hide StoredValue, RecsOk, PayloadOk;
      if offset < 0 || offset > FIXNUM_MAX { return false; }
      ok := true;
      match typ
      case StructType(size) =>
        if size < 0 || size > FIXNUM_MAX { return false; }
        Add(Rec(name, |recs|, KIND_FIELD, 0, offset, 0, 0, STUB_FIELD_PTR, None));
      case ArrayType(ctype, count) =>
        if ctype < 0 || ctype > CTYPE_MAX { return false; }
        if count <= 0 || count > 0xFFFF { return false; }
        if offset > 0xFFFF { return false; }
        var a := offset + count * 0x1_0000;
        assert a / 0x1_0000 == count && a % 0x1_0000 == offset;
        Add(Rec(name, |recs|, KIND_FIELD, 0, a, ElementSize(ctype), ctype, STUB_PEEK_IDX, None));
      case ScalarType(ctype) =>
        if ctype < 0 || ctype > CTYPE_MAX { return false; }
        Add(Rec(name, |recs|, KIND_FIELD, 0, offset, 0, ctype, STUB_PEEK, None));
    }

    /** The (:fn ...) row. */
    method AddCall(name: Name, lvo: int, regs: seq<int>, result: int, options: seq<InputOption>) returns (ok: bool)
      requires Valid() && 0 < |name| <= 255 && Ascii(name)
      modifies this
      ensures Valid() && (ok <==> CallAccepted(lvo, regs, result, options))
      ensures ok ==>
        Rows() == old(Rows()) + [CallOf(name, lvo, regs, result,
          NotMorphosOption in options, MorphosOption in options, VersionOf(options))]
    {
      hide StoredValue, RecsOk, Value, Nibble, Registers, RegistersOk, ResultKind, RegSpec, PayloadOk;
      if lvo >= 0 || lvo < -32768 { return false; }
      if |regs| > 7 { return false; }
      var known, nibbles := PackRegisters(regs);
      if !known { return false; }
      if result < 0 || result > RESULT_MAX { return false; }
      var valid, flags, version := ParseOptions(options);
      if !valid { return false; }
      if NotMorphosOption in options && MorphosOption in options { return false; }
      RegSpecReads(regs, result);
      FlagBits(flags, NotMorphosOption in options, MorphosOption in options);
      Add(Rec(name, |recs|, KIND_LIBCALL, flags, RegSpec(nibbles, result), lvo, |regs|, version, None));
      ok := true;
    }

    /** The accessors of a structure. */
    method AddStructFields(name: Chars, fields: seq<InputField>) returns (ok: bool)
      requires Valid() && NameOk(name)
      modifies this
      ensures Valid() && (ok <==> forall k :: 0 <= k < |fields| ==> StructFieldAccepted(name, fields[k]))
      ensures ok ==> Rows() == old(Rows()) + StructFields(name, fields)
    {
      hide RecsOk, RecRows, FieldAccepted, AccessorName;
      ghost var before := Rows();
      var i := 0;
      while i < |fields|
        invariant 0 <= i <= |fields| && Valid()
        invariant forall k :: 0 <= k < i ==> StructFieldAccepted(name, fields[k])
        invariant Rows() == before + StructFields(name, fields[..i])
      {
        var named := CheckName(fields[i].name);
        if !named || |name| + 1 + |fields[i].name| > 255 { return false; }
        AsciiParts(BytesOf(name), BytesOf(fields[i].name));
        var added := AddField(AccessorName(BytesOf(name), BytesOf(fields[i].name)), fields[i].typ, fields[i].offset);
        if !added { return false; }
        StructFieldsSnoc(name, fields, i);
        i := i + 1;
      }
      assert fields[..|fields|] == fields;
      ok := true;
    }

    /** The (:struct ...) row: the size as a special variable, then the accessors. */
    method AddStruct(name: Chars, size: int, fields: seq<InputField>) returns (ok: bool)
      requires Valid() && NameOk(name)
      modifies this
      ensures Valid() && (ok <==> Accepted(StructRow(name, size, fields)))
      ensures ok ==> Rows() == old(Rows()) + Expansion(StructRow(name, size, fields))
    {
      hide RecsOk, RecRows, StructFieldAccepted, StructFields, SizeName;
      if size < 0 || size > FIXNUM_MAX { return false; }
      if |name| + 7 > 255 { return false; }
      AsciiParts(BytesOf(name), SIZE_SUFFIX);
      var _ := AddValue(SizeName(BytesOf(name)), KIND_VAR, IntegerValue(Fixnum(size)));
      ok := AddStructFields(name, fields);
    }

    /** parse_row. */
    method ParseRow(r: InputRow) returns (ok: bool)
      requires Valid()
      requires (r.ConstRow? || r.VarRow?) && r.value.IntegerValue? ==> Canonical(r.value.x)
      modifies this
      ensures Valid() && (ok <==> Accepted(r))
      ensures ok ==> Rows() == old(Rows()) + Expansion(r)
    {
      hide RecsOk, RecRows, FieldAccepted, CallAccepted, ValueOf, NameOk, TypeOf, StructFields;
      NameGivesBytes(r);
      if r.Malformed? { return false; }
      var named := CheckName(r.name);
      if !named { return false; }
      match r
      case ConstRow(name, value) => ok := AddValue(BytesOf(name), KIND_CONST, value);
      case VarRow(name, value) => ok := AddValue(BytesOf(name), KIND_VAR, value);
      case FnRow(name, lvo, regs, result, options) => ok := AddCall(BytesOf(name), lvo, regs, result, options);
      case FieldRow(name, typ, offset) => ok := AddField(BytesOf(name), typ, offset);
      case StructRow(name, size, fields) => ok := AddStruct(name, size, fields);
      case NameRow(name) => AddName(BytesOf(name)); ok := true;
    }
  }

  lemma NameGivesBytes(r: InputRow)
    ensures !r.Malformed? && NameOk(r.name) ==>
      0 < |r.name| <= 255 && forall k :: 0 <= k < |r.name| ==> 0 <= r.name[k] < 0x80
  {}

  /** cl_ffi_ctype_size. */
  function ElementSize(ctype: int): (n: int)
    ensures n == 1 || n == 2 || n == 4 || n == 8
  {
    if ctype == 0 || ctype == 1 then 1 else if ctype == 2 || ctype == 3 then 2 else if ctype == 9 then 8 else 4
  }

  lemma AsciiParts(a: Name, b: Name)
    requires Ascii(a) && Ascii(b)
    ensures Ascii(SizeName(a)) && |SizeName(a)| == |a| + 7
    ensures Ascii(AccessorName(a, b)) && |AccessorName(a, b)| == |a| + 1 + |b|
  {}

  lemma StructFieldsSnoc(name: Chars, fields: seq<InputField>, i: nat)
    requires NameOk(name) && i < |fields| && forall k :: 0 <= k <= i ==> StructFieldAccepted(name, fields[k])
    ensures StructFields(name, fields[..i + 1]) == StructFields(name, fields[..i]) + [StructField(name, fields[i])]
  {
    hide StructField;
  }

  lemma RecsGrow(recs: seq<Rec>, wide: Blob, wide': Blob)
    requires RecsOk(recs, wide) && wide <= wide'
    ensures RecsOk(recs, wide') && RecRows(recs, wide') == RecRows(recs, wide)
  {
    hide RecOk, RecRow;
    var more := wide'[|wide|..];
    assert wide' == wide + more;
    forall i | 0 <= i < |recs| ensures RecOk(recs[i], wide') && RecRow(recs[i], wide') == RecRow(recs[i], wide) {
      RecGrows(recs[i], wide, more);
    }
  }

  method PackRegisters(regs: seq<int>) returns (ok: bool, nibbles: int)
    requires |regs| <= 7
    ensures ok <==> forall k :: 0 <= k < |regs| ==> 0 <= regs[k] < REGISTERS
    ensures ok ==> nibbles == Value(regs, 16)
  {
    hide Value, Pow;
    nibbles := 0;
    NoDigits();
    for i := 0 to |regs|
      invariant forall k :: 0 <= k < i ==> 0 <= regs[k] < REGISTERS
      invariant nibbles == Value(regs[..i], 16)
    {
      if regs[i] < 0 || regs[i] > 12 { return false, 0; }
      ValuePrefix(regs, i, 16);
      nibbles := nibbles + regs[i] * Pow(16, i);
    }
    assert regs[..|regs|] == regs;
    ok := true;
  }

  lemma NoDigits()
    ensures forall s: seq<int> :: s == [] ==> Value(s, 16) == 0
  {}

  method ParseOptions(options: seq<InputOption>) returns (ok: bool, flags: Byte, version: Byte)
    ensures ok <==> forall k :: 0 <= k < |options| ==> OptionOk(options[k])
    ensures ok ==> version == VersionOf(options)
    ensures ok ==> flags == (if NotMorphosOption in options then 1 else 0) + (if MorphosOption in options then 2 else 0)
  {
    var notMorphos, morphos, v := false, false, 0;
    for i := 0 to |options|
      invariant forall k :: 0 <= k < i ==> OptionOk(options[k])
      invariant v == VersionOf(options[..i]) && 0 <= v <= 255
      invariant notMorphos <==> NotMorphosOption in options[..i]
      invariant morphos <==> MorphosOption in options[..i]
    {
      assert options[..i + 1][..i] == options[..i];
      assert options[..i + 1] == options[..i] + [options[i]];
      match options[i] {
        case NotMorphosOption => notMorphos := true;
        case MorphosOption => morphos := true;
        case VersionOption(n) =>
          if n <= 0 || n > 255 { return false, 0, 0; }
          v := n;
        case OtherOption => return false, 0, 0;
      }
    }
    assert options[..|options|] == options;
    ok, version := true, v;
    flags := (if notMorphos then 1 else 0) + (if morphos then 2 else 0);
  }

  lemma FlagBits(flags: Byte, notMorphos: bool, morphos: bool)
    requires flags == (if notMorphos then 1 else 0) + (if morphos then 2 else 0)
    ensures flags < 32 && HasFlag(flags, NOT_MORPHOS) == notMorphos && HasFlag(flags, MORPHOS) == morphos
    ensures !HasFlag(flags, WIDE) && !HasFlag(flags, STRING)
  {}

  /** The flags encode_value gives to integers. */
  lemma IntegerFlags()
    ensures forall flag: int :: flag in {WIDE, STRING, SIGNED, MORPHOS, NOT_MORPHOS} ==>
      !HasFlag(0, flag) && HasFlag(SIGNED, flag) == (flag == SIGNED) && HasFlag(WIDE, flag) == (flag == WIDE)
  {}

  lemma WideNotEmpty(mag: Blob)
    requires BigEndian(mag) > 0
    ensures mag != []
  {}

  method CheckText(chars: Chars) returns (ok: bool)
    ensures ok <==> TextOk(chars)
  {
    if |chars| > 255 { return false; }
    for i := 0 to |chars|
      invariant forall k :: 0 <= k < i ==> 0 <= chars[k] < 0x80
    {
      if chars[i] < 0 || chars[i] >= 0x80 { return false; }
    }
    ok := true;
  }

  /** parse_name. */
  method CheckName(chars: Chars) returns (ok: bool)
    ensures ok <==> NameOk(chars)
  {
    if |chars| == 0 || |chars| > 255 { return false; }
    for i := 0 to |chars|
      invariant forall k :: 0 <= k < i ==> 0 < chars[k] < 0x80
    {
      if chars[i] <= 0 || chars[i] >= 0x80 { return false; }
    }
    ok := true;
  }
}
