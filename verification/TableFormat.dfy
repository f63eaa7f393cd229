/** The byte layout of a demand-interned binding table (src/core/bindtab.h): a big-endian
    header, fixed-size entries sorted by name, and an arena of names and value payloads;
    and the validator that stands between a byte vector and the package system. */
module TableFormat {
  import opened Digits
  import opened Integers
  import opened Magnitude
  import opened Names

  type Blob = seq<Byte>

  datatype Option<+T> = None | Some(value: T)

  const MAGIC: int := 0x434C_4254
  const VERSION: int := 1
  const HEADER: int := 16
  const ENTRY: int := 16
  const MAX_ENTRIES: int := 0x00FF_FFFF

  const KIND_CONST: int := 0
  const KIND_VAR: int := 1
  const KIND_LIBCALL: int := 2
  const KIND_FIELD: int := 3
  const KIND_NAME: int := 4

  const NOT_MORPHOS: int := 0x01
  const MORPHOS: int := 0x02
  const SIGNED: int := 0x04
  const WIDE: int := 0x08
  const STRING: int := 0x10

  const STUB_LIBCALL: int := 0
  const STUB_PEEK: int := 1
  const STUB_POKE: int := 2
  const STUB_PEEK_IDX: int := 3
  const STUB_POKE_IDX: int := 4
  const STUB_FIELD_PTR: int := 5

  const CTYPE_MAX: int := 9
  const RESULT_MAX: int := 8
  const REGISTERS: int := 13

  // ---- words ----

  function Pair(hi: int, lo: int): int { hi * 0x100 + lo }

  function Read16(s: Blob, i: nat): (r: int)
    requires i + 2 <= |s|
    ensures 0 <= r < 0x1_0000
  {
    Pair(s[i], s[i + 1])
  }

  function BigEndian(s: Blob): (r: nat) {
    if s == [] then 0 else BigEndian(s[..|s| - 1]) * 256 + s[|s| - 1]
  }

  lemma BigEndianSnoc(s: Blob, x: Byte)
    ensures BigEndian(s + [x]) == BigEndian(s) * 256 + x
  {
    assert (s + [x])[..|s|] == s;
  }

  lemma BigEndianWord(a: Byte, b: Byte, c: Byte, d: Byte)
    ensures BigEndian([a, b, c, d]) == ((a * 0x100 + b) * 0x100 + c) * 0x100 + d
  {
    hide BigEndian;
    EmptyBigEndian([]);
    BigEndianSnoc([], a);
    BigEndianSnoc([a], b);
    BigEndianSnoc([a, b], c);
    BigEndianSnoc([a, b, c], d);
    assert [] + [a] == [a] && [a] + [b] == [a, b] && [a, b] + [c] == [a, b, c] && [a, b, c] + [d] == [a, b, c, d];
  }

  lemma EmptyBigEndian(s: Blob)
    requires s == []
    ensures BigEndian(s) == 0
  {}

  function Read32(s: Blob, i: nat): (r: Word32)
    requires i + 4 <= |s|
  {
    BigEndianWord(s[i], s[i + 1], s[i + 2], s[i + 3]);
    BigEndian([s[i], s[i + 1], s[i + 2], s[i + 3]])
  }

  function Write16(v: int): (r: Blob)
    requires 0 <= v < 0x1_0000
    ensures |r| == 2
  {
    [v / 256, v % 256]
  }

  function Write32(v: Word32): (r: Blob)
    ensures |r| == 4
  {
    [v / 0x100_0000, v / 0x1_0000 % 256, v / 0x100 % 256, v % 256]
  }

  lemma ReadWrite16(v: int)
    requires 0 <= v < 0x1_0000
    ensures Read16(Write16(v), 0) == v
  {
    DivModUnique(v, 256, v / 256, v % 256);
  }

  lemma ReadWrite32(v: Word32)
    ensures Read32(Write32(v), 0) == v
  {
    hide BigEndian;
    var q1, q2, q3 := v / 0x100, v / 0x1_0000, v / 0x100_0000;
    BigEndianWord(q3, q2 % 256, q1 % 256, v % 256);
    assert q2 == q1 / 256 && q3 == q2 / 256;
    assert v == q1 * 256 + v % 256 && q1 == q2 * 256 + q1 % 256 && q2 == q3 * 256 + q2 % 256;
  }

  /** A word read from a slice is the word read at that place. */
  lemma ReadSlice(s: Blob, at: nat, len: nat, i: nat)
    requires at + len <= |s|
    ensures i + 2 <= len ==> Read16(s[at..at + len], i) == Read16(s, at + i)
    ensures i + 4 <= len ==> Read32(s[at..at + len], i) == Read32(s, at + i)
  {
    hide BigEndian;
  }

  /** The two's-complement readings of stored words. */
  function AsSigned16(v: int): int { if v < 0x8000 then v else v - 0x1_0000 }

  function AsSigned32(v: int): int { if v < 0x8000_0000 then v else v - 0x1_0000_0000 }

  predicate HasFlag(flags: Byte, flag: int)
    requires flag > 0
  {
    flags / flag % 2 == 1
  }

  predicate Ascii(s: Blob) { forall k :: 0 <= k < |s| ==> s[k] < 0x80 }

  // ---- register specifications ----

  /** Four bits, `k` places of four up: (a >> 4k) & 0xF. */
  function Nibble(a: int, k: nat): (r: nat)
    ensures 0 <= r < 16
    decreases k
  {
    if k == 0 then a % 16 else Nibble(a / 16, k - 1)
  }

  /** The result kind sits above the seven register nibbles. */
  function ResultKind(a: int): int { a / 0x1000_0000 % 16 }

  // ---- entries ----

  datatype Entry = Entry(nameOff: int, nameLen: int, kind: Byte, flags: Byte, a: int, b: int, c: Byte, d: Byte)

  /** decode_entry on the 16 bytes of one record. */
  function EntryOfBytes(s: Blob): Entry
    requires |s| == ENTRY
  {
    Entry(Read32(s, 0), Read16(s, 4), s[6], s[7], Read32(s, 8), AsSigned16(Read16(s, 12)), s[14], s[15])
  }

  function EntryCount(s: Blob): (n: int)
    requires |s| >= HEADER
    ensures 0 <= n
  {
    Read32(s, 8)
  }

  function ArenaAt(s: Blob): int
    requires |s| >= HEADER
  {
    HEADER + EntryCount(s) * ENTRY
  }

  predicate HeaderOk(s: Blob) {
    && |s| >= HEADER
    && Read32(s, 0) == MAGIC
    && s[4] == VERSION
    && EntryCount(s) <= MAX_ENTRIES
    && ArenaAt(s) + Read32(s, 12) == |s|
  }

  function DecodeEntry(s: Blob, i: nat): Entry
    requires HeaderOk(s) && i < EntryCount(s)
  {
    EntryOfBytes(s[HEADER + i * ENTRY..HEADER + (i + 1) * ENTRY])
  }

  function Arena(s: Blob): Blob
    requires HeaderOk(s)
  {
    s[ArenaAt(s)..]
  }

  predicate NameInside(arena: Blob, e: Entry) {
    0 <= e.nameOff && 0 <= e.nameLen && e.nameOff + e.nameLen <= |arena|
  }

  function EntryName(arena: Blob, e: Entry): Name
    requires NameInside(arena, e)
  {
    arena[e.nameOff..e.nameOff + e.nameLen]
  }

  predicate HoldsValue(kind: Byte) { kind == KIND_CONST || kind == KIND_VAR }

  /** A value entry's payload lies inside the arena. */
  predicate PayloadOk(arena: Blob, flags: Byte, a: int) {
    && !(HasFlag(flags, WIDE) && HasFlag(flags, STRING))
    && (HasFlag(flags, WIDE) ==>
      0 <= a && a + 2 <= |arena| && arena[a] != 0 && a + 2 + arena[a] <= |arena|)
    && (HasFlag(flags, STRING) ==>
      0 <= a && a + 1 <= |arena| && a + 1 + arena[a] <= |arena| && Ascii(arena[a + 1..a + 1 + arena[a]]))
  }

  predicate RegistersOk(a: int, count: nat) {
    forall k :: 0 <= k < count ==> Nibble(a, k) < REGISTERS
  }

  predicate CallOk(e: Entry) {
    e.c <= 7 && ResultKind(e.a) <= RESULT_MAX && RegistersOk(e.a, e.c) && e.b < 0
  }

  predicate FieldOk(e: Entry) {
    && (e.d == STUB_PEEK || e.d == STUB_PEEK_IDX || e.d == STUB_FIELD_PTR)
    && (e.d != STUB_FIELD_PTR ==> e.c <= CTYPE_MAX)
    && (e.d == STUB_PEEK_IDX ==> e.b == 1 || e.b == 2 || e.b == 4 || e.b == 8)
  }

  predicate KindOk(arena: Blob, e: Entry) {
    if HoldsValue(e.kind) then PayloadOk(arena, e.flags, e.a)
    else if e.kind == KIND_LIBCALL then CallOk(e)
    else if e.kind == KIND_FIELD then FieldOk(e)
    else true
  }

  predicate EntryOk(arena: Blob, e: Entry) {
    && 0 < e.nameLen && NameInside(arena, e)
    && Ascii(EntryName(arena, e))
    && e.kind <= KIND_NAME && e.flags < 32
    && KindOk(arena, e)
  }

  lemma NameOfEntry(arena: Blob, e: Entry)
    ensures EntryOk(arena, e) ==> NameInside(arena, e)
  {}

  /** Neighbouring entries: sorted by name, only library-call variants share one. */
  predicate PairOk(name: Name, kind: Byte, name': Name, kind': Byte) {
    && NotAfter(name, name')
    && (name == name' ==> kind == KIND_LIBCALL && kind' == KIND_LIBCALL)
  }

  predicate EntriesOk(s: Blob, count: nat)
    requires HeaderOk(s) && count <= EntryCount(s)
  {
    forall i :: 0 <= i < count ==> EntryOk(Arena(s), DecodeEntry(s, i))
  }

  predicate PairOkAt(s: Blob, i: nat)
    requires HeaderOk(s) && 0 < i < EntryCount(s)
    requires EntryOk(Arena(s), DecodeEntry(s, i - 1)) && EntryOk(Arena(s), DecodeEntry(s, i))
  {
    PairOk(EntryName(Arena(s), DecodeEntry(s, i - 1)), DecodeEntry(s, i - 1).kind,
           EntryName(Arena(s), DecodeEntry(s, i)), DecodeEntry(s, i).kind)
  }

  predicate OrderOk(s: Blob, count: nat)
    requires HeaderOk(s) && count <= EntryCount(s) && EntriesOk(s, count)
  {
    forall i :: 0 < i < count ==> PairOkAt(s, i)
  }

  /** What a registered table is trusted to be. */
  predicate WellFormed(s: Blob) {
    HeaderOk(s) && EntriesOk(s, EntryCount(s)) && OrderOk(s, EntryCount(s))
  }

  // ---- the validator ----

  method AllAscii(s: Blob) returns (ok: bool)
    ensures ok <==> Ascii(s)
  {
    for k := 0 to |s|
      invariant Ascii(s[..k])
    {
      if s[k] >= 0x80 { return false; }
    }
    assert s[..|s|] == s;
    ok := true;
  }

  method AllRegisters(a: int, count: nat) returns (ok: bool)
    ensures ok <==> RegistersOk(a, count)
  {
    hide Nibble;
    for k := 0 to count
      invariant RegistersOk(a, k)
    {
      if Nibble(a, k) > 12 { return false; }
    }
    ok := true;
  }

  method CheckKind(arena: Blob, e: Entry) returns (err: Option<string>)
    requires e.kind <= KIND_NAME && e.a >= 0
    ensures err.None? <==> KindOk(arena, e)
  {
    if e.kind == KIND_CONST || e.kind == KIND_VAR {
      if HasFlag(e.flags, WIDE) && HasFlag(e.flags, STRING) {
        return Some("value flagged both wide integer and string");
      }
      if HasFlag(e.flags, WIDE) {
        if e.a + 2 > |arena| { return Some("wide value outside the arena"); }
        if arena[e.a] == 0 || e.a + 2 + arena[e.a] > |arena| { return Some("wide value outside the arena"); }
      }
      if HasFlag(e.flags, STRING) {
        if e.a + 1 > |arena| || e.a + 1 + arena[e.a] > |arena| { return Some("string value outside the arena"); }
        var ascii := AllAscii(arena[e.a + 1..e.a + 1 + arena[e.a]]);
        if !ascii { return Some("non-ASCII string value"); }
      }
    } else if e.kind == KIND_LIBCALL {
      if e.c > 7 { return Some("library call with more than 7 arguments"); }
      if ResultKind(e.a) > RESULT_MAX { return Some("bad result kind"); }
      var regs := AllRegisters(e.a, e.c);
      if !regs { return Some("bad register in library call"); }
      if e.b >= 0 { return Some("library call LVO must be negative"); }
    } else if e.kind == KIND_FIELD {
      if e.d != STUB_PEEK && e.d != STUB_PEEK_IDX && e.d != STUB_FIELD_PTR {
        return Some("bad field accessor kind");
      }
      if e.d != STUB_FIELD_PTR && e.c > CTYPE_MAX { return Some("bad field C type"); }
      if e.d == STUB_PEEK_IDX && e.b != 1 && e.b != 2 && e.b != 4 && e.b != 8 {
        return Some("bad array element size");
      }
    }
    err := None;
  }

  method CheckEntry(arena: Blob, e: Entry) returns (err: Option<string>)
    requires e.a >= 0 && e.nameOff >= 0 && e.nameLen >= 0
    ensures err.None? <==> EntryOk(arena, e)
  {
    if e.nameLen == 0 { return Some("empty name"); }
    if e.nameOff + e.nameLen > |arena| { return Some("name outside the arena"); }
    var ascii := AllAscii(EntryName(arena, e));
    if !ascii { return Some("non-ASCII name"); }
    if e.kind > KIND_NAME { return Some("unknown entry kind"); }
    if e.flags >= 32 { return Some("unknown entry flag"); }
    err := CheckKind(arena, e);
  }

  method CheckHeader(s: Blob) returns (err: Option<string>)
    ensures err.None? <==> HeaderOk(s)
  {
    if |s| < HEADER { return Some("shorter than the header"); }
    if Read32(s, 0) != MAGIC { return Some("bad magic (not a binding table)"); }
    if s[4] != VERSION { return Some("unsupported table version"); }
    if EntryCount(s) > MAX_ENTRIES { return Some("entry count out of range"); }
    if ArenaAt(s) + Read32(s, 12) != |s| { return Some("length does not match entry count + name arena"); }
    err := None;
  }

  /** validate_blob. */
  method Validate(s: Blob) returns (err: Option<string>)
    ensures err.None? <==> WellFormed(s)
  {
    hide EntryOk, Read32, Read16, NameCompare;
    err := CheckHeader(s);
    if err.Some? { return; }
    var arena := Arena(s);
    var i := 0;
    while i < EntryCount(s)
      invariant 0 <= i <= EntryCount(s)
      invariant EntriesOk(s, i) && OrderOk(s, i)
    {
      var e := DecodeEntry(s, i);
      NameOfEntry(arena, e);
      err := CheckEntry(arena, e);
      if err.Some? { return; }
      if i > 0 {
        var prev := DecodeEntry(s, i - 1);
        NameOfEntry(arena, prev);
        var c := NameCompare(EntryName(arena, prev), EntryName(arena, e));
        CompareZero(EntryName(arena, prev), EntryName(arena, e));
        assert PairOkAt(s, i) <==> c < 0 || (c == 0 && prev.kind == KIND_LIBCALL && e.kind == KIND_LIBCALL);
        if c > 0 { return Some("entries not sorted by name"); }
        if c == 0 && !(prev.kind == KIND_LIBCALL && e.kind == KIND_LIBCALL) {
          return Some("duplicate name (only library-call variants may repeat)");
        }
      }
      i := i + 1;
    }
    err := None;
  }

  // ---- stored values ----

  /** The value of a CONST or VAR entry. */
  datatype TableValue = Number(n: int) | Text(chars: Blob)

  /** decode_value: the four encodings. */
  function StoredValue(arena: Blob, flags: Byte, a: int): TableValue
    requires PayloadOk(arena, flags, a)
  {
    if HasFlag(flags, WIDE) then
      Number(Integers.Signed(arena[a + 1] != 0, BigEndian(arena[a + 2..a + 2 + arena[a]])))
    else if HasFlag(flags, STRING) then
      Text(arena[a + 1..a + 1 + arena[a]])
    else
      Number(if HasFlag(flags, SIGNED) then AsSigned32(a) else a)
  }

  /** Two bytes are one limb. */
  lemma BigEndianPair(s: Blob, hi: Byte, lo: Byte)
    ensures BigEndian(s + [hi, lo]) == BigEndian(s) * BASE + (hi * 256 + lo)
  {
    BigEndianSnoc(s, hi);
    BigEndianSnoc(s + [hi], lo);
    assert s + [hi, lo] == s + [hi] + [lo];
  }

  lemma LimbRing(top: int, limb: int, p: int, p': int, low: int, low': int, top': int)
    requires p' == BASE * p && top == top' * BASE + limb && low' == low + limb * p
    ensures top * p + low == top' * p' + low'
  {
    assert (top' * BASE) * p == top' * (BASE * p);
  }

  /** value_to_obj on a wide magnitude: little-endian limbs out of big-endian bytes. */
  method WideToInteger(neg: bool, mag: Blob) returns (r: Integer)
    requires mag != []
    ensures Canonical(r) && ToInt(r) == Integers.Signed(neg, BigEndian(mag))
  {
    hide Value, Pow, BigEndian;
    var count := (|mag| + 1) / 2;
    var limbs: seq<Limb> := [];
    assert mag[..|mag|] == mag;
    assert Value([], BASE) == 0 && Pow(BASE, 0) == 1 by { EmptyLimbs(); }
    for i := 0 to count
      invariant |limbs| == i
      invariant BigEndian(mag) == BigEndian(mag[..Max0(|mag| - 2 * i)]) * Pow(BASE, i) + Value(limbs, BASE)
    {
      var hi := |mag| - 2 * i - 2;
      var lo := |mag| - 2 * i - 1;
      var limb := if hi >= 0 then Pair(mag[hi], mag[lo]) else mag[lo];
      WideStep(mag, i, limbs, limb);
      limbs := limbs + [limb];
    }
    EmptyBigEndian(mag[..0]);
    r := NormalizeBignum(neg, limbs);
  }

  function Max0(x: int): nat { if x < 0 then 0 else x }

  lemma EmptyLimbs()
    ensures Value([], BASE) == 0 && Pow(BASE, 0) == 1
  {}

  lemma WideStep(mag: Blob, i: nat, limbs: seq<Limb>, limb: Limb)
    requires 2 * i < |mag| && |limbs| == i
    requires var hi := |mag| - 2 * i - 2; limb == if hi >= 0 then Pair(mag[hi], mag[hi + 1]) else mag[hi + 1]
    ensures BigEndian(mag[..|mag| - 2 * i]) * Pow(BASE, i) + Value(limbs, BASE)
         == BigEndian(mag[..Max0(|mag| - 2 * i - 2)]) * Pow(BASE, i + 1) + Value(limbs + [limb], BASE)
  {
    hide Value, Pow;
    var hi := |mag| - 2 * i - 2;
    var top := mag[..|mag| - 2 * i];
    var top' := mag[..Max0(hi)];
    if hi >= 0 {
      assert top == top' + [mag[hi], mag[hi + 1]];
      BigEndianPair(top', mag[hi], mag[hi + 1]);
    } else {
      assert top == [] + [mag[0]] && top' == [];
      BigEndianSnoc([], mag[0]);
    }
    PowStep(BASE, i);
    ValueSnoc(limbs, limb, BASE);
    LimbRing(BigEndian(top), limb, Pow(BASE, i), Pow(BASE, i + 1), Value(limbs, BASE), Value(limbs + [limb], BASE),
      BigEndian(top'));
  }

  /** cl_ffi_u64_to_obj and cl_ffi_i64_to_obj on a 32-bit value. */
  method WordToInteger(v: int) returns (r: Integer)
    requires -0x8000_0000 <= v < 0x1_0000_0000
    ensures Canonical(r) && ToInt(r) == v
  {
    if FIXNUM_MIN <= v <= FIXNUM_MAX { return Fixnum(v); }
    var mag: nat := if v < 0 then 0 - v else v;
    var limbs: seq<Limb> := [mag % BASE, mag / BASE % BASE, 0, 0];
    assert Mag(limbs) == mag by {
      ValueShort(limbs[..2], BASE);
      ValuePad(limbs, 2, BASE);
    }
    r := NormalizeBignum(v < 0, limbs);
  }
}
