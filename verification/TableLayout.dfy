/** The second half of the packer (src/core/bindtab.c, cl_bindtab_pack): sorting the records,
    refusing duplicates, laying the blob out in place; and the round trip through the validator
    and the decoder. */
module TableLayout {
  import opened Digits
  import opened Integers
  import opened Names
  import opened TableFormat
  import opened TableProbe
  import opened TablePacker

  // ---- stable sorting by name ----

  /** Insert behind everything that does not come after. */
  function Insert<T>(s: seq<T>, x: T, key: T -> Name): (r: seq<T>)
    ensures |r| == |s| + 1
  {
    if s == [] || NotAfter(key(s[|s| - 1]), key(x)) then s + [x]
    else Insert(s[..|s| - 1], x, key) + [s[|s| - 1]]
  }

  function Sort<T>(s: seq<T>, key: T -> Name): (r: seq<T>)
    ensures |r| == |s|
  {
    if s == [] then [] else Insert(Sort(s[..|s| - 1], key), s[|s| - 1], key)
  }

  function SortRecs(recs: seq<Rec>): seq<Rec> { Sort(recs, (r: Rec) => r.name) }

  function SortRows(rows: seq<Row>): seq<Row> { Sort(rows, (r: Row) => r.name) }

  /** rec_cmp: the source position breaks ties. */
  predicate RecBefore(a: Rec, b: Rec) {
    Precedes(a.name, b.name) || (a.name == b.name && a.order < b.order)
  }

  predicate RecsSorted(s: seq<Rec>) {
    forall i, j :: 0 <= i < j < |s| ==> RecBefore(s[i], s[j])
  }

  lemma {:induction false} InsertMultiset<T>(s: seq<T>, x: T, key: T -> Name)
    ensures multiset(Insert(s, x, key)) == multiset(s) + multiset{x}
  {
    if s != [] && !NotAfter(key(s[|s| - 1]), key(x)) {
      InsertMultiset(s[..|s| - 1], x, key);
      assert s == s[..|s| - 1] + [s[|s| - 1]];
    }
  }

  lemma {:induction false} SortMultiset<T>(s: seq<T>, key: T -> Name)
    ensures multiset(Sort(s, key)) == multiset(s)
  {
    if s != [] {
      SortMultiset(s[..|s| - 1], key);
      InsertMultiset(Sort(s[..|s| - 1], key), s[|s| - 1], key);
      assert s == s[..|s| - 1] + [s[|s| - 1]];
    }
  }

  lemma {:induction false} InsertSorted(s: seq<Rec>, x: Rec)
    requires RecsSorted(s)
    requires forall i :: 0 <= i < |s| ==> s[i].order < x.order
    ensures RecsSorted(Insert(s, x, (r: Rec) => r.name))
  {
    var key := (r: Rec) => r.name;
    if s != [] {
      var last := s[|s| - 1];
      if NotAfter(last.name, x.name) {
        forall i | 0 <= i < |s| ensures RecBefore(s[i], x) { BeforeOrEqual(s, i, x); }
      } else {
        var rest := s[..|s| - 1];
        InsertSorted(rest, x);
        InsertMultiset(rest, x, key);
        CompareSwap(last.name, x.name);
        var placed := Insert(rest, x, key);
        forall i | 0 <= i < |placed| ensures RecBefore(placed[i], last) {
          assert placed[i] in multiset(placed);
          assert placed[i] in multiset(rest) || placed[i] == x;
        }
      }
    }
  }

  lemma BeforeOrEqual(s: seq<Rec>, i: nat, x: Rec)
    requires RecsSorted(s) && i < |s| && NotAfter(s[|s| - 1].name, x.name) && s[i].order < x.order
    ensures RecBefore(s[i], x)
  {
    var last := s[|s| - 1];
    CompareZero(s[i].name, x.name);
    if i < |s| - 1 {
      assert RecBefore(s[i], last);
      CompareZero(s[i].name, last.name);
      CompareTransitive(s[i].name, last.name, x.name);
    }
  }

  lemma {:induction false} SortSorted(recs: seq<Rec>)
    requires forall i, j :: 0 <= i < j < |recs| ==> recs[i].order < recs[j].order
    ensures RecsSorted(SortRecs(recs))
  {
    if recs != [] {
      var rest := recs[..|recs| - 1];
      var key := (r: Rec) => r.name;
      SortSorted(rest);
      SortMultiset(rest, key);
      forall i | 0 <= i < |rest| ensures SortRecs(rest)[i].order < recs[|recs| - 1].order {
        assert SortRecs(rest)[i] in multiset(SortRecs(rest));
        assert SortRecs(rest)[i] in rest;
      }
      InsertSorted(SortRecs(rest), recs[|recs| - 1]);
    }
  }

  lemma BeforeAsymmetric(a: Rec, b: Rec)
    requires RecBefore(a, b)
    ensures !RecBefore(b, a) && a != b
  {
    CompareSwap(a.name, b.name);
    CompareZero(a.name, b.name);
  }

  /** Whatever algorithm qsort uses, an ordered permutation of the records is this one. */
  lemma {:induction false} OrderedPermutationUnique(a: seq<Rec>, b: seq<Rec>)
    requires RecsSorted(a) && RecsSorted(b) && multiset(a) == multiset(b)
    ensures a == b
  {
    hide RecsSorted;
    if a == [] {
      EmptyPermutation(b);
    } else {
      EmptyPermutation(a);
      assert b != [] by { if b == [] { EmptyPermutation(a); } }
      var a', x, b', y := a[..|a| - 1], a[|a| - 1], b[..|b| - 1], b[|b| - 1];
      assert a == a' + [x] && b == b' + [y];
      LastsAgree(a', x, b', y);
      SortedPrefix(a', x);
      SortedPrefix(b', y);
      DropLast(a', b', x);
      OrderedPermutationUnique(a', b');
    }
  }

  lemma EmptyPermutation(s: seq<Rec>)
    ensures multiset(s) == multiset{} ==> s == []
  {
    if s != [] { assert s[0] in multiset(s); }
  }

  lemma SortedPrefix(s: seq<Rec>, x: Rec)
    requires RecsSorted(s + [x])
    ensures RecsSorted(s)
  {
    hide RecBefore;
    forall i, j | 0 <= i < j < |s| ensures RecBefore(s[i], s[j]) {
      assert (s + [x])[i] == s[i] && (s + [x])[j] == s[j];
    }
  }

  lemma DropLast(a: seq<Rec>, b: seq<Rec>, x: Rec)
    requires multiset(a + [x]) == multiset(b + [x])
    ensures multiset(a) == multiset(b)
  {
    forall r ensures multiset(a)[r] == multiset(b)[r] {
      assert multiset(a + [x])[r] == multiset(a)[r] + multiset{x}[r];
      assert multiset(b + [x])[r] == multiset(b)[r] + multiset{x}[r];
    }
  }

  lemma LastsAgree(a: seq<Rec>, x: Rec, b: seq<Rec>, y: Rec)
    requires RecsSorted(a + [x]) && RecsSorted(b + [y]) && multiset(a + [x]) == multiset(b + [y])
    ensures x == y
  {
    hide RecBefore;
    if x != y {
      assert x in multiset(b + [y]) && y in multiset(a + [x]);
      var i :| 0 <= i < |b| && b[i] == x;
      var j :| 0 <= j < |a| && a[j] == y;
      assert (b + [y])[i] == x && (a + [x])[j] == y;
      assert RecBefore((b + [y])[i], (b + [y])[|b|]);
      assert RecBefore((a + [x])[j], (a + [x])[|a|]);
      BeforeAsymmetric(x, y);
    }
  }

  // ---- sorting records sorts the rows they mean ----

  lemma {:induction false} InsertMapped(s: seq<Rec>, x: Rec, wide: Blob)
    requires RecsOk(s, wide) && RecOk(x, wide)
    ensures var r := Insert(s, x, (r: Rec) => r.name);
      RecsOk(r, wide) && RecRows(r, wide) == Insert(RecRows(s, wide), RecRow(x, wide), (r: Row) => r.name)
  {
    hide RecOk, RecRow;
    var rows := RecRows(s, wide);
    if s != [] {
      var last := s[|s| - 1];
      RowNamed(last, wide);
      RowNamed(x, wide);
      assert rows[..|rows| - 1] == RecRows(s[..|s| - 1], wide);
      if !NotAfter(last.name, x.name) {
        InsertMapped(s[..|s| - 1], x, wide);
        RowsSnoc(Insert(s[..|s| - 1], x, (r: Rec) => r.name), last, wide);
      } else {
        RowsSnoc(s, x, wide);
      }
    } else {
      RowsSnoc(s, x, wide);
    }
  }

  lemma RowsSnoc(s: seq<Rec>, x: Rec, wide: Blob)
    requires RecsOk(s, wide) && RecOk(x, wide)
    ensures RecsOk(s + [x], wide) && RecRows(s + [x], wide) == RecRows(s, wide) + [RecRow(x, wide)]
  {
    hide RecOk, RecRow;
  }

  lemma RowNamed(r: Rec, wide: Blob)
    requires RecOk(r, wide)
    ensures RecRow(r, wide).name == r.name
  {}

  lemma {:induction false} SortMapped(recs: seq<Rec>, wide: Blob)
    requires RecsOk(recs, wide)
    ensures RecsOk(SortRecs(recs), wide) && RecRows(SortRecs(recs), wide) == SortRows(RecRows(recs, wide))
  {
    hide RecOk, RecRow;
    if recs != [] {
      var rest := recs[..|recs| - 1];
      SortMapped(rest, wide);
      InsertMapped(SortRecs(rest), recs[|recs| - 1], wide);
      var rows := RecRows(recs, wide);
      assert rows[..|rows| - 1] == RecRows(rest, wide);
    }
  }

  lemma {:induction false} InsertNamesLen(s: seq<Rec>, x: Rec)
    ensures NamesLen(Insert(s, x, (r: Rec) => r.name)) == NamesLen(s) + |x.name|
  {
    var r := Insert(s, x, (r: Rec) => r.name);
    if s == [] || NotAfter(s[|s| - 1].name, x.name) {
      assert r[..|r| - 1] == s;
    } else {
      InsertNamesLen(s[..|s| - 1], x);
      assert r[..|r| - 1] == Insert(s[..|s| - 1], x, (r: Rec) => r.name);
    }
  }

  lemma {:induction false} SortNamesLen(recs: seq<Rec>)
    ensures NamesLen(SortRecs(recs)) == NamesLen(recs)
  {
    if recs != [] {
      SortNamesLen(recs[..|recs| - 1]);
      InsertNamesLen(SortRecs(recs[..|recs| - 1]), recs[|recs| - 1]);
    }
  }

  // ---- the layout ----

  function NameBytes(recs: seq<Rec>): (s: Blob)
    ensures |s| == NamesLen(recs)
  {
    if recs == [] then [] else NameBytes(recs[..|recs| - 1]) + recs[|recs| - 1].name
  }

  /** Name `k` stands where the names before it end. */
  lemma {:induction false} NameAtOffset(recs: seq<Rec>, k: nat)
    requires k < |recs|
    ensures NamesLen(recs[..k]) + |recs[k].name| <= NamesLen(recs)
    ensures NameBytes(recs)[NamesLen(recs[..k])..NamesLen(recs[..k]) + |recs[k].name|] == recs[k].name
  {
    var rest := recs[..|recs| - 1];
    if k < |recs| - 1 {
      NameAtOffset(rest, k);
      assert rest[..k] == recs[..k] && rest[k] == recs[k];
      assert NameBytes(recs)[..|NameBytes(rest)|] == NameBytes(rest);
    }
  }

  /** The 16 bytes of an entry. */
  function EntryBytes(off: Word32, r: Rec, a: Word32): (s: Blob)
    requires |r.name| < 0x1_0000 && -0x8000 <= r.b < 0x8000
    ensures |s| == ENTRY
  {
    Write32(off) + Write16(|r.name|) + [r.kind, r.flags] + Write32(a) + Write16(r.b % 0x1_0000) + [r.c, r.d]
  }

  lemma EntryReadsBack(off: Word32, r: Rec, a: Word32)
    requires |r.name| < 0x1_0000 && -0x8000 <= r.b < 0x8000
    ensures EntryOfBytes(EntryBytes(off, r, a)) == Entry(off, |r.name|, r.kind, r.flags, a, r.b, r.c, r.d)
  {
    hide Read16, Read32, Write16, Write32;
    var s := EntryBytes(off, r, a);
    ReadWrite32(off);
    ReadWrite32(a);
    ReadWrite16(|r.name|);
    ReadWrite16(r.b % 0x1_0000);
    ReadSlice(s, 0, 4, 0);
    ReadSlice(s, 4, 2, 0);
    ReadSlice(s, 8, 4, 0);
    ReadSlice(s, 12, 2, 0);
    assert s[0..0 + 4] == Write32(off) && s[4..4 + 2] == Write16(|r.name|);
    assert s[8..8 + 4] == Write32(a) && s[12..12 + 2] == Write16(r.b % 0x1_0000);
  }

  function ArenaStart(count: nat): nat { HEADER + count * ENTRY }

  function TotalSize(recs: seq<Rec>, wide: Blob): nat { ArenaStart(|recs|) + NamesLen(recs) + |wide| }

  /** The `a` word of an entry once the payloads have their place. */
  function FinalA(r: Rec, namesLen: nat): int { if r.wideOff.Some? then namesLen + r.wideOff.value else r.a }

  function HeaderBytes(count: Word32, arena: Word32, hasLibcall: bool): (s: Blob)
    ensures |s| == HEADER
  {
    Write32(MAGIC) + [VERSION, if hasLibcall then 1 else 0] + Write16(0) + Write32(count) + Write32(arena)
  }

  function Slot(s: Blob, k: nat): Blob
    requires ArenaStart(k + 1) <= |s|
  {
    s[HEADER + k * ENTRY..HEADER + (k + 1) * ENTRY]
  }

  predicate Sized(recs: seq<Rec>, wide: Blob) {
    TotalSize(recs, wide) < 0x1_0000_0000
  }

  lemma OffsetsFit(recs: seq<Rec>, wide: Blob, k: nat)
    requires RecsOk(recs, wide) && Sized(recs, wide) && k < |recs|
    ensures NamesLen(recs[..k]) < 0x1_0000_0000
    ensures 0 <= FinalA(recs[k], NamesLen(recs)) < 0x1_0000_0000
    ensures |recs[k].name| <= 255 && -0x8000 <= recs[k].b < 0x8000
  {
    hide HasFlag, NamesLen;
    NameAtOffset(recs, k);
    assert RecOk(recs[k], wide);
  }

  /** Entry `k` with its payload offset in place, or still with the word its record holds. */
  ghost predicate EntryIs(s: Blob, recs: seq<Rec>, wide: Blob, k: nat, final: bool)
    requires RecsOk(recs, wide) && Sized(recs, wide) && k < |recs| && |s| == TotalSize(recs, wide)
  {
    OffsetsFit(recs, wide, k);
    Slot(s, k) == EntryBytes(NamesLen(recs[..k]), recs[k], if final then FinalA(recs[k], NamesLen(recs)) else recs[k].a)
  }

  /** What the finished blob is, part by part. */
  ghost predicate LaidOut(s: Blob, recs: seq<Rec>, wide: Blob, hasLibcall: bool)
    requires RecsOk(recs, wide) && Sized(recs, wide)
  {
    && |s| == TotalSize(recs, wide)
    && s[..HEADER] == HeaderBytes(|recs|, NamesLen(recs) + |wide|, hasLibcall)
    && (forall k :: 0 <= k < |recs| ==> EntryIs(s, recs, wide, k, true))
    && s[ArenaStart(|recs|)..] == NameBytes(recs) + wide
  }

  lemma HeaderReadsBack(s: Blob, count: Word32, arena: Word32, hasLibcall: bool)
    requires |s| >= HEADER && s[..HEADER] == HeaderBytes(count, arena, hasLibcall)
    ensures Read32(s, 0) == MAGIC && s[4] == VERSION && (s[5] % 2 == 1 <==> hasLibcall)
    ensures EntryCount(s) == count && Read32(s, 12) == arena
  {
    hide Read16, Read32, Write16, Write32;
    var h := s[..HEADER];
    ReadWrite32(MAGIC);
    ReadWrite32(count);
    ReadWrite32(arena);
    ReadSlice(s, 0, 4, 0);
    ReadSlice(s, 8, 4, 0);
    ReadSlice(s, 12, 4, 0);
    assert s[0..0 + 4] == h[0..4] == Write32(MAGIC);
    assert s[8..8 + 4] == h[8..12] == Write32(count);
    assert s[12..12 + 4] == h[12..16] == Write32(arena);
    assert s[4] == h[4] && s[5] == h[5];
  }

  /** Decoding one entry of a finished blob gives its record back. */
  lemma EntryDecodes(s: Blob, recs: seq<Rec>, wide: Blob, hasLibcall: bool, k: nat)
    requires RecsOk(recs, wide) && Sized(recs, wide) && LaidOut(s, recs, wide, hasLibcall) && k < |recs|
    requires HeaderOk(s) && EntryCount(s) == |recs| && Arena(s) == NameBytes(recs) + wide
    ensures var e := DecodeEntry(s, k); var r := recs[k];
      && EntryOk(Arena(s), e)
      && EntryName(Arena(s), e) == r.name && e.kind == r.kind
      && e.flags == r.flags && e.b == r.b && e.c == r.c && e.d == r.d
      && (HoldsValue(r.kind) ==> StoredValue(Arena(s), e.flags, e.a) == StoredValue(wide, r.flags, RecA(r)))
      && (!HoldsValue(r.kind) ==> e.a == r.a)
  {
    hide EntryCount, EntryOfBytes, EntryBytes, HasFlag, StoredValue, Ascii, KindOk, NamesLen, NameBytes, HeaderBytes,
      HeaderOk, Arena, RecOk, FinalA;
    var r := recs[k];
    OffsetsFit(recs, wide, k);
    NameAtOffset(recs, k);
    EntryReadsBack(NamesLen(recs[..k]), r, FinalA(r, NamesLen(recs)));
    var e := DecodeEntry(s, k);
    assert EntryIs(s, recs, wide, k, true);
    assert Slot(s, k) == s[HEADER + k * ENTRY..HEADER + (k + 1) * ENTRY];
    NameSlice(NameBytes(recs), wide, NamesLen(recs[..k]), r.name);
    KindTransfers(r, NameBytes(recs), wide, e);
  }

  lemma NameSlice(names: Blob, wide: Blob, off: nat, name: Name)
    requires off + |name| <= |names| && names[off..off + |name|] == name
    ensures (names + wide)[off..off + |name|] == name
  {}

  /** A record's entry is as good in the final arena as in the payload arena. */
  lemma KindTransfers(r: Rec, names: Blob, wide: Blob, e: Entry)
    requires RecOk(r, wide) && e.nameLen == |r.name| && e.kind == r.kind && e.flags == r.flags
    requires e.a == FinalA(r, |names|) && e.b == r.b && e.c == r.c && e.d == r.d
    ensures 0 < e.nameLen && Ascii(r.name) && e.kind <= KIND_NAME && e.flags < 32
    ensures KindOk(names + wide, e)
    ensures HoldsValue(r.kind) ==> StoredValue(names + wide, e.flags, e.a) == StoredValue(wide, r.flags, RecA(r))
    ensures !HoldsValue(r.kind) ==> e.a == r.a
  {
    hide HasFlag, StoredValue, Ascii, Nibble, ResultKind, RegistersOk, PayloadOk;
    if r.wideOff.Some? {
      PayloadInside(names, wide, [], r.flags, r.wideOff.value);
      assert names + wide + [] == names + wide;
    } else if HoldsValue(r.kind) {
      PlainValue(wide, names + wide, r.flags, r.a);
    }
  }

  /** Only library-call variants share a name. */
  predicate NoDuplicates(recs: seq<Rec>) {
    forall i :: 0 < i < |recs| && recs[i - 1].name == recs[i].name ==>
      recs[i - 1].kind == KIND_LIBCALL && recs[i].kind == KIND_LIBCALL
  }

  lemma LaidOutParts(s: Blob, recs: seq<Rec>, wide: Blob, hasLibcall: bool)
    requires RecsOk(recs, wide) && Sized(recs, wide) && LaidOut(s, recs, wide, hasLibcall)
    ensures |s| == TotalSize(recs, wide) >= HEADER
    ensures s[..HEADER] == HeaderBytes(|recs|, NamesLen(recs) + |wide|, hasLibcall)
    ensures s[ArenaStart(|recs|)..] == NameBytes(recs) + wide
  {
    hide NamesLen, NameBytes, HeaderBytes, EntryIs, RecOk, RecsOk, TotalSize;
    SizeAbove(recs, wide);
  }

  lemma SizeAbove(recs: seq<Rec>, wide: Blob)
    ensures TotalSize(recs, wide) >= ArenaStart(|recs|) >= HEADER
  {}

  lemma LaidOutHeader(s: Blob, recs: seq<Rec>, wide: Blob, hasLibcall: bool)
    requires RecsOk(recs, wide) && Sized(recs, wide) && LaidOut(s, recs, wide, hasLibcall) && |recs| <= MAX_ENTRIES
    ensures HeaderOk(s) && EntryCount(s) == |recs| && Arena(s) == NameBytes(recs) + wide
    ensures s[5] % 2 == 1 <==> hasLibcall
  {
    hide Read32, NamesLen, NameBytes, HeaderBytes, LaidOut, RecOk;
    LaidOutParts(s, recs, wide, hasLibcall);
    HeaderReadsBack(s, |recs|, NamesLen(recs) + |wide|, hasLibcall);
  }

  /** A finished blob passes the validator, and decodes to what its records mean. */
  lemma LaidOutDecodes(s: Blob, recs: seq<Rec>, wide: Blob, hasLibcall: bool)
    requires RecsOk(recs, wide) && Sized(recs, wide) && LaidOut(s, recs, wide, hasLibcall) && |recs| <= MAX_ENTRIES
    requires RecsSorted(recs) && NoDuplicates(recs)
    ensures WellFormed(s) && DecodeRows(s) == RecRows(recs, wide)
  {
    hide LaidOut, EntryOk, HeaderOk, EntryCount, Arena, DecodeEntry, StoredValue, RecOk, NameCompare, NameInside;
    LaidOutHeader(s, recs, wide, hasLibcall);
    var n := |recs|;
    forall k | 0 <= k < n
      ensures EntryOk(Arena(s), DecodeEntry(s, k))
    {
      EntryDecodes(s, recs, wide, hasLibcall, k);
    }
    forall k | 0 < k < n ensures PairOkAt(s, k) {
      EntryDecodes(s, recs, wide, hasLibcall, k - 1);
      EntryDecodes(s, recs, wide, hasLibcall, k);
      NameOfEntry(Arena(s), DecodeEntry(s, k - 1));
      NameOfEntry(Arena(s), DecodeEntry(s, k));
      assert RecBefore(recs[k - 1], recs[k]);
      CompareZero(recs[k - 1].name, recs[k].name);
    }
    HeaderCount(s);
    forall k | 0 <= k < n ensures RowOfBinding(BindingAt(s, k)) == RecRow(recs[k], wide) {
      EntryDecodes(s, recs, wide, hasLibcall, k);
      DecodedRow(s, recs, wide, k);
    }
  }

  lemma HeaderCount(s: Blob)
    requires HeaderOk(s)
    ensures |s| >= HEADER
  {}

  lemma DecodedRow(s: Blob, recs: seq<Rec>, wide: Blob, k: nat)
    requires WellFormed(s) && k < EntryCount(s) && k < |recs| && RecOk(recs[k], wide)
    requires EntryOk(Arena(s), DecodeEntry(s, k))
    requires var e := DecodeEntry(s, k); var r := recs[k];
      && EntryName(Arena(s), e) == r.name && e.kind == r.kind
      && e.flags == r.flags && e.b == r.b && e.c == r.c && e.d == r.d
      && (HoldsValue(r.kind) ==> StoredValue(Arena(s), e.flags, e.a) == StoredValue(wide, r.flags, RecA(r)))
      && (!HoldsValue(r.kind) ==> e.a == r.a)
    ensures RowOfBinding(BindingAt(s, k)) == RecRow(recs[k], wide)
  {
    hide StoredValue, Registers, ResultKind, HasFlag;
  }

  // ---- writing the blob ----

  /** `s'` is `s` with `bytes` written at `at`. */
  ghost predicate Written(s: Blob, s': Blob, at: nat, bytes: Blob) {
    && |s'| == |s| && at + |bytes| <= |s|
    && forall j :: 0 <= j < |s| ==> s'[j] == if at <= j < at + |bytes| then bytes[j - at] else s[j]
  }

  lemma WrittenThere(s: Blob, s': Blob, at: nat, bytes: Blob)
    requires Written(s, s', at, bytes)
    ensures s'[at..at + |bytes|] == bytes
  {}

  lemma WrittenElsewhere(s: Blob, s': Blob, at: nat, bytes: Blob, lo: nat, hi: nat)
    requires Written(s, s', at, bytes) && lo <= hi <= |s| && (hi <= at || at + |bytes| <= lo)
    ensures s'[lo..hi] == s[lo..hi]
  {}

  lemma WrittenTwice(s: Blob, s1: Blob, s2: Blob, at: nat, bytes: Blob, bytes': Blob)
    requires Written(s, s1, at, bytes) && Written(s1, s2, at + |bytes|, bytes')
    ensures Written(s, s2, at, bytes + bytes')
  {}

  method Copy(out: array<Byte>, at: nat, bytes: Blob)
    requires at + |bytes| <= out.Length
    modifies out
    ensures Written(old(out[..]), out[..], at, bytes)
  {
    var j := 0;
    while j < |bytes|
      invariant 0 <= j <= |bytes|
      invariant forall i :: 0 <= i < out.Length ==>
        out[i] == if at <= i < at + j then bytes[i - at] else old(out[i])
    {
      out[at + j] := bytes[j];
      j := j + 1;
    }
  }

  method Put32(out: array<Byte>, at: nat, v: Word32)
    requires at + 4 <= out.Length
    modifies out
    ensures Written(old(out[..]), out[..], at, Write32(v))
  {
    var b := Write32(v);
    out[at], out[at + 1], out[at + 2], out[at + 3] := b[0], b[1], b[2], b[3];
  }

  method Put16(out: array<Byte>, at: nat, v: int)
    requires at + 2 <= out.Length && 0 <= v < 0x1_0000
    modifies out
    ensures Written(old(out[..]), out[..], at, Write16(v))
  {
    var b := Write16(v);
    out[at], out[at + 1] := b[0], b[1];
  }

  method PutPair(out: array<Byte>, at: nat, x: Byte, y: Byte)
    requires at + 2 <= out.Length
    modifies out
    ensures Written(old(out[..]), out[..], at, [x, y])
  {
    out[at], out[at + 1] := x, y;
  }

  method PutEntry(out: array<Byte>, ep: nat, off: Word32, r: Rec)
    requires ep + ENTRY <= out.Length && |r.name| <= 255 && -0x8000 <= r.b < 0x8000
    modifies out
    ensures Written(old(out[..]), out[..], ep, EntryBytes(off, r, r.a))
  {
    hide Written, Write32, Write16;
    ghost var s := out[..];
    Put32(out, ep, off);
    ghost var s1 := out[..];
    Put16(out, ep + 4, |r.name|);
    ghost var s2 := out[..];
    WrittenTwice(s, s1, s2, ep, Write32(off), Write16(|r.name|));
    PutPair(out, ep + 6, r.kind, r.flags);
    ghost var s3 := out[..];
    WrittenTwice(s, s2, s3, ep, Write32(off) + Write16(|r.name|), [r.kind, r.flags]);
    Put32(out, ep + 8, r.a);
    ghost var s4 := out[..];
    WrittenTwice(s, s3, s4, ep, Write32(off) + Write16(|r.name|) + [r.kind, r.flags], Write32(r.a));
    Put16(out, ep + 12, r.b % 0x1_0000);
    ghost var s5 := out[..];
    WrittenTwice(s, s4, s5, ep, Write32(off) + Write16(|r.name|) + [r.kind, r.flags] + Write32(r.a),
      Write16(r.b % 0x1_0000));
    PutPair(out, ep + 14, r.c, r.d);
    WrittenTwice(s, s5, out[..], ep,
      Write32(off) + Write16(|r.name|) + [r.kind, r.flags] + Write32(r.a) + Write16(r.b % 0x1_0000), [r.c, r.d]);
  }

  method PutHeader(out: array<Byte>, count: Word32, arena: Word32, hasLibcall: bool)
    requires HEADER <= out.Length
    modifies out
    ensures Written(old(out[..]), out[..], 0, HeaderBytes(count, arena, hasLibcall))
  {
    hide Written, Write32, Write16;
    ghost var s := out[..];
    Put32(out, 0, MAGIC);
    ghost var s1 := out[..];
    var flag: Byte := if hasLibcall then 1 else 0;
    PutPair(out, 4, VERSION, flag);
    ghost var s2 := out[..];
    WrittenTwice(s, s1, s2, 0, Write32(MAGIC), [VERSION, flag]);
    Put16(out, 6, 0);
    ghost var s3 := out[..];
    WrittenTwice(s, s2, s3, 0, Write32(MAGIC) + [VERSION, flag], Write16(0));
    Put32(out, 8, count);
    ghost var s4 := out[..];
    WrittenTwice(s, s3, s4, 0, Write32(MAGIC) + [VERSION, flag] + Write16(0), Write32(count));
    Put32(out, 12, arena);
    WrittenTwice(s, s4, out[..], 0, Write32(MAGIC) + [VERSION, flag] + Write16(0) + Write32(count), Write32(arena));
  }

  lemma PrefixGrows(recs: seq<Rec>, i: nat)
    requires i < |recs|
    ensures NamesLen(recs[..i + 1]) == NamesLen(recs[..i]) + |recs[i].name|
    ensures NameBytes(recs[..i + 1]) == NameBytes(recs[..i]) + recs[i].name
    ensures NamesLen(recs[..i + 1]) <= NamesLen(recs)
  {
    assert recs[..i + 1][..i] == recs[..i];
    NameAtOffset(recs, i);
  }

  /** The state of the first pass after `i` records. */
  ghost predicate Pass1(s: Blob, recs: seq<Rec>, wide: Blob, header: Blob, i: nat)
    requires RecsOk(recs, wide) && Sized(recs, wide)
  {
    && |s| == TotalSize(recs, wide) && i <= |recs| && |header| == HEADER
    && s[..HEADER] == header
    && (forall k :: 0 <= k < i ==> EntryIs(s, recs, wide, k, false))
    && NamesLen(recs[..i]) <= NamesLen(recs)
    && s[ArenaStart(|recs|)..ArenaStart(|recs|) + NamesLen(recs[..i])] == NameBytes(recs[..i])
  }

  lemma Pass1Start(s: Blob, s': Blob, recs: seq<Rec>, wide: Blob, header: Blob)
    requires RecsOk(recs, wide) && Sized(recs, wide) && |s| == TotalSize(recs, wide) && |header| == HEADER
    requires Written(s, s', 0, header)
    ensures Pass1(s', recs, wide, header, 0)
  {
    hide RecOk;
    WrittenThere(s, s', 0, header);
    assert recs[..0] == [];
  }

  /** One record: its name into the arena, its entry into its slot. */
  lemma Pass1Step(s: Blob, s1: Blob, s2: Blob, recs: seq<Rec>, wide: Blob, header: Blob, i: nat)
    requires RecsOk(recs, wide) && Sized(recs, wide) && i < |recs| && Pass1(s, recs, wide, header, i)
    requires NamesLen(recs[..i]) < 0x1_0000_0000 && |recs[i].name| <= 255 && -0x8000 <= recs[i].b < 0x8000
    requires Written(s, s1, ArenaStart(|recs|) + NamesLen(recs[..i]), recs[i].name)
    requires Written(s1, s2, HEADER + i * ENTRY, EntryBytes(NamesLen(recs[..i]), recs[i], recs[i].a))
    ensures Pass1(s2, recs, wide, header, i + 1)
  {
    hide RecOk, EntryBytes, Written, NamesLen, NameBytes, FinalA;
    var at, ep := ArenaStart(|recs|) + NamesLen(recs[..i]), HEADER + i * ENTRY;
    var bytes := EntryBytes(NamesLen(recs[..i]), recs[i], recs[i].a);
    PrefixGrows(recs, i);
    WrittenSizes(s, s1, at, recs[i].name);
    WrittenSizes(s1, s2, ep, bytes);
    WrittenElsewhere(s, s1, at, recs[i].name, 0, HEADER);
    WrittenElsewhere(s1, s2, ep, bytes, 0, HEADER);
    forall k | 0 <= k < i + 1 ensures EntryIs(s2, recs, wide, k, false) {
      if k < i {
        assert EntryIs(s, recs, wide, k, false);
        WrittenElsewhere(s, s1, at, recs[i].name, HEADER + k * ENTRY, HEADER + (k + 1) * ENTRY);
        WrittenElsewhere(s1, s2, ep, bytes, HEADER + k * ENTRY, HEADER + (k + 1) * ENTRY);
      } else {
        WrittenThere(s1, s2, ep, bytes);
      }
    }
    WrittenElsewhere(s, s1, at, recs[i].name, ArenaStart(|recs|), at);
    WrittenThere(s, s1, at, recs[i].name);
    WrittenElsewhere(s1, s2, ep, bytes, ArenaStart(|recs|), at + |recs[i].name|);
    assert s1[ArenaStart(|recs|)..at + |recs[i].name|] == s1[ArenaStart(|recs|)..at] + s1[at..at + |recs[i].name|];
  }

  lemma WrittenSizes(s: Blob, s': Blob, at: nat, bytes: Blob)
    requires Written(s, s', at, bytes)
    ensures |s'| == |s| && at + |bytes| <= |s|
  {}

  /** The state of the second pass after `i` records: payload offsets are being put in. */
  ghost predicate Pass2(s: Blob, recs: seq<Rec>, wide: Blob, header: Blob, i: nat)
    requires RecsOk(recs, wide) && Sized(recs, wide)
  {
    && |s| == TotalSize(recs, wide) && i <= |recs| && |header| == HEADER
    && s[..HEADER] == header
    && (forall k :: 0 <= k < i ==> EntryIs(s, recs, wide, k, true))
    && (forall k :: i <= k < |recs| ==> EntryIs(s, recs, wide, k, false))
    && s[ArenaStart(|recs|)..] == NameBytes(recs) + wide
  }

  /** Writing outside an entry's slot keeps the entry. */
  lemma EntryKept(s: Blob, s': Blob, at: nat, bytes: Blob, recs: seq<Rec>, wide: Blob, k: nat, final: bool)
    requires RecsOk(recs, wide) && Sized(recs, wide) && k < |recs| && |s| == TotalSize(recs, wide)
    requires Written(s, s', at, bytes) && EntryIs(s, recs, wide, k, final)
    requires at + |bytes| <= HEADER + k * ENTRY || HEADER + (k + 1) * ENTRY <= at
    ensures |s'| == |s| && EntryIs(s', recs, wide, k, final)
  {
    hide RecOk, EntryBytes, Written, NamesLen, FinalA;
    WrittenSizes(s, s', at, bytes);
    WrittenElsewhere(s, s', at, bytes, HEADER + k * ENTRY, HEADER + (k + 1) * ENTRY);
  }

  lemma Pass2Start(s: Blob, s': Blob, recs: seq<Rec>, wide: Blob, header: Blob)
    requires RecsOk(recs, wide) && Sized(recs, wide) && Pass1(s, recs, wide, header, |recs|)
    requires Written(s, s', ArenaStart(|recs|) + NamesLen(recs), wide)
    ensures Pass2(s', recs, wide, header, 0)
  {
    hide RecOk, EntryIs, Written, NamesLen, NameBytes, HeaderBytes;
    var at := ArenaStart(|recs|) + NamesLen(recs);
    assert recs[..|recs|] == recs;
    WrittenSizes(s, s', at, wide);
    WrittenElsewhere(s, s', at, wide, 0, HEADER);
    WrittenElsewhere(s, s', at, wide, ArenaStart(|recs|), at);
    WrittenThere(s, s', at, wide);
    forall k | 0 <= k < |recs| ensures EntryIs(s', recs, wide, k, false) {
      EntryKept(s, s', at, wide, recs, wide, k, false);
    }
    JoinSlices(s', ArenaStart(|recs|), at);
    assert s'[at..] == s'[at..at + |wide|];
  }

  lemma JoinSlices(s: Blob, lo: nat, mid: nat)
    requires lo <= mid <= |s|
    ensures s[lo..] == s[lo..mid] + s[mid..]
  {}

  /** A record without a payload has its final word already. */
  lemma Pass2Skip(s: Blob, recs: seq<Rec>, wide: Blob, header: Blob, i: nat)
    requires RecsOk(recs, wide) && Sized(recs, wide) && i < |recs| && Pass2(s, recs, wide, header, i)
    requires recs[i].wideOff.None?
    ensures Pass2(s, recs, wide, header, i + 1)
  {
    hide RecOk, EntryBytes, NamesLen, NameBytes;
    assert EntryIs(s, recs, wide, i, false);
    assert EntryIs(s, recs, wide, i, true);
  }

  lemma Pass2Patch(s: Blob, s': Blob, recs: seq<Rec>, wide: Blob, header: Blob, i: nat, a: Word32)
    requires RecsOk(recs, wide) && Sized(recs, wide) && i < |recs| && Pass2(s, recs, wide, header, i)
    requires a == FinalA(recs[i], NamesLen(recs))
    requires Written(s, s', HEADER + i * ENTRY + 8, Write32(a))
    ensures Pass2(s', recs, wide, header, i + 1)
  {
    hide RecOk, EntryIs, Written, NamesLen, NameBytes, FinalA, Write32;
    var ep, bytes := HEADER + i * ENTRY, Write32(a);
    WrittenSizes(s, s', ep + 8, bytes);
    WrittenElsewhere(s, s', ep + 8, bytes, 0, HEADER);
    TailKept(s, s', ep + 8, bytes, ArenaStart(|recs|));
    forall k | 0 <= k < i ensures EntryIs(s', recs, wide, k, true) {
      EntryKept(s, s', ep + 8, bytes, recs, wide, k, true);
    }
    forall k | i < k < |recs| ensures EntryIs(s', recs, wide, k, false) {
      EntryKept(s, s', ep + 8, bytes, recs, wide, k, false);
    }
    EntryPatched(s, s', recs, wide, i, a);
  }

  lemma TailKept(s: Blob, s': Blob, at: nat, bytes: Blob, lo: nat)
    requires Written(s, s', at, bytes) && at + |bytes| <= lo <= |s|
    ensures s'[lo..] == s[lo..]
  {}

  lemma EntryPatched(s: Blob, s': Blob, recs: seq<Rec>, wide: Blob, i: nat, a: Word32)
    requires RecsOk(recs, wide) && Sized(recs, wide) && i < |recs| && |s| == TotalSize(recs, wide)
    requires EntryIs(s, recs, wide, i, false) && a == FinalA(recs[i], NamesLen(recs))
    requires Written(s, s', HEADER + i * ENTRY + 8, Write32(a))
    ensures |s'| == |s| && EntryIs(s', recs, wide, i, true)
  {
    hide RecOk, EntryBytes, Written, NamesLen, FinalA, Write32;
    OffsetsFit(recs, wide, i);
    WrittenSizes(s, s', HEADER + i * ENTRY + 8, Write32(a));
    PatchEntry(s, s', HEADER + i * ENTRY, NamesLen(recs[..i]), recs[i], a);
  }

  lemma PatchEntry(s: Blob, s': Blob, ep: nat, off: Word32, r: Rec, a: Word32)
    requires |r.name| <= 255 && -0x8000 <= r.b < 0x8000 && ep + ENTRY <= |s|
    requires s[ep..ep + ENTRY] == EntryBytes(off, r, r.a)
    requires Written(s, s', ep + 8, Write32(a))
    ensures s'[ep..ep + ENTRY] == EntryBytes(off, r, a)
  {
    hide Write32, Write16;
    var old_, new_ := s[ep..ep + ENTRY], s'[ep..ep + ENTRY];
    forall j | 0 <= j < ENTRY ensures new_[j] == EntryBytes(off, r, a)[j] {
      assert new_[j] == s'[ep + j] && old_[j] == s[ep + j];
    }
  }

  /** The layout half of cl_bindtab_pack. */
  method Layout(recs: seq<Rec>, namesLen: nat, wide: Blob, hasLibcall: bool) returns (out: array<Byte>)
    requires RecsOk(recs, wide) && Sized(recs, wide) && namesLen == NamesLen(recs)
    requires wide != [] ==> exists i :: 0 <= i < |recs| && recs[i].wideOff.Some?
    ensures fresh(out) && LaidOut(out[..], recs, wide, hasLibcall)
  {
    hide RecOk, EntryBytes, HeaderBytes, Written, NamesLen, NameBytes, Pass1, Pass2, LaidOut;
    var namesOff := HEADER + |recs| * ENTRY;
    out := new Byte[namesOff + namesLen + |wide|];
    ghost var header := HeaderBytes(|recs|, namesLen + |wide|, hasLibcall);
    ghost var s := out[..];
    PutHeader(out, |recs|, namesLen + |wide|, hasLibcall);
    Pass1Start(s, out[..], recs, wide, header);
    NothingNamed(recs);
    var off := 0;
    var i := 0;
    while i < |recs|
      invariant 0 <= i <= |recs| && off == NamesLen(recs[..i])
      invariant Pass1(out[..], recs, wide, header, i)
    {
      OffsetsFit(recs, wide, i);
      PrefixGrows(recs, i);
      s := out[..];
      Copy(out, namesOff + off, recs[i].name);
      ghost var s1 := out[..];
      PutEntry(out, HEADER + i * ENTRY, off, recs[i]);
      Pass1Step(s, s1, out[..], recs, wide, header, i);
      off := off + |recs[i].name|;
      i := i + 1;
    }
    var nWide := 0;
    for j := 0 to |recs|
      invariant nWide > 0 <==> exists k :: 0 <= k < j && recs[k].wideOff.Some?
      invariant nWide >= 0
    {
      if recs[j].wideOff.Some? { nWide := nWide + 1; }
    }
    if nWide > 0 {
      PlacePayloads(out, recs, namesLen, wide, header);
    } else {
      NoPayloads(out[..], recs, wide, header);
    }
    Pass2Done(out[..], recs, wide, hasLibcall);
  }

  /** The payloads behind the names, and their offsets into the entries. */
  method PlacePayloads(out: array<Byte>, recs: seq<Rec>, namesLen: nat, wide: Blob, ghost header: Blob)
    requires RecsOk(recs, wide) && Sized(recs, wide) && namesLen == NamesLen(recs)
    requires Pass1(out[..], recs, wide, header, |recs|)
    modifies out
    ensures Pass2(out[..], recs, wide, header, |recs|)
  {
    hide RecOk, Written, NamesLen, NameBytes, Pass1, Pass2;
    ghost var s := out[..];
    Pass1Size(s, recs, wide, header);
    Copy(out, ArenaStart(|recs|) + namesLen, wide);
    Pass2Start(s, out[..], recs, wide, header);
    var i := 0;
    while i < |recs|
      invariant 0 <= i <= |recs|
      invariant Pass2(out[..], recs, wide, header, i)
    {
      s := out[..];
      if recs[i].wideOff.Some? {
        OffsetsFit(recs, wide, i);
        Put32(out, HEADER + i * ENTRY + 8, FinalA(recs[i], namesLen));
        Pass2Patch(s, out[..], recs, wide, header, i, FinalA(recs[i], namesLen));
      } else {
        Pass2Skip(s, recs, wide, header, i);
      }
      i := i + 1;
    }
  }

  lemma Pass1Size(s: Blob, recs: seq<Rec>, wide: Blob, header: Blob)
    requires RecsOk(recs, wide) && Sized(recs, wide) && Pass1(s, recs, wide, header, |recs|)
    ensures |s| == TotalSize(recs, wide)
  {}

  lemma NoPayloads(s: Blob, recs: seq<Rec>, wide: Blob, header: Blob)
    requires RecsOk(recs, wide) && Sized(recs, wide) && Pass1(s, recs, wide, header, |recs|)
    requires wide == [] && forall k :: 0 <= k < |recs| ==> recs[k].wideOff.None?
    ensures Pass2(s, recs, wide, header, |recs|)
  {
    hide RecOk, EntryBytes, NamesLen, NameBytes;
    assert recs[..|recs|] == recs;
    forall k | 0 <= k < |recs| ensures EntryIs(s, recs, wide, k, true) { assert EntryIs(s, recs, wide, k, false); }
    assert s[ArenaStart(|recs|)..] == s[ArenaStart(|recs|)..ArenaStart(|recs|) + NamesLen(recs)];
  }

  lemma NothingNamed(recs: seq<Rec>)
    ensures NamesLen(recs[..0]) == 0
  {}

  lemma Pass2Done(s: Blob, recs: seq<Rec>, wide: Blob, hasLibcall: bool)
    requires RecsOk(recs, wide) && Sized(recs, wide)
    requires Pass2(s, recs, wide, HeaderBytes(|recs|, NamesLen(recs) + |wide|, hasLibcall), |recs|)
    ensures LaidOut(s, recs, wide, hasLibcall)
  {
    hide RecOk, HeaderBytes, NamesLen, NameBytes, EntryIs;
  }

  // ---- the packer ----

  /** A table, or the row list is refused; sizes beyond 32 bits are set apart. */
  datatype Outcome = Packed(blob: array<Byte>) | Refused | TooLarge

  predicate RowsDistinct(rows: seq<Row>) {
    forall i :: 0 < i < |rows| && rows[i - 1].name == rows[i].name ==> rows[i - 1].CallOf? && rows[i].CallOf?
  }

  /** What the packer accepts: good rows, and only :fn rows repeating a name. */
  ghost predicate PackAccepts(rows: seq<InputRow>) {
    AllAccepted(rows) && RowsDistinct(SortRows(ExpandAll(rows)))
  }

  /** Integer objects are canonical. */
  ghost predicate IntegersCanonical(rows: seq<InputRow>) {
    forall i :: 0 <= i < |rows| && (rows[i].ConstRow? || rows[i].VarRow?) && rows[i].value.IntegerValue? ==>
      Canonical(rows[i].value.x)
  }

  method FindDuplicate(recs: seq<Rec>) returns (distinct: bool)
    ensures distinct <==> NoDuplicates(recs)
  {
    var i := 1;
    while i < |recs|
      invariant 1 <= i
      invariant forall j :: 0 < j < i && j < |recs| && recs[j - 1].name == recs[j].name ==>
        recs[j - 1].kind == KIND_LIBCALL && recs[j].kind == KIND_LIBCALL
    {
      CompareZero(recs[i - 1].name, recs[i].name);
      if NameCompare(recs[i - 1].name, recs[i].name) == 0
         && !(recs[i - 1].kind == KIND_LIBCALL && recs[i].kind == KIND_LIBCALL) {
        return false;
      }
      i := i + 1;
    }
    distinct := true;
  }

  lemma RowKind(r: Rec, wide: Blob)
    requires RecOk(r, wide)
    ensures RecRow(r, wide).name == r.name
    ensures RecRow(r, wide).CallOf? <==> r.kind == KIND_LIBCALL
  {
    hide RecOk, StoredValue, Registers, HasFlag;
  }

  lemma DistinctMapped(recs: seq<Rec>, wide: Blob)
    requires RecsOk(recs, wide)
    ensures NoDuplicates(recs) <==> RowsDistinct(RecRows(recs, wide))
  {
    hide RecOk, RecRow;
    var rows := RecRows(recs, wide);
    forall i | 0 <= i < |recs|
      ensures rows[i].name == recs[i].name && (rows[i].CallOf? <==> recs[i].kind == KIND_LIBCALL)
    {
      RowKind(recs[i], wide);
    }
    if !NoDuplicates(recs) {
      var i :| 0 < i < |recs| && recs[i - 1].name == recs[i].name
        && !(recs[i - 1].kind == KIND_LIBCALL && recs[i].kind == KIND_LIBCALL);
      assert rows[i - 1].name == rows[i].name;
    }
  }

  lemma {:induction false} NamesLenBound(recs: seq<Rec>, wide: Blob)
    requires RecsOk(recs, wide)
    ensures NamesLen(recs) <= 255 * |recs|
  {
    hide HasFlag, Ascii;
    if recs != [] {
      assert RecOk(recs[|recs| - 1], wide);
      NamesLenBound(recs[..|recs| - 1], wide);
    }
  }

  lemma {:induction false} ExpandPrefix(rows: seq<InputRow>, i: nat)
    requires i < |rows| && forall k :: 0 <= k <= i ==> Accepted(rows[k])
    ensures AllAccepted(rows[..i]) && AllAccepted(rows[..i + 1])
    ensures ExpandAll(rows[..i + 1]) == ExpandAll(rows[..i]) + Expansion(rows[i])
  {
    hide Accepted, Expansion;
    assert rows[..i + 1][..i] == rows[..i];
  }

  method ParseRows(b: Build, rows: seq<InputRow>) returns (ok: bool)
    requires b.Valid() && b.Rows() == [] && IntegersCanonical(rows)
    modifies b
    ensures b.Valid() && (ok <==> AllAccepted(rows))
    ensures ok ==> b.Rows() == ExpandAll(rows)
  {
    hide Accepted, Expansion;
    var i := 0;
    while i < |rows|
      invariant 0 <= i <= |rows| && b.Valid()
      invariant AllAccepted(rows[..i]) && b.Rows() == ExpandAll(rows[..i])
    {
      assert IntegersCanonical(rows);
      ok := b.ParseRow(rows[i]);
      if !ok { return; }
      forall k | 0 <= k <= i ensures Accepted(rows[k]) { if k < i { assert rows[..i][k] == rows[k]; } }
      ExpandPrefix(rows, i);
      i := i + 1;
    }
    assert rows[..|rows|] == rows;
    ok := true;
  }

  lemma SortKeepsPayloads(recs: seq<Rec>, i: nat)
    requires i < |recs| && recs[i].wideOff.Some?
    ensures exists k :: 0 <= k < |SortRecs(recs)| && SortRecs(recs)[k].wideOff.Some?
  {
    SortMultiset(recs, (r: Rec) => r.name);
    assert recs[i] in multiset(SortRecs(recs));
  }

  /** cl_bindtab_pack: every accepted row list packs to a table that passes the validator and reads
      back as the expansion of the rows in stable name order. */
  method Pack(rows: seq<InputRow>) returns (r: Outcome)
    requires IntegersCanonical(rows)
    ensures r.Refused? <==> !PackAccepts(rows)
    ensures r.TooLarge? ==> AllAccepted(rows) && |ExpandAll(rows)| > 8_000_000
    ensures r.Packed? ==> fresh(r.blob) && AllAccepted(rows)
    ensures r.Packed? && |ExpandAll(rows)| <= MAX_ENTRIES ==>
      && WellFormed(r.blob[..])
      && DecodeRows(r.blob[..]) == SortRows(ExpandAll(rows))
      && CallsOnlyGuarded(Bindings(r.blob[..])) && NamesFit(Bindings(r.blob[..]))
  {
    hide RecOk, WellFormed, LaidOut, Accepted, Expansion, RecsSorted, NoDuplicates, RowsDistinct, CallsOnlyGuarded,
      NamesFit;
    var b := new Build();
    var parsed := ParseRows(b, rows);
    if !parsed { return Refused; }
    var recs := SortRecs(b.recs);
    SortSorted(b.recs);
    SortMapped(b.recs, b.wide);
    SortNamesLen(b.recs);
    NamesLenBound(b.recs, b.wide);
    DistinctMapped(recs, b.wide);
    var distinct := FindDuplicate(recs);
    if !distinct { return Refused; }
    if HEADER + |recs| * ENTRY + b.namesLen + |b.wide| >= 0x1_0000_0000 { return TooLarge; }
    if b.wide != [] {
      var i :| 0 <= i < |b.recs| && b.recs[i].wideOff.Some?;
      SortKeepsPayloads(b.recs, i);
    }
    var out := Layout(recs, b.namesLen, b.wide, b.hasLibcall);
    if |recs| <= MAX_ENTRIES {
      LaidOutDecodes(out[..], recs, b.wide, b.hasLibcall);
      FlagsSorted(b.recs);
      PackedGuards(out[..], recs, b.wide, b.hasLibcall);
      PackedNamesFit(out[..], recs, b.wide, b.hasLibcall);
    }
    r := Packed(out);
  }

  // ---- what the order of the decoded rows is ----

  function Selected<T>(s: seq<T>, key: T -> Name, name: Name): seq<T> {
    if s == [] then []
    else
      var rest := Selected(s[..|s| - 1], key, name);
      if key(s[|s| - 1]) == name then rest + [s[|s| - 1]] else rest
  }

  lemma SelectedSnoc<T>(s: seq<T>, x: T, key: T -> Name, name: Name)
    ensures Selected(s + [x], key, name) == Selected(s, key, name) + if key(x) == name then [x] else []
  {
    assert (s + [x])[..|s|] == s;
  }

  lemma {:induction false} InsertStable<T>(s: seq<T>, x: T, key: T -> Name, name: Name)
    ensures Selected(Insert(s, x, key), key, name) == Selected(s + [x], key, name)
  {
    if s != [] && !NotAfter(key(s[|s| - 1]), key(x)) {
      var rest, last := s[..|s| - 1], s[|s| - 1];
      InsertStable(rest, x, key, name);
      CompareZero(key(last), key(x));
      SelectedSnoc(Insert(rest, x, key), last, key, name);
      SelectedSnoc(rest, x, key, name);
      SelectedSnoc(s, x, key, name);
    }
  }

  /** Rows of one name keep the order they were written in. */
  lemma {:induction false} SortStable<T>(s: seq<T>, key: T -> Name, name: Name)
    ensures Selected(Sort(s, key), key, name) == Selected(s, key, name)
  {
    if s != [] {
      var rest, last := s[..|s| - 1], s[|s| - 1];
      SortStable(rest, key, name);
      InsertStable(Sort(rest, key), last, key, name);
      SelectedSnoc(Sort(rest, key), last, key, name);
      assert s == rest + [last];
      SelectedSnoc(rest, last, key, name);
    }
  }

  lemma PackedGuards(s: Blob, recs: seq<Rec>, wide: Blob, hasLibcall: bool)
    requires RecsOk(recs, wide) && Sized(recs, wide) && LaidOut(s, recs, wide, hasLibcall) && |recs| <= MAX_ENTRIES
    requires WellFormed(s)
    requires forall i :: 0 <= i < |recs| && recs[i].kind != KIND_LIBCALL ==> !PlatformFlags(recs[i].flags)
    ensures CallsOnlyGuarded(Bindings(s))
  {
    hide WellFormed, LaidOut, RecOk, Arena, HeaderOk, EntryCount, Bindings;
    LaidOutHeader(s, recs, wide, hasLibcall);
    forall k | 0 <= k < |recs| && Bindings(s)[k].kind != KIND_LIBCALL
      ensures !PlatformFlags(Bindings(s)[k].flags)
    {
      EntryDecodes(s, recs, wide, hasLibcall, k);
      BindingParts(s, k);
    }
  }

  /** A packed name fits the materialiser's buffer, and its setter's name too. */
  lemma PackedNamesFit(s: Blob, recs: seq<Rec>, wide: Blob, hasLibcall: bool)
    requires RecsOk(recs, wide) && Sized(recs, wide) && LaidOut(s, recs, wide, hasLibcall) && |recs| <= MAX_ENTRIES
    requires WellFormed(s)
    ensures NamesFit(Bindings(s))
  {
    hide WellFormed, LaidOut, RecOk, Arena, HeaderOk, EntryCount, Bindings;
    LaidOutHeader(s, recs, wide, hasLibcall);
    forall k | 0 <= k < |recs| ensures |Bindings(s)[k].name| <= NAME_BUFFER {
      EntryDecodes(s, recs, wide, hasLibcall, k);
      BindingParts(s, k);
      OffsetsFit(recs, wide, k);
    }
  }

  lemma FlagsSorted(recs: seq<Rec>)
    requires forall i :: 0 <= i < |recs| && recs[i].kind != KIND_LIBCALL ==> !PlatformFlags(recs[i].flags)
    ensures var s := SortRecs(recs);
      forall i :: 0 <= i < |s| && s[i].kind != KIND_LIBCALL ==> !PlatformFlags(s[i].flags)
  {
    SortMultiset(recs, (r: Rec) => r.name);
    var s := SortRecs(recs);
    forall i | 0 <= i < |s| && s[i].kind != KIND_LIBCALL ensures !PlatformFlags(s[i].flags) {
      assert s[i] in multiset(s);
      assert s[i] in recs;
    }
  }

  lemma BindingParts(s: Blob, k: nat)
    requires WellFormed(s) && k < EntryCount(s)
    ensures Bindings(s)[k].flags == DecodeEntry(s, k).flags && Bindings(s)[k].kind == DecodeEntry(s, k).kind
    ensures NameInside(Arena(s), DecodeEntry(s, k)) && Bindings(s)[k].name == EntryName(Arena(s), DecodeEntry(s, k))
  {
    hide EntryOk, StoredValue, NameInside, OrderOk;
    NameOfEntry(Arena(s), DecodeEntry(s, k));
    assert Bindings(s)[k] == BindingAt(s, k);
  }
}
