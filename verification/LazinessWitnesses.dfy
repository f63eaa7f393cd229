/** Tables on which laziness shows, and one that the validator accepts and the materialiser cannot
    hold: concrete byte strings, the first of them made by the packer. */
module LazinessWitnesses {
  import opened Digits
  import opened Integers
  import opened Names
  import opened TableFormat
  import opened TableProbe
  import opened TablePacker
  import opened TableLayout
  import opened LazyPackages
  import opened LazinessExact

  const FIELD: Name := [0x46]

  // ---- a packed table ----

  /** A field F beside an entry called %SET-F. */
  function ClashRows(): seq<InputRow> {
    [FieldRow([0x46], ScalarType(0), 0), NameRow([0x25, 0x53, 0x45, 0x54, 0x2D, 0x46])]
  }

  function ClashExpanded(): seq<Row> { [FieldOf(FIELD, Scalar(0), 0), NameOf(SetterName(FIELD))] }

  lemma ClashExpands()
    ensures AllAccepted(ClashRows()) && ExpandAll(ClashRows()) == ClashExpanded()
    ensures IntegersCanonical(ClashRows())
  {
    var rows := ClashRows();
    assert Accepted(rows[0]) && Accepted(rows[1]);
    assert BytesOf(rows[0].name) == FIELD && BytesOf(rows[1].name) == SetterName(FIELD);
    assert Expansion(rows[0]) == [FieldOf(FIELD, Scalar(0), 0)] && Expansion(rows[1]) == [NameOf(SetterName(FIELD))];
    assert rows[..0] == [] && rows[..2] == rows;
    ExpandPrefix(rows, 0);
    ExpandPrefix(rows, 1);
  }

  /** Sorting keeps the two rows, whose names differ. */
  lemma ClashSorted()
    ensures var s := SortRows(ClashExpanded());
      && |s| == 2 && RowsDistinct(s)
      && exists k :: 0 <= k < 2 && s[k] == ClashExpanded()[0] && s[1 - k] == ClashExpanded()[1]
  {
    hide Sort, Insert, SetterName;
    var s, a, b := SortRows(ClashExpanded()), ClashExpanded()[0], ClashExpanded()[1];
    SortMultiset(ClashExpanded(), (r: Row) => r.name);
    assert ClashExpanded() == [a, b];
    SetterNameInjective(FIELD, FIELD);
    TwoRows(s, a, b);
    if s[0] == a {
      assert s[0] == a && s[1 - 0] == b;
    } else {
      assert s[1] == a && s[1 - 1] == b;
    }
  }

  lemma TwoRows(s: seq<Row>, a: Row, b: Row)
    requires a != b && |s| == 2 && multiset(s) == multiset{a, b}
    ensures (s[0] == a && s[1] == b) || (s[0] == b && s[1] == a)
  {
    assert s == [s[0], s[1]];
    assert s[0] in multiset(s) && s[1] in multiset(s);
  }

  /** What a decoded row says of the binding it comes from. */
  lemma RowBinding(s: Blob, k: nat)
    requires WellFormed(s) && k < EntryCount(s)
    ensures DecodeRows(s)[k] == RowOfBinding(Bindings(s)[k]) && Bindings(s)[k].name == DecodeRows(s)[k].name
    ensures DecodeRows(s)[k].FieldOf? && DecodeRows(s)[k].typ.Scalar? ==> WritableField(Bindings(s)[k])
  {
    hide WellFormed, EntryCount, StoredValue, Registers, ResultKind, HasFlag;
    assert Bindings(s)[k] == BindingAt(s, k);
  }

  lemma UnguardedOk(env: Environment, b: Binding)
    requires b.kind == KIND_FIELD && !PlatformFlags(b.flags)
    ensures GuardOk(env, b)
  {}

  /** The packer accepts it, and in every environment the export of %SET-F depends on which of the two
      names is looked up first. */
  method PackedClash(base: Option<nat>, env: Environment) returns (s: Blob)
    ensures WellFormed(s) && NamesFit(Bindings(s)) && !Separated(Bindings(s), env)
    ensures var e := Untouched(Lazy(Bindings(s), base, env));
      Flip(Find(e, FIELD, true).0) != Flip(Find(e, SetterName(FIELD), true).0)
  {
    hide WellFormed, GuardOk, Find, Flip, OrderedTable, NameCompare, SortRows, RowsDistinct, Accepted, Expansion,
      SetterName, EntryCount, RowOfBinding;
    ClashExpands();
    ClashSorted();
    var r := Pack(ClashRows());
    s := r.blob[..];
    var k :| 0 <= k < 2 && SortRows(ClashExpanded())[k] == ClashExpanded()[0]
      && SortRows(ClashExpanded())[1 - k] == ClashExpanded()[1];
    RowBinding(s, k);
    RowBinding(s, 1 - k);
    ValidTableOrdered(s);
    var bs := Bindings(s);
    UnguardedOk(env, bs[k]);
    assert LiveField(env, bs[k]) && Defines(bs, SetterName(bs[k].name));
    CollisionShows(Lazy(bs, base, env), k);
  }

  // ---- tables of one entry ----

  /** The bytes of a table with one entry that holds no value. */
  function OneEntry(r: Rec): Blob
    requires 0 < |r.name| < 0x1_0000 && -0x8000 <= r.b < 0x8000
  {
    HeaderBytes(1, |r.name|, false) + EntryBytes(0, r, r.a) + r.name
  }

  lemma OneEntryParts(r: Rec)
    requires 0 < |r.name| < 0x1_0000 && -0x8000 <= r.b < 0x8000
    ensures var s := OneEntry(r);
      && HeaderOk(s) && EntryCount(s) == 1 && Arena(s) == r.name
      && DecodeEntry(s, 0) == Entry(0, |r.name|, r.kind, r.flags, r.a, r.b, r.c, r.d)
  {
    hide Read32, HeaderBytes, EntryBytes, EntryOfBytes;
    var s := OneEntry(r);
    assert s[..HEADER] == HeaderBytes(1, |r.name|, false);
    HeaderReadsBack(s, 1, |r.name|, false);
    EntryReadsBack(0, r, r.a);
    assert s[HEADER + 0 * ENTRY..HEADER + (0 + 1) * ENTRY] == EntryBytes(0, r, r.a);
    assert s[HEADER + ENTRY..] == r.name;
  }

  lemma OneEntryValid(r: Rec)
    requires 0 < |r.name| < 0x1_0000 && -0x8000 <= r.b < 0x8000 && Ascii(r.name)
    requires r.kind <= KIND_NAME && r.flags < 32 && !HoldsValue(r.kind)
    requires KindOk(r.name, Entry(0, |r.name|, r.kind, r.flags, r.a, r.b, r.c, r.d))
    ensures var s := OneEntry(r);
      WellFormed(s) && Bindings(s) == [Binding(r.name, r.kind, r.flags, r.a, r.b, r.c, r.d, Number(0))]
  {
    OneEntryParts(r);
    hide OneEntry, HeaderOk, EntryCount, Arena, DecodeEntry, KindOk, HoldsValue;
    var s := OneEntry(r);
    var e := DecodeEntry(s, 0);
    assert EntryName(Arena(s), e) == r.name;
    assert EntryOk(Arena(s), e);
    assert Bindings(s)[0] == BindingAt(s, 0);
  }

  /** A name entry of any length up to 65535 bytes. */
  function NameRec(n: nat): (r: Rec)
    ensures |r.name| == n && Ascii(r.name)
  {
    Rec(seq(n, _ => 0x41), 0, KIND_NAME, 0, 0, 0, 0, 0, None)
  }

  /** The validator accepts names the materialiser's buffer does not hold: all those of more than 256
      bytes. */
  lemma LongNameIsValid(n: nat)
    requires 0 < n < 0x1_0000
    ensures WellFormed(OneEntry(NameRec(n))) && (NamesFit(Bindings(OneEntry(NameRec(n)))) <==> n <= NAME_BUFFER)
  {
    hide OneEntry, WellFormed, Ascii;
    OneEntryValid(NameRec(n));
    assert Bindings(OneEntry(NameRec(n)))[0].name == NameRec(n).name;
  }

  /** A writable field for MorphOS only. */
  const GUARDED: Rec := Rec(FIELD, 0, KIND_FIELD, MORPHOS, 0, 0, 0, STUB_PEEK, None)
  const GUARDED_BINDING: Binding := Binding(FIELD, KIND_FIELD, MORPHOS, 0, 0, 0, STUB_PEEK, Number(0))

  lemma GuardedValid()
    ensures WellFormed(OneEntry(GUARDED)) && Bindings(OneEntry(GUARDED)) == [GUARDED_BINDING]
  {
    hide OneEntry, WellFormed;
    OneEntryValid(GUARDED);
  }

  lemma GuardedDead(version: Option<int>)
    ensures WritableField(GUARDED_BINDING) && !GuardOk(Environment(false, version), GUARDED_BINDING)
  {}

  /** Elsewhere the lookup of its setter defines the field, which the eager flip does not: a valid table,
      which the packer never makes. */
  lemma GuardedFieldShows(base: Option<nat>, version: Option<int>) returns (s: Blob)
    ensures WellFormed(s) && NamesFit(Bindings(s))
    ensures var e := Untouched(Lazy(Bindings(s), base, Environment(false, version)));
      Flip(Find(e, SetterName(FIELD), true).0) != Flip(e)
  {
    s := OneEntry(GUARDED);
    GuardedValid();
    ValidTableOrdered(s);
    hide *;
    GuardedTableShows(Bindings(s), base, version);
  }

  lemma GuardedTableShows(bs: seq<Binding>, base: Option<nat>, version: Option<int>)
    requires bs == [GUARDED_BINDING] && OrderedTable(bs)
    ensures NamesFit(bs)
    ensures var e := Untouched(Lazy(bs, base, Environment(false, version)));
      Flip(Find(e, SetterName(FIELD), true).0) != Flip(e)
  {
    var t := Lazy(bs, base, Environment(false, version));
    GuardedDead(version);
    SetterNameInjective(FIELD, FIELD);
    hide Find, Flip, NameCompare, SetterName, GuardOk, WritableField, OrderedTable;
    assert bs[0].name == FIELD && !Defines(t.bs, SetterName(bs[0].name));
    assert forall k :: 0 <= k < |t.bs| ==> !LiveField(t.env, t.bs[k]);
    DeadFieldShows(t, 0);
  }
}
