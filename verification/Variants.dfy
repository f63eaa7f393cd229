/** Which of several calls of one name a program gets: the platform and version guards of
    src/core/bindtab.c, told from the rows of a table, and from the rows its writer wrote; and with it
    the whole way from a written row to the cells of the symbol a lookup finds. */
module Variants {
  import opened Names
  import opened TableFormat
  import opened TableProbe
  import opened TablePacker
  import opened TableLayout
  import opened LazyPackages
  import opened Definitions

  /** Row `d` is the first of its name that can be used; -1 stands for none. */
  ghost predicate FirstUsable(env: Environment, rows: seq<Row>, name: Name, d: int) {
    && -1 <= d < |rows|
    && (d >= 0 ==> rows[d].name == name && Usable(env, rows[d]))
    && (forall k :: 0 <= k < (if d < 0 then |rows| else d) && rows[k].name == name ==> !Usable(env, rows[k]))
  }

  /** The order of the list, and the first usable element of it. */
  ghost predicate FirstOf(env: Environment, variants: seq<Row>, row: Row) {
    exists j :: 0 <= j < |variants| && variants[j] == row && Usable(env, row)
      && forall k :: 0 <= k < j ==> !Usable(env, variants[k])
  }

  /** The rows of one name. */
  function VariantsOf(rows: seq<Row>, name: Name): seq<Row> { Selected(rows, (r: Row) => r.name, name) }

  lemma RowAt(s: Blob, k: nat)
    requires WellFormed(s) && k < EntryCount(s)
    ensures DecodeRows(s)[k] == RowOfBinding(Bindings(s)[k]) && DecodeRows(s)[k].name == Bindings(s)[k].name
  {
    hide WellFormed, EntryCount, StoredValue, Registers, ResultKind, HasFlag;
    assert Bindings(s)[k] == BindingAt(s, k);
  }

  lemma ScanIsFirst(s: Blob, env: Environment, name: Name)
    requires WellFormed(s) && CallsOnlyGuarded(Bindings(s))
    ensures FirstUsable(env, DecodeRows(s), name, ScanUsable(Bindings(s), env, name, 0))
  {
    hide WellFormed, EntryCount, GuardOk, Usable, BindingAt, PlatformFlags, RowOfBinding, Bindings;
    var bs, rows := Bindings(s), DecodeRows(s);
    ScanUsableMeaning(bs, env, name, 0);
    forall k | 0 <= k < |bs|
      ensures rows[k].name == bs[k].name && (GuardOk(env, bs[k]) <==> Usable(env, rows[k]))
    {
      RowAt(s, k);
      UsableRow(env, bs[k]);
    }
  }

  lemma {:induction false} SelectedAppend(a: seq<Row>, b: seq<Row>, name: Name)
    ensures VariantsOf(a + b, name) == VariantsOf(a, name) + VariantsOf(b, name)
  {
    if b == [] {
      assert a + b == a;
    } else {
      SelectedAppend(a, b[..|b| - 1], name);
      assert (a + b)[..|a + b| - 1] == a + b[..|b| - 1];
    }
  }

  lemma {:induction false} VariantsOnly(rows: seq<Row>, name: Name)
    ensures forall r :: r in VariantsOf(rows, name) <==> r in rows && r.name == name
  {
    if rows != [] {
      VariantsOnly(rows[..|rows| - 1], name);
      assert rows == rows[..|rows| - 1] + [rows[|rows| - 1]];
    }
  }

  /** The first usable row of a name is the first usable one among the rows of that name. */
  lemma FirstAmongVariants(env: Environment, rows: seq<Row>, name: Name, d: int)
    requires FirstUsable(env, rows, name, d)
    ensures d == -1 ==> forall r :: r in VariantsOf(rows, name) ==> !Usable(env, r)
    ensures d >= 0 ==> FirstOf(env, VariantsOf(rows, name), rows[d])
  {
    hide Usable;
    VariantsOnly(rows, name);
    if d >= 0 {
      var before, after := rows[..d], rows[d + 1..];
      assert rows == before + [rows[d]] + after;
      SelectedAppend(before + [rows[d]], after, name);
      SelectedAppend(before, [rows[d]], name);
      VariantsOnly(before, name);
      var early := VariantsOf(before, name);
      var all := VariantsOf(rows, name);
      assert VariantsOf([rows[d]], name) == [rows[d]];
      assert all[|early|] == rows[d];
      forall k | 0 <= k < |early| ensures !Usable(env, all[k]) {
        assert all[k] == early[k] && early[k] in early;
      }
    }
  }

  /** A packed table gives the first usable row of the name: in the order of the table, and among the rows
      of that name in the order they were written. */
  lemma PackedVariant(rows: seq<InputRow>, s: Blob, env: Environment, name: Name, allowSetter: bool)
    requires AllAccepted(rows) && WellFormed(s) && CallsOnlyGuarded(Bindings(s))
    requires DecodeRows(s) == SortRows(ExpandAll(rows))
    ensures var hit := LinearProbe(Bindings(s), env, name, allowSetter);
      && (hit.Named? <==> exists r :: r in ExpandAll(rows) && r.name == name)
      && (hit.Named? ==>
        && FirstUsable(env, SortRows(ExpandAll(rows)), name, hit.def)
        && (hit.def == -1 ==> forall r :: r in VariantsOf(ExpandAll(rows), name) ==> !Usable(env, r))
        && (hit.def >= 0 ==> FirstOf(env, VariantsOf(ExpandAll(rows), name), DecodeRows(s)[hit.def])))
  {
    hide WellFormed, Usable, GuardOk, Expansion, Accepted, EntryCount, NameCompare, DecodeRows, Bindings, ScanUsable,
      FirstUsable, FirstOf, Selected;
    var written := ExpandAll(rows);
    SortStable(written, (r: Row) => r.name, name);
    assert VariantsOf(SortRows(written), name) == VariantsOf(written, name);
    ScanIsFirst(s, env, name);
    var d := ScanUsable(Bindings(s), env, name, 0);
    FirstAmongVariants(env, SortRows(written), name, d);
    NamedExactly(s, env, name, allowSetter);
    VariantsOnly(written, name);
    VariantsOnly(SortRows(written), name);
  }

  lemma NamedExactly(s: Blob, env: Environment, name: Name, allowSetter: bool)
    requires WellFormed(s)
    ensures var hit := LinearProbe(Bindings(s), env, name, allowSetter);
      && (hit.Named? <==> exists r :: r in DecodeRows(s) && r.name == name)
      && (hit.Named? ==> hit.def == ScanUsable(Bindings(s), env, name, 0) && hit.def < |DecodeRows(s)|)
  {
    hide WellFormed, GuardOk, EntryCount, DecodeRows, Bindings, BindingAt;
    var bs, rows := Bindings(s), DecodeRows(s);
    ScanNameMeaning(bs, name, 0);
    forall k | 0 <= k < |rows| ensures rows[k].name == bs[k].name { RowAt(s, k); }
    if ScanName(bs, name, 0) < |bs| {
      assert rows[ScanName(bs, name, 0)] in rows;
    }
  }

  /** From the rows written to the symbol found: the first lookup of a name in a package with a packed table
      makes the symbol that the first usable row of the name describes; `row` is none when no row of the
      name can be used. */
  lemma PackedLookup(rows: seq<InputRow>, s: Blob, p: Package, name: Name, allowSetter: bool) returns (row: Option<Row>)
    requires AllAccepted(rows) && WellFormed(s) && CallsOnlyGuarded(Bindings(s))
    requires DecodeRows(s) == SortRows(ExpandAll(rows))
    requires p.table.Lazy? && p.table.bs == Bindings(s) && name !in p.symbols
    requires exists r :: r in ExpandAll(rows) && r.name == name
    ensures Find(p, name, allowSetter).1
    ensures Materialises(p, Find(p, name, allowSetter).0, name, row, p.table.base, false)
    ensures row.None? ==> forall r :: r in VariantsOf(ExpandAll(rows), name) ==> !Usable(p.table.env, r)
    ensures row.Some? ==> FirstOf(p.table.env, VariantsOf(ExpandAll(rows), name), row.value)
  {
    hide WellFormed, Usable, GuardOk, Expansion, Accepted, EntryCount, NameCompare, DecodeRows, Bindings, ScanUsable,
      FirstUsable, FirstOf, Selected, Find, Materialises, LinearProbe, OrderedTable, Chosen, RowOfBinding;
    NamesOfBlob(s);
    var bs, env := p.table.bs, p.table.env;
    PackedVariant(rows, s, env, name, allowSetter);
    NamedExactly(s, env, name, allowSetter);
    NamedDefines(bs, env, name, allowSetter);
    var d, n := FindMeans(p, name, allowSetter);
    ScanChosen(bs, env, name);
    ChosenUnique(bs, env, name, d, ScanUsable(bs, env, name, 0));
    if d != -1 { RowAt(s, d); }
    row := RowNumber(bs, d);
  }

  lemma NamedDefines(bs: seq<Binding>, env: Environment, name: Name, allowSetter: bool)
    ensures LinearProbe(bs, env, name, allowSetter).Named? ==> Defines(bs, name)
  {
    hide GuardOk;
    ScanNameMeaning(bs, name, 0);
  }

  // ---- what a library's version changes ----

  lemma {:induction false} ScanRaised(bs: seq<Binding>, env: Environment, v: int, w: int, name: Name, i: nat)
    requires i <= |bs| && v <= w
    ensures var k := ScanUsable(bs, env.(version := Some(v)), name, i);
      k != -1 ==> 0 <= ScanUsable(bs, env.(version := Some(w)), name, i) <= k
    decreases |bs| - i
  {
    if i < |bs| { ScanRaised(bs, env, v, w, name, i + 1); }
  }

  /** A newer library loses no name: what could be used still can be, in this variant or an earlier one. */
  lemma NewerKeeps(bs: seq<Binding>, env: Environment, v: int, w: int, name: Name, allowSetter: bool)
    requires v <= w
    ensures var was := LinearProbe(bs, env.(version := Some(v)), name, allowSetter);
      var now := LinearProbe(bs, env.(version := Some(w)), name, allowSetter);
      && (was.Named? ==> now.Named? && now.first == was.first && (was.def != -1 ==> 0 <= now.def <= was.def))
      && (!was.Named? ==> now == was)
  {
    hide ScanUsable;
    ScanRaised(bs, env, v, w, name, 0);
  }

  /** Without a version only unversioned entries are left, and of those none is lost. */
  lemma UnknownVersion(bs: seq<Binding>, env: Environment, name: Name, allowSetter: bool, k: nat)
    requires env.version.None? && k < |bs| && bs[k].name == name
    requires bs[k].kind == KIND_LIBCALL || !PlatformFlags(bs[k].flags)
    ensures var hit := LinearProbe(bs, env, name, allowSetter);
      && hit.Named?
      && (hit.def == k ==> !RowOfBinding(bs[k]).CallOf? || RowOfBinding(bs[k]).version == 0)
      && (hit.def == -1 ==>
        var row := RowOfBinding(bs[k]);
        row.CallOf? && (row.version != 0 || (row.notMorphos && env.morphos) || (row.morphos && !env.morphos)))
  {
    hide GuardOk, RowOfBinding, PlatformFlags;
    ScanNameMeaning(bs, name, 0);
    ScanUsableMeaning(bs, env, name, 0);
    UsableRow(env, bs[k]);
  }
}
