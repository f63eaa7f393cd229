/** What a row of a binding table puts into a symbol (src/core/bindtab.c, install_definition and
    cl_bindtab_materialize), cell by cell, on lookup, on the eager flip and on registration. */
module Definitions {
  import opened Names
  import opened TableFormat
  import opened TableProbe
  import opened TablePacker
  import opened LazyPackages

  // ---- stubs ----

  /** A call through the library base `base`, as its row says. */
  predicate CallStub(o: Object, target: Name, base: Option<nat>, lvo: int, regs: seq<int>, result: int) {
    && o.Stub? && o.kind == STUB_LIBCALL && o.name == target && o.base == base
    && o.b == lvo && o.c == |regs| && Registers(o.a, o.c) == regs && ResultKind(o.a) == result
  }

  /** An accessor of a field, as its row says; `plain` and `indexed` tell reading from writing. */
  predicate FieldStub(o: Object, target: Name, typ: FieldType, offset: int, plain: int, indexed: int) {
    && o.Stub? && o.name == target && o.base.None?
    && match typ
       case Scalar(ctype) => o.kind == plain && o.c == ctype && o.a == offset
       case Elements(ctype, count, stride) =>
         o.kind == indexed && o.c == ctype && o.a % 0x1_0000 == offset && o.a / 0x1_0000 == count && o.b == stride
       case Embedded => o.kind == STUB_FIELD_PTR && o.a == offset
  }

  /** The place of an element in the foreign structure, in the code's 32-bit arithmetic. */
  function ElementPlace(o: Object, i: nat): int
    requires o.Stub?
  {
    (o.a % 0x1_0000 + i * o.b) % 0x1_0000_0000
  }

  /** Reader and writer of a packed array field find element `i` at the same place, and no two elements
      share a byte. */
  lemma ArrayElements(reader: Object, writer: Object, n: Name, m: Name, t: InputType, offset: int, i: nat, j: nat)
    requires t.ArrayType? && FieldAccepted(t, offset) && i < j < t.count
    requires FieldStub(reader, n, TypeOf(t), offset, STUB_PEEK, STUB_PEEK_IDX)
    requires FieldStub(writer, m, TypeOf(t), offset, STUB_POKE, STUB_POKE_IDX)
    ensures ElementPlace(reader, i) == ElementPlace(writer, i) == offset + i * TYPE_BYTES[t.ctype]
    ensures ElementPlace(reader, i) + TYPE_BYTES[t.ctype] <= ElementPlace(reader, j)
  {
    var size := TYPE_BYTES[t.ctype];
    assert 0 < size <= 8;
    ElementsFit(offset, i, size);
    ElementsFit(offset, j, size);
    Apart(i, j, size);
  }

  lemma ElementsFit(offset: int, i: nat, size: int)
    requires 0 <= offset <= 0xFFFF && i <= 0xFFFF && 0 < size <= 8
    ensures (offset + i * size) % 0x1_0000_0000 == offset + i * size
  {
    assert 0 <= i * size <= 0xFFFF * 8;
  }

  lemma Apart(i: nat, j: nat, size: int)
    requires i < j && 0 < size
    ensures i * size + size <= j * size
  {
    assert (i + 1) * size <= j * size;
  }

  // ---- cells ----

  predicate Writable(row: Row) { row.FieldOf? && !row.typ.Embedded? }

  predicate SameVariable(before: Symbol, after: Symbol) {
    after.value == before.value && after.constant == before.constant && after.special == before.special
  }

  /** The row's definition is there, and the cells it does not define are as before. */
  predicate Installed(before: Symbol, after: Symbol, row: Row, target: Name, base: Option<nat>) {
    match row
    case ConstOf(_, v) =>
      && after.value == Some(Value(v)) && after.constant
      && after.special == before.special && after.fun == before.fun
    case VarOf(_, v) =>
      && after.value == Some(Value(v)) && after.special
      && after.constant == before.constant && after.fun == before.fun
    case CallOf(_, lvo, regs, result, _, _, _) =>
      && after.fun.Some? && CallStub(after.fun.value, target, base, lvo, regs, result)
      && SameVariable(before, after)
    case FieldOf(_, typ, offset) =>
      && after.fun.Some? && FieldStub(after.fun.value, target, typ, offset, STUB_PEEK, STUB_PEEK_IDX)
      && SameVariable(before, after)
    case NameOf(_) => after.fun == before.fun && SameVariable(before, after)
  }

  /** The setter of a field can be called, and nothing else about its symbol changed. */
  predicate WriterInstalled(before: Symbol, after: Symbol, row: Row, target: Name) {
    && row.FieldOf? && after.fun.Some?
    && FieldStub(after.fun.value, target, row.typ, row.offset, STUB_POKE, STUB_POKE_IDX)
    && SameVariable(before, after) && after.updater == before.updater
  }

  /** The cell that the row defines is empty. */
  predicate Incomplete(s: Symbol, row: Row) {
    match row
    case ConstOf(_, _) => s.value.None?
    case VarOf(_, _) => s.value.None?
    case NameOf(_) => false
    case _ => s.fun.None?
  }

  /** The symbol of a row, when it is built or completed; with no usable row it stays as it is. */
  predicate Completed(before: Symbol, after: Symbol, install: bool, row: Option<Row>, target: Name, base: Option<nat>) {
    match row
    case None => after == before
    case Some(r) =>
      && (if install then Installed(before, after, r, target, base)
          else after.fun == before.fun && SameVariable(before, after))
      && after.updater == if Writable(r) then Some(SetterName(target)) else before.updater
  }

  /** All that one materialisation does to a package. */
  ghost predicate Materialises(p: Package, q: Package, n: Name, row: Option<Row>, base: Option<nat>, force: bool) {
    var m := SetterName(n);
    var setter := row.Some? && Writable(row.value);
    && n in q.symbols
    && Completed(SymbolOr(p, n), q.symbols[n],
         n !in p.symbols || force || (row.Some? && Incomplete(p.symbols[n], row.value)), row, n, base)
    && (setter ==>
      && m in q.symbols
      && (if force || SymbolOr(p, m).fun.None? then WriterInstalled(SymbolOr(p, m), q.symbols[m], row.value, m)
          else q.symbols[m] == p.symbols[m]))
    && (forall x :: x in p.symbols ==> x in q.symbols)
    && (forall x :: x in q.symbols && x != n && !(setter && x == m) ==> x in p.symbols && q.symbols[x] == p.symbols[x])
    && q.exports == p.exports + {n} && q.table == p.table && q.uses == p.uses
  }

  /** The row of an entry; -1 stands for none. */
  function RowNumber(bs: seq<Binding>, def: int): Option<Row>
    requires -1 <= def < |bs|
  {
    if def == -1 then None else Some(RowOfBinding(bs[def]))
  }

  lemma InstallMeans(s: Symbol, b: Binding, base: Option<nat>, target: Name)
    requires ReaderOk(b)
    ensures Installed(s, Install(s, b, base, target), RowOfBinding(b), target, base)
    ensures Install(s, b, base, target).updater == s.updater
    ensures Incomplete(s, RowOfBinding(b)) <==> DefinitionMissing(s, b)
    ensures Writable(RowOfBinding(b)) <==> WritableField(b)
  {
    hide Nibble, ResultKind, HasFlag;
  }

  lemma WriterMeans(s: Symbol, b: Binding, target: Name)
    requires ReaderOk(b) && WritableField(b)
    ensures WriterInstalled(s, s.(fun := Some(WriterStub(b, target))), RowOfBinding(b), target)
  {}

  /** cl_bindtab_materialize. */
  lemma MaterialisedMeans(p: Package, i: nat, def: int, force: bool)
    requires p.table.Lazy? && i < |p.table.bs| && -1 <= def < |p.table.bs| && (def != -1 ==> ReaderOk(p.table.bs[def]))
    ensures var bs := p.table.bs;
      Materialises(p, Materialised(p, i, def, force), bs[i].name, RowNumber(bs, def), p.table.base, force)
  {
    hide RowOfBinding, Install, WriterStub, ReaderOk, DefinitionMissing, Installed, WriterInstalled, Incomplete,
      Writable, WritableField, SetterName;
    var n := p.table.bs[i].name;
    SetterNameInjective(n, n);
    if def != -1 {
      var b := p.table.bs[def];
      InstallMeans(SymbolOr(p, n), b, p.table.base, n);
      if WritableField(b) {
        var q := Linked(p, i, def, force);
        WriterMeans(SymbolOr(q, SetterName(n)), b, SetterName(n));
        UpdaterApart(SymbolOr(p, n), q.symbols[n], RowOfBinding(b), n, p.table.base, SetterName(n));
      }
    }
  }

  /** Installing says nothing of the SETF updater. */
  lemma UpdaterApart(before: Symbol, after: Symbol, row: Row, target: Name, base: Option<nat>, m: Name)
    ensures Installed(before, after.(updater := Some(m)), row, target, base) <==>
      Installed(before, after, row, target, base)
  {}

  // ---- lookups ----

  /** The entry that defines a name: the first whose guard passes; -1 when there is none. */
  ghost predicate Chosen(bs: seq<Binding>, env: Environment, name: Name, d: int) {
    && -1 <= d < |bs|
    && (d >= 0 ==> bs[d].name == name && GuardOk(env, bs[d]))
    && (forall k :: 0 <= k < (if d < 0 then |bs| else d) && bs[k].name == name ==> !GuardOk(env, bs[k]))
  }

  lemma ScanChosen(bs: seq<Binding>, env: Environment, name: Name)
    ensures Chosen(bs, env, name, ScanUsable(bs, env, name, 0))
  {
    hide GuardOk;
    ScanUsableMeaning(bs, env, name, 0);
  }

  /** A lookup of an absent name: a table name is built from the entry that defines it, the setter of a field
      with its field, and any other name is not found. */
  lemma FindMeans(p: Package, name: Name, allowSetter: bool) returns (d: int, n: Name)
    requires p.table.Lazy? && OrderedTable(p.table.bs) && name !in p.symbols
    ensures -1 <= d < |p.table.bs|
    ensures var (q, found) := Find(p, name, allowSetter); var bs := p.table.bs;
      if Defines(bs, name) then
        found && n == name && Chosen(bs, p.table.env, name, d)
        && Materialises(p, q, n, RowNumber(bs, d), p.table.base, false)
      else if allowSetter && exists k :: 0 <= k < |bs| && WritableField(bs[k]) && SetterName(bs[k].name) == name then
        found && d >= 0 && WritableField(bs[d]) && n == bs[d].name && SetterName(n) == name
        && Materialises(p, q, n, RowNumber(bs, d), p.table.base, false)
      else !found && q == p
  {
    hide GuardOk, NameCompare, LinearProbe, Materialised, Materialises, SetterName, RowOfBinding, RowNumber, ReaderOk,
      WritableField, Chosen;
    var bs, env := p.table.bs, p.table.env;
    d, n := -1, name;
    ProbeMeaning(bs, env, name, allowSetter);
    match LinearProbe(bs, env, name, allowSetter)
    case Miss =>
    case Named(first, def) =>
      d := def;
      NamedUsable(bs, env, name, allowSetter);
      ScanChosen(bs, env, name);
      MaterialisedMeans(p, first, def, false);
    case Setter(entry) =>
      d, n := entry, bs[entry].name;
      MaterialisedMeans(p, entry, entry, false);
  }

  // ---- the eager flip ----

  /** Every symbol of a package made eager: what was present is as it was; a table name holds the definition
      of the first entry whose guard passes, or nothing; the setter of a field writes where it reads. */
  ghost predicate Flipped(p: Package, e: Package, x: Name)
    requires p.table.Lazy?
  {
    var t := p.table;
    && (x in e.symbols <==> x in p.symbols || Defines(t.bs, x) || SetterOfLive(t, x))
    && (x in e.exports <==> x in p.exports || Defines(t.bs, x))
    && (x in p.symbols ==> e.symbols[x] == p.symbols[x])
    && (x !in p.symbols && Defines(t.bs, x) ==>
      exists d :: Chosen(t.bs, t.env, x, d) && Completed(BLANK, e.symbols[x], true, RowNumber(t.bs, d), x, t.base))
    && (x !in p.symbols && !Defines(t.bs, x) ==>
      forall k :: 0 <= k < |t.bs| && LiveField(t.env, t.bs[k]) && SetterName(t.bs[k].name) == x ==>
        WriterInstalled(BLANK, e.symbols[x], RowOfBinding(t.bs[k]), x))
  }

  lemma FlippedSymbol(p: Package, x: Name)
    requires p.table.Lazy? && Coherent(p) && Separated(p.table.bs, p.table.env)
    ensures Flipped(p, Flip(p), x)
    ensures Flip(p).table == NoTable && Flip(p).uses == p.uses
  {
    hide GuardOk, NameCompare, SetterName, Flip, Separated, Built, BuiltSetter, Install, Chosen, Completed, RowNumber,
      WriterInstalled, RowOfBinding, OrderedTable;
    var t, e := p.table, Settled(p);
    FlipSettles(p);
    DefinedName(t, x);
    if x !in p.symbols && Defines(t.bs, x) {
      BuiltMeans(t, x);
      ScanChosen(t.bs, t.env, x);
    } else if x !in p.symbols {
      forall k | 0 <= k < |t.bs| && LiveField(t.env, t.bs[k]) && SetterName(t.bs[k].name) == x
        ensures WriterInstalled(BLANK, e.symbols[x], RowOfBinding(t.bs[k]), x)
      {
        BuiltSetterMeans(t, k);
        SetterLength(t.bs[k].name);
      }
    }
  }

  lemma SetterLength(field: Name)
    ensures |SetterName(field)| >= 5
  {}

  lemma BuiltMeans(t: Table, x: Name)
    requires t.Lazy? && OrderedTable(t.bs)
    ensures Completed(BLANK, Built(t, x), true, RowNumber(t.bs, ScanUsable(t.bs, t.env, x, 0)), x, t.base)
  {
    hide GuardOk, NameCompare, SetterName, Install, RowOfBinding, Installed, Writable, WritableField, ReaderOk;
    var d := ScanUsable(t.bs, t.env, x, 0);
    if d != -1 {
      InstallMeans(BLANK, t.bs[d], t.base, x);
      UpdaterApart(BLANK, Install(BLANK, t.bs[d], t.base, x), RowOfBinding(t.bs[d]), x, t.base, SetterName(x));
    }
  }

  lemma BuiltSetterMeans(t: Table, k: nat)
    requires t.Lazy? && OrderedTable(t.bs) && k < |t.bs| && WritableField(t.bs[k])
    ensures var m := SetterName(t.bs[k].name); WriterInstalled(BLANK, BuiltSetter(t, m), RowOfBinding(t.bs[k]), m)
  {
    hide GuardOk, NameCompare, WriterStub, WriterInstalled, RowOfBinding, ReaderOk, WritableField;
    FieldScans(t.bs, t.env, k);
    WriterMeans(BLANK, t.bs[k], SetterName(t.bs[k].name));
  }

  /** A name with a usable variant ends exported with the first such variant's definition, cell by cell, and
      a writable field with its setter. */
  lemma GuardedName(p: Package, name: Name, d: nat)
    requires p.table.Lazy? && Coherent(p) && Separated(p.table.bs, p.table.env)
    requires name !in p.symbols && d < |p.table.bs|
    requires p.table.bs[d].name == name && GuardOk(p.table.env, p.table.bs[d])
    requires forall k :: 0 <= k < d && p.table.bs[k].name == name ==> !GuardOk(p.table.env, p.table.bs[k])
    ensures var q := Flip(p); var row := RowOfBinding(p.table.bs[d]); var m := SetterName(name);
      && name in q.symbols && name in q.exports
      && Installed(BLANK, q.symbols[name], row, name, p.table.base)
      && q.symbols[name].updater == (if Writable(row) then Some(m) else None)
      && (Writable(row) ==> m in q.symbols && (m !in p.symbols ==> WriterInstalled(BLANK, q.symbols[m], row, m)))
  {
    hide GuardOk, NameCompare, SetterName, Flip, Separated, Coherent, Installed, WriterInstalled, RowOfBinding,
      Writable, OrderedTable;
    var t := p.table;
    FlippedSymbol(p, name);
    assert Defines(t.bs, name);
    ChosenOnce(t.bs, t.env, name, d);
    if Writable(RowOfBinding(t.bs[d])) {
      CoherentReaders(p, d);
      InstallMeans(BLANK, t.bs[d], t.base, name);
      assert LiveField(t.env, t.bs[d]);
      LiveFieldAbsent(p, d);
      FlippedSymbol(p, SetterName(name));
    }
  }

  lemma CoherentReaders(p: Package, d: nat)
    requires p.table.Lazy? && Coherent(p) && d < |p.table.bs|
    ensures ReaderOk(p.table.bs[d])
  {}

  lemma ChosenOnce(bs: seq<Binding>, env: Environment, name: Name, d: nat)
    requires d < |bs| && bs[d].name == name && GuardOk(env, bs[d])
    requires forall k :: 0 <= k < d && bs[k].name == name ==> !GuardOk(env, bs[k])
    ensures forall c :: Chosen(bs, env, name, c) ==> c == d
  {
    hide GuardOk;
  }

  // ---- registration ----

  /** A symbol of the package after a table was registered over it: a name of the table has this table's
      definition whatever it held before, the setter of a field writes that field, and any other symbol
      is as it was. */
  ghost predicate Redefined(p: Package, q: Package, x: Name)
    requires q.table.Lazy? && x in q.symbols
  {
    var t := q.table;
    if Defines(t.bs, x) then
      exists d :: Chosen(t.bs, t.env, x, d)
        && Completed(SymbolOr(p, x), q.symbols[x], true, RowNumber(t.bs, d), x, t.base)
    else if SetterOfLive(t, x) then
      forall k :: 0 <= k < |t.bs| && LiveField(t.env, t.bs[k]) && SetterName(t.bs[k].name) == x ==>
        WriterInstalled(SymbolOr(p, x), q.symbols[x], RowOfBinding(t.bs[k]), x)
    else x in p.symbols && q.symbols[x] == p.symbols[x]
  }

  /** Half-way through the pass: what waits in `names` may still be as it was. */
  ghost predicate Redefining(p: Package, q: Package, names: seq<Name>)
    requires q.table.Lazy?
  {
    && (forall x :: x in p.symbols ==> x in q.symbols)
    && (forall x :: x in q.symbols ==>
      Redefined(p, q, x) || (x in names && x in p.symbols && q.symbols[x] == p.symbols[x]))
  }

  lemma CompletedTwice(s0: Symbol, s1: Symbol, s2: Symbol, row: Option<Row>, target: Name, base: Option<nat>)
    requires s1 == s0 || Completed(s0, s1, true, row, target, base)
    requires Completed(s1, s2, true, row, target, base)
    ensures Completed(s0, s2, true, row, target, base)
  {
    hide CallStub, FieldStub;
  }

  lemma WrittenTwice(s0: Symbol, s1: Symbol, s2: Symbol, row: Row, target: Name)
    requires s1 == s0 || WriterInstalled(s0, s1, row, target)
    requires WriterInstalled(s1, s2, row, target)
    ensures WriterInstalled(s0, s2, row, target)
  {
    hide FieldStub;
  }

  /** The symbol of the entry after one forced materialisation. */
  lemma RedefinedEntry(p: Package, r: Package, q: Package, names: seq<Name>, n: Name, def: int)
    requires r.table.Lazy? && q.table == r.table && Redefining(p, r, names) && Defines(r.table.bs, n)
    requires -1 <= def < |r.table.bs| && def == ScanUsable(r.table.bs, r.table.env, n, 0)
    requires Materialises(r, q, n, RowNumber(r.table.bs, def), r.table.base, true)
    ensures Redefined(p, q, n)
  {
    hide GuardOk, SetterName, Completed, WriterInstalled, Writable, RowNumber, RowOfBinding;
    var t := r.table;
    var row := RowNumber(t.bs, def);
    ScanChosen(t.bs, t.env, n);
    assert Completed(SymbolOr(r, n), q.symbols[n], true, row, n, t.base);
    if n in r.symbols {
      if Redefined(p, r, n) {
        var d :| Chosen(t.bs, t.env, n, d)
          && Completed(SymbolOr(p, n), r.symbols[n], true, RowNumber(t.bs, d), n, t.base);
        ChosenUnique(t.bs, t.env, n, d, def);
        CompletedTwice(SymbolOr(p, n), r.symbols[n], q.symbols[n], row, n, t.base);
      } else {
        CompletedTwice(SymbolOr(p, n), r.symbols[n], q.symbols[n], row, n, t.base);
      }
    }
  }

  lemma ChosenUnique(bs: seq<Binding>, env: Environment, name: Name, c: int, d: int)
    requires Chosen(bs, env, name, c) && Chosen(bs, env, name, d)
    ensures c == d
  {
    hide GuardOk;
  }

  /** The symbol of its setter. */
  lemma RedefinedSetter(p: Package, r: Package, q: Package, names: seq<Name>, def: nat)
    requires r.table.Lazy? && q.table == r.table && Redefining(p, r, names) && OrderedTable(r.table.bs)
    requires def < |r.table.bs| && LiveField(r.table.env, r.table.bs[def])
    requires !Defines(r.table.bs, SetterName(r.table.bs[def].name))
    requires Materialises(r, q, r.table.bs[def].name, RowNumber(r.table.bs, def), r.table.base, true)
    ensures SetterName(r.table.bs[def].name) in q.symbols
    ensures Redefined(p, q, SetterName(r.table.bs[def].name))
  {
    hide GuardOk, NameCompare, SetterName, Completed, WriterInstalled, Writable, RowOfBinding, Chosen, LiveField,
      OrderedTable;
    var t := r.table;
    var m := SetterName(t.bs[def].name);
    var row := RowOfBinding(t.bs[def]);
    LiveReader(t, def);
    assert WriterInstalled(SymbolOr(r, m), q.symbols[m], row, m);
    assert SetterOfLive(t, m);
    if m in r.symbols { WrittenTwice(SymbolOr(p, m), r.symbols[m], q.symbols[m], row, m); }
    forall k | 0 <= k < |t.bs| && LiveField(t.env, t.bs[k]) && SetterName(t.bs[k].name) == m
      ensures k == def
    {
      SetterNameInjective(t.bs[k].name, t.bs[def].name);
      LiveReader(t, def);
      FieldScans(t.bs, t.env, def);
    }
  }

  lemma LiveReader(t: Table, def: nat)
    requires t.Lazy? && OrderedTable(t.bs) && def < |t.bs| && LiveField(t.env, t.bs[def])
    ensures WritableField(t.bs[def]) && Writable(RowOfBinding(t.bs[def]))
  {
    hide GuardOk, NameCompare;
    InstallMeans(BLANK, t.bs[def], t.base, t.bs[def].name);
  }

  /** One entry registered. */
  lemma RedefineStep(p: Package, r: Package, names: seq<Name>, i: nat, def: int)
    requires r.table.Lazy? && names != [] && Redefining(p, r, names) && i < |r.table.bs|
    requires OrderedTable(r.table.bs) && Separated(r.table.bs, r.table.env)
    requires names[0] == r.table.bs[i].name ||
      (def == i && WritableField(r.table.bs[i]) && names[0] == SetterName(r.table.bs[i].name))
    requires def == ScanUsable(r.table.bs, r.table.env, r.table.bs[i].name, 0)
    ensures var q := Materialised(r, i, def, true); q.table == r.table && Redefining(p, q, names[1..])
  {
    hide GuardOk, NameCompare, SetterName, Completed, WriterInstalled, RowOfBinding, Materialised, Redefined, RowNumber,
      OrderedTable, ReaderOk, Defines;
    var t, n := r.table, r.table.bs[i].name;
    var q := Materialised(r, i, def, true);
    assert names == [names[0]] + names[1..];
    ScanUsableMeaning(t.bs, t.env, n, 0);
    EntryReader(t.bs, i);
    if def != -1 { EntryReader(t.bs, def); }
    MaterialisedMeans(r, i, def, true);
    RedefinedEntry(p, r, q, names, n, def);
    var setter := def != -1 && WritableField(t.bs[def]);
    if setter {
      assert LiveField(t.env, t.bs[def]);
      RedefinedSetter(p, r, q, names, def);
    }
    WritableRow(t.bs, def);
    forall x | x in q.symbols && x != n && !(setter && x == SetterName(n))
      ensures Redefined(p, q, x) || (x in names[1..] && x in p.symbols && q.symbols[x] == p.symbols[x])
    {
      SameRedefined(p, r, q, x);
    }
  }

  lemma EntryReader(bs: seq<Binding>, d: nat)
    requires OrderedTable(bs) && d < |bs|
    ensures ReaderOk(bs[d]) && Defines(bs, bs[d].name)
  {
    hide NameCompare;
  }

  lemma WritableRow(bs: seq<Binding>, def: int)
    requires -1 <= def < |bs| && (def != -1 ==> ReaderOk(bs[def]))
    ensures var row := RowNumber(bs, def);
      (row.Some? && Writable(row.value)) <==> (def != -1 && WritableField(bs[def]))
  {
    if def != -1 { InstallMeans(BLANK, bs[def], None, []); }
  }

  lemma SameRedefined(p: Package, r: Package, q: Package, x: Name)
    requires r.table.Lazy? && q.table == r.table && x in r.symbols && x in q.symbols && q.symbols[x] == r.symbols[x]
    ensures Redefined(p, r, x) ==> Redefined(p, q, x)
  {
    hide GuardOk, SetterName, Completed, WriterInstalled, RowOfBinding, Chosen, LiveField;
  }

  lemma {:induction false} RegisterEachRedefines(p: Package, r: Package, names: seq<Name>)
    requires r.table.Lazy? && Registering(r, names) && Redefining(p, r, names)
    ensures RegisterEach(r, names).table == r.table && Redefining(p, RegisterEach(r, names), [])
    decreases |names|
  {
    hide GuardOk, NameCompare, LinearProbe, SetterName, Materialised, Redefining;
    if names == [] {
      return;
    }
    RegisterStep(r, names);
    ProbeOrdered(r, names);
    match LinearProbe(r.table.bs, r.table.env, names[0], true)
    case Miss =>
      MissRedefined(p, r, names);
      RegisterEachRedefines(p, r, names[1..]);
    case Named(first, def) =>
      NamedUsable(r.table.bs, r.table.env, names[0], true);
      RedefineStep(p, r, names, first, def);
      RegisterEachRedefines(p, Materialised(r, first, def, true), names[1..]);
    case Setter(entry) =>
      FieldScans(r.table.bs, r.table.env, entry);
      RedefineStep(p, r, names, entry, entry);
      RegisterEachRedefines(p, Materialised(r, entry, entry, true), names[1..]);
  }

  /** A name the table does not know is left alone. */
  lemma MissRedefined(p: Package, r: Package, names: seq<Name>)
    requires r.table.Lazy? && names != [] && Redefining(p, r, names) && OrderedTable(r.table.bs)
    requires LinearProbe(r.table.bs, r.table.env, names[0], true).Miss?
    ensures Redefining(p, r, names[1..])
  {
    hide GuardOk, NameCompare, LinearProbe, SetterName, Completed, WriterInstalled, RowOfBinding, Chosen;
    ProbeMeaning(r.table.bs, r.table.env, names[0], true);
    assert names == [names[0]] + names[1..];
  }

  /** cl_bindtab_register over any package, in any order of the symbols present: every symbol after it,
      cell by cell. */
  lemma RegistrationRedefines(p: Package, t: Table, names: seq<Name>)
    requires t.Lazy? && OrderedTable(t.bs) && NamesFit(t.bs) && Separated(t.bs, t.env)
    requires forall n :: n in p.symbols ==> n in names
    ensures var q := RegisterEach(p.(table := t), names);
      && q.table == t
      && (forall x :: x in p.symbols ==> x in q.symbols)
      && (forall x :: x in q.symbols ==> Redefined(p, q, x))
  {
    hide GuardOk, NameCompare, OrderedTable, Separated, Redefined;
    RegisterEachRedefines(p, p.(table := t), names);
  }
}
