/** Packages whose symbols are built on first reference (src/core/bindtab.c, the materialiser;
    src/core/package.c, the lookup funnel), as values. A symbol is identified with its name in
    its package; the heap objects and the locks are in PackageObjects and Interning. */
module LazyPackages {
  import opened Names
  import opened TableFormat
  import opened TableProbe

  /** What a symbol cell can hold: a table value, a foreign-call stub, or anything else. */
  datatype Object =
    | Value(v: TableValue)
    | Stub(kind: int, name: Name, base: Option<nat>, a: int, b: int, c: Byte)
    | Other(id: nat)

  datatype Symbol =
    Symbol(value: Option<Object>, fun: Option<Object>, constant: bool, special: bool, updater: Option<Name>)

  /** A symbol just made: unbound, no function, no SETF updater. */
  const BLANK: Symbol := Symbol(None, None, false, false, None)

  /** `env` is the environment in which the guards of the table are evaluated. */
  datatype Table = NoTable | Shed | Lazy(bs: seq<Binding>, base: Option<nat>, env: Environment)

  datatype Package = Package(symbols: map<Name, Symbol>, exports: set<Name>, table: Table, uses: seq<nat>)

  // ---- the materialiser ----

  /** install_definition. */
  function Install(s: Symbol, b: Binding, base: Option<nat>, target: Name): Symbol {
    if b.kind == KIND_CONST then s.(value := Some(Value(b.value)), constant := true)
    else if b.kind == KIND_VAR then s.(value := Some(Value(b.value)), special := true)
    else if b.kind == KIND_LIBCALL then s.(fun := Some(Stub(STUB_LIBCALL, target, base, b.a, b.b, b.c)))
    else if b.kind == KIND_FIELD then s.(fun := Some(Stub(b.d, target, None, b.a, b.b, b.c)))
    else s
  }

  /** definition_missing. */
  predicate DefinitionMissing(s: Symbol, b: Binding) {
    if HoldsValue(b.kind) then s.value.None?
    else if b.kind == KIND_LIBCALL || b.kind == KIND_FIELD then s.fun.None?
    else false
  }

  function WriterStub(b: Binding, target: Name): Object {
    Stub(if b.d == STUB_PEEK_IDX then STUB_POKE_IDX else STUB_POKE, target, None, b.a, b.b, b.c)
  }

  function SymbolOr(p: Package, name: Name): Symbol {
    if name in p.symbols then p.symbols[name] else BLANK
  }

  /** Link the symbol of entry `i` with definition `def`, unless it is there and complete; export it. */
  function Linked(p: Package, i: nat, def: int, force: bool): Package
    requires p.table.Lazy? && i < |p.table.bs| && (def == -1 || 0 <= def < |p.table.bs|)
  {
    var n := p.table.bs[i].name;
    var s := SymbolOr(p, n);
    var s' :=
      if def != -1 && (n !in p.symbols || force || DefinitionMissing(s, p.table.bs[def]))
      then Install(s, p.table.bs[def], p.table.base, n) else s;
    p.(symbols := p.symbols[n := s'], exports := p.exports + {n})
  }

  /** Build the setter beside a writable field's reader and register the DEFSETF pair. */
  function WithSetter(p: Package, field: Name, b: Binding, force: bool): Package {
    var m := SetterName(field);
    var s := SymbolOr(p, m);
    var s' := if force || s.fun.None? then s.(fun := Some(WriterStub(b, m))) else s;
    p.(symbols := p.symbols[m := s'][field := SymbolOr(p, field).(updater := Some(m))])
  }

  /** cl_bindtab_materialize, when nothing interferes. */
  function Materialised(p: Package, i: nat, def: int, force: bool): Package
    requires p.table.Lazy? && i < |p.table.bs| && (def == -1 || 0 <= def < |p.table.bs|)
  {
    var q := Linked(p, i, def, force);
    if def != -1 && WritableField(p.table.bs[def]) then
      WithSetter(q, p.table.bs[i].name, p.table.bs[def], force)
    else q
  }

  /** A hit names entries of the table. */
  lemma HitInside(bs: seq<Binding>, env: Environment, name: Name, allowSetter: bool)
    ensures var hit := LinearProbe(bs, env, name, allowSetter);
      && (hit.Named? ==> hit.first < |bs| && (hit.def == -1 || 0 <= hit.def < |bs|))
      && (hit.Setter? ==> hit.entry < |bs|)
  {}

  /** Present, else probe and materialise. The second part tells whether the name is found. */
  function Find(p: Package, name: Name, allowSetter: bool): (Package, bool) {
    if name in p.symbols then (p, true)
    else if !p.table.Lazy? then (p, false)
    else
      match LinearProbe(p.table.bs, p.table.env, name, allowSetter)
      case Miss => (p, false)
      case Named(first, def) => (Materialised(p, first, def, false), true)
      case Setter(entry) => (Materialised(p, entry, entry, false), true)
  }

  /** cl_bindtab_materialize_all from entry `i` on: one materialisation per distinct absent name. */
  function FlipFrom(p: Package, i: nat): Package
    requires p.table.Lazy? && i <= |p.table.bs|
    decreases |p.table.bs| - i
  {
    if i == |p.table.bs| then p.(table := NoTable)
    else if i > 0 && p.table.bs[i - 1].name == p.table.bs[i].name then FlipFrom(p, i + 1)
    else FlipFrom(Find(p, p.table.bs[i].name, false).0, i + 1)
  }

  function Flip(p: Package): Package {
    if p.table.Lazy? then FlipFrom(p, 0) else p
  }

  // ---- what a table finally stands for ----

  /** The symbol a table name gets when it is built from nothing. */
  function Built(t: Table, name: Name): Symbol
    requires t.Lazy?
  {
    var d := ScanUsable(t.bs, t.env, name, 0);
    if d == -1 then BLANK
    else
      var s := Install(BLANK, t.bs[d], t.base, name);
      if WritableField(t.bs[d]) then s.(updater := Some(SetterName(name))) else s
  }

  predicate LiveField(env: Environment, b: Binding) { WritableField(b) && GuardOk(env, b) }

  /** `name` is the setter of a field whose guard passes. */
  predicate SetterOfLive(t: Table, name: Name)
    requires t.Lazy?
  {
    exists k :: 0 <= k < |t.bs| && LiveField(t.env, t.bs[k]) && SetterName(t.bs[k].name) == name
  }

  function BuiltSetter(t: Table, name: Name): Symbol
    requires t.Lazy? && |name| >= 5
  {
    var k := ScanWritable(t.bs, name[5..], 0);
    if k == -1 then BLANK else BLANK.(fun := Some(WriterStub(t.bs[k], name)))
  }

  function TableNames(t: Table): set<Name>
    requires t.Lazy?
  {
    set k | 0 <= k < |t.bs| :: t.bs[k].name
  }

  function SetterNames(t: Table): set<Name>
    requires t.Lazy?
  {
    set k | 0 <= k < |t.bs| && LiveField(t.env, t.bs[k]) :: SetterName(t.bs[k].name)
  }

  function SettledSymbol(p: Package, name: Name): Symbol
    requires p.table.Lazy?
  {
    if name in p.symbols then p.symbols[name]
    else if Defines(p.table.bs, name) then Built(p.table, name)
    else if |name| >= 5 then BuiltSetter(p.table, name) else BLANK
  }

  /** The package with every table name built, told without any order of building. */
  function Settled(p: Package): Package
    requires p.table.Lazy?
  {
    var names := p.symbols.Keys + TableNames(p.table) + SetterNames(p.table);
    Package(map n | n in names :: SettledSymbol(p, n), p.exports + TableNames(p.table), NoTable, p.uses)
  }

  // ---- when laziness is safe ----

  /** A field's setter name is not an entry of its own, and the field's guard passes; or neither. */
  ghost predicate Separated(bs: seq<Binding>, env: Environment) {
    forall k :: 0 <= k < |bs| && WritableField(bs[k]) ==>
      (GuardOk(env, bs[k]) <==> !Defines(bs, SetterName(bs[k].name)))
  }

  /** What registration establishes and every lookup keeps: a field and its setter are present
      together, and what is present of the table is exported. The names of the table fit the
      materialiser's buffer. */
  ghost predicate Coherent(p: Package) {
    p.table.Lazy? ==>
      && OrderedTable(p.table.bs) && NamesFit(p.table.bs)
      && (forall k :: 0 <= k < |p.table.bs| && LiveField(p.table.env, p.table.bs[k]) ==>
        (p.table.bs[k].name in p.symbols <==> SetterName(p.table.bs[k].name) in p.symbols))
      && (forall k :: 0 <= k < |p.table.bs| && p.table.bs[k].name in p.symbols ==>
        p.table.bs[k].name in p.exports)
  }

  lemma SetterNameInjective(a: Name, b: Name)
    ensures SetterName(a) == SetterName(b) <==> a == b
    ensures SetterName(a) != a
  {}

  /** A field has one entry, so every scan for it stops there. */
  lemma FieldScans(bs: seq<Binding>, env: Environment, k: nat)
    requires OrderedTable(bs) && k < |bs| && WritableField(bs[k])
    ensures forall j :: 0 <= j < |bs| && bs[j].name == bs[k].name ==> j == k
    ensures ScanName(bs, bs[k].name, 0) == k
    ensures ScanUsable(bs, env, bs[k].name, 0) == if GuardOk(env, bs[k]) then k else -1
    ensures ScanWritable(bs, bs[k].name, 0) == k
  {
    hide GuardOk, NameCompare;
    forall j | 0 <= j < |bs| && bs[j].name == bs[k].name ensures j == k {}
    ScanNameFirst(bs, bs[k].name, 0, k);
    ScanUsableFirst(bs, env, bs[k].name, 0, if GuardOk(env, bs[k]) then k else -1);
    ScanWritableFirst(bs, bs[k].name, 0, k);
  }

  /** The package with one absent table name built. */
  function WithBuilt(p: Package, n: Name): Package
    requires p.table.Lazy?
  {
    var d := ScanUsable(p.table.bs, p.table.env, n, 0);
    var symbols := p.symbols[n := Built(p.table, n)];
    var m := SetterName(n);
    p.(symbols := if d != -1 && WritableField(p.table.bs[d]) then symbols[m := BuiltSetter(p.table, m)] else symbols,
       exports := p.exports + {n})
  }

  lemma MaterialisedIsBuilt(p: Package, i: nat, def: int)
    requires p.table.Lazy? && Coherent(p)
    requires i < |p.table.bs| && p.table.bs[i].name !in p.symbols
    requires def == ScanUsable(p.table.bs, p.table.env, p.table.bs[i].name, 0)
    ensures Materialised(p, i, def, false) == WithBuilt(p, p.table.bs[i].name)
  {
    hide GuardOk, NameCompare, Install, LinearProbe;
    var t := p.table;
    var n := t.bs[i].name;
    ScanUsableMeaning(t.bs, t.env, n, 0);
    if def != -1 && WritableField(t.bs[def]) {
      FieldScans(t.bs, t.env, def);
      SetterNameInjective(n, n);
      assert SetterName(n) !in p.symbols;
      assert Materialised(p, i, def, false).symbols == WithBuilt(p, n).symbols;
    }
  }

  /** Building an absent name keeps the package coherent... */
  lemma BuildCoherent(p: Package, n: Name)
    requires p.table.Lazy? && Coherent(p) && Separated(p.table.bs, p.table.env)
    requires n !in p.symbols && Defines(p.table.bs, n)
    ensures Coherent(WithBuilt(p, n))
  {
    hide GuardOk, NameCompare, Install, Built, BuiltSetter, SetterName;
    var t := p.table;
    var q := WithBuilt(p, n);
    var d := ScanUsable(t.bs, t.env, n, 0);
    ScanUsableMeaning(t.bs, t.env, n, 0);
    forall k | 0 <= k < |t.bs| && LiveField(t.env, t.bs[k])
      ensures t.bs[k].name in q.symbols <==> SetterName(t.bs[k].name) in q.symbols
    {
      FieldScans(t.bs, t.env, k);
      SetterNameInjective(t.bs[k].name, n);
      assert !Defines(t.bs, SetterName(t.bs[k].name));
      if d != -1 && WritableField(t.bs[d]) {
        assert LiveField(t.env, t.bs[d]);
        assert !Defines(t.bs, SetterName(n));
        assert t.bs[k].name != SetterName(n);
      }
    }
    forall k | 0 <= k < |t.bs| && t.bs[k].name in q.symbols
      ensures t.bs[k].name in q.exports
    {
      if d != -1 && WritableField(t.bs[d]) {
        assert LiveField(t.env, t.bs[d]);
        assert t.bs[k].name != SetterName(n);
      }
    }
  }

  lemma LiveFieldAbsent(p: Package, k: nat)
    requires p.table.Lazy? && Coherent(p) && Separated(p.table.bs, p.table.env)
    requires k < |p.table.bs| && LiveField(p.table.env, p.table.bs[k])
    ensures p.table.bs[k].name !in p.symbols ==> SetterName(p.table.bs[k].name) !in p.symbols
    ensures !Defines(p.table.bs, SetterName(p.table.bs[k].name))
    ensures SetterName(p.table.bs[k].name) in SetterNames(p.table)
  {
    hide GuardOk;
  }

  /** ... and changes nothing about what it finally is. */
  lemma BuildKeepsSettled(p: Package, n: Name)
    requires p.table.Lazy? && Coherent(p) && Separated(p.table.bs, p.table.env)
    requires n !in p.symbols && Defines(p.table.bs, n)
    ensures Settled(WithBuilt(p, n)) == Settled(p)
  {
    hide GuardOk, NameCompare, Install, Built, BuiltSetter, SetterName, Coherent, Separated, Defines, SettledSymbol;
    var t := p.table;
    var q := WithBuilt(p, n);
    var d := ScanUsable(t.bs, t.env, n, 0);
    ScanUsableMeaning(t.bs, t.env, n, 0);
    DefinedName(t, n);
    if d != -1 && WritableField(t.bs[d]) { LiveFieldAbsent(p, d); }
    assert Settled(q).symbols.Keys == Settled(p).symbols.Keys;
    forall x | x in Settled(p).symbols
      ensures SettledSymbol(q, x) == SettledSymbol(p, x)
    {
      BuildKeepsSymbol(p, n, x);
    }
    assert Settled(q).symbols == Settled(p).symbols;
    assert Settled(q).exports == Settled(p).exports;
  }

  lemma DefinedName(t: Table, n: Name)
    requires t.Lazy? 
    ensures Defines(t.bs, n) <==> n in TableNames(t)
  {}

  lemma BuildKeepsSymbol(p: Package, n: Name, x: Name)
    requires p.table.Lazy? && Coherent(p) && Separated(p.table.bs, p.table.env)
    requires n !in p.symbols && Defines(p.table.bs, n)
    ensures SettledSymbol(WithBuilt(p, n), x) == SettledSymbol(p, x)
  {
    hide GuardOk, NameCompare, Install, Built, BuiltSetter, SetterName, Coherent, Separated, Defines;
    var t := p.table;
    var d := ScanUsable(t.bs, t.env, n, 0);
    ScanUsableMeaning(t.bs, t.env, n, 0);
    if d != -1 && WritableField(t.bs[d]) {
      LiveFieldAbsent(p, d);
      SetterNameInjective(n, n);
    }
  }

  /** Every lookup, of a field or of its setter, builds at most one entry. */
  lemma FindBuilds(p: Package, name: Name, allowSetter: bool)
    requires p.table.Lazy? && Coherent(p) && Separated(p.table.bs, p.table.env)
    requires name !in p.symbols
    ensures var (q, found) := Find(p, name, allowSetter);
      || (!found && q == p && name !in Settled(p).symbols)
      || (!found && q == p && !allowSetter && name in SetterNames(p.table) && !Defines(p.table.bs, name))
      || (found && Defines(p.table.bs, name) && q == WithBuilt(p, name))
      || (found && allowSetter && !Defines(p.table.bs, name) && exists n ::
            n !in p.symbols && Defines(p.table.bs, n) && SetterName(n) == name && q == WithBuilt(p, n))
  {
    hide GuardOk, NameCompare, Install, Built, BuiltSetter, SetterName, Materialised, LinearProbe;
    var t := p.table;
    ProbeMeaning(t.bs, t.env, name, allowSetter);
    match LinearProbe(t.bs, t.env, name, allowSetter)
    case Miss =>
      assert name !in TableNames(t);
    case Named(first, def) =>
      ScanUsableMeaning(t.bs, t.env, name, 0);
      NamedUsable(t.bs, t.env, name, allowSetter);
      MaterialisedIsBuilt(p, first, def);
    case Setter(entry) =>
      var n := t.bs[entry].name;
      FieldScans(t.bs, t.env, entry);
      assert LiveField(t.env, t.bs[entry]);
      assert n !in p.symbols;
      MaterialisedIsBuilt(p, entry, entry);
      assert Defines(t.bs, n);
  }

  lemma NamedUsable(bs: seq<Binding>, env: Environment, name: Name, allowSetter: bool)
    ensures var hit := LinearProbe(bs, env, name, allowSetter);
      hit.Named? ==> hit.def == ScanUsable(bs, env, name, 0)
  {}

  /** The heart of the matter: a lookup never changes what the package finally is. */
  lemma FindKeepsSettled(p: Package, name: Name, allowSetter: bool)
    requires p.table.Lazy? && Coherent(p) && Separated(p.table.bs, p.table.env)
    ensures var q := Find(p, name, allowSetter).0;
      q.table == p.table && q.uses == p.uses && Coherent(q) && Settled(q) == Settled(p)
  {
    hide GuardOk, NameCompare, LinearProbe, Separated, Settled, Coherent, Materialised, WithBuilt;
    if name !in p.symbols {
      FindBuilds(p, name, allowSetter);
      FindFrame(p, name, allowSetter);
      var (q, found) := Find(p, name, allowSetter);
      if found {
        var n :| n !in p.symbols && Defines(p.table.bs, n) && q == WithBuilt(p, n);
        BuildCoherent(p, n);
        BuildKeepsSettled(p, n);
      }
    }
  }

  lemma FindFrame(p: Package, name: Name, allowSetter: bool)
    ensures var q := Find(p, name, allowSetter).0;
      && q.table == p.table && q.uses == p.uses
      && p.symbols.Keys <= q.symbols.Keys
      && (Find(p, name, allowSetter).1 ==> name in q.symbols)
  {
    hide LinearProbe, GuardOk, Install;
    if name !in p.symbols && p.table.Lazy? {
      HitNames(p.table.bs, p.table.env, name, allowSetter);
    }
  }

  /** A hit is for the name looked up, or for the field whose setter it is. */
  lemma HitNames(bs: seq<Binding>, env: Environment, name: Name, allowSetter: bool)
    ensures match LinearProbe(bs, env, name, allowSetter)
      case Miss => true
      case Named(first, def) => first < |bs| && bs[first].name == name && (def == -1 || 0 <= def < |bs|)
      case Setter(entry) => entry < |bs| && WritableField(bs[entry]) && SetterName(bs[entry].name) == name
  {
    hide GuardOk;
    ScanNameMeaning(bs, name, 0);
    if |name| > 5 {
      ScanWritableMeaning(bs, name[5..], 0);
      assert name == name[..5] + name[5..];
    }
  }

  // ---- the eager flip ----

  lemma NothingLeft(p: Package)
    requires p.table.Lazy? && Coherent(p)
    requires forall k :: 0 <= k < |p.table.bs| ==> p.table.bs[k].name in p.symbols
    ensures Settled(p) == p.(table := NoTable)
  {
    hide GuardOk, NameCompare, Install, Built, BuiltSetter, SetterName;
    assert Settled(p).symbols.Keys == p.symbols.Keys;
    assert Settled(p).symbols == p.symbols;
    assert Settled(p).exports == p.exports;
  }

  lemma {:induction false} FlipFromSettles(p: Package, i: nat)
    requires p.table.Lazy? && Coherent(p) && Separated(p.table.bs, p.table.env) && i <= |p.table.bs|
    requires forall k :: 0 <= k < i ==> p.table.bs[k].name in p.symbols
    ensures FlipFrom(p, i) == Settled(p)
    decreases |p.table.bs| - i
  {
    hide GuardOk, NameCompare, Separated, Settled, Coherent, Find;
    var bs := p.table.bs;
    if i == |bs| {
      NothingLeft(p);
    } else if i > 0 && bs[i - 1].name == bs[i].name {
      FlipFromSettles(p, i + 1);
    } else {
      var q := Find(p, bs[i].name, false).0;
      FindKeepsSettled(p, bs[i].name, false);
      FindFrame(p, bs[i].name, false);
      EntryFound(p, i);
      FlipFromSettles(q, i + 1);
    }
  }

  lemma EntryFound(p: Package, i: nat)
    requires p.table.Lazy? && i < |p.table.bs|
    ensures Find(p, p.table.bs[i].name, false).1
  {
    hide GuardOk;
    var bs, name := p.table.bs, p.table.bs[i].name;
    ScanNameMeaning(bs, name, 0);
    assert ScanName(bs, name, 0) < |bs|;
  }

  /** The loop over the sorted entries builds exactly the settled package. */
  lemma FlipSettles(p: Package)
    requires Coherent(p)
    requires p.table.Lazy? ==> Separated(p.table.bs, p.table.env)
    ensures p.table.Lazy? ==> Flip(p) == Settled(p)
  {
    hide Separated, Settled, Coherent;
    if p.table.Lazy? { FlipFromSettles(p, 0); }
  }

  /** A name none of whose variants passes its guard ends exported and unbound. */
  lemma UnguardedName(p: Package, name: Name)
    requires p.table.Lazy? && Coherent(p) && Separated(p.table.bs, p.table.env)
    requires Defines(p.table.bs, name) && name !in p.symbols
    requires forall k :: 0 <= k < |p.table.bs| && p.table.bs[k].name == name ==> !GuardOk(p.table.env, p.table.bs[k])
    ensures var q := Flip(p); name in q.symbols && q.symbols[name] == BLANK && name in q.exports
  {
    hide GuardOk, NameCompare, SetterName;
    FlipSettles(p);
    DefinedName(p.table, name);
    ScanUsableMeaning(p.table.bs, p.table.env, name, 0);
  }

  // ---- registration ----

  /** The registration pass over the symbols already present, in any order. */
  function RegisterEach(p: Package, names: seq<Name>): (q: Package)
    requires p.table.Lazy?
    decreases |names|
  {
    if names == [] then p
    else
      HitInside(p.table.bs, p.table.env, names[0], true);
      var q :=
        match LinearProbe(p.table.bs, p.table.env, names[0], true)
        case Miss => p
        case Named(first, def) => Materialised(p, first, def, true)
        case Setter(entry) => Materialised(p, entry, entry, true);
      RegisterEach(q, names[1..])
  }

  /** Half-way through the pass: the symbols not waiting in `names` are coherent already. */
  ghost predicate Registering(p: Package, names: seq<Name>)
    requires p.table.Lazy?
  {
    var t := p.table;
    && OrderedTable(t.bs) && NamesFit(t.bs)
    && Separated(t.bs, t.env)
    && (forall k :: 0 <= k < |t.bs| && LiveField(t.env, t.bs[k]) ==>
      && (t.bs[k].name in p.symbols && t.bs[k].name !in names ==> SetterName(t.bs[k].name) in p.symbols)
      && (SetterName(t.bs[k].name) in p.symbols && SetterName(t.bs[k].name) !in names ==> t.bs[k].name in p.symbols))
    && (forall k :: 0 <= k < |t.bs| && t.bs[k].name in p.symbols && t.bs[k].name !in names ==>
      t.bs[k].name in p.exports)
  }

  lemma RegisterMiss(p: Package, names: seq<Name>)
    requires p.table.Lazy? && names != [] && Registering(p, names)
    requires LinearProbe(p.table.bs, p.table.env, names[0], true).Miss?
    ensures Registering(p, names[1..])
  {
    hide GuardOk, NameCompare, LinearProbe, SetterName, Separated;
    ProbeMeaning(p.table.bs, p.table.env, names[0], true);
    assert names == [names[0]] + names[1..];
  }

  /** Which names one materialisation adds, and what it exports. */
  lemma MaterialisedNames(p: Package, i: nat, def: int, force: bool)
    requires p.table.Lazy? && i < |p.table.bs| && (def == -1 || 0 <= def < |p.table.bs|)
    ensures var q := Materialised(p, i, def, force); var n := p.table.bs[i].name;
      && q.table == p.table && q.exports == p.exports + {n}
      && q.symbols.Keys == p.symbols.Keys + {n} +
        if def != -1 && WritableField(p.table.bs[def]) then {SetterName(n)} else {}
  {
    hide Install;
    var n := p.table.bs[i].name;
    if def != -1 && WritableField(p.table.bs[def]) { SetterNameInjective(n, n); }
  }

  lemma RegisterHit(p: Package, names: seq<Name>, i: nat, def: int)
    requires p.table.Lazy? && names != [] && Registering(p, names) && i < |p.table.bs|
    requires names[0] == p.table.bs[i].name ||
      (!Defines(p.table.bs, names[0]) && def == i && WritableField(p.table.bs[i]) &&
       names[0] == SetterName(p.table.bs[i].name))
    requires def == ScanUsable(p.table.bs, p.table.env, p.table.bs[i].name, 0)
    ensures Registering(Materialised(p, i, def, true), names[1..])
  {
    hide GuardOk, NameCompare, Materialised, SetterName;
    var t := p.table;
    var n := t.bs[i].name;
    var q := Materialised(p, i, def, true);
    assert names == [names[0]] + names[1..];
    ScanUsableMeaning(t.bs, t.env, n, 0);
    MaterialisedNames(p, i, def, true);
    if def != -1 && WritableField(t.bs[def]) { FieldScans(t.bs, t.env, def); }
    forall k | 0 <= k < |t.bs| && LiveField(t.env, t.bs[k])
      ensures t.bs[k].name in q.symbols && t.bs[k].name !in names[1..] ==> SetterName(t.bs[k].name) in q.symbols
      ensures SetterName(t.bs[k].name) in q.symbols && SetterName(t.bs[k].name) !in names[1..] ==>
        t.bs[k].name in q.symbols
    {
      FieldScans(t.bs, t.env, k);
      SetterNameInjective(t.bs[k].name, n);
      assert !Defines(t.bs, SetterName(t.bs[k].name));
      if def != -1 && WritableField(t.bs[def]) {
        assert LiveField(t.env, t.bs[def]);
        assert !Defines(t.bs, SetterName(n));
        assert t.bs[k].name != SetterName(n);
      }
    }
    forall k | 0 <= k < |t.bs| && t.bs[k].name in q.symbols && t.bs[k].name !in names[1..]
      ensures t.bs[k].name in q.exports
    {
      if def != -1 && WritableField(t.bs[def]) {
        assert LiveField(t.env, t.bs[def]);
        assert t.bs[k].name != SetterName(n);
      }
    }
  }

  lemma RegisterStep(p: Package, names: seq<Name>)
    requires p.table.Lazy? && names != [] && Registering(p, names)
    ensures match LinearProbe(p.table.bs, p.table.env, names[0], true)
      case Miss => Registering(p, names[1..])
      case Named(first, def) =>
        first < |p.table.bs| && (def == -1 || 0 <= def < |p.table.bs|)
        && Registering(Materialised(p, first, def, true), names[1..])
      case Setter(entry) =>
        entry < |p.table.bs| && Registering(Materialised(p, entry, entry, true), names[1..])
  {
    hide GuardOk, NameCompare, LinearProbe, Materialised, SetterName;
    var t := p.table;
    ProbeMeaning(t.bs, t.env, names[0], true);
    match LinearProbe(t.bs, t.env, names[0], true)
    case Miss => RegisterMiss(p, names);
    case Named(first, def) =>
      NamedUsable(t.bs, t.env, names[0], true);
      RegisterHit(p, names, first, def);
    case Setter(entry) =>
      FieldScans(t.bs, t.env, entry);
      RegisterHit(p, names, entry, entry);
  }

  lemma {:induction false} RegisterEachCoherent(p: Package, names: seq<Name>)
    requires p.table.Lazy? && Registering(p, names)
    ensures RegisterEach(p, names).table == p.table && Coherent(RegisterEach(p, names))
    decreases |names|
  {
    hide GuardOk, NameCompare, LinearProbe, SetterName, Separated;
    if names != [] {
      hide Registering;
      RegisterStep(p, names);
      match LinearProbe(p.table.bs, p.table.env, names[0], true)
      case Miss => RegisterEachCoherent(p, names[1..]);
      case Named(first, def) =>
        MaterialisedNames(p, first, def, true);
        RegisterEachCoherent(Materialised(p, first, def, true), names[1..]);
      case Setter(entry) =>
        MaterialisedNames(p, entry, entry, true);
        RegisterEachCoherent(Materialised(p, entry, entry, true), names[1..]);
    }
  }

  /** Registering a table over any package leaves it coherent, whatever was present and in
      whatever order the present symbols are visited. */
  lemma RegistrationCoherent(p: Package, t: Table, names: seq<Name>)
    requires t.Lazy? && OrderedTable(t.bs) && NamesFit(t.bs) && Separated(t.bs, t.env)
    requires forall n :: n in p.symbols ==> n in names
    ensures Coherent(RegisterEach(p.(table := t), names))
  {
    hide GuardOk, NameCompare, OrderedTable, Separated;
    RegisterEachCoherent(p.(table := t), names);
  }

  /** A present table name has the definition of its first usable variant. */
  predicate EntryDefined(p: Package, name: Name)
    requires p.table.Lazy? && name in p.symbols
  {
    var d := ScanUsable(p.table.bs, p.table.env, name, 0);
    d == -1 || !DefinitionMissing(p.symbols[name], p.table.bs[d])
  }

  /** Every present table name outside `names` is defined, every present setter can be called, and every
      present field outside `names` has its SETF updater. */
  ghost predicate DefinedExcept(p: Package, names: seq<Name>)
    requires p.table.Lazy?
  {
    var t := p.table;
    && (forall k :: 0 <= k < |t.bs| && t.bs[k].name in p.symbols && t.bs[k].name !in names ==>
      EntryDefined(p, t.bs[k].name))
    && (forall k :: 0 <= k < |t.bs| && LiveField(t.env, t.bs[k]) ==>
      var m := SetterName(t.bs[k].name);
      m in p.symbols && m !in names ==> p.symbols[m].fun.Some?)
    && (forall k :: 0 <= k < |t.bs| && LiveField(t.env, t.bs[k]) ==> PairedExcept(p, t.bs[k].name, names))
  }

  /** The DEFSETF pair of a field. */
  predicate PairedExcept(p: Package, field: Name, names: seq<Name>) {
    field in p.symbols && field !in names ==> p.symbols[field].updater == Some(SetterName(field))
  }

  /** What a forced materialisation does to the symbols. */
  lemma ForcedSymbols(p: Package, i: nat, def: int)
    requires p.table.Lazy? && i < |p.table.bs| && (def == -1 || 0 <= def < |p.table.bs|)
    ensures var q := Materialised(p, i, def, true); var n := p.table.bs[i].name; var m := SetterName(n);
      var setter := def != -1 && WritableField(p.table.bs[def]);
      && n in q.symbols && (def != -1 ==> !DefinitionMissing(q.symbols[n], p.table.bs[def]))
      && (setter ==> m in q.symbols && q.symbols[m].fun.Some? && q.symbols[n].updater == Some(m))
      && (forall x :: x in q.symbols && x != n && (x != m || !setter) ==>
        x in p.symbols && q.symbols[x] == p.symbols[x])
  {
    SetterNameInjective(p.table.bs[i].name, p.table.bs[i].name);
    hide SetterName;
  }

  lemma RegisterDefinedHit(p: Package, names: seq<Name>, i: nat, def: int)
    requires p.table.Lazy? && names != [] && Registering(p, names) && DefinedExcept(p, names) && i < |p.table.bs|
    requires names[0] == p.table.bs[i].name ||
      (!Defines(p.table.bs, names[0]) && def == i && WritableField(p.table.bs[i]) &&
       names[0] == SetterName(p.table.bs[i].name))
    requires def == ScanUsable(p.table.bs, p.table.env, p.table.bs[i].name, 0)
    ensures Materialised(p, i, def, true).table == p.table
    ensures DefinedExcept(Materialised(p, i, def, true), names[1..])
  {
    hide GuardOk, NameCompare, Materialised, SetterName, DefinitionMissing;
    var t := p.table;
    var n := t.bs[i].name;
    var q := Materialised(p, i, def, true);
    assert names == [names[0]] + names[1..];
    ScanUsableMeaning(t.bs, t.env, n, 0);
    MaterialisedNames(p, i, def, true);
    ForcedSymbols(p, i, def);
    var setter := def != -1 && WritableField(t.bs[def]);
    if setter { assert LiveField(t.env, t.bs[def]) && !Defines(t.bs, SetterName(n)); }
    forall k | 0 <= k < |t.bs| && t.bs[k].name in q.symbols && t.bs[k].name !in names[1..]
      ensures EntryDefined(q, t.bs[k].name)
    {
      if t.bs[k].name != n {
        assert t.bs[k].name != SetterName(n) || !setter;
        assert t.bs[k].name != names[0];
        assert EntryDefined(p, t.bs[k].name);
      }
    }
    forall k | 0 <= k < |t.bs| && LiveField(t.env, t.bs[k])
      ensures var m := SetterName(t.bs[k].name); m in q.symbols && m !in names[1..] ==> q.symbols[m].fun.Some?
      ensures PairedExcept(q, t.bs[k].name, names[1..])
    {
      FieldScans(t.bs, t.env, k);
      SetterNameInjective(t.bs[k].name, n);
      assert !Defines(t.bs, SetterName(t.bs[k].name));
      if t.bs[k].name != n { assert t.bs[k].name != SetterName(n) || !setter; }
      assert PairedExcept(p, t.bs[k].name, names);
    }
  }

  lemma RegisterDefinedMiss(p: Package, names: seq<Name>)
    requires p.table.Lazy? && names != [] && Registering(p, names) && DefinedExcept(p, names)
    requires LinearProbe(p.table.bs, p.table.env, names[0], true).Miss?
    ensures DefinedExcept(p, names[1..])
  {
    hide GuardOk, NameCompare, LinearProbe, SetterName, Separated, EntryDefined;
    ProbeMeaning(p.table.bs, p.table.env, names[0], true);
    assert names == [names[0]] + names[1..];
  }

  lemma {:induction false} RegisterEachDefined(p: Package, names: seq<Name>)
    requires p.table.Lazy? && Registering(p, names) && DefinedExcept(p, names)
    ensures RegisterEach(p, names).table == p.table && DefinedExcept(RegisterEach(p, names), [])
    decreases |names|
  {
    hide GuardOk, NameCompare, LinearProbe, SetterName, Materialised, DefinedExcept;
    if names == [] {
      return;
    }
    RegisterStep(p, names);
    ProbeOrdered(p, names);
    match LinearProbe(p.table.bs, p.table.env, names[0], true)
    case Miss =>
      RegisterDefinedMiss(p, names);
      RegisterEachDefined(p, names[1..]);
    case Named(first, def) =>
      NamedUsable(p.table.bs, p.table.env, names[0], true);
      RegisterDefinedHit(p, names, first, def);
      RegisterEachDefined(Materialised(p, first, def, true), names[1..]);
    case Setter(entry) =>
      FieldScans(p.table.bs, p.table.env, entry);
      RegisterDefinedHit(p, names, entry, entry);
      RegisterEachDefined(Materialised(p, entry, entry, true), names[1..]);
  }

  lemma ProbeOrdered(p: Package, names: seq<Name>)
    requires p.table.Lazy? && names != [] && Registering(p, names)
    ensures OrderedTable(p.table.bs) && Separated(p.table.bs, p.table.env)
    ensures HitMeans(p.table.bs, p.table.env, names[0], true, LinearProbe(p.table.bs, p.table.env, names[0], true))
  {
    hide GuardOk, NameCompare, LinearProbe, SetterName, Separated, OrderedTable, HitMeans;
    ProbeMeaning(p.table.bs, p.table.env, names[0], true);
  }

  /** After registration every present symbol whose name the table defines has its definition, and every
      present field its setter and its SETF updater. */
  lemma RegistrationDefines(p: Package, t: Table, names: seq<Name>)
    requires t.Lazy? && OrderedTable(t.bs) && NamesFit(t.bs) && Separated(t.bs, t.env)
    requires forall n :: n in p.symbols ==> n in names
    ensures var q := RegisterEach(p.(table := t), names); q.table == t && DefinedExcept(q, [])
  {
    hide GuardOk, NameCompare, OrderedTable, Separated;
    RegisterEachDefined(p.(table := t), names);
  }
}
