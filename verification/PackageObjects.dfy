/** A package as the C code keeps it: a symbol table, an export list and a bindings vector that
    the materialiser, the registrar, the eager flip and the shed update in place
    (src/core/bindtab.c). Each method is tied to the value-level function of LazyPackages. */
module PackageObjects {
  import opened Names
  import opened TableFormat
  import opened TableProbe
  import opened LazyPackages
  import opened Definitions

  /** The materialiser's copy of a name into a buffer on its stack. */
  method CopyName(name: Name, buffer: array<Byte>) returns (len: nat)
    requires |name| <= buffer.Length
    modifies buffer
    ensures len == |name| && buffer[..len] == name
  {
    len := |name|;
    for i := 0 to len
      invariant buffer[..i] == name[..i]
    {
      buffer[i] := name[i];
    }
  }

  /** CL_Package.bindings: the blob slot is empty once the table has been shed. */
  datatype Slots = Slots(blob: Option<Blob>, base: Option<nat>)

  class PackageObject {
    var symbols: map<Name, Symbol>
    /** The export list, newest first. */
    var exported: seq<Name>
    var bindings: Option<Slots>
    var uses: seq<nat>

    ghost predicate Valid()
      reads this
    {
      && (bindings.Some? && bindings.value.blob.Some? ==>
        WellFormed(bindings.value.blob.value) && NamesFit(Bindings(bindings.value.blob.value)))
      && (forall i, j :: 0 <= i < j < |exported| ==> exported[i] != exported[j])
    }

    predicate HasBlob()
      reads this
    {
      bindings.Some? && bindings.value.blob.Some?
    }

    ghost function TableView(env: Environment): Table
      reads this
      requires Valid()
    {
      if bindings.None? then NoTable
      else if bindings.value.blob.None? then Shed
      else Lazy(Bindings(bindings.value.blob.value), bindings.value.base, env)
    }

    /** The package as a value, for the environment the guards see. */
    ghost function View(env: Environment): Package
      reads this
      requires Valid()
    {
      Package(symbols, (set n | n in exported), TableView(env), uses)
    }

    constructor ()
      ensures Valid() && bindings == None && symbols == map[] && exported == []
    {
      symbols, exported, bindings, uses := map[], [], None, [];
    }

    /** cl_package_push_export_cell_nolock, after cl_package_exported_p_nolock. */
    method Export(name: Name)
      requires Valid()
      modifies this`exported
      ensures Valid()
      ensures (set n | n in exported) == old(set n | n in exported) + {name}
    {
      if name !in exported {
        exported := [name] + exported;
      }
    }

    /** The symbol of the entry: linked when absent, completed when present, exported. */
    method LinkSymbol(nameIdx: nat, defIdx: int, force: bool, ghost env: Environment)
      requires Valid() && HasBlob()
      requires nameIdx < |Bindings(bindings.value.blob.value)|
      requires defIdx == -1 || 0 <= defIdx < |Bindings(bindings.value.blob.value)|
      modifies this`symbols, this`exported
      ensures Valid()
      ensures View(env) == Linked(old(View(env)), nameIdx, defIdx, force)
    {
      hide WellFormed, BindingAt, GuardOk, NameCompare, Install, DefinitionMissing;
      var blob, base := bindings.value.blob.value, bindings.value.base;
      var name := BindingAt(blob, nameIdx).name;
      if name !in symbols {
        var made := if defIdx != -1 then Install(BLANK, BindingAt(blob, defIdx), base, name) else BLANK;
        symbols := symbols[name := made];
      } else if defIdx != -1 && (force || DefinitionMissing(symbols[name], BindingAt(blob, defIdx))) {
        symbols := symbols[name := Install(symbols[name], BindingAt(blob, defIdx), base, name)];
      }
      Export(name);
      assert View(env).symbols == Linked(old(View(env)), nameIdx, defIdx, force).symbols;
    }

    /** The writer of a field and the DEFSETF pair. */
    method LinkSetter(name: Name, b: Binding, force: bool, ghost env: Environment)
      requires Valid() && name in symbols
      modifies this`symbols
      ensures Valid()
      ensures View(env) == WithSetter(old(View(env)), name, b, force)
    {
      hide WellFormed, BindingAt, GuardOk, NameCompare, SetterName, WriterStub;
      var setter := SetterName(name);
      SetterNameInjective(name, name);
      if setter !in symbols {
        symbols := symbols[setter := BLANK.(fun := Some(WriterStub(b, setter)))];
      } else if force || symbols[setter].fun.None? {
        symbols := symbols[setter := symbols[setter].(fun := Some(WriterStub(b, setter)))];
      }
      if symbols[name].updater != Some(setter) {
        symbols := symbols[name := symbols[name].(updater := Some(setter))];
      }
      assert View(env).symbols == WithSetter(old(View(env)), name, b, force).symbols;
    }

    /** cl_bindtab_materialize with the table in place; the result is the symbol's name. */
    method Materialise(nameIdx: nat, defIdx: int, wantSetter: bool, force: bool, ghost env: Environment)
      returns (result: Name)
      requires Valid() && HasBlob()
      requires nameIdx < |Bindings(bindings.value.blob.value)|
      requires defIdx == -1 || 0 <= defIdx < |Bindings(bindings.value.blob.value)|
      requires wantSetter ==> defIdx != -1 && WritableField(Bindings(bindings.value.blob.value)[defIdx])
      modifies this`symbols, this`exported
      ensures Valid()
      ensures View(env) == Materialised(old(View(env)), nameIdx, defIdx, force)
      ensures var bs := Bindings(bindings.value.blob.value);
        Materialises(old(View(env)), View(env), bs[nameIdx].name, RowNumber(bs, defIdx), bindings.value.base, force)
      ensures var name := Bindings(bindings.value.blob.value)[nameIdx].name;
        result == if wantSetter then SetterName(name) else name
      ensures result in symbols
    {
      hide WellFormed, BindingAt, GuardOk, NameCompare, Install, DefinitionMissing, WriterStub, Materialises, RowNumber;
      var blob := bindings.value.blob.value;
      Readers(blob, defIdx);
      MaterialisedMeans(View(env), nameIdx, defIdx, force);
      assert Bindings(blob)[nameIdx] == BindingAt(blob, nameIdx);
      var nameBuffer, setterBuffer := new Byte[NAME_BUFFER], new Byte[SETTER_BUFFER];
      var nameLen := CopyName(BindingAt(blob, nameIdx).name, nameBuffer);
      var name := nameBuffer[..nameLen];
      var setterLen := CopyName(SetterName(name), setterBuffer);
      LinkSymbol(nameIdx, defIdx, force, env);
      assert name in View(env).symbols;
      if defIdx != -1 && WritableField(BindingAt(blob, defIdx)) {
        LinkSetter(name, BindingAt(blob, defIdx), force, env);
        assert SetterName(name) in View(env).symbols;
      }
      result := if wantSetter then setterBuffer[..setterLen] else name;
    }

    /** Present, else probe and materialise. */
    method Lookup(name: Name, allowSetter: bool, env: Environment) returns (found: bool)
      requires Valid()
      modifies this`symbols, this`exported
      ensures Valid()
      ensures (View(env), found) == Find(old(View(env)), name, allowSetter)
    {
      hide WellFormed, BindingAt, GuardOk, NameCompare, LinearProbe, Materialised;
      if name in symbols { return true; }
      if !HasBlob() { return false; }
      var blob := bindings.value.blob.value;
      var hit := Probe(blob, env, name, allowSetter);
      HitNames(Bindings(blob), env, name, allowSetter);
      match hit
      case Miss =>
        found := false;
      case Named(first, def) =>
        var _ := Materialise(first, def, false, false, env);
        found := true;
      case Setter(entry) =>
        var _ := Materialise(entry, entry, true, false, env);
        found := true;
    }

    /** cl_bindtab_materialize_all: a package without a table, or with a shed one, is left alone. */
    method MaterialiseAll(env: Environment)
      requires Valid()
      modifies this`symbols, this`exported, this`bindings
      ensures Valid()
      ensures View(env) == Flip(old(View(env)))
    {
      hide WellFormed, BindingAt, GuardOk, NameCompare, LinearProbe, Find, EntryCount;
      if !HasBlob() { return; }
      var blob := bindings.value.blob.value;
      NamesOfBlob(blob);
      ghost var bs := Bindings(blob);
      var i := 0;
      while i < EntryCount(blob)
        invariant 0 <= i <= |bs|
        invariant Valid() && bindings == old(bindings)
        invariant FlipFrom(View(env), i) == FlipFrom(old(View(env)), 0)
      {
        if i == 0 || NameAt(blob, i - 1) != NameAt(blob, i) {
          assert NameAt(blob, i) == bs[i].name;
          var nameBuffer := new Byte[NAME_BUFFER];
          var nameLen := CopyName(NameAt(blob, i), nameBuffer);
          var _ := Lookup(nameBuffer[..nameLen], false, env);
        }
        i := i + 1;
      }
      bindings := None;
    }

    /** cl_bindtab_register. `order` lists the symbols present, in whatever order the buckets give.
        A table that is refused leaves the package as it was; of one that passes the validator the names
        have to fit the materialiser's buffer. */
    method Register(blob: Blob, base: Option<nat>, order: seq<Name>, env: Environment) returns (err: Option<string>)
      requires Valid()
      requires WellFormed(blob) ==> NamesFit(Bindings(blob))
      requires forall n :: n in symbols <==> n in order
      modifies this
      ensures Valid()
      ensures err.None? <==> WellFormed(blob) && (blob[5] % 2 == 1 ==> base.Some?)
      ensures err.Some? ==> View(env) == old(View(env))
      ensures err.None? ==>
        View(env) == RegisterEach(old(View(env)).(table := Lazy(Bindings(blob), base, env)), order)
      ensures err.None? && Separated(Bindings(blob), env) ==>
        && View(env).table == Lazy(Bindings(blob), base, env)
        && forall x :: x in symbols ==> Redefined(old(View(env)), View(env), x)
    {
      hide Separated, Redefined, OrderedTable, WellFormed, BindingAt, GuardOk, NameCompare, LinearProbe,
        Materialised, RegisterEach;
      err := Validate(blob);
      if err.Some? { return; }
      NamesOfBlob(blob);
      if blob[5] % 2 == 1 && base.None? {
        err := Some("the table defines library calls but no :BASE variable was given");
        return;
      }
      ghost var before := View(env);
      bindings := Some(Slots(Some(blob), base));
      ghost var start := before.(table := Lazy(Bindings(blob), base, env));
      var i := 0;
      while i < |order|
        invariant 0 <= i <= |order|
        invariant Valid() && bindings == Some(Slots(Some(blob), base))
        invariant RegisterEach(View(env), order[i..]) == RegisterEach(start, order)
      {
        var hit := Probe(blob, env, order[i], true);
        HitNames(Bindings(blob), env, order[i], true);
        RegisterOne(View(env), order[i..]);
        match hit {
          case Miss =>
          case Named(first, def) => var _ := Materialise(first, def, false, true, env);
          case Setter(entry) => var _ := Materialise(entry, entry, true, true, env);
        }
        assert order[i..][1..] == order[i + 1..];
        i := i + 1;
      }
      RegisterNone(View(env));
      if Separated(Bindings(blob), env) { RegistrationRedefines(before, start.table, order); }
    }

    /** cl_bindtab_shed: the vector stays as a marker, its blob slot is emptied. From then on a lookup
        finds what is present and nothing else, and a flip does nothing. */
    method ShedTable(ghost env: Environment) returns (bytes: nat)
      requires Valid()
      modifies this`bindings
      ensures Valid()
      ensures bytes == if old(HasBlob()) then |old(bindings).value.blob.value| else 0
      ensures bindings == if old(HasBlob()) then Some(Slots(None, old(bindings).value.base)) else old(bindings)
      ensures View(env).(table := NoTable) == old(View(env)).(table := NoTable) && Flip(View(env)) == View(env)
      ensures forall name: Name, allowSetter: bool ::
        Find(View(env), name, allowSetter) == (View(env), name in symbols)
    {
      if bindings.None? || bindings.value.blob.None? { return 0; }
      bytes := |bindings.value.blob.value|;
      bindings := Some(bindings.value.(blob := None));
    }
  }

  lemma Readers(blob: Blob, def: int)
    requires WellFormed(blob) && -1 <= def < |Bindings(blob)|
    ensures def != -1 ==> ReaderOk(Bindings(blob)[def])
  {
    hide WellFormed, Bindings, NameCompare;
    NamesOfBlob(blob);
  }

  lemma RegisterNone(p: Package)
    requires p.table.Lazy?
    ensures RegisterEach(p, []) == p
  {}

  lemma RegisterOne(p: Package, names: seq<Name>)
    requires p.table.Lazy? && names != []
    ensures var hit := LinearProbe(p.table.bs, p.table.env, names[0], true);
      && (hit.Miss? ==> RegisterEach(p, names) == RegisterEach(p, names[1..]))
      && (hit.Named? ==>
        && hit.first < |p.table.bs| && (hit.def == -1 || 0 <= hit.def < |p.table.bs|)
        && Materialised(p, hit.first, hit.def, true).table == p.table
        && RegisterEach(p, names) == RegisterEach(Materialised(p, hit.first, hit.def, true), names[1..]))
      && (hit.Setter? ==>
        && hit.entry < |p.table.bs|
        && Materialised(p, hit.entry, hit.entry, true).table == p.table
        && RegisterEach(p, names) == RegisterEach(Materialised(p, hit.entry, hit.entry, true), names[1..]))
  {
    hide LinearProbe, GuardOk, Install;
    HitNames(p.table.bs, p.table.env, names[0], true);
  }
}
