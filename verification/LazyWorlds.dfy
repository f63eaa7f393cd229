/** The lookup funnel over packages that use one another (src/core/package.c, lookup_nolock and
    its callers), and the promise of src/core/bindtab.h: in any run of lookups, interns, symbol
    updates and enumerations, laziness cannot be observed. The reference is the same run over
    the packages flipped eager at the start. */
module LazyWorlds {
  import opened Names
  import opened TableFormat
  import opened TableProbe
  import opened LazyPackages

  /** `uses` of a package are indices into this list. */
  type World = seq<Package>

  datatype Status = Internal | External | Inherited

  /** Where a name was found: the package that owns the symbol. */
  datatype Result = Absent | Found(status: Status, owner: nat)

  datatype Op =
    | FindSymbol(pkg: nat, name: Name)
    | FindExternal(pkg: nat, name: Name)
    | Intern(pkg: nat, name: Name)
    | Update(pkg: nat, name: Name, cells: Symbol)
    | Enumerate(pkg: nat)

  datatype Observation = Seen(result: Result, symbol: Symbol) | Contents(symbols: map<Name, Symbol>, exports: set<Name>)

  // ---- the funnel ----

  function OwnStatus(p: Package, name: Name): Status {
    if name in p.exports then External else Internal
  }

  /** find_external_nolock. */
  predicate PresentExternal(p: Package, name: Name) { name in p.symbols && name in p.exports }

  function Hits(p: Package, name: Name, allowSetter: bool): Hit {
    if p.table.Lazy? then LinearProbe(p.table.bs, p.table.env, name, allowSetter) else Miss
  }

  /** cl_bindtab_materialize on a probe's outcome. */
  function Materialise(p: Package, name: Name, allowSetter: bool): Package {
    HitNames(if p.table.Lazy? then p.table.bs else [], if p.table.Lazy? then p.table.env else Environment(false, None),
      name, allowSetter);
    match Hits(p, name, allowSetter)
    case Miss => p
    case Named(first, def) => Materialised(p, first, def, false)
    case Setter(entry) => Materialised(p, entry, entry, false)
  }

  predicate UsesInside(w: World, uses: seq<nat>) { forall k :: 0 <= k < |uses| ==> uses[k] < |w| }

  /** The use list, in order: each package's externals, then its table. */
  function LookupUses(w: World, uses: seq<nat>, name: Name): (World, Result)
    requires UsesInside(w, uses)
  {
    if uses == [] then (w, Absent)
    else
      var u := uses[0];
      if PresentExternal(w[u], name) then (w, Found(Inherited, u))
      else if Hits(w[u], name, false) != Miss then (w[u := Materialise(w[u], name, false)], Found(Inherited, u))
      else LookupUses(w, uses[1..], name)
  }

  /** lookup_nolock and the materialisation of a lazy hit. */
  function Lookup(w: World, i: nat, name: Name): (World, Result)
    requires i < |w| && UsesInside(w, w[i].uses)
  {
    if name in w[i].symbols then (w, Found(OwnStatus(w[i], name), i))
    else
      match Hits(w[i], name, true)
      case Miss => LookupUses(w, w[i].uses, name)
      case Named(_, _) => (w[i := Materialise(w[i], name, true)], Found(External, i))
      case Setter(_) => (w[i := Materialise(w[i], name, true)], Found(Internal, i))
  }

  /** cl_package_find_external. */
  function LookupExternal(w: World, i: nat, name: Name): (World, Result)
    requires i < |w|
  {
    if PresentExternal(w[i], name) then (w, Found(External, i))
    else if Hits(w[i], name, false) != Miss then (w[i := Materialise(w[i], name, false)], Found(External, i))
    else (w, Absent)
  }

  function SymbolAt(w: World, r: Result, name: Name): Symbol {
    if r.Found? && r.owner < |w| then SymbolOr(w[r.owner], name) else BLANK
  }

  function SetSymbol(p: Package, name: Name, s: Symbol): Package {
    p.(symbols := p.symbols[name := s])
  }

  predicate OpInside(w: World, op: Op) { op.pkg < |w| }

  ghost predicate UsesOk(w: World) { forall i :: 0 <= i < |w| ==> UsesInside(w, w[i].uses) }

  /** One operation of a program. `Update` stands for every assignment to the cells of a symbol
      that a lookup has found; `Enumerate` flips the package, as DO-SYMBOLS and its kin do. */
  ghost function Step(w: World, op: Op): (World, Observation)
    requires UsesOk(w) && OpInside(w, op)
  {
    match op
    case FindSymbol(i, name) =>
      var (w', r) := Lookup(w, i, name);
      (w', Seen(r, SymbolAt(w', r, name)))
    case FindExternal(i, name) =>
      var (w', r) := LookupExternal(w, i, name);
      (w', Seen(r, SymbolAt(w', r, name)))
    case Intern(i, name) =>
      var (w', r) := Lookup(w, i, name);
      if r.Absent? && i < |w'| then (w'[i := SetSymbol(w'[i], name, BLANK)], Seen(r, BLANK))
      else (w', Seen(r, SymbolAt(w', r, name)))
    case Update(i, name, cells) =>
      var (w', r) := Lookup(w, i, name);
      if r.Found? && r.owner < |w'| then (w'[r.owner := SetSymbol(w'[r.owner], name, cells)], Seen(r, cells))
      else (w', Seen(r, BLANK))
    case Enumerate(i) =>
      (w[i := Flip(w[i])], Contents(Flip(w[i]).symbols, Flip(w[i]).exports))
  }

  // ---- the invariant and the abstraction ----

  ghost predicate Sound(p: Package) {
    && Coherent(p)
    && (p.table.Lazy? ==> Separated(p.table.bs, p.table.env))
    && p.exports <= p.symbols.Keys
  }

  ghost predicate SoundWorld(w: World) {
    UsesOk(w) && forall i :: 0 <= i < |w| ==> Sound(w[i])
  }

  /** What registration leaves is sound. */
  lemma RegistrationSound(p: Package, t: Table, names: seq<Name>)
    requires t.Lazy? && OrderedTable(t.bs) && NamesFit(t.bs) && Separated(t.bs, t.env)
    requires (forall n :: n in p.symbols ==> n in names) && p.exports <= p.symbols.Keys
    ensures Sound(RegisterEach(p.(table := t), names))
  {
    hide OrderedTable, NamesFit, Separated, Coherent, RegisterEach;
    RegistrationCoherent(p, t, names);
    RegisterEachExports(p.(table := t), names);
  }

  lemma {:induction false} RegisterEachExports(p: Package, names: seq<Name>)
    requires p.table.Lazy? && p.exports <= p.symbols.Keys
    ensures var q := RegisterEach(p, names); q.table == p.table && q.exports <= q.symbols.Keys
    decreases |names|
  {
    hide GuardOk, LinearProbe, Materialised, SetterName;
    if names != [] {
      HitInside(p.table.bs, p.table.env, names[0], true);
      match LinearProbe(p.table.bs, p.table.env, names[0], true)
      case Miss => RegisterEachExports(p, names[1..]);
      case Named(first, def) =>
        MaterialisedNames(p, first, def, true);
        RegisterEachExports(Materialised(p, first, def, true), names[1..]);
      case Setter(entry) =>
        MaterialisedNames(p, entry, entry, true);
        RegisterEachExports(Materialised(p, entry, entry, true), names[1..]);
    }
  }

  function FlipAll(w: World): (e: World)
    ensures |e| == |w|
  {
    seq(|w|, i requires 0 <= i < |w| => Flip(w[i]))
  }

  lemma FlipShape(p: Package)
    requires Sound(p)
    ensures Flip(p).uses == p.uses && !Flip(p).table.Lazy? && Sound(Flip(p))
    ensures p.symbols.Keys <= Flip(p).symbols.Keys
  {
    hide GuardOk, NameCompare, SettledSymbol, SetterName, Separated, Flip;
    if p.table.Lazy? { FlipSettles(p); } else { FlipOfPlain(p); }
  }

  lemma FlipOfPlain(p: Package)
    requires !p.table.Lazy?
    ensures Flip(p) == p
  {}

  /** One package seen through one lookup, lazily and eagerly. */
  lemma OwnLookup(p: Package, name: Name, allowSetter: bool)
    requires Sound(p)
    requires name !in p.symbols
    ensures var q := Materialise(p, name, allowSetter); var e := Flip(p);
      && Sound(q) && q.uses == p.uses && Flip(q) == e
      && (Hits(p, name, allowSetter).Miss? ==>
        && q == p && (allowSetter ==> name !in e.symbols) && (!allowSetter ==> !PresentExternal(e, name)))
      && (!Hits(p, name, allowSetter).Miss? ==>
        && name in q.symbols && name in e.symbols && q.symbols[name] == e.symbols[name]
        && (name in e.exports <==> Hits(p, name, allowSetter).Named?))
  {
    hide GuardOk, NameCompare, SetterName, Separated, Flip, LinearProbe, Coherent, Settled, WithBuilt;
    if !p.table.Lazy? {
      FlipOfPlain(p);
    } else {
      var q := Materialise(p, name, allowSetter);
      assert q == Find(p, name, allowSetter).0;
      FindKeepsSettled(p, name, allowSetter);
      FindFrame(p, name, allowSetter);
      FindExports(p, name, allowSetter);
      FlipSettles(p);
      FlipSettles(q);
      CoherentTable(p);
      ProbeMeaning(p.table.bs, p.table.env, name, allowSetter);
      DefinedName(p.table, name);
      SettledAt(p, name);
      SettledAt(q, name);
      if Hits(p, name, allowSetter).Miss? && allowSetter { NotASetter(p.table, name); }
    }
  }

  lemma CoherentTable(p: Package)
    requires p.table.Lazy? && Coherent(p)
    ensures OrderedTable(p.table.bs)
  {}

  lemma SettledAt(p: Package, name: Name)
    requires p.table.Lazy? 
    ensures var e := Settled(p);
      && (name in p.symbols ==> name in e.symbols && e.symbols[name] == p.symbols[name])
      && (name in e.symbols <==> name in p.symbols || name in TableNames(p.table) || name in SetterNames(p.table))
      && (name in e.exports <==> name in p.exports || name in TableNames(p.table))
  {
    hide GuardOk, NameCompare, SetterName;
  }

  lemma NotASetter(t: Table, name: Name)
    requires t.Lazy?
    requires forall k :: 0 <= k < |t.bs| && WritableField(t.bs[k]) ==> SetterName(t.bs[k].name) != name
    ensures name !in SetterNames(t)
  {}

  lemma FindExports(p: Package, name: Name, allowSetter: bool)
    requires p.exports <= p.symbols.Keys
    ensures var q := Find(p, name, allowSetter).0; q.exports <= q.symbols.Keys
  {
    hide GuardOk, LinearProbe, Materialised;
    if name !in p.symbols && p.table.Lazy? {
      var bs := p.table.bs;
      HitNames(bs, p.table.env, name, allowSetter);
      match LinearProbe(bs, p.table.env, name, allowSetter)
      case Miss =>
      case Named(first, def) => MaterialisedNames(p, first, def, false);
      case Setter(entry) => MaterialisedNames(p, entry, entry, false);
    }
  }

  /** A present name keeps its symbol and its status through the flip. */
  lemma PresentLookup(p: Package, name: Name)
    requires Sound(p) && name in p.symbols
    ensures name in Flip(p).symbols && Flip(p).symbols[name] == p.symbols[name]
    ensures name in Flip(p).exports <==> name in p.exports
    ensures !PresentExternal(p, name) ==> Hits(p, name, false).Miss?
  {
    hide GuardOk, NameCompare, SetterName, Separated, Flip, LinearProbe, Settled;
    if p.table.Lazy? {
      FlipSettles(p);
      SettledAt(p, name);
      DefinedName(p.table, name);
      ProbeMeaning(p.table.bs, p.table.env, name, false);
    } else {
      FlipOfPlain(p);
    }
  }

  /** Assigning to a symbol that is present, or adding one the table does not know, commutes with
      the flip. */
  lemma SetCommutes(p: Package, name: Name, s: Symbol)
    requires Sound(p)
    requires name in p.symbols || name !in Flip(p).symbols
    ensures Sound(SetSymbol(p, name, s))
    ensures Flip(SetSymbol(p, name, s)) == SetSymbol(Flip(p), name, s)
  {
    hide GuardOk, NameCompare, SetterName, Separated, Flip, Settled;
    var q := SetSymbol(p, name, s);
    if p.table.Lazy? {
      FlipSettles(p);
      SettledAt(p, name);
      DefinedName(p.table, name);
      if name !in p.symbols { assert name !in TableNames(p.table) && name !in SetterNames(p.table); }
      SetCoherent(p, name, s);
      FlipSettles(q);
      SetSettles(p, name, s);
    } else {
      FlipOfPlain(p);
      FlipOfPlain(q);
    }
  }

  lemma SetCoherent(p: Package, name: Name, s: Symbol)
    requires p.table.Lazy? && Coherent(p)
    requires name in p.symbols || (name !in TableNames(p.table) && name !in SetterNames(p.table))
    ensures Coherent(SetSymbol(p, name, s))
  {
    hide GuardOk, NameCompare, SetterName;
    var t := p.table;
    forall k | 0 <= k < |t.bs| && LiveField(t.env, t.bs[k])
      ensures t.bs[k].name in TableNames(t) && SetterName(t.bs[k].name) in SetterNames(t)
    {}
    forall k | 0 <= k < |t.bs| ensures t.bs[k].name in TableNames(t) {}
  }

  lemma SetSettles(p: Package, name: Name, s: Symbol)
    requires p.table.Lazy?
    requires name in p.symbols || (name !in TableNames(p.table) && name !in SetterNames(p.table))
    ensures Settled(SetSymbol(p, name, s)) == SetSymbol(Settled(p), name, s)
  {
    hide GuardOk, NameCompare, SetterName, Built, BuiltSetter;
    var q := SetSymbol(p, name, s);
    assert Settled(q).symbols.Keys == SetSymbol(Settled(p), name, s).symbols.Keys;
    assert Settled(q).symbols == SetSymbol(Settled(p), name, s).symbols;
  }

  // ---- worlds ----

  lemma FlipAllUpdate(w: World, i: nat, p: Package)
    requires i < |w|
    ensures FlipAll(w[i := p]) == FlipAll(w)[i := Flip(p)]
  {
    hide Flip;
  }

  lemma FlipAllSound(w: World)
    requires SoundWorld(w)
    ensures SoundWorld(FlipAll(w))
    ensures forall i :: 0 <= i < |w| ==> FlipAll(w)[i].uses == w[i].uses && !FlipAll(w)[i].table.Lazy?
  {
    hide Sound, Flip;
    forall i | 0 <= i < |w|
      ensures FlipAll(w)[i].uses == w[i].uses && !FlipAll(w)[i].table.Lazy? && Sound(FlipAll(w)[i])
    {
      FlipShape(w[i]);
    }
  }

  lemma UpdateSound(w: World, i: nat, p: Package)
    requires SoundWorld(w) && i < |w| && Sound(p) && p.uses == w[i].uses
    ensures SoundWorld(w[i := p])
  {
    hide Sound;
  }

  /** A lookup through a table, seen from both worlds. */
  ghost predicate Same(w: World, name: Name, lazy: (World, Result), eager: (World, Result)) {
    && |lazy.0| == |w| && SoundWorld(lazy.0)
    && FlipAll(lazy.0) == FlipAll(w) == eager.0
    && lazy.1 == eager.1
    && (lazy.1.Found? ==> lazy.1.owner < |w| && name in lazy.0[lazy.1.owner].symbols)
    && SymbolAt(lazy.0, lazy.1, name) == SymbolAt(eager.0, eager.1, name)
  }

  lemma {:induction false} UsesCommute(w: World, uses: seq<nat>, name: Name)
    requires SoundWorld(w) && UsesInside(w, uses)
    ensures UsesInside(FlipAll(w), uses)
    ensures Same(w, name, LookupUses(w, uses, name), LookupUses(FlipAll(w), uses, name))
  {
    hide Sound, Flip, Materialise, Hits;
    FlipAllSound(w);
    if uses != [] {
      var u := uses[0];
      UsesCommute(w, uses[1..], name);
      NoHits(FlipAll(w)[u], name, false);
      if name in w[u].symbols {
        PresentLookup(w[u], name);
      } else {
        OwnLookup(w[u], name, false);
        if Hits(w[u], name, false) != Miss {
          UpdateSound(w, u, Materialise(w[u], name, false));
          FlipAllUpdate(w, u, Materialise(w[u], name, false));
          NotASetterHit(w[u], name);
        }
      }
    }
  }

  lemma NoHits(p: Package, name: Name, allowSetter: bool)
    requires !p.table.Lazy?
    ensures Hits(p, name, allowSetter).Miss?
  {}

  lemma NotASetterHit(p: Package, name: Name)
    ensures !Hits(p, name, false).Setter?
  {}

  lemma LookupCommutes(w: World, i: nat, name: Name)
    requires SoundWorld(w) && i < |w|
    ensures UsesInside(FlipAll(w), FlipAll(w)[i].uses)
    ensures Same(w, name, Lookup(w, i, name), Lookup(FlipAll(w), i, name))
    ensures Lookup(w, i, name).1.Absent? ==> Lookup(w, i, name).0 == w && name !in FlipAll(w)[i].symbols
  {
    hide Sound, Flip, Materialise, Hits;
    FlipAllSound(w);
    NoHits(FlipAll(w)[i], name, true);
    if name in w[i].symbols {
      PresentLookup(w[i], name);
    } else {
      OwnLookup(w[i], name, true);
      if Hits(w[i], name, true) != Miss {
        UpdateSound(w, i, Materialise(w[i], name, true));
        FlipAllUpdate(w, i, Materialise(w[i], name, true));
      } else {
        UsesCommute(w, w[i].uses, name);
        AbsentUntouched(w, w[i].uses, name);
      }
    }
  }

  lemma {:induction false} AbsentUntouched(w: World, uses: seq<nat>, name: Name)
    requires UsesInside(w, uses)
    ensures LookupUses(w, uses, name).1.Absent? ==> LookupUses(w, uses, name).0 == w
  {
    hide Materialise, Hits;
    if uses != [] { AbsentUntouched(w, uses[1..], name); }
  }

  lemma ExternalCommutes(w: World, i: nat, name: Name)
    requires SoundWorld(w) && i < |w|
    ensures Same(w, name, LookupExternal(w, i, name), LookupExternal(FlipAll(w), i, name))
  {
    hide Sound, Flip, Materialise, Hits;
    FlipAllSound(w);
    NoHits(FlipAll(w)[i], name, false);
    if name in w[i].symbols {
      PresentLookup(w[i], name);
    } else {
      OwnLookup(w[i], name, false);
      if Hits(w[i], name, false) != Miss {
        UpdateSound(w, i, Materialise(w[i], name, false));
        FlipAllUpdate(w, i, Materialise(w[i], name, false));
        NotASetterHit(w[i], name);
      }
    }
  }

  /** Every operation shows the same in the lazy world and in the eager one, and leaves worlds
      that differ by laziness only. */
  lemma StepCommutes(w: World, op: Op)
    requires SoundWorld(w) && OpInside(w, op)
    ensures SoundWorld(FlipAll(w)) && OpInside(FlipAll(w), op)
    ensures var (w', o) := Step(w, op); var (e', o') := Step(FlipAll(w), op);
      SoundWorld(w') && |w'| == |w| && FlipAll(w') == e' && o == o'
  {
    hide Sound, Flip, Lookup, LookupExternal, SoundWorld;
    FlipAllSound(w);
    match op
    case FindSymbol(i, name) => LookupCommutes(w, i, name);
    case FindExternal(i, name) => ExternalCommutes(w, i, name);
    case Intern(i, name) =>
      LookupCommutes(w, i, name);
      if Lookup(w, i, name).1.Absent? { SetInWorld(w, i, name, BLANK); }
    case Update(i, name, cells) =>
      LookupCommutes(w, i, name);
      var (w', r) := Lookup(w, i, name);
      if r.Found? { SetInWorld(w', r.owner, name, cells); }
    case Enumerate(i) =>
      EnumerateCommutes(w, i);
  }

  lemma SetInWorld(w: World, i: nat, name: Name, s: Symbol)
    requires SoundWorld(w) && i < |w|
    requires name in w[i].symbols || name !in FlipAll(w)[i].symbols
    ensures SoundWorld(w[i := SetSymbol(w[i], name, s)])
    ensures FlipAll(w[i := SetSymbol(w[i], name, s)]) == FlipAll(w)[i := SetSymbol(FlipAll(w)[i], name, s)]
  {
    hide Sound, Flip;
    SetCommutes(w[i], name, s);
    UpdateSound(w, i, SetSymbol(w[i], name, s));
    FlipAllUpdate(w, i, SetSymbol(w[i], name, s));
  }

  lemma EnumerateCommutes(w: World, i: nat)
    requires SoundWorld(w) && i < |w|
    ensures SoundWorld(w[i := Flip(w[i])])
    ensures FlipAll(w[i := Flip(w[i])]) == FlipAll(w)
    ensures Flip(FlipAll(w)[i]) == Flip(w[i]) && FlipAll(w)[i := Flip(w[i])] == FlipAll(w)
  {
    hide Sound, Flip;
    FlipShape(w[i]);
    FlipOfPlain(Flip(w[i]));
    UpdateSound(w, i, Flip(w[i]));
    FlipAllUpdate(w, i, Flip(w[i]));
  }

  // ---- the answer itself, told from the eager world alone ----

  /** Package `u` exports the name, and no package before it in the use list does. */
  ghost predicate FirstExporter(e: World, uses: seq<nat>, name: Name, u: nat)
    requires UsesInside(e, uses)
  {
    exists k :: 0 <= k < |uses| && uses[k] == u && NoExporterBefore(e, uses, name, k)
      && name in e[u].symbols && name in e[u].exports
  }

  ghost predicate NoExporterBefore(e: World, uses: seq<nat>, name: Name, k: nat)
    requires UsesInside(e, uses) && k <= |uses|
  {
    forall j :: 0 <= j < k ==> name !in e[uses[j]].symbols || name !in e[uses[j]].exports
  }

  /** What FIND-SYMBOL owes: a package's own symbol, external or internal, before an inherited one,
      and of those the one from the first package in the use list that exports the name. */
  ghost predicate Answers(e: World, i: nat, name: Name, r: Result)
    requires i < |e| && UsesInside(e, e[i].uses)
  {
    && (r == Found(External, i) <==> name in e[i].symbols && name in e[i].exports)
    && (r == Found(Internal, i) <==> name in e[i].symbols && name !in e[i].exports)
    && (forall u :: r == Found(Inherited, u) <==> name !in e[i].symbols && FirstExporter(e, e[i].uses, name, u))
    && (r == Absent <==> name !in e[i].symbols && NoExporterBefore(e, e[i].uses, name, |e[i].uses|))
  }

  ghost predicate AnswersExternal(e: World, i: nat, name: Name, r: Result)
    requires i < |e|
  {
    && (r == Found(External, i) <==> name in e[i].symbols && name in e[i].exports)
    && (r == Absent <==> name !in e[i].symbols || name !in e[i].exports)
  }

  /** The symbol an answer stands for: the owner's, with its cells; blank when there is none. */
  ghost predicate ShowsSymbol(e: World, name: Name, r: Result, s: Symbol) {
    match r
    case Absent => s == BLANK
    case Found(_, owner) => owner < |e| && name in e[owner].symbols && s == e[owner].symbols[name]
  }

  /** The loop over the use list stops at the first package that exports the name. */
  lemma {:induction false} UsesAnswer(e: World, uses: seq<nat>, name: Name) returns (k: nat)
    requires UsesInside(e, uses) && forall j :: 0 <= j < |e| ==> !e[j].table.Lazy?
    ensures k <= |uses| && NoExporterBefore(e, uses, name, k)
    ensures k < |uses| ==> name in e[uses[k]].symbols && name in e[uses[k]].exports
    ensures LookupUses(e, uses, name) == (e, if k < |uses| then Found(Inherited, uses[k]) else Absent)
  {
    hide Materialise, Hits;
    if uses == [] {
      k := 0;
    } else {
      var u := uses[0];
      NoHits(e[u], name, false);
      if PresentExternal(e[u], name) {
        k := 0;
      } else {
        var l := UsesAnswer(e, uses[1..], name);
        k := l + 1;
        forall j | 0 <= j < k ensures name !in e[uses[j]].symbols || name !in e[uses[j]].exports {
          if j > 0 { assert uses[j] == uses[1..][j - 1]; }
        }
      }
    }
  }

  /** The funnel's answer in any world, lazy tables or not. */
  lemma LookupAnswer(w: World, i: nat, name: Name)
    requires SoundWorld(w) && i < |w|
    ensures UsesInside(FlipAll(w), FlipAll(w)[i].uses)
    ensures Answers(FlipAll(w), i, name, Lookup(w, i, name).1)
    ensures ShowsSymbol(FlipAll(w), name, Lookup(w, i, name).1,
              SymbolAt(Lookup(w, i, name).0, Lookup(w, i, name).1, name))
    ensures SoundWorld(Lookup(w, i, name).0) && FlipAll(Lookup(w, i, name).0) == FlipAll(w)
  {
    hide Sound, Flip, Materialise, Hits, FlipAll, LookupUses;
    LookupCommutes(w, i, name);
    FlipAllSound(w);
    var e := FlipAll(w);
    NoHits(e[i], name, true);
    var uses := e[i].uses;
    var k := UsesAnswer(e, uses, name);
    forall u ensures FirstExporter(e, uses, name, u) <==> k < |uses| && u == uses[k] {
      OneFirstExporter(e, uses, name, k, u);
    }
  }

  lemma OneFirstExporter(e: World, uses: seq<nat>, name: Name, k: nat, u: nat)
    requires UsesInside(e, uses) && k <= |uses| && NoExporterBefore(e, uses, name, k)
    requires k < |uses| ==> name in e[uses[k]].symbols && name in e[uses[k]].exports
    ensures FirstExporter(e, uses, name, u) <==> k < |uses| && u == uses[k]
  {
    if FirstExporter(e, uses, name, u) {
      var l :| 0 <= l < |uses| && uses[l] == u && NoExporterBefore(e, uses, name, l)
        && name in e[u].symbols && name in e[u].exports;
      assert l >= k;
      assert !(k < l);
    }
  }

  lemma ExternalAnswer(w: World, i: nat, name: Name)
    requires SoundWorld(w) && i < |w|
    ensures AnswersExternal(FlipAll(w), i, name, LookupExternal(w, i, name).1)
    ensures ShowsSymbol(FlipAll(w), name, LookupExternal(w, i, name).1,
              SymbolAt(LookupExternal(w, i, name).0, LookupExternal(w, i, name).1, name))
    ensures SoundWorld(LookupExternal(w, i, name).0) && FlipAll(LookupExternal(w, i, name).0) == FlipAll(w)
  {
    hide Sound, Flip, Materialise, Hits, FlipAll;
    ExternalCommutes(w, i, name);
    FlipAllSound(w);
    NoHits(FlipAll(w)[i], name, false);
  }

  /** What each operation shows and does, told on eager packages: lookups show an answer and change
      nothing, INTERN adds a blank internal symbol exactly when there is no answer, an update writes
      the cells of the symbol found, an enumeration shows everything. */
  ghost predicate Performs(e: World, op: Op, o: Observation, e': World)
    requires UsesOk(e) && OpInside(e, op)
  {
    match op
    case FindSymbol(i, name) =>
      o.Seen? && Answers(e, i, name, o.result) && ShowsSymbol(e, name, o.result, o.symbol) && e' == e
    case FindExternal(i, name) =>
      o.Seen? && AnswersExternal(e, i, name, o.result) && ShowsSymbol(e, name, o.result, o.symbol) && e' == e
    case Intern(i, name) =>
      && o.Seen? && Answers(e, i, name, o.result) && ShowsSymbol(e, name, o.result, o.symbol)
      && e' == if o.result.Absent? then e[i := e[i].(symbols := e[i].symbols[name := BLANK])] else e
    case Update(i, name, cells) =>
      && o.Seen? && Answers(e, i, name, o.result)
      && (o.result.Absent? ==> o.symbol == BLANK && e' == e)
      && (o.result.Found? ==>
        && o.result.owner < |e| && o.symbol == cells
        && var p := e[o.result.owner]; e' == e[o.result.owner := p.(symbols := p.symbols[name := cells])])
    case Enumerate(i) =>
      o == Contents(e[i].symbols, e[i].exports) && e' == e
  }

  /** Every step of a program on lazy packages is the step it would be on the flipped ones, and that
      step is the one each operation promises. */
  lemma StepPerforms(w: World, op: Op)
    requires SoundWorld(w) && OpInside(w, op)
    ensures UsesOk(FlipAll(w)) && OpInside(FlipAll(w), op)
    ensures Performs(FlipAll(w), op, Step(w, op).1, FlipAll(Step(w, op).0))
  {
    hide Sound, Flip, Lookup, LookupExternal, Answers, AnswersExternal, FlipAll;
    FlipAllSound(w);
    WorldUses(FlipAll(w));
    match op
    case FindSymbol(i, name) => LookupAnswer(w, i, name);
    case FindExternal(i, name) => ExternalAnswer(w, i, name);
    case Intern(i, name) =>
      LookupAnswer(w, i, name);
      LookupCommutes(w, i, name);
      if Lookup(w, i, name).1.Absent? { SetInWorld(w, i, name, BLANK); }
    case Update(i, name, cells) =>
      LookupAnswer(w, i, name);
      LookupCommutes(w, i, name);
      var (w', r) := Lookup(w, i, name);
      if r.Found? { SetInWorld(w', r.owner, name, cells); }
    case Enumerate(i) =>
      EnumerateCommutes(w, i);
      EagerAt(w, i);
  }

  lemma EagerAt(w: World, i: nat)
    requires i < |w|
    ensures FlipAll(w)[i] == Flip(w[i])
  {}

  lemma WorldUses(w: World)
    requires SoundWorld(w)
    ensures UsesOk(w)
  {}

  predicate OpsInside(n: nat, ops: seq<Op>) { forall k :: 0 <= k < |ops| ==> ops[k].pkg < n }

  ghost function Run(w: World, ops: seq<Op>): (r: (World, seq<Observation>))
    requires SoundWorld(w) && OpsInside(|w|, ops)
    decreases |ops|
  {
    if ops == [] then (w, [])
    else
      WorldUses(w);
      StepCommutes(w, ops[0]);
      var (w', o) := Step(w, ops[0]);
      var (w'', os) := Run(w', ops[1..]);
      (w'', [o] + os)
  }

  /** No laziness is ever observable: any run of operations shows what it would have shown had
      every package been flipped eager at the start, and ends in the same eager world. */
  lemma {:induction false} LazinessUnobservable(w: World, ops: seq<Op>)
    requires SoundWorld(w) && OpsInside(|w|, ops)
    ensures SoundWorld(FlipAll(w))
    ensures Run(w, ops).1 == Run(FlipAll(w), ops).1
    ensures FlipAll(Run(w, ops).0) == Run(FlipAll(w), ops).0
    decreases |ops|
  {
    hide Sound, Flip, Step, SoundWorld, UsesOk;
    WorldUses(w);
    FlipAllSound(w);
    if ops != [] {
      StepCommutes(w, ops[0]);
      LazinessUnobservable(Step(w, ops[0]).0, ops[1..]);
    }
  }
}
