/** The concurrent protocol refines the sequential one: the only steps that change the package are
    the critical sections that build a name, each does what the sequential materialiser does, and
    when the table has been dropped the package is what a sequential flip would have made of it.
    SETF updaters are registered outside the lock and are treated at the end. */
module InterningRefines {
  import opened Names
  import opened TableFormat
  import opened TableProbe
  import opened LazyPackages
  import opened Interning
  import Definitions
  import TablePacker

  function CellNames(cells: seq<Cell>): set<Name> { set c | c in cells :: c.name }

  function SymbolOf(sh: Shared, name: Name): Symbol {
    var own := FindOwn(sh.cells, name);
    if own.Some? && own.value in sh.heap then sh.heap[own.value] else BLANK
  }

  predicate ExportedName(sh: Shared, name: Name) {
    var own := FindOwn(sh.cells, name);
    own.Some? && own.value in sh.exports
  }

  /** The package that the shared lists represent, with the table it was registered with. */
  function View(sh: Shared, t: Table): Package {
    var names := CellNames(sh.cells);
    Package(map n | n in names :: SymbolOf(sh, n), (set n | n in names && ExportedName(sh, n)), t, [])
  }

  function NoUpdater(s: Symbol): Symbol { s.(updater := None) }

  /** A package with the SETF updaters left out. */
  function Stripped(p: Package): Package {
    p.(symbols := map n | n in p.symbols :: NoUpdater(p.symbols[n]))
  }

  lemma FindOwnNames(cells: seq<Cell>, name: Name)
    ensures name in CellNames(cells) <==> FindOwn(cells, name).Some?
  {
    FindOwnMeaning(cells, name);
  }

  lemma ViewAt(sh: Shared, t: Table, name: Name)
    ensures name in View(sh, t).symbols <==> FindOwn(sh.cells, name).Some?
    ensures name in View(sh, t).symbols ==> View(sh, t).symbols[name] == SymbolOf(sh, name)
    ensures name in View(sh, t).exports <==> ExportedName(sh, name)
  {
    FindOwnNames(sh.cells, name);
  }

  lemma ViewCoherent(sh: Shared, t: Table)
    requires TableAssumed(t) && SharedOk(sh, t)
    ensures Coherent(View(sh, t))
  {
    hide NameCompare, GuardOk, ListsOk, SetterName, View, Separated, OrderedTable, DefinitionMissing;
    var p := View(sh, t);
    ViewTable(sh, t);
    forall k | 0 <= k < |t.bs| && LiveField(t.env, t.bs[k])
      ensures t.bs[k].name in p.symbols <==> SetterName(t.bs[k].name) in p.symbols
    {
      assert FieldOkIn(sh, t.bs[k].name);
      ViewAt(sh, t, t.bs[k].name);
      ViewAt(sh, t, SetterName(t.bs[k].name));
    }
    forall k | 0 <= k < |t.bs| && t.bs[k].name in p.symbols ensures t.bs[k].name in p.exports {
      assert EntryOkIn(sh, t, t.bs[k].name);
      ViewAt(sh, t, t.bs[k].name);
    }
  }

  lemma ViewTable(sh: Shared, t: Table)
    ensures View(sh, t).table == t && View(sh, t).uses == []
  {}

  /** Two packages that differ in updaters only settle to packages that differ in updaters only. */
  lemma StrippedSettled(p: Package, q: Package)
    requires p.table.Lazy? && Stripped(p) == Stripped(q)
    ensures q.table == p.table && Stripped(Settled(p)) == Stripped(Settled(q))
  {
    hide GuardOk, Built, BuiltSetter;
    assert p.symbols.Keys == Stripped(p).symbols.Keys == Stripped(q).symbols.Keys == q.symbols.Keys;
    forall n | n in p.symbols ensures NoUpdater(p.symbols[n]) == NoUpdater(q.symbols[n]) {
      assert Stripped(p).symbols[n] == Stripped(q).symbols[n];
    }
    assert Stripped(Settled(p)).symbols.Keys == Stripped(Settled(q)).symbols.Keys;
    forall n | n in Stripped(Settled(p)).symbols
      ensures Stripped(Settled(p)).symbols[n] == Stripped(Settled(q)).symbols[n]
    {}
    assert Stripped(Settled(p)).symbols == Stripped(Settled(q)).symbols;
  }

  /** A step that leaves the lists alone leaves the package alone. */
  lemma QuietView(sh: Shared, sh': Shared, t: Table)
    requires Grows(sh, sh') && sh'.cells == sh.cells && sh'.exports == sh.exports && ListsOk(sh)
    ensures View(sh', t) == View(sh, t)
  {
    forall n ensures SymbolOf(sh', n) == SymbolOf(sh, n) { FindOwnMeaning(sh.cells, n); }
    assert View(sh', t).symbols == View(sh, t).symbols;
  }

  lemma MadeIsBuilt(t: Table, i: nat, def: int)
    requires TableAssumed(t) && i < |t.bs| && def == ScanUsable(t.bs, t.env, t.bs[i].name, 0)
    ensures def == -1 || 0 <= def < |t.bs|
    ensures NoUpdater(Made(t, t.bs[i].name, def)) == NoUpdater(Built(t, t.bs[i].name))
    ensures def != -1 && WritableField(t.bs[def]) ==>
      NoUpdater(MadeSetter(t, t.bs[i].name, def)) == NoUpdater(BuiltSetter(t, SetterName(t.bs[i].name)))
  {
    hide NameCompare, GuardOk, Separated, OrderedTable;
    FieldOfDef(t, i, def);
    if def != -1 && WritableField(t.bs[def]) { FieldScans(t.bs, t.env, def); }
  }

  /** What a thread has made before it takes the lock: the definition its row describes, and the setter. */
  lemma MadeMeans(t: Table, name: Name, def: nat)
    requires TableAssumed(t) && def < |t.bs|
    ensures var row := TablePacker.RowOfBinding(t.bs[def]);
      && Definitions.Installed(BLANK, Made(t, name, def), row, name, t.base) && Made(t, name, def).updater.None?
      && (NeedsSetter(t, def) <==> Definitions.Writable(row))
      && (NeedsSetter(t, def) ==>
        Definitions.WriterInstalled(BLANK, MadeSetter(t, name, def), row, SetterName(name)))
  {
    hide NameCompare, GuardOk, Separated, Install, WriterStub, WritableField, SetterName, ReaderOk;
    Definitions.EntryReader(t.bs, def);
    Definitions.InstallMeans(BLANK, t.bs[def], t.base, name);
    if NeedsSetter(t, def) { Definitions.WriterMeans(BLANK, t.bs[def], SetterName(name)); }
  }

  /** The critical section, when the name is absent, is the sequential building of the name. */
  lemma LinkBuilds(sh: Shared, t: Table, l: Local)
    requires TableAssumed(t) && SharedOk(sh, t) && l.Allocated? && LocalOk(sh, t, l)
    requires FindOwn(sh.cells, t.bs[l.first].name).None?
    ensures Stripped(View(Link(sh, t, l).0, t)) == Stripped(WithBuilt(View(sh, t), t.bs[l.first].name))
  {
    hide NameCompare, GuardOk, Install, DefinitionMissing, LinearProbe, ScanUsable, Separated, OrderedTable, Link,
      SetterName, Made, MadeSetter, Built, BuiltSetter, TableOkIn, View, Grows, AddsOnly;
    var name := t.bs[l.first].name;
    var setter := SetterName(name);
    var sh' := Link(sh, t, l).0;
    LinkShape(sh, t, l);
    MadeIsBuilt(t, l.first, l.def);
    SetterNameInjective(name, name);
    ViewTable(sh, t);
    ViewTable(sh', t);
    var p, q, r := View(sh, t), View(sh', t), WithBuilt(View(sh, t), name);
    assert FindOwn(sh.cells, setter).None? || l.setter.None? by {
      if NeedsSetter(t, l.def) { SetterAbsent(sh, t, l); }
    }
    forall x
      ensures x in q.symbols <==> x in r.symbols
      ensures x in q.symbols ==> NoUpdater(q.symbols[x]) == NoUpdater(r.symbols[x])
      ensures x in q.exports <==> x in r.exports
    {
      LinkFinds(sh, sh', name, setter, l.sym, l.setter, x);
      ViewAt(sh, t, x);
      ViewAt(sh', t, x);
      LinkSymbolOf(sh, sh', t, l, name, setter, x);
    }
    assert Stripped(q).symbols == Stripped(r).symbols;
    assert q.exports == r.exports;
  }

  lemma SetterAbsent(sh: Shared, t: Table, l: Local)
    requires TableAssumed(t) && SharedOk(sh, t) && l.Allocated? && LocalOk(sh, t, l) && NeedsSetter(t, l.def)
    requires FindOwn(sh.cells, t.bs[l.first].name).None?
    ensures FindOwn(sh.cells, SetterName(t.bs[l.first].name)).None?
  {
    hide NameCompare, GuardOk, Separated, OrderedTable, SetterName, ListsOk, EntryOkIn;
    FieldOfDef(t, l.first, l.def);
    assert FieldOkIn(sh, t.bs[l.def].name);
  }

  lemma LinkFinds(sh: Shared, sh': Shared, name: Name, setter: Name, sym: nat, ssym: Option<nat>, x: Name)
    requires name != setter
    requires sh'.cells == (if ssym.Some? then [Cell(setter, ssym.value)] else []) + ([Cell(name, sym)] + sh.cells)
    ensures FindOwn(sh'.cells, x) ==
      if x == name then Some(sym) else if x == setter && ssym.Some? then ssym else FindOwn(sh.cells, x)
  {
    FindOwnPush(sh.cells, Cell(name, sym), x);
    if ssym.Some? {
      FindOwnPush([Cell(name, sym)] + sh.cells, Cell(setter, ssym.value), x);
    } else {
      assert sh'.cells == [Cell(name, sym)] + sh.cells;
    }
  }

  lemma LinkSymbolOf(sh: Shared, sh': Shared, t: Table, l: Local, name: Name, setter: Name, x: Name)
    requires t.Lazy? && l.Allocated? && LocalOk(sh, t, l) && name == t.bs[l.first].name && setter == SetterName(name)
    requires ListsOk(sh) && sh'.heap == sh.heap && sh'.exports == [l.sym] + sh.exports
    requires FindOwn(sh'.cells, x) ==
      if x == name then Some(l.sym) else if x == setter && l.setter.Some? then l.setter else FindOwn(sh.cells, x)
    ensures SymbolOf(sh', x) == if x == name then Made(t, name, l.def)
      else if x == setter && l.setter.Some? then MadeSetter(t, name, l.def) else SymbolOf(sh, x)
    ensures ExportedName(sh', x) <==>
      x == name || (!(x == setter && l.setter.Some?) && ExportedName(sh, x))
  {
    hide NameCompare, GuardOk, Made, MadeSetter, SetterName;
    FindOwnMeaning(sh.cells, x);
    if l.setter.Some? { PrivateUnexported(sh, l.setter.value); }
  }

  /** No step of any thread changes what the package finally is. */
  lemma StepSettled(s: State, t: Table, k: nat, a: Action)
    requires TableAssumed(t) && Inv(s, t) && k in s.threads && Enabled(s, t, k)
    ensures Stripped(Settled(View(Next(s, t, k, a).shared, t))) == Stripped(Settled(View(s.shared, t)))
  {
    hide NameCompare, GuardOk, Separated, OrderedTable, SetterName, Settled, Stripped, View, Link, Allocate, LookUp,
      TableOkIn, LocalOk, FlipOk;
    var sh, th := s.shared, s.threads[k];
    var sh' := Next(s, t, k, a).shared;
    NextInv(s, t, k, a);
    assert ThreadOk(sh, t, th);
    if a.Advance? && th.local.Allocated? {
      LinkSettled(sh, t, th.local);
    } else {
      QuietLists(sh, t, th, a);
      QuietView(sh, sh', t);
    }
  }

  lemma QuietLists(sh: Shared, t: Table, th: Thread, a: Action)
    requires t.Lazy? && LocalInside(t, th.local) && !(a.Advance? && th.local.Allocated?)
    ensures var sh' := ThreadStep(sh, t, th, a).0; sh'.cells == sh.cells && sh'.exports == sh.exports
  {
    hide LookUp, LookAgain;
  }

  lemma LinkSettled(sh: Shared, t: Table, l: Local)
    requires TableAssumed(t) && SharedOk(sh, t) && l.Allocated? && LocalOk(sh, t, l)
    ensures Stripped(Settled(View(Link(sh, t, l).0, t))) == Stripped(Settled(View(sh, t)))
  {
    hide NameCompare, GuardOk, SetterName, Settled, Stripped, View, Link, TableOkIn, WithBuilt;
    var name := t.bs[l.first].name;
    LinkShape(sh, t, l);
    if FindOwn(sh.cells, name).None? {
      LinkBuilds(sh, t, l);
      ViewCoherent(sh, t);
      ViewTable(sh, t);
      ViewTable(Link(sh, t, l).0, t);
      ViewAt(sh, t, name);
      assert Defines(t.bs, name);
      BuildKeepsSettled(View(sh, t), name);
      StrippedSettled(View(Link(sh, t, l).0, t), WithBuilt(View(sh, t), name));
    }
  }

  lemma {:induction false} RunSettled(s: State, t: Table, moves: seq<Move>)
    requires TableAssumed(t) && Inv(s, t)
    requires forall i :: 0 <= i < |moves| ==> moves[i].thread in s.threads
    ensures Stripped(Settled(View(Execute(s, t, moves).shared, t))) == Stripped(Settled(View(s.shared, t)))
    decreases |moves|
  {
    hide Inv, Next, OrderedTable, Separated, Settled, Stripped, View;
    if moves != [] {
      NextInv(s, t, moves[0].thread, moves[0].action);
      StepSettled(s, t, moves[0].thread, moves[0].action);
      NextKeys(s, t, moves[0].thread, moves[0].action);
      RunSettled(Next(s, t, moves[0].thread, moves[0].action), t, moves[1..]);
    }
  }

  /** Whatever the interleaving, once some flip has dropped the table the package has the names,
      the definitions and the export flags that a sequential flip gives the package at rest. */
  lemma ConcurrentFlipIsSequential(s: State, t: Table, moves: seq<Move>)
    requires Initial(s, t)
    requires forall i :: 0 <= i < |moves| ==> moves[i].thread in s.threads
    ensures var s' := Run(s, t, moves);
      !s'.shared.live ==> Stripped(View(s'.shared, NoTable)) == Stripped(Flip(View(s.shared, t)))
  {
    hide Inv, OrderedTable, Separated, Settled, Stripped, View, Execute, SharedOk;
    InitialInv(s, t);
    var s' := Run(s, t, moves);
    RunSettled(s, t, moves);
    InvShared(s, t);
    InvShared(s', t);
    ViewCoherent(s.shared, t);
    ViewTable(s.shared, t);
    FlipSettles(View(s.shared, t));
    if !s'.shared.live {
      ViewCoherent(s'.shared, t);
      ViewTable(s'.shared, t);
      LiveCovers(s'.shared, t);
      forall k | 0 <= k < |t.bs| ensures t.bs[k].name in View(s'.shared, t).symbols {
        ViewAt(s'.shared, t, t.bs[k].name);
      }
      NothingLeft(View(s'.shared, t));
      ViewNoTable(s'.shared, t);
    }
  }

  lemma InvShared(s: State, t: Table)
    requires t.Lazy? && Inv(s, t)
    ensures SharedOk(s.shared, t)
  {}

  lemma ViewNoTable(sh: Shared, t: Table)
    ensures View(sh, t).(table := NoTable) == View(sh, NoTable)
  {}

  // ---- the DEFSETF pair ----

  /** Some thread has linked the field and has yet to register its setter. */
  ghost predicate PairPending(s: State, id: nat) {
    exists j :: j in s.threads && s.threads[j].local.Linking? && s.threads[j].local.result == id
      && s.threads[j].local.setterResult.Some?
  }

  predicate PairRegistered(sh: Shared, id: nat, setter: Name) {
    id in sh.updaters && FindOwn(sh.cells, setter) == Some(sh.updaters[id])
  }

  /** Every present live field has its SETF updater, or a builder is about to register it. */
  ghost predicate PairsOk(s: State, t: Table)
    requires t.Lazy?
  {
    forall k :: 0 <= k < |t.bs| && LiveField(t.env, t.bs[k]) ==>
      var own := FindOwn(s.shared.cells, t.bs[k].name);
      own.Some? ==> PairRegistered(s.shared, own.value, SetterName(t.bs[k].name)) || PairPending(s, own.value)
  }

  lemma SameIdSameName(sh: Shared, x: Name, y: Name)
    requires ListsOk(sh) && FindOwn(sh.cells, x).Some? && FindOwn(sh.cells, x) == FindOwn(sh.cells, y)
    ensures x == y
  {
    FindOwnMeaning(sh.cells, x);
    FindOwnMeaning(sh.cells, y);
  }

  lemma PendingStays(s: State, t: Table, k: nat, a: Action, id: nat)
    requires t.Lazy? && Enabled(s, t, k) && PairPending(s, id)
    requires !(a.Advance? && s.threads[k].local.Linking? && s.threads[k].local.result == id)
    ensures PairPending(Next(s, t, k, a), id)
  {
    hide LookUp, LookAgain, Allocate, Link;
    var j :| j in s.threads && s.threads[j].local.Linking? && s.threads[j].local.result == id
      && s.threads[j].local.setterResult.Some?;
    var s' := Next(s, t, k, a);
    assert s'.threads[j].local == s.threads[j].local;
  }

  /** One field across one step that registers nothing. */
  lemma PairStays(s: State, t: Table, k: nat, a: Action, f: nat)
    requires TableAssumed(t) && Inv(s, t) && PairsOk(s, t) && Enabled(s, t, k)
    requires f < |t.bs| && LiveField(t.env, t.bs[f])
    requires !(a.Advance? && (s.threads[k].local.Linking? || s.threads[k].local.Allocated?))
    ensures var s' := Next(s, t, k, a); var own := FindOwn(s'.shared.cells, t.bs[f].name);
      own.Some? ==> PairRegistered(s'.shared, own.value, SetterName(t.bs[f].name)) || PairPending(s', own.value)
  {
    hide NameCompare, GuardOk, Separated, OrderedTable, SetterName, Inv, PairPending, LookUp;
    var th := s.threads[k];
    QuietLists(s.shared, t, th, a);
    QuietUpdaters(s.shared, t, th, a);
    var own := FindOwn(s.shared.cells, t.bs[f].name);
    if own.Some? && !PairRegistered(s.shared, own.value, SetterName(t.bs[f].name)) {
      PendingStays(s, t, k, a, own.value);
    }
  }

  lemma QuietUpdaters(sh: Shared, t: Table, th: Thread, a: Action)
    requires t.Lazy? && LocalInside(t, th.local) && !(a.Advance? && th.local.Linking?)
    ensures ThreadStep(sh, t, th, a).0.updaters == sh.updaters
  {
    hide LookUp, LookAgain;
  }

  /** One field across the critical section of another thread, or of its own builder. */
  lemma PairLinked(s: State, t: Table, k: nat, f: nat)
    requires TableAssumed(t) && Inv(s, t) && PairsOk(s, t) && Enabled(s, t, k)
    requires f < |t.bs| && LiveField(t.env, t.bs[f]) && s.threads[k].local.Allocated?
    ensures var s' := Next(s, t, k, Advance); var own := FindOwn(s'.shared.cells, t.bs[f].name);
      own.Some? ==> PairRegistered(s'.shared, own.value, SetterName(t.bs[f].name)) || PairPending(s', own.value)
  {
    hide NameCompare, GuardOk, Separated, OrderedTable, SetterName, SharedOk, PairPending, Link, FlipOk;
    var sh, l := s.shared, s.threads[k].local;
    var s' := Next(s, t, k, Advance);
    var name, field := t.bs[l.first].name, t.bs[f].name;
    assert ThreadOk(sh, t, s.threads[k]);
    LinkShape(sh, t, l);
    LinkKeepsAim(sh, t, l);
    FieldOfDef(t, l.first, l.def);
    QuietUpdaters(sh, t, s.threads[k], Advance);
    if field == name {
      PendingHere(s', k);
    } else {
      var own := FindOwn(sh.cells, field);
      if own.Some? && !PairRegistered(sh, own.value, SetterName(field)) {
        PendingStays(s, t, k, Advance, own.value);
      } else if own.None? {
        LinkFindsOther(sh, t, l, f);
      }
    }
  }

  lemma PendingHere(s: State, k: nat)
    requires k in s.threads && s.threads[k].local.Linking? && s.threads[k].local.setterResult.Some?
    ensures PairPending(s, s.threads[k].local.result)
  {}

  /** Linking one entry makes no other entry present. */
  lemma LinkFindsOther(sh: Shared, t: Table, l: Local, f: nat)
    requires TableAssumed(t) && SharedOk(sh, t) && l.Allocated? && LocalOk(sh, t, l)
    requires f < |t.bs| && t.bs[f].name != t.bs[l.first].name && FindOwn(sh.cells, t.bs[f].name).None?
    ensures FindOwn(Link(sh, t, l).0.cells, t.bs[f].name).None?
  {
    hide NameCompare, GuardOk, Separated, OrderedTable, SetterName, TableOkIn, Link;
    var name := t.bs[l.first].name;
    LinkShape(sh, t, l);
    FieldOfDef(t, l.first, l.def);
    SetterNameInjective(name, name);
    if FindOwn(sh.cells, name).None? {
      LinkFinds(sh, Link(sh, t, l).0, name, SetterName(name), l.sym, l.setter, t.bs[f].name);
    }
  }

  lemma PairFinished(s: State, t: Table, k: nat, f: nat)
    requires TableAssumed(t) && Inv(s, t) && PairsOk(s, t) && Enabled(s, t, k)
    requires f < |t.bs| && LiveField(t.env, t.bs[f]) && s.threads[k].local.Linking?
    ensures var s' := Next(s, t, k, Advance); var own := FindOwn(s'.shared.cells, t.bs[f].name);
      own.Some? ==> PairRegistered(s'.shared, own.value, SetterName(t.bs[f].name)) || PairPending(s', own.value)
  {
    hide NameCompare, GuardOk, Separated, OrderedTable, SetterName, PairPending, FlipOk, TableOkIn, ListsOk;
    var sh, l := s.shared, s.threads[k].local;
    var s' := Next(s, t, k, Advance);
    var own := FindOwn(sh.cells, t.bs[f].name);
    assert ThreadOk(sh, t, s.threads[k]);
    if own.Some? {
      if own.value == l.result {
        SameIdSameName(sh, t.bs[f].name, t.bs[l.first].name);
        FieldOfDef(t, l.first, l.def);
      } else if !PairRegistered(sh, own.value, SetterName(t.bs[f].name)) {
        PendingStays(s, t, k, Advance, own.value);
      }
    }
  }

  lemma NextPairs(s: State, t: Table, k: nat, a: Action)
    requires TableAssumed(t) && Inv(s, t) && PairsOk(s, t) && Enabled(s, t, k)
    ensures PairsOk(Next(s, t, k, a), t)
  {
    hide NameCompare, GuardOk, Separated, OrderedTable, SetterName, Inv, PairPending, PairRegistered, Next;
    forall f | 0 <= f < |t.bs| && LiveField(t.env, t.bs[f])
      ensures var s' := Next(s, t, k, a); var own := FindOwn(s'.shared.cells, t.bs[f].name);
        own.Some? ==> PairRegistered(s'.shared, own.value, SetterName(t.bs[f].name)) || PairPending(s', own.value)
    {
      if a.Advance? && s.threads[k].local.Linking? { PairFinished(s, t, k, f); }
      else if a.Advance? && s.threads[k].local.Allocated? { PairLinked(s, t, k, f); }
      else { PairStays(s, t, k, a, f); }
    }
  }

  lemma {:induction false} RunKeepsPairs(s: State, t: Table, moves: seq<Move>)
    requires TableAssumed(t) && Inv(s, t) && PairsOk(s, t)
    requires forall i :: 0 <= i < |moves| ==> moves[i].thread in s.threads
    ensures PairsOk(Execute(s, t, moves), t)
    decreases |moves|
  {
    hide Inv, Next, OrderedTable, Separated, PairsOk;
    if moves != [] {
      NextInv(s, t, moves[0].thread, moves[0].action);
      NextPairs(s, t, moves[0].thread, moves[0].action);
      NextKeys(s, t, moves[0].thread, moves[0].action);
      RunKeepsPairs(Next(s, t, moves[0].thread, moves[0].action), t, moves[1..]);
    }
  }

  // ---- the runs start where registration ends ----

  /** The name under which an object is found. */
  function NameOfId(cells: seq<Cell>, id: nat): Option<Name> {
    if cells == [] then None else if cells[0].id == id then Some(cells[0].name) else NameOfId(cells[1..], id)
  }

  lemma {:induction false} NameOfIdMeaning(cells: seq<Cell>, id: nat)
    ensures NameOfId(cells, id).Some? ==> Cell(NameOfId(cells, id).value, id) in cells
  {
    if cells != [] && cells[0].id != id {
      NameOfIdMeaning(cells[1..], id);
      assert cells == [cells[0]] + cells[1..];
    }
  }

  /** The package with its SETF updaters. */
  function FullView(sh: Shared, t: Table): Package {
    View(sh, t).(symbols := map n | n in View(sh, t).symbols :: View(sh, t).symbols[n].(updater := UpdaterOf(sh, n)))
  }

  function UpdaterOf(sh: Shared, name: Name): Option<Name> {
    var own := FindOwn(sh.cells, name);
    if own.Some? && own.value in sh.updaters then NameOfId(sh.cells, sh.updaters[own.value]) else None
  }

  /** The shared lists represent the package that registering the table has left of `p`, and no thread
      has done anything yet. */
  ghost predicate Registered(s: State, t: Table, p: Package, names: seq<Name>) {
    && TableAssumed(t) && ListsOk(s.shared) && s.shared.live
    && (forall n :: n in p.symbols ==> n in names)
    && FullView(s.shared, t) == RegisterEach(p.(table := t), names).(uses := [])
    && (forall k :: k in s.threads ==> s.threads[k] == Thread(Idle, None))
    && (forall x :: x in s.shared.updaters ==> x < s.shared.next)
  }

  /** Registration leaves a package that runs may start from, with every DEFSETF pair in place. */
  lemma RegisteredIsSound(s: State, t: Table, p: Package, names: seq<Name>)
    requires Registered(s, t, p, names)
    ensures Initial(s, t) && PairsOk(s, t)
  {
    hide NameCompare, GuardOk, SetterName, Separated, OrderedTable, NamesFit, DefinitionMissing, ListsOk, RegisterEach,
      DefinedExcept, Coherent, FullView;
    RegistrationCoherent(p, t, names);
    RegistrationDefines(p, t, names);
    CoherentUses(RegisterEach(p.(table := t), names));
    FullViewTable(s.shared, t);
    SharedFromView(s.shared, t);
    PairsFromView(s, t);
  }

  /** A package into which nothing has been interned is such a start. */
  lemma EmptyIsRegistered(t: Table, threads: map<nat, Thread>)
    requires TableAssumed(t) && forall k :: k in threads ==> threads[k] == Thread(Idle, None)
    ensures Registered(State(Shared(map[], [], [], true, 0, map[]), threads), t, Package(map[], {}, NoTable, []), [])
  {
    hide NameCompare, GuardOk, Separated, OrderedTable;
    var sh := Shared(map[], [], [], true, 0, map[]);
    assert CellNames(sh.cells) == {};
    assert FullView(sh, t).symbols == map[];
    assert RegisterEach(Package(map[], {}, t, []), []) == Package(map[], {}, t, []);
  }

  lemma CoherentUses(p: Package)
    ensures Coherent(p) <==> Coherent(p.(uses := []))
    ensures p.table.Lazy? ==> (DefinedExcept(p, []) <==> DefinedExcept(p.(uses := []), []))
  {
    hide NameCompare, GuardOk, SetterName, DefinitionMissing;
  }

  lemma FullViewTable(sh: Shared, t: Table)
    ensures FullView(sh, t).table == t
  {}

  lemma FullViewAt(sh: Shared, t: Table, name: Name)
    ensures name in FullView(sh, t).symbols <==> FindOwn(sh.cells, name).Some?
    ensures name in FullView(sh, t).symbols ==>
      FullView(sh, t).symbols[name] == SymbolOf(sh, name).(updater := UpdaterOf(sh, name))
    ensures name in FullView(sh, t).exports <==> ExportedName(sh, name)
  {
    ViewAt(sh, t, name);
  }

  lemma SharedFromView(sh: Shared, t: Table)
    requires TableAssumed(t) && ListsOk(sh) && sh.live
    requires Coherent(FullView(sh, t)) && FullView(sh, t).table == t && DefinedExcept(FullView(sh, t), [])
    ensures SharedOk(sh, t)
  {
    hide NameCompare, GuardOk, SetterName, FullView, Separated, OrderedTable, DefinitionMissing, ListsOk, UpdaterOf;
    var p := FullView(sh, t);
    forall k | 0 <= k < |t.bs| ensures EntryOkIn(sh, t, t.bs[k].name) {
      FullViewAt(sh, t, t.bs[k].name);
      OwnInHeap(sh, t.bs[k].name);
      if t.bs[k].name in p.symbols {
        assert EntryDefined(p, t.bs[k].name);
        MissingIgnoresUpdater(SymbolOf(sh, t.bs[k].name), UpdaterOf(sh, t.bs[k].name));
      }
    }
    forall k | 0 <= k < |t.bs| && LiveField(t.env, t.bs[k]) ensures FieldOkIn(sh, t.bs[k].name) {
      FullViewAt(sh, t, t.bs[k].name);
      FullViewAt(sh, t, SetterName(t.bs[k].name));
      OwnInHeap(sh, SetterName(t.bs[k].name));
    }
  }

  lemma MissingIgnoresUpdater(s: Symbol, u: Option<Name>)
    ensures forall b: Binding :: DefinitionMissing(s.(updater := u), b) == DefinitionMissing(s, b)
  {}

  lemma PairsFromView(s: State, t: Table)
    requires TableAssumed(t) && ListsOk(s.shared)
    requires FullView(s.shared, t).table == t && DefinedExcept(FullView(s.shared, t), [])
    ensures PairsOk(s, t)
  {
    hide NameCompare, GuardOk, SetterName, FullView, Separated, OrderedTable, DefinitionMissing, EntryDefined;
    var sh := s.shared;
    forall k | 0 <= k < |t.bs| && LiveField(t.env, t.bs[k]) && FindOwn(sh.cells, t.bs[k].name).Some?
      ensures PairRegistered(sh, FindOwn(sh.cells, t.bs[k].name).value, SetterName(t.bs[k].name))
    {
      FullViewAt(sh, t, t.bs[k].name);
      assert PairedExcept(FullView(sh, t), t.bs[k].name, []);
      var id := FindOwn(sh.cells, t.bs[k].name).value;
      NameOfIdMeaning(sh.cells, sh.updaters[id]);
      CellFound(sh, Cell(SetterName(t.bs[k].name), sh.updaters[id]));
    }
  }

  lemma CellFound(sh: Shared, c: Cell)
    requires ListsOk(sh) && c in sh.cells
    ensures FindOwn(sh.cells, c.name) == Some(c.id)
  {
    FindOwnMeaning(sh.cells, c.name);
  }

  lemma OwnInHeap(sh: Shared, name: Name)
    requires ListsOk(sh)
    ensures FindOwn(sh.cells, name).Some? ==> FindOwn(sh.cells, name).value in sh.heap
  {
    FindOwnMeaning(sh.cells, name);
  }

  /** In every run from a registered package the pair of a present field is registered, or its builder is
      still on its way. */
  lemma RunPairs(s: State, t: Table, p: Package, names: seq<Name>, moves: seq<Move>)
    requires Registered(s, t, p, names)
    requires forall i :: 0 <= i < |moves| ==> moves[i].thread in s.threads
    ensures Initial(s, t) && PairsOk(Run(s, t, moves), t)
  {
    hide Registered, PairsOk, SharedOk, OrderedTable, Separated;
    RegisteredIsSound(s, t, p, names);
    InitialInv(s, t);
    RunKeepsPairs(s, t, moves);
  }

  // ---- what other threads can see ----

  /** The pair comes after the lock, so a field can be seen without it: between the two, any other
      thread that looks the field up gets the symbol and no SETF updater. */
  lemma SeenBeforePair(s: State, t: Table, builder: nat, reader: nat)
    requires TableAssumed(t) && Inv(s, t) && builder in s.threads && reader in s.threads && builder != reader
    requires s.threads[builder].local.Linking? && s.threads[builder].local.setterResult.Some?
    requires s.threads[builder].local.result !in s.shared.updaters
    requires s.threads[reader] == Thread(Idle, None)
    ensures Enabled(s, t, reader) && LocalInside(t, s.threads[builder].local)
    ensures var l := s.threads[builder].local; var name := t.bs[l.first].name;
      var s' := Next(s, t, reader, Start(name, true));
      && s'.threads[reader].local == Done(name, true, Some(l.result))
      && l.result !in s'.shared.updaters
  {
    hide NameCompare, GuardOk, Separated, OrderedTable, SetterName, SharedOk, FlipOk;
    assert ThreadOk(s.shared, t, s.threads[builder]);
  }

  /** Three steps of one thread on an absent field. */
  function BuilderMoves(builder: nat, name: Name): seq<Move> {
    [Move(builder, Start(name, true))] + [Move(builder, Advance)] + [Move(builder, Advance)]
  }

  /** Such a moment comes: from any package at rest in which a live field is absent, one thread builds the
      field up to its link, and another that looks it up then has the symbol without an updater. */
  lemma FieldSeenBeforePair(s: State, t: Table, f: nat, builder: nat, reader: nat)
    requires Initial(s, t) && s.shared.live && builder in s.threads && reader in s.threads && builder != reader
    requires f < |t.bs| && LiveField(t.env, t.bs[f]) && FindOwn(s.shared.cells, t.bs[f].name).None?
    ensures var name := t.bs[f].name; var moves := BuilderMoves(builder, name) + [Move(reader, Start(name, true))];
      && (forall i :: 0 <= i < |moves| ==> moves[i].thread in s.threads)
      && var s' := Run(s, t, moves);
        && s'.threads[reader].local == Done(name, true, Some(s.shared.next))
        && s.shared.next !in s'.shared.updaters
  {
    hide NameCompare, GuardOk, Separated, OrderedTable, SetterName, SharedOk, Inv, Next, LocalOk;
    var name := t.bs[f].name;
    InitialInv(s, t);
    var a, b, c := Move(builder, Start(name, true)), Move(builder, Advance), Move(reader, Start(name, true));
    ExecuteStep(s, t, a, [b] + [b] + [c]);
    var s1 := Next(s, t, builder, a.action);
    StartsProbing(s, t, f, builder);
    ExecuteStep(s1, t, b, [b] + [c]);
    var s2 := Next(s1, t, builder, Advance);
    ProbedAllocates(s1, t, f, builder);
    ExecuteStep(s2, t, b, [c]);
    var s3 := Next(s2, t, builder, Advance);
    AllocatedLinks(s2, t, f, builder);
    OtherThread(s, t, a, reader);
    OtherThread(s1, t, b, reader);
    OtherThread(s2, t, b, reader);
    SeenBeforePair(s3, t, builder, reader);
    ExecuteOne(s3, t, c);
    assert [a] + ([b] + [b] + [c]) == BuilderMoves(builder, name) + [c];
    assert [b] + ([b] + [c]) == [b] + [b] + [c];
  }

  lemma OtherThread(s: State, t: Table, m: Move, k: nat)
    requires t.Lazy? && Enabled(s, t, m.thread) && k in s.threads && k != m.thread
    ensures k in Next(s, t, m.thread, m.action).threads && Next(s, t, m.thread, m.action).threads[k] == s.threads[k]
  {}

  lemma StartsProbing(s: State, t: Table, f: nat, k: nat)
    requires TableAssumed(t) && Inv(s, t) && s.shared.live && k in s.threads && s.threads[k] == Thread(Idle, None)
    requires f < |t.bs| && FindOwn(s.shared.cells, t.bs[f].name).None?
    ensures Enabled(s, t, k)
    ensures var s' := Next(s, t, k, Start(t.bs[f].name, true));
      && s'.shared == s.shared && s'.threads[k].flip.None? && s'.threads[k].local.Probed?
      && ProbedFor(t, f, s'.threads[k].local)
  {
    hide NameCompare, GuardOk, Separated, OrderedTable, SetterName, SharedOk, LinearProbe;
    ProbeMeaning(t.bs, t.env, t.bs[f].name, true);
    NamedUsable(t.bs, t.env, t.bs[f].name, true);
    assert Defines(t.bs, t.bs[f].name);
  }

  /** A lookup of entry `f` on its way. */
  ghost predicate ProbedFor(t: Table, f: nat, l: Local)
    requires t.Lazy? && f < |t.bs|
  {
    && (l.Probed? || l.Allocated? || l.Linking?)
    && LocalInside(t, l) && l.query == t.bs[f].name && t.bs[l.first].name == t.bs[f].name && !l.wantSetter
    && l.def == ScanUsable(t.bs, t.env, t.bs[f].name, 0)
  }

  lemma ProbedAllocates(s: State, t: Table, f: nat, k: nat)
    requires TableAssumed(t) && Inv(s, t) && s.shared.live && k in s.threads && Enabled(s, t, k)
    requires f < |t.bs| && LiveField(t.env, t.bs[f]) && s.threads[k].local.Probed? &&
      ProbedFor(t, f, s.threads[k].local)
    ensures var s' := Next(s, t, k, Advance);
      && s'.threads[k].local.Allocated? && ProbedFor(t, f, s'.threads[k].local)
      && s'.threads[k].local.sym == s.shared.next && s'.threads[k].local.setter.Some?
      && s'.shared.cells == s.shared.cells && s'.shared.updaters == s.shared.updaters && s'.shared.live
  {
    hide NameCompare, GuardOk, Separated, OrderedTable, SetterName, SharedOk;
    FieldScans(t.bs, t.env, f);
  }

  lemma AllocatedLinks(s: State, t: Table, f: nat, k: nat)
    requires TableAssumed(t) && Inv(s, t) && k in s.threads && Enabled(s, t, k)
    requires f < |t.bs| && LiveField(t.env, t.bs[f]) && s.threads[k].local.Allocated? &&
      ProbedFor(t, f, s.threads[k].local)
    requires s.threads[k].local.setter.Some? && FindOwn(s.shared.cells, t.bs[f].name).None?
    ensures var s' := Next(s, t, k, Advance); var l := s'.threads[k].local;
      && l.Linking? && l.first < |t.bs| && t.bs[l.first].name == t.bs[f].name
      && l.result == s.threads[k].local.sym && l.setterResult.Some? && s'.shared.updaters == s.shared.updaters
  {
    hide NameCompare, GuardOk, Separated, OrderedTable, SetterName, SharedOk, Link, FlipOk;
    assert ThreadOk(s.shared, t, s.threads[k]);
    LinkShape(s.shared, t, s.threads[k].local);
    LinkKeepsAim(s.shared, t, s.threads[k].local);
    QuietUpdaters(s.shared, t, s.threads[k], Advance);
  }

  /** The dropped-table fallback answers exactly the queries that fit its buffer. */
  lemma FallbackAnswers(sh: Shared, t: Table, query: Name)
    requires TableAssumed(t) && SharedOk(sh, t) && !sh.live && Served(t, query)
    ensures LookAgain(sh, query).found.Some? <==> |query| < QUERY_LIMIT
  {
    hide NameCompare, GuardOk, Separated, OrderedTable, SetterName;
    ServedPresent(sh, t, query);
  }

  /** A flip, step by step. */
  function FlipSteps(flipper: nat, n: nat): seq<Move> {
    if n == 0 then [] else [Move(flipper, Advance)] + FlipSteps(flipper, n - 1)
  }

  lemma {:induction false} FlipStepsMeaning(flipper: nat, n: nat)
    ensures Advances(FlipSteps(flipper, n), flipper) == n
    ensures forall i :: 0 <= i < |FlipSteps(flipper, n)| ==> FlipSteps(flipper, n)[i].thread == flipper
  {
    if n > 0 { FlipStepsMeaning(flipper, n - 1); }
  }

  /** It is reached: a thread probes for an absent name, another flips the whole package, and the first is
      left to the fallback. */
  lemma FallbackReached(s: State, t: Table, i: nat, looker: nat, flipper: nat)
    requires Initial(s, t) && s.shared.live && looker in s.threads && flipper in s.threads && looker != flipper
    requires i < |t.bs| && FindOwn(s.shared.cells, t.bs[i].name).None?
    ensures var name := t.bs[i].name;
      var moves := [Move(looker, Start(name, true))] + ([Move(flipper, StartFlip)] + (FlipSteps(flipper, 6 * |t.bs| + 6)
        + ([Move(looker, Advance)] + [Move(looker, Advance)])));
      && (forall j :: 0 <= j < |moves| ==> moves[j].thread in s.threads)
      && var l := Run(s, t, moves).threads[looker].local;
        l.Done? && l.query == name && (l.found.Some? <==> |name| < QUERY_LIMIT)
  {
    hide NameCompare, GuardOk, Separated, OrderedTable, SetterName, SharedOk, Inv, Next, FlipSteps, LinearProbe, Grows;
    var name := t.bs[i].name;
    var advance, flips := Move(looker, Advance), FlipSteps(flipper, 6 * |t.bs| + 6);
    FlipStepsMeaning(flipper, 6 * |t.bs| + 6);
    InitialInv(s, t);
    var last := [advance] + [advance];
    ExecuteStep(s, t, Move(looker, Start(name, true)), [Move(flipper, StartFlip)] + (flips + last));
    var s1 := Next(s, t, looker, Start(name, true));
    StartsProbing(s, t, i, looker);
    OtherThread(s, t, Move(looker, Start(name, true)), flipper);
    ExecuteStep(s1, t, Move(flipper, StartFlip), flips + last);
    var s2 := Next(s1, t, flipper, StartFlip);
    StartsFlip(s1, t, flipper);
    OtherThread(s1, t, Move(flipper, StartFlip), looker);
    ExecuteSplit(s2, t, flips, last);
    var s3 := Execute(s2, t, flips);
    FlipFinishes(s2, t, flips, flipper);
    OthersMove(s2, t, flips, looker);
    ExecuteStep(s3, t, advance, [advance]);
    GoneThenAgain(s3, t, i, looker);
    ExecuteOne(Next(s3, t, looker, Advance), t, advance);
  }

  lemma StartsFlip(s: State, t: Table, k: nat)
    requires t.Lazy? && k in s.threads && s.threads[k] == Thread(Idle, None) && s.shared.live
    ensures Enabled(s, t, k)
    ensures Next(s, t, k, StartFlip) == State(s.shared, s.threads[k := Thread(Idle, Some(0))])
  {}

  lemma GoneThenAgain(s: State, t: Table, i: nat, k: nat)
    requires TableAssumed(t) && Inv(s, t) && !s.shared.live && k in s.threads && i < |t.bs|
    requires s.threads[k].flip.None? && s.threads[k].local.Probed? && ProbedFor(t, i, s.threads[k].local)
    ensures Enabled(s, t, k) && Enabled(Next(s, t, k, Advance), t, k)
    ensures var l := Next(Next(s, t, k, Advance), t, k, Advance).threads[k].local;
      l.Done? && l.query == t.bs[i].name && (l.found.Some? <==> |t.bs[i].name| < QUERY_LIMIT)
  {
    hide NameCompare, GuardOk, Separated, OrderedTable, SetterName, SharedOk, LookAgain;
    assert Defines(t.bs, t.bs[i].name);
    FallbackAnswers(s.shared, t, t.bs[i].name);
    AgainDone(s.shared, t.bs[i].name);
  }

  lemma AgainDone(sh: Shared, query: Name)
    ensures LookAgain(sh, query).Done? && LookAgain(sh, query).query == query
  {}

  /** A run in two parts. */
  lemma {:induction false} ExecuteSplit(s: State, t: Table, first: seq<Move>, rest: seq<Move>)
    requires TableAssumed(t) && Inv(s, t)
    requires forall i :: 0 <= i < |first| ==> first[i].thread in s.threads
    requires forall i :: 0 <= i < |rest| ==> rest[i].thread in s.threads
    ensures Execute(s, t, first + rest) == Execute(Execute(s, t, first), t, rest)
    decreases |first|
  {
    hide Inv, Next, OrderedTable, Separated;
    if first == [] {
      assert first + rest == rest;
    } else {
      assert first + rest == [first[0]] + (first[1..] + rest);
      ExecuteStep(s, t, first[0], first[1..] + rest);
      NextInv(s, t, first[0].thread, first[0].action);
      ExecuteSplit(Next(s, t, first[0].thread, first[0].action), t, first[1..], rest);
    }
  }
}
