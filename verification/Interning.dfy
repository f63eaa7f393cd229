/** Concurrent materialisation (src/core/bindtab.c, cl_bindtab_materialize and
    cl_bindtab_materialize_all): any number of threads look names up in one package while any
    number of others flip it eager. A thread probes under the read lock, allocates under no
    lock, links under the write lock after looking again, and registers the DEFSETF pair after
    releasing it. Each locked section, and each stretch between them, is one step. */
module Interning {
  import opened Names
  import opened TableFormat
  import opened TableProbe
  import opened LazyPackages

  /** One cons of a bucket chain: a symbol object present in the package. */
  datatype Cell = Cell(name: Name, id: nat)

  /** What all threads see. `live` says that the bindings slot still holds the table. */
  datatype Shared =
    Shared(heap: map<nat, Symbol>, cells: seq<Cell>, exports: seq<nat>, live: bool, next: nat, updaters: map<nat, nat>)

  /** Where a lookup stands. `setter` objects exist for writable fields only. */
  datatype Local =
    | Idle
    | Chosen(query: Name)
    | Probed(query: Name, first: nat, def: int, wantSetter: bool)
    | Allocated(query: Name, first: nat, def: int, wantSetter: bool, sym: nat, setter: Option<nat>)
    | TableGone(query: Name)
    | Linking(query: Name, first: nat, def: int, wantSetter: bool, result: nat, setterResult: Option<nat>)
    | Done(query: Name, allowSetter: bool, found: Option<nat>)

  /** `flip` is the entry a flipping thread has reached. */
  datatype Thread = Thread(local: Local, flip: Option<nat>)

  datatype State = State(shared: Shared, threads: map<nat, Thread>)

  /** The spelling kept for the dropped-table fallback fits a 256-byte buffer. */
  const QUERY_LIMIT: int := 256

  // ---- the shared data ----

  /** find_own_symbol: the first cell with the name. */
  function FindOwn(cells: seq<Cell>, name: Name): Option<nat> {
    if cells == [] then None
    else if cells[0].name == name then Some(cells[0].id)
    else FindOwn(cells[1..], name)
  }

  function DefOf(t: Table, def: int): Option<Binding>
    requires t.Lazy? && (def == -1 || 0 <= def < |t.bs|)
  {
    if def == -1 then None else Some(t.bs[def])
  }

  predicate NeedsSetter(t: Table, def: int)
    requires t.Lazy? && (def == -1 || 0 <= def < |t.bs|)
  {
    def != -1 && WritableField(t.bs[def])
  }

  /** The symbol's half of the write-locked section. */
  function LinkSymbol(sh: Shared, t: Table, name: Name, sym: nat, d: Option<Binding>): (Shared, nat)
    requires t.Lazy?
  {
    match FindOwn(sh.cells, name)
    case None =>
      (sh.(cells := [Cell(name, sym)] + sh.cells, exports := [sym] + sh.exports), sym)
    case Some(old_) =>
      var heap :=
        if d.Some? && old_ in sh.heap && DefinitionMissing(sh.heap[old_], d.value)
        then sh.heap[old_ := Install(sh.heap[old_], d.value, t.base, name)] else sh.heap;
      (sh.(heap := heap, exports := if old_ in sh.exports then sh.exports else [old_] + sh.exports), old_)
  }

  /** The setter's half. */
  function LinkSetter(sh: Shared, setter: Name, ssym: nat, b: Binding): (Shared, nat) {
    match FindOwn(sh.cells, setter)
    case None => (sh.(cells := [Cell(setter, ssym)] + sh.cells), ssym)
    case Some(old_) =>
      if old_ in sh.heap && sh.heap[old_].fun.None?
      then (sh.(heap := sh.heap[old_ := sh.heap[old_].(fun := Some(WriterStub(b, setter)))]), old_)
      else (sh, old_)
  }

  // ---- the steps of a thread ----

  /** The read-locked lookup that starts everything: present, else probe. */
  function LookUp(sh: Shared, t: Table, query: Name, allowSetter: bool): Local
    requires t.Lazy?
  {
    match FindOwn(sh.cells, query)
    case Some(id) => Done(query, allowSetter, Some(id))
    case None =>
      if !sh.live then Done(query, allowSetter, None)
      else
        match LinearProbe(t.bs, t.env, query, allowSetter)
        case Miss => Done(query, allowSetter, None)
        case Named(first, def) => Probed(query, first, def, false)
        case Setter(entry) => Probed(query, entry, entry, true)
  }

  predicate LocalInside(t: Table, l: Local)
    requires t.Lazy?
  {
    l.Probed? || l.Allocated? || l.Linking? ==> l.first < |t.bs| && (l.def == -1 || 0 <= l.def < |t.bs|)
  }

  /** The definition a fresh symbol is given before it is linked. */
  function Made(t: Table, name: Name, def: int): Symbol
    requires t.Lazy? && (def == -1 || 0 <= def < |t.bs|)
  {
    if def == -1 then BLANK else Install(BLANK, t.bs[def], t.base, name)
  }

  function MadeSetter(t: Table, name: Name, def: int): Symbol
    requires t.Lazy? && 0 <= def < |t.bs|
  {
    BLANK.(fun := Some(WriterStub(t.bs[def], SetterName(name))))
  }

  lemma MadeComplete(t: Table, name: Name, def: int)
    requires t.Lazy? && (def == -1 || 0 <= def < |t.bs|)
    ensures def != -1 ==> !DefinitionMissing(Made(t, name, def), t.bs[def])
    ensures def != -1 ==> MadeSetter(t, name, def).fun.Some?
  {}

  /** Copy out of the blob and allocate: the fresh symbols are complete before anyone sees them. */
  function Allocate(sh: Shared, t: Table, l: Local): (Shared, Local)
    requires t.Lazy? && l.Probed? && LocalInside(t, l)
  {
    if !sh.live then (sh, TableGone(l.query))
    else
      var name := t.bs[l.first].name;
      var heap := sh.heap[sh.next := Made(t, name, l.def)];
      if NeedsSetter(t, l.def) then
        (sh.(heap := heap[sh.next + 1 := MadeSetter(t, name, l.def)], next := sh.next + 2),
         Allocated(l.query, l.first, l.def, l.wantSetter, sh.next, Some(sh.next + 1)))
      else
        (sh.(heap := heap, next := sh.next + 1),
         Allocated(l.query, l.first, l.def, l.wantSetter, sh.next, None))
  }

  /** The write-locked section. */
  function Link(sh: Shared, t: Table, l: Local): (Shared, Local)
    requires t.Lazy? && l.Allocated? && LocalInside(t, l)
  {
    var name := t.bs[l.first].name;
    var (sh1, result) := LinkSymbol(sh, t, name, l.sym, DefOf(t, l.def));
    if NeedsSetter(t, l.def) && l.setter.Some? then
      var (sh2, sresult) := LinkSetter(sh1, SetterName(name), l.setter.value, t.bs[l.def]);
      (sh2, Linking(l.query, l.first, l.def, l.wantSetter, result, Some(sresult)))
    else
      (sh1, Linking(l.query, l.first, l.def, l.wantSetter, result, None))
  }

  /** After the lock: the DEFSETF pair, then the answer. */
  function Finish(sh: Shared, l: Local): (Shared, Local)
    requires l.Linking?
  {
    var sh' := if l.setterResult.Some? then sh.(updaters := sh.updaters[l.result := l.setterResult.value]) else sh;
    (sh', Done(l.query, true, if l.wantSetter then l.setterResult else Some(l.result)))
  }

  /** The fallback when the table went away between the probe and the materialiser. */
  function LookAgain(sh: Shared, query: Name): Local {
    Done(query, true, if |query| < QUERY_LIMIT then FindOwn(sh.cells, query) else None)
  }

  datatype Action =
    | Start(query: Name, allowSetter: bool)
    | StartFlip
    | Advance

  /** What a thread does next. `Advance` moves a lookup or a flip under way. */
  function ThreadStep(sh: Shared, t: Table, th: Thread, a: Action): (Shared, Thread)
    requires t.Lazy? && LocalInside(t, th.local)
  {
    match a
    case Start(query, allowSetter) =>
      if th.flip.None? && (th.local.Idle? || th.local.Done?) then
        (sh, Thread(LookUp(sh, t, query, allowSetter), None))
      else (sh, th)
    case StartFlip =>
      if th.flip.None? && (th.local.Idle? || th.local.Done?) && sh.live then (sh, Thread(Idle, Some(0))) else (sh, th)
    case Advance =>
      match th.local
      case Chosen(query) => (sh, th.(local := LookUp(sh, t, query, false)))
      case Probed(_, _, _, _) => var (sh', l') := Allocate(sh, t, th.local); (sh', th.(local := l'))
      case Allocated(_, _, _, _, _, _) => var (sh', l') := Link(sh, t, th.local); (sh', th.(local := l'))
      case TableGone(query) => (sh, th.(local := LookAgain(sh, query)))
      case Linking(_, _, _, _, _, _) => var (sh', l') := Finish(sh, th.local); (sh', th.(local := l'))
      case Done(_, _, _) => if th.flip.Some? then (sh, Thread(Idle, Some(th.flip.value + 1))) else (sh, th)
      case Idle =>
        if th.flip.None? then (sh, th)
        else
          var i := th.flip.value;
          if i < |t.bs| && sh.live then
            if i > 0 && t.bs[i - 1].name == t.bs[i].name then (sh, Thread(Idle, Some(i + 1)))
            else (sh, th.(local := Chosen(t.bs[i].name)))
          else (sh.(live := false), Thread(Idle, None))
  }

  predicate Enabled(s: State, t: Table, k: nat)
    requires t.Lazy?
  {
    k in s.threads && LocalInside(t, s.threads[k].local)
  }

  function Next(s: State, t: Table, k: nat, a: Action): State
    requires t.Lazy? && Enabled(s, t, k)
  {
    var (sh, th) := ThreadStep(s.shared, t, s.threads[k], a);
    State(sh, s.threads[k := th])
  }

  // ---- the invariant ----

  /** `query` can be served by building: an entry has the name, or it is a live field's setter. */
  predicate Served(t: Table, query: Name)
    requires t.Lazy?
  {
    Defines(t.bs, query) || SetterOfLive(t, query)
  }

  predicate HasCell(cells: seq<Cell>, id: nat) {
    exists j :: 0 <= j < |cells| && cells[j].id == id
  }

  /** One symbol per name, one cell and one export cell per symbol, all of them allocated. */
  ghost predicate ListsOk(sh: Shared) {
    && (forall i, j :: 0 <= i < j < |sh.cells| ==>
      sh.cells[i].name != sh.cells[j].name && sh.cells[i].id != sh.cells[j].id)
    && (forall i, j :: 0 <= i < j < |sh.exports| ==> sh.exports[i] != sh.exports[j])
    && (forall i :: 0 <= i < |sh.cells| ==> sh.cells[i].id in sh.heap)
    && (forall i :: 0 <= i < |sh.exports| ==> HasCell(sh.cells, sh.exports[i]))
    && (forall x :: x in sh.heap ==> x < sh.next)
  }

  /** A present table name is exported and has the definition of its first usable variant. */
  ghost predicate EntryOkIn(sh: Shared, t: Table, name: Name)
    requires t.Lazy?
  {
    var own := FindOwn(sh.cells, name);
    own.Some? ==>
      && own.value in sh.heap && own.value in sh.exports
      && (ScanUsable(t.bs, t.env, name, 0) != -1 ==>
        !DefinitionMissing(sh.heap[own.value], t.bs[ScanUsable(t.bs, t.env, name, 0)]))
  }

  /** A live field and its setter are present together, and the setter can be called. */
  ghost predicate FieldOkIn(sh: Shared, name: Name) {
    var own, setter := FindOwn(sh.cells, name), FindOwn(sh.cells, SetterName(name));
    && (own.Some? <==> setter.Some?)
    && (setter.Some? ==> setter.value in sh.heap && sh.heap[setter.value].fun.Some?)
  }

  ghost predicate TableOkIn(sh: Shared, t: Table)
    requires t.Lazy?
  {
    && (forall k :: 0 <= k < |t.bs| ==> EntryOkIn(sh, t, t.bs[k].name))
    && (forall k :: 0 <= k < |t.bs| && LiveField(t.env, t.bs[k]) ==> FieldOkIn(sh, t.bs[k].name))
    && (!sh.live ==> forall k :: 0 <= k < |t.bs| ==> FindOwn(sh.cells, t.bs[k].name).Some?)
  }

  /** What a thread between its probe and its answer relies on. */
  ghost predicate Aims(t: Table, l: Local)
    requires t.Lazy? && (l.Probed? || l.Allocated? || l.Linking?)
  {
    && LocalInside(t, l)
    && l.def == ScanUsable(t.bs, t.env, t.bs[l.first].name, 0)
    && (if l.wantSetter then NeedsSetter(t, l.def) && l.query == SetterName(t.bs[l.first].name)
        else l.query == t.bs[l.first].name)
  }

  /** Allocated by this thread, complete, and not yet in any list. */
  ghost predicate Private(sh: Shared, id: nat) {
    id in sh.heap && (forall k :: 0 <= k < |sh.cells| ==> sh.cells[k].id != id)
  }

  ghost predicate LocalOk(sh: Shared, t: Table, l: Local)
    requires t.Lazy?
  {
    match l
    case Idle => true
    case Chosen(query) => Defines(t.bs, query)
    case Probed(query, first, def, wantSetter) => Aims(t, l)
    case Allocated(query, first, def, wantSetter, sym, setter) =>
      && Aims(t, l)
      && Private(sh, sym)
      && sh.heap[sym] == Made(t, t.bs[first].name, def)
      && (setter.Some? <==> NeedsSetter(t, def))
      && (setter.Some? ==>
        && setter.value != sym && Private(sh, setter.value)
        && sh.heap[setter.value] == MadeSetter(t, t.bs[first].name, def))
    case TableGone(query) => !sh.live && Served(t, query)
    case Linking(query, first, def, wantSetter, result, setterResult) =>
      && Aims(t, l)
      && FindOwn(sh.cells, t.bs[first].name) == Some(result)
      && (setterResult.Some? <==> NeedsSetter(t, def))
      && (setterResult.Some? ==> FindOwn(sh.cells, SetterName(t.bs[first].name)) == setterResult)
    case Done(query, allowSetter, found) =>
      && (found.Some? ==> FindOwn(sh.cells, query) == found)
      && (found.None? ==>
        |query| >= QUERY_LIMIT || (!Defines(t.bs, query) && (allowSetter ==> !SetterOfLive(t, query))))
  }

  /** A flip has seen to every entry it has passed. */
  ghost predicate FlipOk(sh: Shared, t: Table, th: Thread)
    requires t.Lazy?
  {
    th.flip.Some? ==>
      && th.flip.value <= |t.bs|
      && (forall k :: 0 <= k < th.flip.value ==> FindOwn(sh.cells, t.bs[k].name).Some?)
      && (!th.local.Idle? ==>
        && th.flip.value < |t.bs| && th.local.query == t.bs[th.flip.value].name
        && (th.local.Done? ==> FindOwn(sh.cells, t.bs[th.flip.value].name).Some?)
        && (th.local.Probed? || th.local.Allocated? || th.local.Linking? ==> !th.local.wantSetter))
  }

  /** The objects a thread has allocated and not yet linked. */
  function Ids(l: Local): set<nat> {
    if l.Allocated? then {l.sym} + (if l.setter.Some? then {l.setter.value} else {}) else {}
  }

  ghost predicate SharedOk(sh: Shared, t: Table)
    requires t.Lazy?
  {
    ListsOk(sh) && TableOkIn(sh, t)
  }

  ghost predicate ThreadOk(sh: Shared, t: Table, th: Thread)
    requires t.Lazy?
  {
    LocalOk(sh, t, th.local) && FlipOk(sh, t, th)
  }

  ghost predicate TableAssumed(t: Table) {
    t.Lazy? && OrderedTable(t.bs) && NamesFit(t.bs) && Separated(t.bs, t.env)
  }

  ghost predicate Inv(s: State, t: Table)
    requires t.Lazy?
  {
    && SharedOk(s.shared, t)
    && (forall k :: k in s.threads ==> ThreadOk(s.shared, t, s.threads[k]))
    && (forall j, k :: j in s.threads && k in s.threads && j != k ==>
      Ids(s.threads[j].local) !! Ids(s.threads[k].local))
  }

  /** What no step undoes. */
  ghost predicate Grows(sh: Shared, sh': Shared) {
    && (forall x :: FindOwn(sh.cells, x).Some? ==> FindOwn(sh'.cells, x) == FindOwn(sh.cells, x))
    && (forall x :: x in sh.heap ==> x in sh'.heap && sh'.heap[x] == sh.heap[x])
    && (sh'.live ==> sh.live)
    && sh.next <= sh'.next
  }

  /** The cells `sh'` has beyond those of `sh` hold objects of `ids`. */
  ghost predicate AddsOnly(sh: Shared, sh': Shared, ids: set<nat>) {
    forall k :: 0 <= k < |sh'.cells| ==> sh'.cells[k] in sh.cells || sh'.cells[k].id in ids
  }

  lemma {:induction false} FindOwnMeaning(cells: seq<Cell>, name: Name)
    ensures var own := FindOwn(cells, name);
      && (own.Some? ==> Cell(name, own.value) in cells)
      && (own.None? ==> forall k :: 0 <= k < |cells| ==> cells[k].name != name)
  {
    if cells != [] && cells[0].name != name {
      FindOwnMeaning(cells[1..], name);
      assert cells == [cells[0]] + cells[1..];
    }
  }

  lemma FindOwnPush(cells: seq<Cell>, c: Cell, x: Name)
    ensures FindOwn([c] + cells, x) == if x == c.name then Some(c.id) else FindOwn(cells, x)
  {
    assert ([c] + cells)[1..] == cells;
  }

  /** Pushing a complete private symbol under an absent name. */
  lemma PushCell(sh: Shared, c: Cell)
    requires ListsOk(sh) && FindOwn(sh.cells, c.name).None? && Private(sh, c.id)
    ensures var sh' := sh.(cells := [c] + sh.cells);
      ListsOk(sh') && Grows(sh, sh') && AddsOnly(sh, sh', {c.id})
  {
    var sh' := sh.(cells := [c] + sh.cells);
    FindOwnMeaning(sh.cells, c.name);
    forall x ensures FindOwn(sh'.cells, x) == if x == c.name then Some(c.id) else FindOwn(sh.cells, x) {
      FindOwnPush(sh.cells, c, x);
    }
    forall i | 0 <= i < |sh'.exports| ensures HasCell(sh'.cells, sh'.exports[i]) {
      var j :| 0 <= j < |sh.cells| && sh.cells[j].id == sh.exports[i];
      assert sh'.cells[j + 1].id == sh'.exports[i];
    }
  }

  lemma PushExport(sh: Shared, id: nat)
    requires ListsOk(sh) && |sh.cells| > 0 && sh.cells[0].id == id && id !in sh.exports
    ensures ListsOk(sh.(exports := [id] + sh.exports))
  {
    var sh' := sh.(exports := [id] + sh.exports);
    forall i | 0 <= i < |sh'.exports| ensures HasCell(sh'.cells, sh'.exports[i]) {
      if i == 0 { assert sh'.cells[0].id == sh'.exports[0]; } else { assert sh'.exports[i] == sh.exports[i - 1]; }
    }
  }

  lemma PrivateUnexported(sh: Shared, id: nat)
    requires ListsOk(sh) && Private(sh, id)
    ensures id !in sh.exports
  {}

  /** The symbol's half of the critical section: new, or nothing at all. */
  lemma LinkSymbolStep(sh: Shared, t: Table, i: nat, sym: nat, def: int)
    requires TableAssumed(t) && SharedOk(sh, t) && i < |t.bs|
    requires def == ScanUsable(t.bs, t.env, t.bs[i].name, 0) && Private(sh, sym)
    ensures var name := t.bs[i].name; var (sh', result) := LinkSymbol(sh, t, name, sym, DefOf(t, def));
      && ListsOk(sh') && Grows(sh, sh') && AddsOnly(sh, sh', {sym})
      && FindOwn(sh'.cells, name) == Some(result)
      && (FindOwn(sh.cells, name).Some? ==> sh' == sh)
      && (FindOwn(sh.cells, name).None? ==>
        result == sym && sh' == sh.(cells := [Cell(name, sym)] + sh.cells, exports := [sym] + sh.exports))
  {
    hide NameCompare, GuardOk, Install, DefinitionMissing, ListsOk, LinearProbe, ScanUsable, Private, Separated;
    var name := t.bs[i].name;
    assert EntryOkIn(sh, t, name);
    if FindOwn(sh.cells, name).None? {
      PushCell(sh, Cell(name, sym));
      PrivateUnexported(sh, sym);
      PushExport(sh.(cells := [Cell(name, sym)] + sh.cells), sym);
      FindOwnPush(sh.cells, Cell(name, sym), name);
    }
  }

  lemma LinkSetterStep(sh: Shared, setter: Name, ssym: nat, b: Binding)
    requires ListsOk(sh) && Private(sh, ssym)
    requires var own := FindOwn(sh.cells, setter);
      own.Some? ==> own.value in sh.heap && sh.heap[own.value].fun.Some?
    ensures var (sh', sresult) := LinkSetter(sh, setter, ssym, b);
      && ListsOk(sh') && Grows(sh, sh') && AddsOnly(sh, sh', {ssym})
      && FindOwn(sh'.cells, setter) == Some(sresult)
      && (FindOwn(sh.cells, setter).Some? ==> sh' == sh)
      && (FindOwn(sh.cells, setter).None? ==>
        sresult == ssym && sh' == sh.(cells := [Cell(setter, ssym)] + sh.cells))
  {
    if FindOwn(sh.cells, setter).None? {
      PushCell(sh, Cell(setter, ssym));
      FindOwnPush(sh.cells, Cell(setter, ssym), setter);
    } else {
      FindOwnMeaning(sh.cells, setter);
    }
  }

  lemma AddsTransitive(a: Shared, b: Shared, c: Shared, ids: set<nat>, ids': set<nat>)
    requires AddsOnly(a, b, ids) && AddsOnly(b, c, ids')
    ensures AddsOnly(a, c, ids + ids')
  {}

  lemma PrivateStays(sh: Shared, sh': Shared, id: nat, ids: set<nat>)
    requires Private(sh, id) && Grows(sh, sh') && AddsOnly(sh, sh', ids) && id !in ids
    ensures Private(sh', id) && sh'.heap[id] == sh.heap[id]
  {}

  lemma FieldOfDef(t: Table, i: nat, def: int)
    requires TableAssumed(t) && i < |t.bs| && def == ScanUsable(t.bs, t.env, t.bs[i].name, 0)
    ensures def != -1 ==> 0 <= def < |t.bs| && t.bs[def].name == t.bs[i].name && GuardOk(t.env, t.bs[def])
    ensures def != -1 && WritableField(t.bs[def]) ==>
      LiveField(t.env, t.bs[def]) && !Defines(t.bs, SetterName(t.bs[i].name))
    ensures forall k :: 0 <= k < |t.bs| && LiveField(t.env, t.bs[k]) ==>
      (t.bs[k].name == t.bs[i].name ==> def == k)
      && !Defines(t.bs, SetterName(t.bs[k].name))
  {
    hide NameCompare, GuardOk;
    ScanUsableMeaning(t.bs, t.env, t.bs[i].name, 0);
    forall k | 0 <= k < |t.bs| && LiveField(t.env, t.bs[k])
      ensures t.bs[k].name == t.bs[i].name ==> def == k
    {
      FieldScans(t.bs, t.env, k);
    }
  }

  /** What the critical section does to the shared data, in one of two ways. */
  lemma LinkShape(sh: Shared, t: Table, l: Local)
    requires TableAssumed(t) && SharedOk(sh, t) && l.Allocated? && LocalOk(sh, t, l)
    ensures var (sh', l') := Link(sh, t, l); var name := t.bs[l.first].name;
      && ListsOk(sh') && Grows(sh, sh') && AddsOnly(sh, sh', Ids(l))
      && l'.Linking? && Aims(t, l')
      && FindOwn(sh'.cells, name) == Some(l'.result)
      && (l'.setterResult.Some? <==> NeedsSetter(t, l.def))
      && (l'.setterResult.Some? ==> FindOwn(sh'.cells, SetterName(name)) == l'.setterResult)
      && (FindOwn(sh.cells, name).Some? ==> sh' == sh)
      && (FindOwn(sh.cells, name).None? ==>
        && sh'.heap == sh.heap && sh'.live == sh.live && sh'.exports == [l.sym] + sh.exports
        && l'.result == l.sym && l'.setterResult == l.setter
        && sh'.cells == (if l.setter.Some? then [Cell(SetterName(name), l.setter.value)] else [])
                        + ([Cell(name, l.sym)] + sh.cells))
  {
    hide NameCompare, GuardOk, Install, DefinitionMissing, ListsOk, LinearProbe, ScanUsable, Private, Separated,
      OrderedTable, LinkSymbol, LinkSetter, SetterName, Made, MadeSetter, AddsOnly, Grows;
    var name := t.bs[l.first].name;
    var setter := SetterName(name);
    LinkSymbolStep(sh, t, l.first, l.sym, l.def);
    SetterNameInjective(name, name);
    FieldOfDef(t, l.first, l.def);
    var sh1 := LinkSymbol(sh, t, name, l.sym, DefOf(t, l.def)).0;
    if NeedsSetter(t, l.def) {
      assert FieldOkIn(sh, name);
      PrivateStays(sh, sh1, l.setter.value, {l.sym});
      FindOwnPush(sh.cells, Cell(name, l.sym), setter);
      LinkSetterStep(sh1, setter, l.setter.value, t.bs[l.def]);
      FindOwnPush(sh1.cells, Cell(setter, l.setter.value), name);
      GrowsTransitive(sh, sh1, LinkSetter(sh1, setter, l.setter.value, t.bs[l.def]).0);
      AddsTransitive(sh, sh1, LinkSetter(sh1, setter, l.setter.value, t.bs[l.def]).0, {l.sym}, {l.setter.value});
      assert Ids(l) == {l.sym} + {l.setter.value};
    } else {
      assert Ids(l) == {l.sym};
    }
  }

  lemma LinkTableOk(sh: Shared, t: Table, l: Local)
    requires TableAssumed(t) && SharedOk(sh, t) && l.Allocated? && LocalOk(sh, t, l)
    ensures TableOkIn(Link(sh, t, l).0, t)
  {
    hide NameCompare, GuardOk, Install, DefinitionMissing, ListsOk, LinearProbe, ScanUsable, Separated,
      OrderedTable, Link, SetterName;
    hide Made, MadeSetter;
    LinkShape(sh, t, l);
    var name := t.bs[l.first].name;
    MadeComplete(t, name, l.def);
    var setter := SetterName(name);
    var sh' := Link(sh, t, l).0;
    FieldOfDef(t, l.first, l.def);
    SetterNameInjective(name, name);
    if FindOwn(sh.cells, name).None? {
      var added := if l.setter.Some? then [Cell(setter, l.setter.value)] else [];
      forall x
        ensures FindOwn(sh'.cells, x) == if x == name then Some(l.sym)
                else if x == setter && l.setter.Some? then l.setter else FindOwn(sh.cells, x)
      {
        FindOwnPush(sh.cells, Cell(name, l.sym), x);
        if l.setter.Some? { FindOwnPush([Cell(name, l.sym)] + sh.cells, Cell(setter, l.setter.value), x); }
        else { assert [] + ([Cell(name, l.sym)] + sh.cells) == [Cell(name, l.sym)] + sh.cells; }
      }
      forall k | 0 <= k < |t.bs| ensures EntryOkIn(sh', t, t.bs[k].name) {
        assert EntryOkIn(sh, t, t.bs[k].name);
        assert l.setter.Some? ==> t.bs[k].name != setter;
      }
      forall k | 0 <= k < |t.bs| && LiveField(t.env, t.bs[k]) ensures FieldOkIn(sh', t.bs[k].name) {
        assert FieldOkIn(sh, t.bs[k].name);
        SetterNameInjective(t.bs[k].name, name);
        assert SetterName(t.bs[k].name) != name;
      }
    }
  }

  function WithObject(sh: Shared, s: Symbol): Shared {
    sh.(heap := sh.heap[sh.next := s], next := sh.next + 1)
  }

  lemma NewObject(sh: Shared, s: Symbol)
    requires ListsOk(sh)
    ensures var sh' := WithObject(sh, s); ListsOk(sh') && Grows(sh, sh') && Private(sh', sh.next)
  {}

  lemma AllocateShape(sh: Shared, t: Table, l: Local)
    requires TableAssumed(t) && ListsOk(sh) && sh.live && l.Probed? && LocalOk(sh, t, l)
    ensures var (sh', l') := Allocate(sh, t, l);
      && ListsOk(sh') && Grows(sh, sh') && sh'.cells == sh.cells && sh'.exports == sh.exports && sh'.live == sh.live
      && LocalOk(sh', t, l')
      && forall x :: x in Ids(l') ==> sh.next <= x < sh'.next
  {
    hide NameCompare, GuardOk, LinearProbe, ScanUsable, Separated, OrderedTable, SetterName, ListsOk;
    var (sh', l') := Allocate(sh, t, l);
    FieldOfDef(t, l.first, l.def);
    var name := t.bs[l.first].name;
    var made := Made(t, name, l.def);
    var sh1 := WithObject(sh, made);
    NewObject(sh, made);
    if NeedsSetter(t, l.def) {
      var writer := MadeSetter(t, name, l.def);
      NewObject(sh1, writer);
      assert sh' == WithObject(sh1, writer);
    } else {
      assert sh' == sh1;
    }
  }

  lemma AllocateStep(sh: Shared, t: Table, l: Local)
    requires TableAssumed(t) && SharedOk(sh, t) && l.Probed? && LocalOk(sh, t, l)
    ensures var (sh', l') := Allocate(sh, t, l);
      && SharedOk(sh', t) && Grows(sh, sh') && sh'.cells == sh.cells && LocalOk(sh', t, l')
      && forall x :: x in Ids(l') ==> sh.next <= x < sh'.next
  {
    hide NameCompare, GuardOk, LinearProbe, ScanUsable, Separated, OrderedTable, SetterName, ListsOk, TableOkIn,
      Install, DefinitionMissing;
    if sh.live {
      AllocateShape(sh, t, l);
      AllocateTableOk(sh, t, Allocate(sh, t, l).0);
    } else {
      AimServed(t, l);
    }
  }

  lemma AimServed(t: Table, l: Local)
    requires TableAssumed(t) && l.Probed? && Aims(t, l)
    ensures Served(t, l.query)
  {
    hide NameCompare, GuardOk, SetterName;
    FieldOfDef(t, l.first, l.def);
  }

  lemma AllocateTableOk(sh: Shared, t: Table, sh': Shared)
    requires TableAssumed(t) && SharedOk(sh, t) && Grows(sh, sh')
    requires sh'.cells == sh.cells && sh'.exports == sh.exports && sh'.live == sh.live
    ensures TableOkIn(sh', t)
  {
    hide NameCompare, GuardOk, ScanUsable, Separated, OrderedTable, SetterName, DefinitionMissing;
    forall k | 0 <= k < |t.bs| ensures EntryOkIn(sh', t, t.bs[k].name) {
      assert EntryOkIn(sh, t, t.bs[k].name);
      FindOwnMeaning(sh.cells, t.bs[k].name);
    }
    forall k | 0 <= k < |t.bs| && LiveField(t.env, t.bs[k]) ensures FieldOkIn(sh', t.bs[k].name) {
      assert FieldOkIn(sh, t.bs[k].name);
    }
  }

  lemma LookUpStep(sh: Shared, t: Table, query: Name, allowSetter: bool)
    requires TableAssumed(t) && SharedOk(sh, t)
    ensures LocalOk(sh, t, LookUp(sh, t, query, allowSetter))
    ensures var l := LookUp(sh, t, query, allowSetter);
      && l.query == query && Ids(l) == {}
      && (!allowSetter && Defines(t.bs, query) ==> (l.Done? && l.found.Some?) || (l.Probed? && !l.wantSetter))
  {
    hide NameCompare, LinearProbe, SetterName, GuardOk, Separated;
    ProbeMeaning(t.bs, t.env, query, allowSetter);
    NamedUsable(t.bs, t.env, query, allowSetter);
    if FindOwn(sh.cells, query).None? {
      if !sh.live {
        ServedPresent(sh, t, query);
      } else {
        match LinearProbe(t.bs, t.env, query, allowSetter)
        case Setter(entry) =>
          FieldScans(t.bs, t.env, entry);
          assert LiveField(t.env, t.bs[entry]) by { hide *; SetterLive(t, entry, query); }
        case _ =>
      }
    }
  }

  lemma SetterLive(t: Table, entry: nat, query: Name)
    requires TableAssumed(t) && entry < |t.bs| && WritableField(t.bs[entry])
    requires SetterName(t.bs[entry].name) == query && !Defines(t.bs, query)
    ensures LiveField(t.env, t.bs[entry])
  {}

  /** Once the table is gone, everything it could serve is present. */
  lemma ServedPresent(sh: Shared, t: Table, query: Name)
    requires TableAssumed(t) && SharedOk(sh, t) && !sh.live
    ensures Served(t, query) ==> FindOwn(sh.cells, query).Some?
  {
    hide NameCompare, GuardOk, ListsOk, EntryOkIn;
    if SetterOfLive(t, query) {
      var k :| 0 <= k < |t.bs| && LiveField(t.env, t.bs[k]) && SetterName(t.bs[k].name) == query;
      assert FieldOkIn(sh, t.bs[k].name);
    }
  }

  lemma AddsNothing(sh: Shared, sh': Shared, ids: set<nat>)
    requires sh'.cells == sh.cells
    ensures AddsOnly(sh, sh', ids)
  {}

  /** Dropping the table after a completed flip, and registering a DEFSETF pair, keep the shared data. */
  lemma QuietStep(sh: Shared, sh': Shared, t: Table)
    requires TableAssumed(t) && SharedOk(sh, t)
    requires sh'.(live := sh.live, updaters := sh.updaters) == sh
    requires sh'.live ==> sh.live
    requires !sh'.live ==> forall k :: 0 <= k < |t.bs| ==> FindOwn(sh.cells, t.bs[k].name).Some?
    ensures SharedOk(sh', t) && Grows(sh, sh') && AddsOnly(sh, sh', {})
  {
    hide NameCompare, GuardOk, LinearProbe, ScanUsable, Separated, OrderedTable, SetterName, DefinitionMissing;
    forall k | 0 <= k < |t.bs| ensures EntryOkIn(sh', t, t.bs[k].name) { assert EntryOkIn(sh, t, t.bs[k].name); }
    forall k | 0 <= k < |t.bs| && LiveField(t.env, t.bs[k]) ensures FieldOkIn(sh', t.bs[k].name) {
      assert FieldOkIn(sh, t.bs[k].name);
    }
  }

  lemma FlipPassed(sh: Shared, t: Table, th: Thread)
    requires TableAssumed(t) && SharedOk(sh, t) && FlipOk(sh, t, th)
    requires th.flip.Some? && th.local.Idle? && !(th.flip.value < |t.bs| && sh.live)
    ensures forall k :: 0 <= k < |t.bs| ==> FindOwn(sh.cells, t.bs[k].name).Some?
  {
    hide NameCompare, GuardOk, Separated, OrderedTable, SetterName, EntryOkIn, FieldOkIn;
  }

  /** What one step gives: the data stay sound, nothing is undone, and the thread still knows
      what it knew. */
  ghost predicate StepOk(sh: Shared, t: Table, th: Thread, sh': Shared, th': Thread)
    requires t.Lazy?
  {
    && SharedOk(sh', t) && Grows(sh, sh') && AddsOnly(sh, sh', Ids(th.local))
    && ThreadOk(sh', t, th')
    && forall x :: x in Ids(th'.local) ==> x in Ids(th.local) || sh.next <= x < sh'.next
  }

  lemma StartStep(sh: Shared, t: Table, th: Thread, a: Action)
    requires TableAssumed(t) && SharedOk(sh, t) && ThreadOk(sh, t, th) && LocalInside(t, th.local) && !a.Advance?
    ensures var (sh', th') := ThreadStep(sh, t, th, a); StepOk(sh, t, th, sh', th')
  {
    hide NameCompare, GuardOk, Separated, OrderedTable, SetterName, ListsOk, TableOkIn, LookUp;
    AddsNothing(sh, sh, Ids(th.local));
    if a.Start? { LookUpStep(sh, t, a.query, a.allowSetter); }
  }

  lemma BuilderStep(sh: Shared, t: Table, th: Thread)
    requires TableAssumed(t) && SharedOk(sh, t) && ThreadOk(sh, t, th) && LocalInside(t, th.local)
    requires th.local.Probed? || th.local.Allocated?
    ensures var (sh', th') := ThreadStep(sh, t, th, Advance); StepOk(sh, t, th, sh', th')
  {
    hide NameCompare, GuardOk, Separated, OrderedTable, SetterName, ListsOk, TableOkIn, ScanUsable, Allocate, Link,
      Aims, Private, DefinitionMissing;
    if th.local.Probed? {
      AllocateStep(sh, t, th.local);
      AllocateKeepsAim(sh, t, th.local);
      AddsNothing(sh, Allocate(sh, t, th.local).0, Ids(th.local));
    } else {
      LinkShape(sh, t, th.local);
      LinkTableOk(sh, t, th.local);
      LinkKeepsAim(sh, t, th.local);
    }
  }

  lemma AllocateKeepsAim(sh: Shared, t: Table, l: Local)
    requires t.Lazy? && l.Probed? && LocalInside(t, l)
    ensures var l' := Allocate(sh, t, l).1;
      l'.query == l.query && (l'.TableGone? || (l'.Allocated? && l'.wantSetter == l.wantSetter))
  {}

  lemma LinkKeepsAim(sh: Shared, t: Table, l: Local)
    requires t.Lazy? && l.Allocated? && LocalInside(t, l)
    ensures var l' := Link(sh, t, l).1;
      && l'.Linking? && l'.first == l.first && l'.def == l.def
      && l'.query == l.query && l'.wantSetter == l.wantSetter
  {}

  lemma AnswerStep(sh: Shared, t: Table, th: Thread)
    requires TableAssumed(t) && SharedOk(sh, t) && ThreadOk(sh, t, th) && LocalInside(t, th.local)
    requires !th.local.Probed? && !th.local.Allocated?
    ensures var (sh', th') := ThreadStep(sh, t, th, Advance); StepOk(sh, t, th, sh', th')
  {
    hide NameCompare, GuardOk, Separated, OrderedTable, SetterName, ListsOk, TableOkIn, ScanUsable, LookUp, Finish,
      Grows;
    GrowsReflexive(sh);
    AddsNothing(sh, sh, Ids(th.local));
    match th.local
    case Chosen(query) => LookUpStep(sh, t, query, false);
    case TableGone(query) =>
      ServedPresent(sh, t, query);
      if th.flip.Some? { NamePresentWhenGone(sh, t, th.flip.value); }
    case Linking(_, _, _, _, _, _) => FinishStep(sh, t, th);
    case Done(_, _, _) =>
    case Idle => if th.flip.Some? { FlipStepOk(sh, t, th); }
  }

  lemma FinishStep(sh: Shared, t: Table, th: Thread)
    requires TableAssumed(t) && SharedOk(sh, t) && ThreadOk(sh, t, th) && LocalInside(t, th.local) && th.local.Linking?
    ensures var (sh', th') := ThreadStep(sh, t, th, Advance); StepOk(sh, t, th, sh', th')
  {
    hide NameCompare, GuardOk, Separated, OrderedTable, SetterName, ListsOk, TableOkIn, ScanUsable;
    LiveCovers(sh, t);
    QuietStep(sh, Finish(sh, th.local).0, t);
  }

  lemma FlipStepOk(sh: Shared, t: Table, th: Thread)
    requires TableAssumed(t) && SharedOk(sh, t) && ThreadOk(sh, t, th) && th.local.Idle? && th.flip.Some?
    ensures var (sh', th') := ThreadStep(sh, t, th, Advance); StepOk(sh, t, th, sh', th')
  {
    hide NameCompare, GuardOk, Separated, OrderedTable, SetterName, ListsOk, TableOkIn, ScanUsable;
    AddsNothing(sh, sh, Ids(th.local));
    if th.flip.value < |t.bs| && sh.live {
      assert Defines(t.bs, t.bs[th.flip.value].name);
    } else {
      FlipPassed(sh, t, th);
      QuietStep(sh, sh.(live := false), t);
    }
  }

  lemma NamePresentWhenGone(sh: Shared, t: Table, i: nat)
    requires TableAssumed(t) && SharedOk(sh, t) && !sh.live && i < |t.bs|
    ensures FindOwn(sh.cells, t.bs[i].name).Some?
  {
    hide NameCompare, GuardOk, Separated, OrderedTable, EntryOkIn, FieldOkIn;
  }

  lemma LiveCovers(sh: Shared, t: Table)
    requires TableAssumed(t) && SharedOk(sh, t)
    ensures !sh.live ==> forall k :: 0 <= k < |t.bs| ==> FindOwn(sh.cells, t.bs[k].name).Some?
  {
    hide NameCompare, GuardOk, Separated, OrderedTable, EntryOkIn, FieldOkIn;
  }

  lemma ThreadStepOk(sh: Shared, t: Table, th: Thread, a: Action)
    requires TableAssumed(t) && SharedOk(sh, t) && ThreadOk(sh, t, th) && LocalInside(t, th.local)
    ensures var (sh', th') := ThreadStep(sh, t, th, a); StepOk(sh, t, th, sh', th')
  {
    hide NameCompare, GuardOk, Separated, OrderedTable, SetterName, ListsOk, TableOkIn, ScanUsable, ThreadStep, StepOk,
      SharedOk, ThreadOk;
    if !a.Advance? {
      StartStep(sh, t, th, a);
    } else if th.local.Probed? || th.local.Allocated? {
      BuilderStep(sh, t, th);
    } else {
      AnswerStep(sh, t, th);
    }
  }

  /** A thread that did not move loses nothing by another's step. */
  lemma OthersStay(sh: Shared, sh': Shared, t: Table, th: Thread, ids: set<nat>)
    requires TableAssumed(t) && ThreadOk(sh, t, th)
    requires Grows(sh, sh') && AddsOnly(sh, sh', ids) && Ids(th.local) !! ids
    ensures ThreadOk(sh', t, th)
  {
    hide NameCompare, GuardOk, Separated, OrderedTable, SetterName, ScanUsable, Aims, DefinitionMissing, Private,
      AddsOnly;
    if th.local.Allocated? {
      assert th.local.sym in Ids(th.local);
      PrivateStays(sh, sh', th.local.sym, ids);
      PrivateIn(sh, th.local.sym);
      if th.local.setter.Some? {
        assert th.local.setter.value in Ids(th.local);
        PrivateStays(sh, sh', th.local.setter.value, ids);
        PrivateIn(sh, th.local.setter.value);
      }
    }
    if th.local.Linking? {
      LinkingStays(sh, sh', t, th.local);
    }
  }

  lemma LinkingStays(sh: Shared, sh': Shared, t: Table, l: Local)
    requires TableAssumed(t) && l.Linking? && LocalOk(sh, t, l) && Grows(sh, sh')
    ensures LocalOk(sh', t, l)
  {
    hide NameCompare, GuardOk, Separated, OrderedTable, SetterName, ScanUsable;
    var name := t.bs[l.first].name;
    assert FindOwn(sh'.cells, name) == FindOwn(sh.cells, name);
    if l.setterResult.Some? {
      assert FindOwn(sh'.cells, SetterName(name)) == FindOwn(sh.cells, SetterName(name));
    }
  }

  lemma PrivateIn(sh: Shared, id: nat)
    requires Private(sh, id)
    ensures id in sh.heap
  {}

  // ---- whole runs ----

  /** A schedule: which thread moves, and what it does when it may choose. */
  datatype Move = Move(thread: nat, action: Action)

  lemma NextInv(s: State, t: Table, k: nat, a: Action)
    requires TableAssumed(t) && Inv(s, t) && k in s.threads
    ensures Enabled(s, t, k)
    ensures Inv(Next(s, t, k, a), t) && Grows(s.shared, Next(s, t, k, a).shared)
  {
    hide NameCompare, GuardOk, Separated, OrderedTable, SetterName, SharedOk, ThreadOk, ThreadStep, Grows, AddsOnly,
      Ids;
    ThreadInside(s.shared, t, s.threads[k]);
    var th := s.threads[k];
    ThreadStepOk(s.shared, t, th, a);
    var s' := Next(s, t, k, a);
    forall j | j in s'.threads && j != k
      ensures ThreadOk(s'.shared, t, s'.threads[j])
      ensures Ids(s'.threads[j].local) !! Ids(s'.threads[k].local)
    {
      OthersStay(s.shared, s'.shared, t, s.threads[j], Ids(th.local));
      IdsAllocated(s.shared, t, s.threads[j]);
    }
  }

  lemma ThreadInside(sh: Shared, t: Table, th: Thread)
    requires t.Lazy? && ThreadOk(sh, t, th)
    ensures LocalInside(t, th.local)
  {}

  lemma IdsAllocated(sh: Shared, t: Table, th: Thread)
    requires t.Lazy? && SharedOk(sh, t) && ThreadOk(sh, t, th)
    ensures forall x :: x in Ids(th.local) ==> x < sh.next
  {
    hide NameCompare, GuardOk, Aims, TableOkIn, Made, MadeSetter;
  }

  ghost function Execute(s: State, t: Table, moves: seq<Move>): (s': State)
    requires TableAssumed(t) && Inv(s, t)
    requires forall i :: 0 <= i < |moves| ==> moves[i].thread in s.threads
    ensures Inv(s', t) && s'.threads.Keys == s.threads.Keys
    decreases |moves|
  {
    if moves == [] then s
    else
      NextInv(s, t, moves[0].thread, moves[0].action);
      Execute(Next(s, t, moves[0].thread, moves[0].action), t, moves[1..])
  }

  lemma {:induction false} ExecuteGrows(s: State, t: Table, moves: seq<Move>)
    requires TableAssumed(t) && Inv(s, t)
    requires forall i :: 0 <= i < |moves| ==> moves[i].thread in s.threads
    ensures Grows(s.shared, Execute(s, t, moves).shared)
    decreases |moves|
  {
    hide Inv, Grows, Next;
    hide OrderedTable, Separated;
    GrowsReflexive(s.shared);
    if moves != [] {
      NextInv(s, t, moves[0].thread, moves[0].action);
      NextKeys(s, t, moves[0].thread, moves[0].action);
      var s1 := Next(s, t, moves[0].thread, moves[0].action);
      ExecuteGrows(s1, t, moves[1..]);
      GrowsTransitive(s.shared, s1.shared, Execute(s1, t, moves[1..]).shared);
    }
  }

  lemma NextKeys(s: State, t: Table, k: nat, a: Action)
    requires t.Lazy? && Enabled(s, t, k)
    ensures Next(s, t, k, a).threads.Keys == s.threads.Keys
  {}

  lemma GrowsReflexive(sh: Shared)
    ensures Grows(sh, sh)
  {}

  lemma GrowsTransitive(a: Shared, b: Shared, c: Shared)
    requires Grows(a, b) && Grows(b, c)
    ensures Grows(a, c)
  {}

  /** A registered package at rest. */
  ghost predicate Initial(s: State, t: Table) {
    && TableAssumed(t) && SharedOk(s.shared, t)
    && (forall k :: k in s.threads ==> s.threads[k] == Thread(Idle, None))
    && (forall x :: x in s.shared.updaters ==> x < s.shared.next)
  }

  lemma InitialInv(s: State, t: Table)
    requires Initial(s, t)
    ensures Inv(s, t)
  {
    hide NameCompare, GuardOk, SharedOk;
  }

  /** A run from a package at rest. */
  ghost function Run(s: State, t: Table, moves: seq<Move>): (s': State)
    requires Initial(s, t)
    requires forall i :: 0 <= i < |moves| ==> moves[i].thread in s.threads
    ensures Inv(s', t) && s'.threads.Keys == s.threads.Keys
  {
    InitialInv(s, t);
    Execute(s, t, moves)
  }

  /** What an answer says while the run goes on. */
  lemma AnswerMeaning(s: State, t: Table, j: nat)
    requires TableAssumed(t) && Inv(s, t) && j in s.threads && s.threads[j].local.Done?
    ensures var l := s.threads[j].local;
      && (l.found.Some? ==> FindOwn(s.shared.cells, l.query) == l.found)
      && (l.found.None? && |l.query| < QUERY_LIMIT ==>
        !Defines(t.bs, l.query) && (l.allowSetter ==> !SetterOfLive(t, l.query)))
  {
    hide NameCompare, GuardOk, SharedOk, OrderedTable, Separated, FlipOk;
    assert ThreadOk(s.shared, t, s.threads[j]);
  }

  /** Every interleaving: all callers who ask for one name, at any two moments of a run, get one
      symbol, and only a name the table cannot serve is reported missing. */
  lemma OneSymbolPerName(s: State, t: Table, before: seq<Move>, after: seq<Move>, j: nat, k: nat)
    requires Initial(s, t)
    requires forall i :: 0 <= i < |before| ==> before[i].thread in s.threads
    requires forall i :: 0 <= i < |after| ==> after[i].thread in s.threads
    requires j in s.threads && k in s.threads
    ensures var s1 := Run(s, t, before); var s2 := Execute(s1, t, after);
      var l1, l2 := s1.threads[j].local, s2.threads[k].local;
      && (l1.Done? && l2.Done? && l1.query == l2.query && l1.found.Some? && l2.found.Some? ==> l1.found == l2.found)
      && (l1.Done? && l1.found.None? && |l1.query| < QUERY_LIMIT ==>
        !Defines(t.bs, l1.query) && (l1.allowSetter ==> !SetterOfLive(t, l1.query)))
  {
    hide NameCompare, GuardOk, SharedOk, OrderedTable, Separated, Execute, Run, Inv, SetterOfLive, Defines;
    var s1 := Run(s, t, before);
    var s2 := Execute(s1, t, after);
    ExecuteGrows(s1, t, after);
    if s1.threads[j].local.Done? { AnswerMeaning(s1, t, j); }
    if s2.threads[k].local.Done? { AnswerMeaning(s2, t, k); }
  }

  // ---- progress ----

  /** How many steps of its own a lookup is from its answer. */
  function LookupRank(l: Local): nat {
    match l
    case Chosen(_) => 4
    case Probed(_, _, _, _) => 3
    case Allocated(_, _, _, _, _, _) => 2
    case TableGone(_) => 1
    case Linking(_, _, _, _, _, _) => 1
    case Idle => 0
    case Done(_, _, _) => 0
  }

  /** How many a flip is from its end. */
  function FlipRank(t: Table, th: Thread): nat
    requires t.Lazy?
  {
    if th.flip.None? || th.flip.value > |t.bs| then 0
    else 6 * (|t.bs| - th.flip.value) + if th.local.Idle? then 6 else 1 + LookupRank(th.local)
  }

  /** The steps a thread takes in a run. */
  function Advances(moves: seq<Move>, k: nat): nat {
    if moves == [] then 0
    else (if moves[0] == Move(k, Advance) then 1 else 0) + Advances(moves[1..], k)
  }

  lemma LookupMoves(sh: Shared, t: Table, th: Thread, a: Action)
    requires t.Lazy? && LocalInside(t, th.local) && th.flip.None? && LookupRank(th.local) > 0
    ensures var th' := ThreadStep(sh, t, th, a).1;
      && th'.flip.None?
      && (a.Advance? ==> LookupRank(th'.local) < LookupRank(th.local))
      && (!a.Advance? ==> th' == th)
      && (LookupRank(th'.local) == 0 ==> th'.local.Done?)
  {
    hide LinearProbe, FindOwn, NameCompare, GuardOk, Install, LinkSymbol, LinkSetter;
  }

  lemma FlipMoves(sh: Shared, t: Table, th: Thread, a: Action)
    requires t.Lazy? && LocalInside(t, th.local) && th.flip.Some? && th.flip.value <= |t.bs|
    requires !th.local.Idle? ==> th.flip.value < |t.bs|
    ensures var (sh', th') := ThreadStep(sh, t, th, a);
      && (!a.Advance? ==> th' == th)
      && (a.Advance? ==> FlipRank(t, th') < FlipRank(t, th))
      && (th'.flip.None? ==> !sh'.live)
  {
    hide LinearProbe, FindOwn, NameCompare, GuardOk, Install, LinkSymbol, LinkSetter;
  }

  /** A started lookup has its answer once it has taken so many steps, whatever the others do. */
  lemma {:induction false} LookupFinishes(s: State, t: Table, moves: seq<Move>, k: nat) returns (i: nat)
    requires TableAssumed(t) && Inv(s, t) && k in s.threads && s.threads[k].flip.None?
    requires forall j :: 0 <= j < |moves| ==> moves[j].thread in s.threads
    requires 0 < LookupRank(s.threads[k].local) <= Advances(moves, k)
    ensures i <= |moves| && Execute(s, t, moves[..i]).threads[k].local.Done?
    decreases |moves|
  {
    hide Inv, OrderedTable, Separated, ThreadStep;
    var m := moves[0];
    NextInv(s, t, m.thread, m.action);
    NextKeys(s, t, m.thread, m.action);
    var s1 := Next(s, t, m.thread, m.action);
    if m.thread == k { LookupMoves(s.shared, t, s.threads[k], m.action); }
    if LookupRank(s1.threads[k].local) == 0 {
      i := 1;
      assert moves[..1] == [m];
      ExecuteOne(s, t, m);
    } else {
      var j := LookupFinishes(s1, t, moves[1..], k);
      i := j + 1;
      assert moves[..i] == [m] + moves[1..][..j];
      ExecuteStep(s, t, m, moves[1..][..j]);
    }
  }

  lemma ExecuteStep(s: State, t: Table, m: Move, rest: seq<Move>)
    requires TableAssumed(t) && Inv(s, t) && m.thread in s.threads
    requires forall i :: 0 <= i < |rest| ==> rest[i].thread in s.threads
    ensures Enabled(s, t, m.thread)
    ensures var s1 := Next(s, t, m.thread, m.action);
      Inv(s1, t) && s1.threads.Keys == s.threads.Keys && Execute(s, t, [m] + rest) == Execute(s1, t, rest)
  {
    hide Inv, Next, OrderedTable, Separated;
    NextInv(s, t, m.thread, m.action);
    NextKeys(s, t, m.thread, m.action);
    assert ([m] + rest)[0] == m && ([m] + rest)[1..] == rest;
  }

  lemma ExecuteOne(s: State, t: Table, m: Move)
    requires TableAssumed(t) && Inv(s, t) && m.thread in s.threads
    ensures Enabled(s, t, m.thread) && Execute(s, t, [m]) == Next(s, t, m.thread, m.action)
  {
    hide Inv, Next, OrderedTable, Separated;
    ExecuteStep(s, t, m, []);
    assert [m] + [] == [m];
  }

  /** And a flip has dropped the table once its thread has taken so many. */
  lemma {:induction false} FlipFinishes(s: State, t: Table, moves: seq<Move>, k: nat)
    requires TableAssumed(t) && Inv(s, t) && k in s.threads && s.threads[k].flip.Some?
    requires forall j :: 0 <= j < |moves| ==> moves[j].thread in s.threads
    requires FlipRank(t, s.threads[k]) <= Advances(moves, k)
    ensures !Execute(s, t, moves).shared.live
    decreases |moves|
  {
    hide Inv, OrderedTable, Separated, ThreadStep, Grows, NameCompare, GuardOk, LocalOk;
    FlipInside(s, t, k);
    var m := moves[0];
    NextInv(s, t, m.thread, m.action);
    NextKeys(s, t, m.thread, m.action);
    var s1 := Next(s, t, m.thread, m.action);
    if m.thread == k { FlipMoves(s.shared, t, s.threads[k], m.action); }
    if s1.threads[k].flip.None? {
      ExecuteGrows(s1, t, moves[1..]);
      GrowsLive(s1.shared, Execute(s1, t, moves[1..]).shared);
    } else {
      FlipFinishes(s1, t, moves[1..], k);
    }
  }

  lemma GrowsLive(sh: Shared, sh': Shared)
    requires Grows(sh, sh')
    ensures sh'.live ==> sh.live
  {}

  lemma FlipInside(s: State, t: Table, k: nat)
    requires t.Lazy? && Inv(s, t) && k in s.threads && s.threads[k].flip.Some?
    ensures LocalInside(t, s.threads[k].local) && s.threads[k].flip.value <= |t.bs|
    ensures !s.threads[k].local.Idle? ==> s.threads[k].flip.value < |t.bs|
    ensures FlipRank(t, s.threads[k]) > 0
  {
    hide NameCompare, GuardOk, SharedOk;
    assert ThreadOk(s.shared, t, s.threads[k]);
  }

  /** A thread that does not move stays where it is. */
  lemma {:induction false} OthersMove(s: State, t: Table, moves: seq<Move>, k: nat)
    requires TableAssumed(t) && Inv(s, t) && k in s.threads
    requires forall j :: 0 <= j < |moves| ==> moves[j].thread in s.threads && moves[j].thread != k
    ensures Execute(s, t, moves).threads[k] == s.threads[k]
    decreases |moves|
  {
    hide Inv, OrderedTable, Separated, ThreadStep;
    if moves != [] {
      NextInv(s, t, moves[0].thread, moves[0].action);
      NextKeys(s, t, moves[0].thread, moves[0].action);
      OthersMove(Next(s, t, moves[0].thread, moves[0].action), t, moves[1..], k);
    }
  }

  /** What SharedOk says to anyone who finds a table name in the package, at any moment. */
  lemma VisibleIsDefined(sh: Shared, t: Table, i: nat, id: nat)
    requires TableAssumed(t) && SharedOk(sh, t) && i < |t.bs| && FindOwn(sh.cells, t.bs[i].name) == Some(id)
    ensures id in sh.heap && id in sh.exports
    ensures GuardOk(t.env, t.bs[i]) ==>
      exists d :: 0 <= d <= i && t.bs[d].name == t.bs[i].name && GuardOk(t.env, t.bs[d])
        && !DefinitionMissing(sh.heap[id], t.bs[d])
    ensures LiveField(t.env, t.bs[i]) ==>
      var setter := FindOwn(sh.cells, SetterName(t.bs[i].name));
      setter.Some? && setter.value in sh.heap && sh.heap[setter.value].fun.Some?
  {
    hide NameCompare, GuardOk, ListsOk, Separated, OrderedTable, DefinitionMissing;
    assert EntryOkIn(sh, t, t.bs[i].name);
    ScanUsableMeaning(t.bs, t.env, t.bs[i].name, 0);
    if LiveField(t.env, t.bs[i]) { assert FieldOkIn(sh, t.bs[i].name); }
  }
}
