/** Looking a name up in a binding table: binary search, guards evaluated at probe time,
    derived setter names (src/core/bindtab.c, lower_bound to cl_bindtab_probe_nolock).
    The reference is a scan of the entries from the front. */
module TableProbe {
  import opened Names
  import opened TableFormat

  /** One decoded entry with the name and the value it refers to. */
  datatype Binding =
    Binding(name: Name, kind: Byte, flags: Byte, a: int, b: int, c: Byte, d: Byte, value: TableValue)

  function BindingAt(s: Blob, i: nat): Binding
    requires WellFormed(s) && i < EntryCount(s)
  {
    var e := DecodeEntry(s, i);
    var value := if HoldsValue(e.kind) then StoredValue(Arena(s), e.flags, e.a) else Number(0);
    Binding(EntryName(Arena(s), e), e.kind, e.flags, e.a, e.b, e.c, e.d, value)
  }

  /** The table a blob stands for. */
  function Bindings(s: Blob): (bs: seq<Binding>)
    requires WellFormed(s)
    ensures |bs| == EntryCount(s)
  {
    seq(EntryCount(s), i requires 0 <= i < EntryCount(s) => BindingAt(s, i))
  }

  function BindingNames(bs: seq<Binding>): (names: seq<Name>)
    ensures |names| == |bs|
  {
    seq(|bs|, i requires 0 <= i < |bs| => bs[i].name)
  }

  /** What validation gives the lookup: order, repetition of library calls only, and readers of fields. */
  ghost predicate OrderedTable(bs: seq<Binding>) {
    && (forall i :: 0 <= i < |bs| ==> bs[i].name != [])
    && NamesSorted(BindingNames(bs))
    && (forall i, j :: 0 <= i < j < |bs| && bs[i].name == bs[j].name ==>
      bs[i].kind == KIND_LIBCALL && bs[j].kind == KIND_LIBCALL)
    && (forall i :: 0 <= i < |bs| ==> ReaderOk(bs[i]))
  }

  /** The stub of a field is one of the three that read. */
  predicate ReaderOk(b: Binding) {
    b.kind == KIND_FIELD ==> b.d == STUB_PEEK || b.d == STUB_PEEK_IDX || b.d == STUB_FIELD_PTR
  }

  lemma {:induction false} ValidTableOrdered(s: Blob)
    requires WellFormed(s)
    ensures OrderedTable(Bindings(s))
  {
    hide EntryOk, NameCompare, StoredValue;
    var bs := Bindings(s);
    var names := BindingNames(bs);
    forall i | 0 < i < |bs|
      ensures PairOk(names[i - 1], bs[i - 1].kind, names[i], bs[i].kind)
    {
      NameOfEntry(Arena(s), DecodeEntry(s, i - 1));
      NameOfEntry(Arena(s), DecodeEntry(s, i));
      assert PairOkAt(s, i);
    }
    NeighboursSorted(names);
    forall i, j | 0 <= i < j < |bs| && names[i] == names[j]
      ensures bs[i].kind == KIND_LIBCALL && bs[j].kind == KIND_LIBCALL
    {
      EqualsAdjacent(names, i, i + 1, j);
      EqualsAdjacent(names, i, j - 1, j);
      assert PairOk(names[i], bs[i].kind, names[i + 1], bs[i + 1].kind);
      assert PairOk(names[j - 1], bs[j - 1].kind, names[j], bs[j].kind);
    }
    forall i | 0 <= i < |bs| ensures bs[i].name != [] && ReaderOk(bs[i]) {
      NamePresent(Arena(s), DecodeEntry(s, i));
    }
  }

  lemma NamePresent(arena: Blob, e: Entry)
    requires EntryOk(arena, e)
    ensures NameInside(arena, e) && EntryName(arena, e) != []
    ensures e.kind == KIND_FIELD ==> e.d == STUB_PEEK || e.d == STUB_PEEK_IDX || e.d == STUB_FIELD_PTR
  {}

  // ---- guards ----

  /** What guards depend on: :MORPHOS in *FEATURES*, and the value of the module's version
      variable when there is one and it holds a fixnum. */
  datatype Environment = Environment(morphos: bool, version: Option<int>)

  predicate GuardOk(env: Environment, b: Binding) {
    && !(HasFlag(b.flags, NOT_MORPHOS) && env.morphos)
    && !(HasFlag(b.flags, MORPHOS) && !env.morphos)
    && (b.kind == KIND_LIBCALL && b.d != 0 ==> env.version.Some? && env.version.value >= b.d)
  }

  predicate WritableField(b: Binding) {
    b.kind == KIND_FIELD && b.d != STUB_FIELD_PTR
  }

  predicate PlatformFlags(flags: Byte) { HasFlag(flags, NOT_MORPHOS) || HasFlag(flags, MORPHOS) }

  /** The packer gives platform guards to library calls only. */
  predicate CallsOnlyGuarded(bs: seq<Binding>) {
    forall k :: 0 <= k < |bs| && bs[k].kind != KIND_LIBCALL ==> !PlatformFlags(bs[k].flags)
  }

  /** The buffers the materialiser copies a name and its setter's name into. */
  const NAME_BUFFER: int := 256
  const SETTER_BUFFER: int := 262

  /** Every name fits the buffer; the validator does not ask for it. */
  ghost predicate NamesFit(bs: seq<Binding>) {
    forall k :: 0 <= k < |bs| ==> |bs[k].name| <= NAME_BUFFER
  }

  const SETTER_PREFIX: Name := [0x25, 0x53, 0x45, 0x54, 0x2D]

  /** %SET-<field>. */
  function SetterName(field: Name): (n: Name)
    ensures |n| == |field| + 5 && n[5..] == field
  {
    SETTER_PREFIX + field
  }

  // ---- the reference: scan from the front ----

  /** The outcome of a probe. `def` is -1 when no variant passes its guard. */
  datatype Hit = Miss | Named(first: nat, def: int) | Setter(entry: nat)

  function ScanName(bs: seq<Binding>, name: Name, i: nat): (k: nat)
    requires i <= |bs|
    ensures i <= k <= |bs|
    decreases |bs| - i
  {
    if i == |bs| || bs[i].name == name then i else ScanName(bs, name, i + 1)
  }

  function ScanUsable(bs: seq<Binding>, env: Environment, name: Name, i: nat): (k: int)
    requires i <= |bs|
    ensures k == -1 || i <= k < |bs|
    decreases |bs| - i
  {
    if i == |bs| then -1
    else if bs[i].name == name && GuardOk(env, bs[i]) then i
    else ScanUsable(bs, env, name, i + 1)
  }

  function ScanWritable(bs: seq<Binding>, name: Name, i: nat): (k: int)
    requires i <= |bs|
    ensures k == -1 || i <= k < |bs|
    decreases |bs| - i
  {
    if i == |bs| then -1
    else if bs[i].name == name && WritableField(bs[i]) then i
    else ScanWritable(bs, name, i + 1)
  }

  function LinearProbe(bs: seq<Binding>, env: Environment, name: Name, allowSetter: bool): Hit {
    if ScanName(bs, name, 0) < |bs| then
      Named(ScanName(bs, name, 0), ScanUsable(bs, env, name, 0))
    else if allowSetter && |name| > 5 && name[..5] == SETTER_PREFIX && ScanWritable(bs, name[5..], 0) >= 0 then
      Setter(ScanWritable(bs, name[5..], 0))
    else
      Miss
  }

  lemma {:induction false} ScanNameFirst(bs: seq<Binding>, name: Name, i: nat, k: nat)
    requires i <= k <= |bs|
    requires forall j :: i <= j < k ==> bs[j].name != name
    requires k < |bs| ==> bs[k].name == name
    ensures ScanName(bs, name, i) == k
    decreases k - i
  {
    if i < k { ScanNameFirst(bs, name, i + 1, k); }
  }

  lemma {:induction false} ScanUsableFirst(bs: seq<Binding>, env: Environment, name: Name, i: nat, k: int)
    requires 0 <= i <= |bs| && (k == -1 || i <= k < |bs|)
    requires forall j :: i <= j < (if k == -1 then |bs| else k) ==> bs[j].name != name || !GuardOk(env, bs[j])
    requires k >= 0 ==> bs[k].name == name && GuardOk(env, bs[k])
    ensures ScanUsable(bs, env, name, i) == k
    decreases |bs| - i
  {
    hide GuardOk;
    if i < |bs| && i != k { ScanUsableFirst(bs, env, name, i + 1, k); }
  }

  lemma {:induction false} ScanWritableFirst(bs: seq<Binding>, name: Name, i: nat, k: int)
    requires 0 <= i <= |bs| && (k == -1 || i <= k < |bs|)
    requires forall j :: i <= j < (if k == -1 then |bs| else k) ==> bs[j].name != name || !WritableField(bs[j])
    requires k >= 0 ==> bs[k].name == name && WritableField(bs[k])
    ensures ScanWritable(bs, name, i) == k
    decreases |bs| - i
  {
    if i < |bs| && i != k { ScanWritableFirst(bs, name, i + 1, k); }
  }

  predicate Defines(bs: seq<Binding>, name: Name) {
    exists k :: 0 <= k < |bs| && bs[k].name == name
  }

  /** What a probe promises, entry by entry. */
  ghost predicate HitMeans(bs: seq<Binding>, env: Environment, name: Name, allowSetter: bool, hit: Hit) {
    match hit
    case Miss =>
      && !Defines(bs, name)
      && (allowSetter ==> forall k :: 0 <= k < |bs| && WritableField(bs[k]) ==> SetterName(bs[k].name) != name)
    case Named(first, def) =>
      && first < |bs| && bs[first].name == name
      && (forall k :: 0 <= k < first ==> bs[k].name != name)
      && (def == -1 ==> forall k :: 0 <= k < |bs| && bs[k].name == name ==> !GuardOk(env, bs[k]))
      && (def != -1 ==>
        && first <= def < |bs| && bs[def].name == name && GuardOk(env, bs[def])
        && forall k :: first <= k < def ==> bs[k].name == name && !GuardOk(env, bs[k]))
    case Setter(entry) =>
      allowSetter && !Defines(bs, name)
      && entry < |bs| && WritableField(bs[entry]) && SetterName(bs[entry].name) == name
  }

  lemma {:induction false} ScanNameMeaning(bs: seq<Binding>, name: Name, i: nat)
    requires i <= |bs|
    ensures forall j :: i <= j < ScanName(bs, name, i) ==> bs[j].name != name
    ensures ScanName(bs, name, i) < |bs| ==> bs[ScanName(bs, name, i)].name == name
    decreases |bs| - i
  {
    if i < |bs| && bs[i].name != name { ScanNameMeaning(bs, name, i + 1); }
  }

  lemma {:induction false} ScanUsableMeaning(bs: seq<Binding>, env: Environment, name: Name, i: nat)
    requires i <= |bs|
    ensures var k := ScanUsable(bs, env, name, i);
      && (k == -1 ==> forall j :: i <= j < |bs| && bs[j].name == name ==> !GuardOk(env, bs[j]))
      && (k != -1 ==> bs[k].name == name && GuardOk(env, bs[k]))
      && (k != -1 ==> forall j :: i <= j < k && bs[j].name == name ==> !GuardOk(env, bs[j]))
    decreases |bs| - i
  {
    hide GuardOk;
    if i < |bs| && !(bs[i].name == name && GuardOk(env, bs[i])) { ScanUsableMeaning(bs, env, name, i + 1); }
  }

  lemma {:induction false} ScanWritableMeaning(bs: seq<Binding>, name: Name, i: nat)
    requires i <= |bs|
    ensures var k := ScanWritable(bs, name, i);
      && (k == -1 ==> forall j :: i <= j < |bs| && bs[j].name == name ==> !WritableField(bs[j]))
      && (k != -1 ==> bs[k].name == name && WritableField(bs[k]))
    decreases |bs| - i
  {
    if i < |bs| && !(bs[i].name == name && WritableField(bs[i])) { ScanWritableMeaning(bs, name, i + 1); }
  }

  /** A probe hits exactly when an entry has the name, or the name is the setter of a writable field. */
  lemma ProbeMeaning(bs: seq<Binding>, env: Environment, name: Name, allowSetter: bool)
    requires OrderedTable(bs)
    ensures HitMeans(bs, env, name, allowSetter, LinearProbe(bs, env, name, allowSetter))
  {
    hide GuardOk, NameCompare;
    ScanNameMeaning(bs, name, 0);
    var first := ScanName(bs, name, 0);
    if first < |bs| {
      ScanUsableMeaning(bs, env, name, 0);
      var def := ScanUsable(bs, env, name, 0);
      if def != -1 {
        forall k | first <= k < def ensures bs[k].name == name && !GuardOk(env, bs[k]) {
          EqualsAdjacent(BindingNames(bs), first, k, def);
        }
      }
    } else {
      forall k | 0 <= k < |bs| && WritableField(bs[k]) && SetterName(bs[k].name) == name
        ensures |name| > 5 && name[..5] == SETTER_PREFIX && name[5..] == bs[k].name
      {}
      if |name| > 5 && name[..5] == SETTER_PREFIX {
        assert name == SetterName(name[5..]);
        ScanWritableMeaning(bs, name[5..], 0);
      }
    }
  }

  // ---- the binary search ----

  function NameAt(s: Blob, i: nat): Name
    requires WellFormed(s) && i < EntryCount(s)
  {
    NameOfEntry(Arena(s), DecodeEntry(s, i));
    EntryName(Arena(s), DecodeEntry(s, i))
  }

  lemma NamesOfBlob(s: Blob)
    requires WellFormed(s)
    ensures |s| >= HEADER
    ensures forall i :: 0 <= i < EntryCount(s) ==> NameAt(s, i) == Bindings(s)[i].name
    ensures OrderedTable(Bindings(s))
  {
    ValidTableOrdered(s);
  }

  /** lower_bound. */
  method LowerBound(s: Blob, name: Name) returns (lo: nat)
    requires WellFormed(s)
    ensures lo <= EntryCount(s)
    ensures forall k :: 0 <= k < lo ==> Precedes(Bindings(s)[k].name, name)
    ensures forall k :: lo <= k < EntryCount(s) ==> NotAfter(name, Bindings(s)[k].name)
  {
    hide WellFormed, BindingAt, NameAt, NameCompare, EntryCount;
    NamesOfBlob(s);
    ghost var bs := Bindings(s);
    ghost var names := BindingNames(bs);
    lo := 0;
    var hi: nat := EntryCount(s);
    while lo < hi
      invariant lo <= hi <= |bs|
      invariant forall k :: 0 <= k < lo ==> Precedes(names[k], name)
      invariant forall k :: hi <= k < |bs| ==> NotAfter(name, names[k])
    {
      var mid := lo + (hi - lo) / 2;
      var c := NameCompare(NameAt(s, mid), name);
      if c < 0 {
        BelowMiddle(names, mid, name);
        lo := mid + 1;
      } else {
        AboveMiddle(names, mid, name);
        hi := mid;
      }
    }
    assert forall k :: 0 <= k < |bs| ==> names[k] == bs[k].name;
  }

  lemma BelowMiddle(names: seq<Name>, mid: nat, name: Name)
    requires NamesSorted(names) && mid < |names| && Precedes(names[mid], name)
    ensures forall k :: 0 <= k <= mid ==> Precedes(names[k], name)
  {
    forall k | 0 <= k < mid ensures Precedes(names[k], name) {
      CompareTransitive(names[k], names[mid], name);
    }
  }

  lemma AboveMiddle(names: seq<Name>, mid: nat, name: Name)
    requires NamesSorted(names) && mid < |names| && !Precedes(names[mid], name)
    ensures forall k :: mid <= k < |names| ==> NotAfter(name, names[k])
  {
    CompareSwap(name, names[mid]);
    forall k | mid < k < |names| ensures NotAfter(name, names[k]) {
      CompareTransitive(name, names[mid], names[k]);
    }
  }

  /** The lower bound is where the name would be: at it, or nowhere. */
  lemma BoundIsScan(bs: seq<Binding>, name: Name, lo: nat)
    requires OrderedTable(bs) && lo <= |bs|
    requires forall k :: 0 <= k < lo ==> Precedes(bs[k].name, name)
    requires forall k :: lo <= k < |bs| ==> NotAfter(name, bs[k].name)
    ensures forall k :: 0 <= k < lo ==> bs[k].name != name
    ensures lo < |bs| && bs[lo].name == name ==> ScanName(bs, name, 0) == lo
    ensures !(lo < |bs| && bs[lo].name == name) ==>
      ScanName(bs, name, 0) == |bs| && forall k :: 0 <= k < |bs| ==> bs[k].name != name
  {
    hide NameCompare;
    forall k | 0 <= k < lo ensures bs[k].name != name { CompareZero(name, name); }
    if lo < |bs| && bs[lo].name == name {
      ScanNameFirst(bs, name, 0, lo);
    } else {
      forall k | lo <= k < |bs| ensures bs[k].name != name {
        var names := BindingNames(bs);
        if bs[k].name == name {
          CompareZero(name, bs[lo].name);
          CompareTransitive(name, names[lo], names[k]);
          CompareZero(name, name);
        }
      }
      ScanNameFirst(bs, name, 0, |bs|);
    }
  }

  /** cl_bindtab_probe_nolock is the linear scan, for every valid table. */
  method Probe(s: Blob, env: Environment, name: Name, allowSetter: bool) returns (hit: Hit)
    requires WellFormed(s)
    ensures hit == LinearProbe(Bindings(s), env, name, allowSetter)
  {
    hide WellFormed, BindingAt, NameCompare, EntryCount, NameAt, GuardOk;
    ghost var bs := Bindings(s);
    NamesOfBlob(s);
    var i := LowerBound(s, name);
    BoundIsScan(bs, name, i);
    if i < EntryCount(s) && NameAt(s, i) == name {
      var def := ProbeVariants(s, env, name, i);
      return Named(i, def);
    }
    if allowSetter && |name| > 5 && name[..5] == SETTER_PREFIX {
      var field := name[5..];
      i := LowerBound(s, field);
      BoundIsScan(bs, field, i);
      if i < EntryCount(s) && NameAt(s, i) == field {
        var b := BindingAt(s, i);
        WritableIsFirst(bs, field, i);
        if WritableField(b) { return Setter(i); }
      } else {
        ScanWritableFirst(bs, field, 0, -1);
      }
    }
    hit := Miss;
  }

  /** A repeated name is a library call, so the first entry tells whether a field is meant. */
  lemma WritableIsFirst(bs: seq<Binding>, field: Name, i: nat)
    requires OrderedTable(bs) && i < |bs| && bs[i].name == field
    requires forall k :: 0 <= k < i ==> bs[k].name != field
    ensures ScanWritable(bs, field, 0) == if WritableField(bs[i]) then i else -1
  {
    ScanWritableFirst(bs, field, 0, if WritableField(bs[i]) then i else -1);
  }

  /** The guard loop: the variants of one name are adjacent. */
  method ProbeVariants(s: Blob, env: Environment, name: Name, i: nat) returns (def: int)
    requires WellFormed(s) && i < EntryCount(s) && Bindings(s)[i].name == name
    requires forall k :: 0 <= k < i ==> Bindings(s)[k].name != name
    ensures def == ScanUsable(Bindings(s), env, name, 0)
  {
    hide WellFormed, BindingAt, NameCompare, EntryCount, NameAt, GuardOk;
    NamesOfBlob(s);
    ghost var bs := Bindings(s);
    var j := i;
    while j < EntryCount(s) && NameAt(s, j) == name
      invariant i <= j <= |bs|
      invariant forall k :: i <= k < j ==> bs[k].name == name && !GuardOk(env, bs[k])
    {
      if GuardOk(env, BindingAt(s, j)) {
        ScanUsableFirst(bs, env, name, 0, j);
        return j;
      }
      j := j + 1;
    }
    forall k | j <= k < |bs| ensures bs[k].name != name {
      if bs[k].name == name { EqualsAdjacent(BindingNames(bs), i, j, k); }
    }
    ScanUsableFirst(bs, env, name, 0, -1);
    def := -1;
  }
}
