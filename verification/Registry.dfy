/** The builtin registry (src/core/builtins.c): an open-addressed table of 2048 slots keyed by
    package and symbol name, with package names deduplicated in a pool of 16. The reference is a
    map. Names are C strings, so they hold no zero byte. */
module Registry {
  import opened Digits
  import opened BitOps

  type Name = seq<nat>

  datatype Option<+T> = None | Some(value: T)

  const SIZE: int := 2048
  const MAX_PACKAGES: int := 16

  datatype Key = Key(pkg: Name, sym: Name)

  /** `pkg` is the place of the package name in the pool. */
  datatype Entry = Entry(pkg: nat, sym: Name, fn: nat)

  // ---- the hash ----

  /** h ^= byte; h *= 16777619. */
  function Mix(h: Word32, byte: nat): Word32 {
    WordOp(Xor, h, byte % 256, 32) * 16777619 % 0x1_0000_0000
  }

  function HashBytes(h: Word32, s: Name): Word32 {
    if s == [] then h else Mix(HashBytes(h, s[..|s| - 1]), s[|s| - 1])
  }

  /** FNV-1a over the package name, a separator and the symbol name. */
  function Home(k: Key): (slot: nat)
    ensures slot < SIZE
  {
    HashBytes(Mix(HashBytes(2166136261, k.pkg), 0xFF), k.sym) % SIZE
  }

  // ---- probe chains ----

  function Wrap(home: nat, d: nat): (slot: nat)
    ensures slot < SIZE
  {
    (home + d) % SIZE
  }

  /** How many steps of linear probing lead from `home` to `slot`. */
  function Distance(home: nat, slot: nat): (d: nat)
    requires home < SIZE && slot < SIZE
    ensures d < SIZE && Wrap(home, d) == slot
  {
    if slot >= home then slot - home else slot + SIZE - home
  }

  lemma DistanceUnique(home: nat, d: nat)
    requires home < SIZE && d < SIZE
    ensures Distance(home, Wrap(home, d)) == d
  {}

  function KeyOf(pkgs: seq<Name>, e: Entry): Key
    requires e.pkg < |pkgs|
  {
    Key(pkgs[e.pkg], e.sym)
  }

  ghost predicate PoolOk(pkgs: seq<Name>) {
    |pkgs| <= MAX_PACKAGES && forall i, j :: 0 <= i < j < |pkgs| ==> pkgs[i] != pkgs[j]
  }

  ghost predicate EntriesOk(slots: seq<Option<Entry>>, pkgs: seq<Name>) {
    |slots| == SIZE && forall k :: 0 <= k < SIZE && slots[k].Some? ==> slots[k].value.pkg < |pkgs|
  }

  /** The slots hold exactly the map, each key at its place. */
  ghost predicate Holds(slots: seq<Option<Entry>>, pkgs: seq<Name>, table: map<Key, nat>, place: map<Key, nat>)
    requires EntriesOk(slots, pkgs)
  {
    && (forall k :: 0 <= k < SIZE && slots[k].Some? ==>
      var key := KeyOf(pkgs, slots[k].value);
      key in table && table[key] == slots[k].value.fn && key in place && place[key] == k)
    && (forall key :: key in table ==>
      key in place && place[key] < SIZE && slots[place[key]].Some? && KeyOf(pkgs, slots[place[key]].value) == key)
  }

  /** Every entry is reached from its home slot without a gap. */
  ghost predicate GapFree(slots: seq<Option<Entry>>, pkgs: seq<Name>)
    requires EntriesOk(slots, pkgs)
  {
    forall k, d: nat :: 0 <= k < SIZE && slots[k].Some? && d <= Distance(Home(KeyOf(pkgs, slots[k].value)), k) ==>
      slots[Wrap(Home(KeyOf(pkgs, slots[k].value)), d)].Some?
  }

  function Occupied(slots: seq<Option<Entry>>): set<nat>
    requires |slots| == SIZE
  {
    set k: nat | k < SIZE && slots[k].Some?
  }

  /** The first `d` slots from the home of `key` are taken by other keys. */
  ghost predicate Passed(slots: seq<Option<Entry>>, pkgs: seq<Name>, key: Key, d: nat)
    requires EntriesOk(slots, pkgs)
  {
    forall e: nat :: e < d ==>
      slots[Wrap(Home(key), e)].Some? && KeyOf(pkgs, slots[Wrap(Home(key), e)].value) != key
  }

  /** A key of the map is met no earlier than all the slots already passed, along slots in use. */
  lemma MetLater(slots: seq<Option<Entry>>, pkgs: seq<Name>, table: map<Key, nat>, place: map<Key, nat>, key: Key,
    d: nat)
    requires EntriesOk(slots, pkgs) && Holds(slots, pkgs, table, place) && GapFree(slots, pkgs)
    requires Passed(slots, pkgs, key, d) && key in table
    ensures d < SIZE && slots[Wrap(Home(key), d)].Some?
  {
    hide Home, Wrap;
    var dk := Distance(Home(key), place[key]);
    assert Wrap(Home(key), dk) == place[key];
    assert d <= dk;
  }

  /** An empty slot behind such a stretch means that the key is absent. */
  lemma GapMeansAbsent(slots: seq<Option<Entry>>, pkgs: seq<Name>, table: map<Key, nat>, place: map<Key, nat>,
    key: Key, d: nat)
    requires EntriesOk(slots, pkgs) && Holds(slots, pkgs, table, place) && GapFree(slots, pkgs)
    requires Passed(slots, pkgs, key, d) && (d < SIZE ==> slots[Wrap(Home(key), d)].None?)
    ensures key !in table
  {
    hide Home, Wrap, Holds, GapFree, Passed;
    if key in table { MetLater(slots, pkgs, table, place, key, d); }
  }

  function Below(n: nat): (s: set<nat>) { if n == 0 then {} else Below(n - 1) + {n - 1} }

  lemma {:induction false} BelowMeaning(n: nat)
    ensures |Below(n)| == n && forall k: nat :: k in Below(n) <==> k < n
  {
    if n > 0 { BelowMeaning(n - 1); }
  }

  lemma {:induction false} SubsetCard<T>(a: set<T>, b: set<T>)
    requires a <= b
    ensures |a| <= |b| && (|a| == |b| ==> a == b)
  {
    if a != {} {
      var x :| x in a;
      SubsetCard(a - {x}, b - {x});
    }
  }

  /** With fewer than 2048 entries some slot is empty. */
  lemma EmptySlot(slots: seq<Option<Entry>>) returns (k: nat)
    requires |slots| == SIZE && |Occupied(slots)| < SIZE
    ensures k < SIZE && slots[k].None?
  {
    BelowMeaning(SIZE);
    SubsetCard(Occupied(slots), Below(SIZE));
    assert Occupied(slots) != Below(SIZE);
    k :| k in Below(SIZE) && k !in Occupied(slots);
  }

  /** Probing stops: an empty slot lies ahead, so fewer than 2048 steps have been taken. */
  lemma ProbeEnds(slots: seq<Option<Entry>>, pkgs: seq<Name>, key: Key, d: nat)
    requires EntriesOk(slots, pkgs) && |Occupied(slots)| < SIZE && Passed(slots, pkgs, key, d)
    ensures d < SIZE
  {
    hide Home, Wrap, Occupied;
    var k := EmptySlot(slots);
    var dk := Distance(Home(key), k);
    assert Wrap(Home(key), dk) == k;
    assert d <= dk;
  }

  /** Refreshing an entry's function. */
  lemma Refreshed(slots: seq<Option<Entry>>, pkgs: seq<Name>, table: map<Key, nat>, place: map<Key, nat>, k: nat,
    fn: nat)
    requires EntriesOk(slots, pkgs) && Holds(slots, pkgs, table, place) && GapFree(slots, pkgs)
    requires k < SIZE && slots[k].Some?
    ensures var slots' := slots[k := Some(slots[k].value.(fn := fn))]; var key := KeyOf(pkgs, slots[k].value);
      && EntriesOk(slots', pkgs) && Holds(slots', pkgs, table[key := fn], place) && GapFree(slots', pkgs)
      && Occupied(slots') == Occupied(slots) && key in table
  {
    hide Home, Wrap, Distance;
    var slots' := slots[k := Some(slots[k].value.(fn := fn))];
    assert Occupied(slots') == Occupied(slots);
    forall j | 0 <= j < SIZE ensures slots'[j].Some? == slots[j].Some? {}
    forall j | 0 <= j < SIZE && slots'[j].Some? ensures KeyOf(pkgs, slots'[j].value) == KeyOf(pkgs, slots[j].value) {}
  }

  /** Taking the empty slot at the end of a stretch. */
  lemma Inserted(slots: seq<Option<Entry>>, pkgs: seq<Name>, table: map<Key, nat>, place: map<Key, nat>, e: Entry,
    d: nat)
    requires EntriesOk(slots, pkgs) && Holds(slots, pkgs, table, place) && GapFree(slots, pkgs)
    requires e.pkg < |pkgs| && d < SIZE && Passed(slots, pkgs, KeyOf(pkgs, e), d)
    requires slots[Wrap(Home(KeyOf(pkgs, e)), d)].None?
    ensures var key := KeyOf(pkgs, e); var k := Wrap(Home(key), d); var slots' := slots[k := Some(e)];
      && EntriesOk(slots', pkgs) && Holds(slots', pkgs, table[key := e.fn], place[key := k]) && GapFree(slots', pkgs)
      && |Occupied(slots')| == |Occupied(slots)| + 1 && key !in table
  {
    hide Home, Wrap, Distance, Holds, GapFree, Passed;
    var key := KeyOf(pkgs, e);
    var k := Wrap(Home(key), d);
    var slots' := slots[k := Some(e)];
    GapMeansAbsent(slots, pkgs, table, place, key, d);
    assert Occupied(slots') == Occupied(slots) + {k} && k !in Occupied(slots);
    InsertedHolds(slots, pkgs, table, place, e, k);
    InsertedGapFree(slots, pkgs, e, d);
  }

  lemma InsertedHolds(slots: seq<Option<Entry>>, pkgs: seq<Name>, table: map<Key, nat>, place: map<Key, nat>,
    e: Entry, k: nat)
    requires EntriesOk(slots, pkgs) && Holds(slots, pkgs, table, place)
    requires e.pkg < |pkgs| && k < SIZE && slots[k].None? && KeyOf(pkgs, e) !in table
    ensures EntriesOk(slots[k := Some(e)], pkgs)
    ensures Holds(slots[k := Some(e)], pkgs, table[KeyOf(pkgs, e) := e.fn], place[KeyOf(pkgs, e) := k])
  {}

  lemma InsertedGapFree(slots: seq<Option<Entry>>, pkgs: seq<Name>, e: Entry, d: nat)
    requires EntriesOk(slots, pkgs) && GapFree(slots, pkgs)
    requires e.pkg < |pkgs| && d < SIZE && Passed(slots, pkgs, KeyOf(pkgs, e), d)
    requires EntriesOk(slots[Wrap(Home(KeyOf(pkgs, e)), d) := Some(e)], pkgs)
    ensures GapFree(slots[Wrap(Home(KeyOf(pkgs, e)), d) := Some(e)], pkgs)
  {
    hide Home, Wrap, Distance;
    var key := KeyOf(pkgs, e);
    var k := Wrap(Home(key), d);
    var slots' := slots[k := Some(e)];
    DistanceUnique(Home(key), d);
    forall j, c: nat | 0 <= j < SIZE && slots'[j].Some? && c <= Distance(Home(KeyOf(pkgs, slots'[j].value)), j)
      ensures slots'[Wrap(Home(KeyOf(pkgs, slots'[j].value)), c)].Some?
    {
      if j != k { assert slots[Wrap(Home(KeyOf(pkgs, slots[j].value)), c)].Some?; }
    }
  }

  /** A new name in the pool leaves every entry's key alone. */
  lemma PoolGrows(slots: seq<Option<Entry>>, pkgs: seq<Name>, table: map<Key, nat>, place: map<Key, nat>, name: Name)
    requires EntriesOk(slots, pkgs) && Holds(slots, pkgs, table, place) && GapFree(slots, pkgs)
    ensures EntriesOk(slots, pkgs + [name]) && Holds(slots, pkgs + [name], table, place) &&
      GapFree(slots, pkgs + [name])
  {
    hide Home, Wrap, Distance;
    forall k | 0 <= k < SIZE && slots[k].Some?
      ensures slots[k].value.pkg < |pkgs| && KeyOf(pkgs + [name], slots[k].value) == KeyOf(pkgs, slots[k].value)
    {}
  }

  // ---- the reference ----

  datatype Registration = Registration(key: Key, fn: nat)

  /** The map and the pool, with the limits of both. */
  datatype Contents = Contents(table: map<Key, nat>, pkgs: set<Name>)

  function Register(c: Contents, r: Registration): Contents {
    if r.key.pkg !in c.pkgs && |c.pkgs| >= MAX_PACKAGES then c
    else
      var pkgs := c.pkgs + {r.key.pkg};
      if r.key in c.table || |c.table| < SIZE - 1 then Contents(c.table[r.key := r.fn], pkgs)
      else Contents(c.table, pkgs)
  }

  function RegisterAll(c: Contents, rs: seq<Registration>): Contents {
    if rs == [] then c else Register(RegisterAll(c, rs[..|rs| - 1]), rs[|rs| - 1])
  }

  function Packages(rs: seq<Registration>): set<Name> { set i | 0 <= i < |rs| :: rs[i].key.pkg }

  function Keys(rs: seq<Registration>): set<Key> { set i | 0 <= i < |rs| :: rs[i].key }

  /** The function a key was last registered with. */
  function Last(rs: seq<Registration>, key: Key): Option<nat> {
    if rs == [] then None
    else if rs[|rs| - 1].key == key then Some(rs[|rs| - 1].fn)
    else Last(rs[..|rs| - 1], key)
  }

  /** Within both capacities the registry holds, for every key, its last registration. */
  lemma {:induction false} WithinCapacity(rs: seq<Registration>)
    requires |Packages(rs)| <= MAX_PACKAGES && |Keys(rs)| <= SIZE - 1
    ensures var c := RegisterAll(Contents(map[], {}), rs);
      && c.pkgs == Packages(rs) && c.table.Keys == Keys(rs)
      && forall key :: key in c.table ==> Last(rs, key) == Some(c.table[key])
  {
    hide Packages, Keys;
    if rs == [] {
      NoKeys(rs);
    } else {
      var rest, r := rs[..|rs| - 1], rs[|rs| - 1];
      LastKey(rs);
      SubsetCard(Packages(rest), Packages(rs));
      SubsetCard(Keys(rest), Keys(rs));
      WithinCapacity(rest);
      var c := RegisterAll(Contents(map[], {}), rest);
      RoomForOne(c, r);
      assert RegisterAll(Contents(map[], {}), rs) == Contents(c.table[r.key := r.fn], c.pkgs + {r.key.pkg});
    }
  }

  lemma NoKeys(rs: seq<Registration>)
    requires rs == []
    ensures Packages(rs) == {} && Keys(rs) == {}
  {}

  lemma LastKey(rs: seq<Registration>)
    requires rs != []
    ensures var rest, r := rs[..|rs| - 1], rs[|rs| - 1];
      Packages(rs) == Packages(rest) + {r.key.pkg} && Keys(rs) == Keys(rest) + {r.key}
  {
    var rest, r := rs[..|rs| - 1], rs[|rs| - 1];
    assert rs == rest + [r];
    assert Packages(rs) == Packages(rest) + {r.key.pkg};
    assert Keys(rs) == Keys(rest) + {r.key};
  }

  lemma RoomForOne(c: Contents, r: Registration)
    requires |c.pkgs + {r.key.pkg}| <= MAX_PACKAGES && |c.table.Keys + {r.key}| <= SIZE - 1
    ensures Register(c, r) == Contents(c.table[r.key := r.fn], c.pkgs + {r.key.pkg})
  {
    if r.key !in c.table { assert |c.table.Keys + {r.key}| == |c.table| + 1; }
  }

  // ---- the table itself ----

  class BuiltinRegistry {
    const slots: array<Option<Entry>>
    var count: nat
    var pkgs: seq<Name>
    ghost var table: map<Key, nat>
    ghost var place: map<Key, nat>

    ghost predicate Valid()
      reads this, slots
    {
      && slots.Length == SIZE
      && PoolOk(pkgs)
      && EntriesOk(slots[..], pkgs)
      && Holds(slots[..], pkgs, table, place)
      && GapFree(slots[..], pkgs)
      && count == |Occupied(slots[..])| == |table| <= SIZE - 1
    }

    ghost function View(): Contents
      reads this
    {
      Contents(table, set n | n in pkgs)
    }

    constructor ()
      ensures Valid() && View() == Contents(map[], {})
    {
      slots := new Option<Entry>[SIZE](_ => None);
      count, pkgs, table, place := 0, [], map[], map[];
      new;
      assert Occupied(slots[..]) == {};
    }

    /** builtin_reg_intern_pkg. */
    method InternPackage(name: Name) returns (r: Option<nat>)
      requires Valid()
      modifies this`pkgs
      ensures Valid()
      ensures r.None? <==> name !in old(pkgs) && |old(pkgs)| >= MAX_PACKAGES
      ensures r.None? ==> pkgs == old(pkgs)
      ensures r.Some? ==> r.value < |pkgs| && pkgs[r.value] == name
      ensures r.Some? ==> pkgs == if name in old(pkgs) then old(pkgs) else old(pkgs) + [name]
    {
      hide Holds, GapFree, EntriesOk;
      for i := 0 to |pkgs|
        invariant name !in pkgs[..i]
      {
        if pkgs[i] == name { return Some(i); }
      }
      assert pkgs[..|pkgs|] == pkgs;
      if |pkgs| >= MAX_PACKAGES { return None; }
      PoolGrows(slots[..], pkgs, table, place, name);
      pkgs := pkgs + [name];
      r := Some(|pkgs| - 1);
    }

    /** builtin_reg_insert. The probing loop ends because a slot always stays empty. */
    method Insert(key: Key, fn: nat)
      requires Valid()
      modifies this, slots
      ensures Valid()
      ensures View() == Register(old(View()), Registration(key, fn))
    {
      hide Holds, GapFree, Home, Wrap, Distance, PoolOk;
      PoolSize(pkgs);
      var pkg := InternPackage(key.pkg);
      if pkg.None? { return; }
      Place(key, pkg.value, fn);
    }

    method Place(key: Key, pkg: nat, fn: nat)
      requires Valid() && pkg < |pkgs| && pkgs[pkg] == key.pkg
      modifies this`count, this`table, this`place, slots
      ensures Valid()
      ensures table == if key in old(table) || |old(table)| < SIZE - 1 then old(table)[key := fn] else old(table)
    {
      hide Holds, GapFree, Home, Wrap, Distance, EntriesOk, PoolOk, Occupied, Passed;
      ghost var before := slots[..];
      ghost var d := 0;
      var slot := Home(key);
      NothingPassed(before, pkgs, key);
      while true
        invariant slots[..] == before && Passed(before, pkgs, key, d)
        invariant slot == Wrap(Home(key), d) && slot < SIZE
        invariant count == old(count) && table == old(table) && place == old(place)
        decreases SIZE - d
      {
        ProbeEnds(before, pkgs, key, d);
        EntryInPool(before, pkgs, slot);
        if slots[slot].None? {
          GapMeansAbsent(before, pkgs, table, place, key, d);
          if count >= SIZE - 1 { return; }
          var e := Entry(pkg, key.sym, fn);
          assert KeyOf(pkgs, e) == key;
          Inserted(before, pkgs, table, place, e, d);
          slots[slot] := Some(e);
          assert slots[..] == before[slot := Some(e)];
          count := count + 1;
          table, place := table[key := fn], place[key := slot];
          return;
        }
        var e := slots[slot].value;
        SameKey(pkgs, e, key, pkg);
        if e.pkg == pkg && e.sym == key.sym {
          Refreshed(before, pkgs, table, place, slot, fn);
          slots[slot] := Some(e.(fn := fn));
          assert slots[..] == before[slot := Some(e.(fn := fn))];
          table := table[key := fn];
          return;
        }
        OnePassed(before, pkgs, key, d);
        slot := (slot + 1) % SIZE;
        d := d + 1;
      }
    }

    /** cl_builtin_registry_lookup. */
    method Lookup(key: Key) returns (r: Option<nat>)
      requires Valid()
      ensures r == if key in table then Some(table[key]) else None
    {
      hide Holds, GapFree, Home, Wrap, Distance, EntriesOk, PoolOk, Passed, Occupied;
      ghost var s := slots[..];
      var slot := Home(key);
      var probes := 0;
      NothingPassed(s, pkgs, key);
      while probes < SIZE
        invariant 0 <= probes <= SIZE && Passed(s, pkgs, key, probes)
        invariant slot == Wrap(Home(key), probes) && slot < SIZE
      {
        EntryInPool(s, pkgs, slot);
        if slots[slot].None? {
          GapMeansAbsent(s, pkgs, table, place, key, probes);
          return None;
        }
        var e := slots[slot].value;
        if pkgs[e.pkg] == key.pkg && e.sym == key.sym {
          EntryHolds(s, pkgs, table, place, slot);
          return Some(e.fn);
        }
        OnePassed(s, pkgs, key, probes);
        slot := (slot + 1) % SIZE;
        probes := probes + 1;
      }
      GapMeansAbsent(s, pkgs, table, place, key, SIZE);
      r := None;
    }

    /** Any sequence of registrations: the table holds what the map does. */
    method InsertAll(rs: seq<Registration>)
      requires Valid()
      modifies this, slots
      ensures Valid() && View() == RegisterAll(old(View()), rs)
    {
      hide Valid, Register;
      ghost var start := View();
      for i := 0 to |rs|
        invariant Valid() && View() == RegisterAll(start, rs[..i])
      {
        Insert(rs[i].key, rs[i].fn);
        assert rs[..i + 1][..i] == rs[..i];
        assert Registration(rs[i].key, rs[i].fn) == rs[i];
      }
      assert rs[..|rs|] == rs;
    }
  }

  lemma PoolSize(pkgs: seq<Name>)
    requires PoolOk(pkgs)
    ensures |set n | n in pkgs| == |pkgs|
  {
    DistinctCard(pkgs);
  }

  lemma {:induction false} DistinctCard(s: seq<Name>)
    requires forall i, j :: 0 <= i < j < |s| ==> s[i] != s[j]
    ensures |set n | n in s| == |s|
  {
    if s != [] {
      var rest := s[..|s| - 1];
      DistinctCard(rest);
      assert s == rest + [s[|s| - 1]];
      assert (set n | n in s) == (set n | n in rest) + {s[|s| - 1]};
    }
  }

  lemma NothingPassed(slots: seq<Option<Entry>>, pkgs: seq<Name>, key: Key)
    requires EntriesOk(slots, pkgs)
    ensures Passed(slots, pkgs, key, 0) && Wrap(Home(key), 0) == Home(key)
  {
    hide Home;
  }

  lemma EntryInPool(slots: seq<Option<Entry>>, pkgs: seq<Name>, k: nat)
    requires EntriesOk(slots, pkgs) && k < SIZE
    ensures |slots| == SIZE && (slots[k].Some? ==> slots[k].value.pkg < |pkgs|)
  {}

  lemma OnePassed(slots: seq<Option<Entry>>, pkgs: seq<Name>, key: Key, d: nat)
    requires EntriesOk(slots, pkgs) && Passed(slots, pkgs, key, d)
    requires slots[Wrap(Home(key), d)].Some? && KeyOf(pkgs, slots[Wrap(Home(key), d)].value) != key
    ensures Passed(slots, pkgs, key, d + 1)
    ensures (Wrap(Home(key), d) + 1) % SIZE == Wrap(Home(key), d + 1)
  {
    hide Home;
  }

  /** In a pool without repetition, places decide names. */
  lemma SameKey(pkgs: seq<Name>, e: Entry, key: Key, pkg: nat)
    requires PoolOk(pkgs) && e.pkg < |pkgs| && pkg < |pkgs| && pkgs[pkg] == key.pkg
    ensures KeyOf(pkgs, e) == key <==> e.pkg == pkg && e.sym == key.sym
  {}

  lemma EntryHolds(slots: seq<Option<Entry>>, pkgs: seq<Name>, table: map<Key, nat>, place: map<Key, nat>, k: nat)
    requires EntriesOk(slots, pkgs) && Holds(slots, pkgs, table, place) && k < SIZE && slots[k].Some?
    ensures var key := KeyOf(pkgs, slots[k].value); key in table && table[key] == slots[k].value.fn
  {}
}
