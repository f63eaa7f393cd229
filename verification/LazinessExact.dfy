/** Exactly when laziness cannot be observed. A table that is not separated shows: some first
    lookup changes what the eager flip makes of the package. */
module LazinessExact {
  import opened Names
  import opened TableFormat
  import opened TableProbe
  import opened LazyPackages

  /** A package in which nothing is present yet. */
  function Untouched(t: Table): Package { Package(map[], {}, t, []) }

  lemma UntouchedCoherent(t: Table)
    requires t.Lazy? ==> OrderedTable(t.bs) && NamesFit(t.bs)
    ensures Coherent(Untouched(t))
  {
    hide GuardOk, NameCompare, SetterName;
  }

  /** One flip step, on a name that is not present. */
  lemma FlipStep(p: Package, name: Name)
    requires p.table.Lazy?
    ensures var q := Find(p, name, false).0;
      && q.table == p.table
      && p.exports <= q.exports <= p.exports + {name}
      && (name in p.symbols ==> q == p)
      && (forall x :: x in p.symbols ==> x in q.symbols && (p.symbols[x].fun.Some? ==> q.symbols[x].fun.Some?))
  {
    hide GuardOk, LinearProbe, Install;
    HitNames(p.table.bs, p.table.env, name, false);
    NoSetterHit(p.table.bs, p.table.env, name);
  }

  lemma NoSetterHit(bs: seq<Binding>, env: Environment, name: Name)
    ensures !LinearProbe(bs, env, name, false).Setter?
  {}

  lemma {:induction false} FlipKeeps(p: Package, i: nat)
    requires p.table.Lazy? && i <= |p.table.bs|
    ensures var q := FlipFrom(p, i);
      && p.exports <= q.exports
      && (forall x :: x in p.symbols ==> x in q.symbols && (p.symbols[x].fun.Some? ==> q.symbols[x].fun.Some?))
      && (forall x :: x in p.symbols && x !in p.exports ==> x !in q.exports)
    decreases |p.table.bs| - i
  {
    hide GuardOk, Find;
    var bs := p.table.bs;
    if i < |bs| {
      if i > 0 && bs[i - 1].name == bs[i].name {
        FlipKeeps(p, i + 1);
      } else {
        FlipStep(p, bs[i].name);
        FlipKeeps(Find(p, bs[i].name, false).0, i + 1);
      }
    }
  }

  /** The setter of a live field is also an entry: two first lookups settle its export differently. */
  lemma CollisionShows(t: Table, k: nat)
    requires t.Lazy? && OrderedTable(t.bs) && k < |t.bs| && LiveField(t.env, t.bs[k])
    requires Defines(t.bs, SetterName(t.bs[k].name))
    ensures var f := t.bs[k].name;
      Flip(Find(Untouched(t), f, true).0) != Flip(Find(Untouched(t), SetterName(f), true).0)
  {
    hide GuardOk, NameCompare, Install, SetterName, LinearProbe;
    var f, e := t.bs[k].name, Untouched(t);
    var m := SetterName(f);
    SetterNameInjective(f, f);
    FieldScans(t.bs, t.env, k);
    NamedUsable(t.bs, t.env, f, true);
    ProbeMeaning(t.bs, t.env, f, true);
    ProbeMeaning(t.bs, t.env, m, true);
    assert Defines(t.bs, f);
    var q := Find(e, f, true).0;
    assert m in q.symbols && m !in q.exports;
    FlipKeeps(q, 0);
    var q' := Find(e, m, true).0;
    assert m in q'.exports;
    FlipKeeps(q', 0);
  }

  /** A field whose guard fails has no function after the flip, unless it is itself a setter. */
  lemma {:induction false} DeadFieldUnbound(p: Package, i: nat, f: nat)
    requires p.table.Lazy? && OrderedTable(p.table.bs) && i <= |p.table.bs| && f < |p.table.bs|
    requires WritableField(p.table.bs[f]) && !GuardOk(p.table.env, p.table.bs[f])
    requires forall k :: 0 <= k < |p.table.bs| && LiveField(p.table.env, p.table.bs[k]) ==>
      !Defines(p.table.bs, SetterName(p.table.bs[k].name))
    requires p.table.bs[f].name in p.symbols ==> p.symbols[p.table.bs[f].name].fun.None?
    ensures var q := FlipFrom(p, i); p.table.bs[f].name in q.symbols ==> q.symbols[p.table.bs[f].name].fun.None?
    decreases |p.table.bs| - i
  {
    hide GuardOk, NameCompare, Find, SetterName;
    var bs := p.table.bs;
    if i < |bs| {
      if i > 0 && bs[i - 1].name == bs[i].name {
        DeadFieldUnbound(p, i + 1, f);
      } else {
        FlipStep(p, bs[i].name);
        DeadFieldStep(p, bs[i].name, f);
        DeadFieldUnbound(Find(p, bs[i].name, false).0, i + 1, f);
      }
    }
  }

  lemma DeadFieldStep(p: Package, name: Name, f: nat)
    requires p.table.Lazy? && OrderedTable(p.table.bs) && f < |p.table.bs|
    requires WritableField(p.table.bs[f]) && !GuardOk(p.table.env, p.table.bs[f])
    requires forall k :: 0 <= k < |p.table.bs| && LiveField(p.table.env, p.table.bs[k]) ==>
      !Defines(p.table.bs, SetterName(p.table.bs[k].name))
    requires p.table.bs[f].name in p.symbols ==> p.symbols[p.table.bs[f].name].fun.None?
    ensures var q := Find(p, name, false).0;
      p.table.bs[f].name in q.symbols ==> q.symbols[p.table.bs[f].name].fun.None?
  {
    hide GuardOk, NameCompare, LinearProbe, Install, SetterName;
    var t := p.table;
    ProbeMeaning(t.bs, t.env, name, false);
    FieldScans(t.bs, t.env, f);
    assert Defines(t.bs, t.bs[f].name);
    match LinearProbe(t.bs, t.env, name, false)
    case Named(first, def) =>
      if def != -1 && WritableField(t.bs[def]) { assert LiveField(t.env, t.bs[def]); }
    case _ =>
  }

  /** A field whose guard fails and whose setter is not an entry: looking the setter up defines it. */
  lemma DeadFieldShows(t: Table, f: nat)
    requires t.Lazy? && OrderedTable(t.bs) && f < |t.bs| && WritableField(t.bs[f]) && !GuardOk(t.env, t.bs[f])
    requires !Defines(t.bs, SetterName(t.bs[f].name))
    requires forall k :: 0 <= k < |t.bs| && LiveField(t.env, t.bs[k]) ==> !Defines(t.bs, SetterName(t.bs[k].name))
    ensures Flip(Find(Untouched(t), SetterName(t.bs[f].name), true).0) != Flip(Untouched(t))
  {
    hide GuardOk, NameCompare, LinearProbe, SetterName;
    var n, e := t.bs[f].name, Untouched(t);
    var m := SetterName(n);
    SetterNameInjective(n, n);
    ProbeMeaning(t.bs, t.env, m, true);
    assert LinearProbe(t.bs, t.env, m, true).Setter?;
    var entry := LinearProbe(t.bs, t.env, m, true).entry;
    SetterNameInjective(t.bs[entry].name, n);
    var q := Find(e, m, true).0;
    assert n in q.symbols && q.symbols[n].fun.Some?;
    FlipKeeps(q, 0);
    DeadFieldUnbound(e, 0, f);
  }

  /** Laziness cannot be observed by a first lookup if and only if the table is separated, for tables
      whose names fit the materialiser's buffer. */
  lemma LazinessExactlyWhen(t: Table)
    requires t.Lazy? && OrderedTable(t.bs) && NamesFit(t.bs)
    ensures Separated(t.bs, t.env) <==> forall x :: Flip(Find(Untouched(t), x, true).0) == Flip(Untouched(t))
  {
    hide GuardOk, NameCompare, Find, Flip, OrderedTable, SetterName;
    var e := Untouched(t);
    UntouchedCoherent(t);
    if Separated(t.bs, t.env) {
      FlipSettles(e);
      forall x ensures Flip(Find(e, x, true).0) == Flip(e) {
        FindKeepsSettled(e, x, true);
        FlipSettles(Find(e, x, true).0);
      }
    } else if k :| 0 <= k < |t.bs| && LiveField(t.env, t.bs[k]) && Defines(t.bs, SetterName(t.bs[k].name)) {
      CollisionShows(t, k);
    } else {
      var f :| 0 <= f < |t.bs| && WritableField(t.bs[f]) &&
        !(GuardOk(t.env, t.bs[f]) <==> !Defines(t.bs, SetterName(t.bs[f].name)));
      DeadFieldShows(t, f);
    }
  }

  /** For a table from the packer the condition is one of names alone, in every environment: no
      entry is called %SET- and the name of a writable field. */
  lemma PackedSeparated(bs: seq<Binding>, env: Environment)
    requires CallsOnlyGuarded(bs)
    ensures Separated(bs, env) <==>
      forall k :: 0 <= k < |bs| && WritableField(bs[k]) ==> !Defines(bs, SetterName(bs[k].name))
  {
    hide SetterName, Defines;
  }
}
