/** Vectors that grow in place by displacement (src/core/builtins_array.c, src/core/mem.c): an
    adjustable vector keeps its identity while its first two data slots become a reference to a
    new backing vector and an offset. The reference is a plain sequence with a fill pointer. */
module Vectors {
  import Digits

  datatype Option<+T> = None | Some(value: T)

  /** ARRAY-DIMENSION-LIMIT, and the word that stands for no fill pointer. */
  const LIMIT: int := 0x10_0000
  const NO_FILL: int := 0xFFFF_FFFF

  /** What a data slot holds; identities are places in the heap. */
  datatype Object = Nil | Num(n: int) | VectorAt(id: nat) | Other(tag: nat)

  datatype Vector =
    Vector(length: nat, fill: nat, adjustable: bool, displaced: bool, data: seq<Object>)

  type Heap = map<nat, Vector>

  datatype Reply = Value(o: Object) | Signal(reason: string)

  /** What :displaced-to gives. Misplaced stands for a view that begins before its target. */
  datatype Displacement = Made(id: nat) | Refused(reason: string) | Misplaced

  // ---- displacement chains ----

  predicate LinkOk(v: Vector) {
    v.displaced ==> |v.data| >= 2 && v.data[0].VectorAt? && v.data[1].Num? && v.data[1].n >= 0
  }

  function Backing(v: Vector): nat
    requires LinkOk(v) && v.displaced
  {
    v.data[0].id
  }

  function Offset(v: Vector): nat
    requires LinkOk(v) && v.displaced
  {
    v.data[1].n
  }

  /** Chains are acyclic: every link leads to a vector of lower rank. */
  ghost predicate Chained(h: Heap, rank: map<nat, nat>) {
    forall id :: id in h ==>
      && id in rank && LinkOk(h[id])
      && (h[id].displaced ==> Backing(h[id]) in h && Backing(h[id]) in rank && rank[Backing(h[id])] < rank[id])
  }

  /** The vector and the data slot an index finally means. */
  ghost function Reach(h: Heap, rank: map<nat, nat>, id: nat, i: nat): (nat, nat)
    requires Chained(h, rank) && id in h
    decreases rank[id]
  {
    if h[id].displaced then Reach(h, rank, Backing(h[id]), i + Offset(h[id])) else (id, i)
  }

  lemma {:induction false} ReachBase(h: Heap, rank: map<nat, nat>, id: nat, i: nat)
    requires Chained(h, rank) && id in h
    ensures Reach(h, rank, id, i).0 in h && !h[Reach(h, rank, id, i).0].displaced
    decreases rank[id]
  {
    if h[id].displaced { ReachBase(h, rank, Backing(h[id]), i + Offset(h[id])); }
  }

  /** An element, when the chain leads to a slot that exists. */
  ghost function Read(h: Heap, rank: map<nat, nat>, id: nat, i: nat): Option<Object>
    requires Chained(h, rank) && id in h
  {
    ReachBase(h, rank, id, i);
    var (b, slot) := Reach(h, rank, id, i);
    if slot < |h[b].data| then Some(h[b].data[slot]) else None
  }

  /** The index at which the chain of `id` passes through `v`. */
  ghost function Via(h: Heap, rank: map<nat, nat>, id: nat, i: nat, v: nat): Option<nat>
    requires Chained(h, rank) && id in h
    decreases rank[id]
  {
    if id == v then Some(i)
    else if h[id].displaced then Via(h, rank, Backing(h[id]), i + Offset(h[id]), v)
    else None
  }

  /** The elements of a vector, in order. */
  ghost function ItemsOf(h: Heap, rank: map<nat, nat>, id: nat): (s: seq<Object>)
    requires Chained(h, rank) && id in h
    ensures |s| == h[id].length
  {
    seq(h[id].length, i requires 0 <= i < h[id].length =>
      match Read(h, rank, id, i) case Some(x) => x case None => Nil)
  }

  /** `id` at `i` means `base` at `i + offset`, for every i. */
  ghost predicate SameReach(h: Heap, rank: map<nat, nat>, id: nat, base: nat, offset: nat)
    requires Chained(h, rank) && id in h && base in h
  {
    forall i: nat :: Reach(h, rank, id, i) == Reach(h, rank, base, i + offset)
  }

  lemma FollowLink(h: Heap, rank: map<nat, nat>, id: nat, base: nat, offset: nat)
    requires Chained(h, rank) && id in h && base in h && h[base].displaced
    requires SameReach(h, rank, id, base, offset)
    ensures SameReach(h, rank, id, Backing(h[base]), offset + Offset(h[base]))
  {
    forall i: nat
      ensures Reach(h, rank, id, i) == Reach(h, rank, Backing(h[base]), i + (offset + Offset(h[base])))
    {
      assert i + offset + Offset(h[base]) == i + (offset + Offset(h[base]));
    }
  }

  lemma {:induction false} ViaReach(h: Heap, rank: map<nat, nat>, id: nat, i: nat, v: nat)
    requires Chained(h, rank) && id in h && v in h
    ensures Via(h, rank, id, i, v).Some? ==>
      Reach(h, rank, id, i) == Reach(h, rank, v, Via(h, rank, id, i, v).value)
    decreases rank[id]
  {
    if id != v && h[id].displaced { ViaReach(h, rank, Backing(h[id]), i + Offset(h[id]), v); }
  }

  // ---- storing an element ----

  function Stored(h: Heap, b: nat, slot: nat, x: Object): Heap
    requires b in h && slot < |h[b].data|
  {
    h[b := h[b].(data := h[b].data[slot := x])]
  }

  lemma StoredChained(h: Heap, rank: map<nat, nat>, b: nat, slot: nat, x: Object)
    requires Chained(h, rank) && b in h && !h[b].displaced && slot < |h[b].data|
    ensures Chained(Stored(h, b, slot, x), rank)
  {}

  lemma {:induction false} StoredReach(h: Heap, rank: map<nat, nat>, b: nat, slot: nat, x: Object, w: nat, j: nat)
    requires Chained(h, rank) && b in h && !h[b].displaced && slot < |h[b].data| && w in h
    requires Chained(Stored(h, b, slot, x), rank)
    ensures Reach(Stored(h, b, slot, x), rank, w, j) == Reach(h, rank, w, j)
    decreases rank[w]
  {
    if h[w].displaced { StoredReach(h, rank, b, slot, x, Backing(h[w]), j + Offset(h[w])); }
  }

  /** A store is seen exactly through the indices that mean the same slot. */
  lemma StoredRead(h: Heap, rank: map<nat, nat>, b: nat, slot: nat, x: Object, w: nat, j: nat)
    requires Chained(h, rank) && b in h && !h[b].displaced && slot < |h[b].data| && w in h
    requires Chained(Stored(h, b, slot, x), rank)
    ensures Read(Stored(h, b, slot, x), rank, w, j) ==
      if Reach(h, rank, w, j) == (b, slot) then Some(x) else Read(h, rank, w, j)
  {
    StoredReach(h, rank, b, slot, x, w, j);
    ReachBase(h, rank, w, j);
  }

  // ---- growing by displacement ----

  /** The old object now refers to the new one. */
  function Redirected(v: Vector, n: nat, length: nat, fill: nat): Vector
    requires |v.data| >= 2
  {
    v.(data := v.data[0 := VectorAt(n)][1 := Num(0)], displaced := true, length := length, fill := fill)
  }

  function Grown(h: Heap, v: nat, n: nat, store: Vector, length: nat, fill: nat): Heap
    requires v in h && |h[v].data| >= 2
  {
    h[n := store][v := Redirected(h[v], n, length, fill)]
  }

  /** Room for one more vector at the bottom of the order. */
  ghost function Raised(rank: map<nat, nat>, n: nat): map<nat, nat> {
    (map id | id in rank :: rank[id] + 1)[n := 0]
  }

  lemma GrownChained(h: Heap, rank: map<nat, nat>, v: nat, n: nat, store: Vector, length: nat, fill: nat)
    requires Chained(h, rank) && v in h && |h[v].data| >= 2 && n !in h && !store.displaced
    ensures Chained(Grown(h, v, n, store, length, fill), Raised(rank, n))
  {}

  /** After growing, a chain that passes through the vector ends in its new store; no other chain
      changes. */
  lemma {:induction false} GrownReach(h: Heap, rank: map<nat, nat>, v: nat, n: nat, store: Vector,
                                      length: nat, fill: nat, w: nat, j: nat)
    requires Chained(h, rank) && v in h && |h[v].data| >= 2 && n !in h && !store.displaced && w in h
    requires Chained(Grown(h, v, n, store, length, fill), Raised(rank, n))
    ensures Reach(Grown(h, v, n, store, length, fill), Raised(rank, n), w, j) ==
      match Via(h, rank, w, j, v) case Some(p) => (n, p) case None => Reach(h, rank, w, j)
    decreases rank[w]
  {
    var h', rank' := Grown(h, v, n, store, length, fill), Raised(rank, n);
    if w == v {
      assert Backing(h'[v]) == n && Offset(h'[v]) == 0;
      assert Reach(h', rank', n, j) == (n, j);
    } else if h[w].displaced {
      GrownReach(h, rank, v, n, store, length, fill, Backing(h[w]), j + Offset(h[w]));
    }
  }

  lemma GrownRead(h: Heap, rank: map<nat, nat>, v: nat, n: nat, store: Vector, length: nat, fill: nat, w: nat, j: nat)
    requires Chained(h, rank) && v in h && |h[v].data| >= 2 && n !in h && !store.displaced && w in h
    requires Chained(Grown(h, v, n, store, length, fill), Raised(rank, n))
    ensures Read(Grown(h, v, n, store, length, fill), Raised(rank, n), w, j) ==
      match Via(h, rank, w, j, v)
      case Some(p) => if p < |store.data| then Some(store.data[p]) else None
      case None => Read(h, rank, w, j)
  {
    hide Chained;
    GrownReach(h, rank, v, n, store, length, fill, w, j);
    ReachBase(h, rank, w, j);
    if Via(h, rank, w, j, v).None? { NotThrough(h, rank, w, j, v); }
  }

  lemma {:induction false} NotThrough(h: Heap, rank: map<nat, nat>, w: nat, j: nat, v: nat)
    requires Chained(h, rank) && w in h && Via(h, rank, w, j, v).None?
    ensures Reach(h, rank, w, j).0 != v
    decreases rank[w]
  {
    if h[w].displaced { NotThrough(h, rank, Backing(h[w]), j + Offset(h[w]), v); }
  }

  // ---- the reference: a plain sequence with a fill pointer ----

  datatype Plain = Plain(items: seq<Object>, fill: nat)

  /** What the vector shows as a sequence. */
  function Active(p: Plain): seq<Object>
    requires p.fill <= |p.items|
  {
    p.items[..p.fill]
  }

  function Repeat(x: Object, n: nat): (s: seq<Object>)
    ensures |s| == n && forall i :: 0 <= i < n ==> s[i] == x
  {
    seq(n, _ => x)
  }

  function PlainPush(p: Plain, x: Object): (Plain, Reply) {
    if p.fill < |p.items| then (Plain(p.items[p.fill := x], p.fill + 1), Value(Num(p.fill))) else (p, Value(Nil))
  }

  function PlainPop(p: Plain): (Plain, Reply)
    requires p.fill <= |p.items|
  {
    if p.fill == 0 then (p, Signal("fill pointer is zero"))
    else (Plain(p.items, p.fill - 1), Value(p.items[p.fill - 1]))
  }

  ghost predicate RoomFor(n: int, length: nat, extension: Option<int>) {
    n >= 4 && n >= 2 * length && (extension.Some? ==> n >= length + extension.value)
  }

  /** Double, at least 4, at least the extension, at most the limit; and no more than that. */
  function NewCapacity(length: nat, extension: Option<int>): (n: int)
    requires length < LIMIT && (extension.Some? ==> 0 <= extension.value <= LIMIT - length)
    ensures length < n <= LIMIT && n >= 4
    ensures extension.Some? ==> n >= length + extension.value
    ensures n == LIMIT || RoomFor(n, length, extension)
    ensures forall m :: RoomFor(m, length, extension) ==> n <= m
  {
    var doubled := if 2 * length < 4 then 4 else 2 * length;
    var wanted := if extension.Some? && doubled < length + extension.value then length + extension.value else doubled;
    if wanted > LIMIT then LIMIT else wanted
  }

  function PlainPushExtend(p: Plain, x: Object, extension: Option<int>): (Plain, Reply) {
    if p.fill < |p.items| then PlainPush(p, x)
    else if |p.items| >= LIMIT then (p, Signal("cannot extend beyond ARRAY-DIMENSION-LIMIT"))
    else if extension.Some? && extension.value < 0 then (p, Signal("extension must be a non-negative integer"))
    else if extension.Some? && extension.value > LIMIT - |p.items| then
      (p, Signal("extension would exceed ARRAY-DIMENSION-LIMIT"))
    else
      var cap := NewCapacity(|p.items|, extension);
      (Plain(p.items + [x] + Repeat(Nil, cap - |p.items| - 1), p.fill + 1), Value(Num(p.fill)))
  }

  ghost predicate CanGrow(length: nat, extension: Option<int>) {
    length < LIMIT && (extension.Some? ==> 0 <= extension.value <= LIMIT - length)
  }

  /** VECTOR-PUSH-EXTEND, element by element: it fails exactly on a full vector that cannot grow; else the
      element is in its slot, every other one stays, and the slots gained hold NIL. */
  lemma PushExtendMeans(p: Plain, x: Object, extension: Option<int>)
    requires p.fill <= |p.items|
    ensures var (q, r) := PlainPushExtend(p, x, extension);
      && (r.Signal? <==> (p.fill == |p.items| && !CanGrow(|p.items|, extension)))
      && (r.Signal? ==> q == p)
      && (!r.Signal? ==>
        && r == Value(Num(p.fill)) && q.fill == p.fill + 1 <= |q.items| && |p.items| <= |q.items|
        && (|q.items| == |p.items| <==> p.fill < |p.items|)
        && (forall i :: 0 <= i < |q.items| ==>
          q.items[i] == if i == p.fill then x else if i < |p.items| then p.items[i] else Nil))
  {}

  /** VECTOR-PUSH gives NIL exactly on a full vector and is VECTOR-PUSH-EXTEND else; VECTOR-POP signals
      exactly on an empty one. Neither touches what it does not name. */
  lemma PushPopMeans(p: Plain, x: Object)
    requires p.fill <= |p.items|
    ensures var (q, r) := PlainPush(p, x);
      && (p.fill == |p.items| ==> q == p && r == Value(Nil))
      && (p.fill < |p.items| ==> (q, r) == PlainPushExtend(p, x, None) && |q.items| == |p.items|)
    ensures var (q, r) := PlainPop(p);
      && (r.Signal? <==> p.fill == 0) && (r.Signal? ==> q == p)
      && (!r.Signal? ==> q.items == p.items && Active(q) + [r.o] == Active(p))
  {}

  /** :fill-pointer absent, T, or an integer, which is converted to 32 bits and not compared. */
  datatype FillArg = Keep | Total | Exact(n: int)

  function AdjustedItems(items: seq<Object>, length: nat, initial: Option<Object>): (s: seq<Object>)
    ensures |s| == length
  {
    var kept := if |items| < length then |items| else length;
    items[..kept] + Repeat(if initial.Some? then initial.value else Nil, length - kept)
  }

  function AdjustedFill(fill: nat, length: nat, arg: FillArg): nat {
    match arg
    case Keep => if fill == NO_FILL || fill <= length then fill else length
    case Total => length
    case Exact(n) => Digits.Unsigned(n)
  }

  predicate FillFits(arg: FillArg, length: nat) { arg.Exact? ==> 0 <= arg.n <= length }

  function PlainAdjust(p: Plain, length: int, initial: Option<Object>, arg: FillArg): (Plain, Reply)
    requires p.fill <= |p.items|
    requires length >= 0 ==> FillFits(arg, length)
  {
    if length < 0 then (p, Signal("array dimension must be non-negative"))
    else if length > LIMIT then (p, Signal("array dimension exceeds ARRAY-DIMENSION-LIMIT"))
    else
      var fill := if arg.Keep? then (if p.fill <= length then p.fill else length)
                  else if arg.Total? then length else arg.n;
      (Plain(AdjustedItems(p.items, length, initial), fill), Value(Nil))
  }

  /** A fixnum given as :fill-pointer leaves a proper vector exactly when it lies within the new
      length, or is -1, whose 32 bits say that there is no fill pointer. */
  lemma AdjustedFillProper(fill: nat, length: nat, n: int)
    requires length <= LIMIT && -0x4000_0000 <= n < 0x4000_0000
    ensures var f := AdjustedFill(fill, length, Exact(n));
      (f <= length || f == NO_FILL) <==> (0 <= n <= length || n == -1)
  {
    if n < 0 { assert (n + 0x1_0000_0000) % 0x1_0000_0000 == n % 0x1_0000_0000; }
  }

  /** VECTOR-PUSH-EXTEND appends to what is active and VECTOR-POP takes it off again. */
  lemma PopUndoesPush(p: Plain, x: Object, extension: Option<int>)
    requires p.fill <= |p.items|
    ensures var (q, r) := PlainPushExtend(p, x, extension);
      r.Value? ==>
        && q.fill <= |q.items| && |q.items| >= |p.items|
        && Active(q) == Active(p) + [x] && r.o == Num(|Active(p)|)
        && PlainPop(q).1 == Value(x) && Active(PlainPop(q).0) == Active(p)
  {}

  /** The elements of an adjusted vector: those that fit are kept, and the new ones are :initial-element when
      it is given, else NIL. */
  ghost predicate AdjustedFrom(before: seq<Object>, after: seq<Object>, initial: Option<Object>) {
    && (forall i :: 0 <= i < |before| && i < |after| ==> after[i] == before[i])
    && (forall i :: |before| <= i < |after| ==> after[i] == match initial case Some(x) => x case None => Nil)
  }

  /** Its fill pointer: T means all of it, an integer that fits is taken as it is, and when none is asked for
      the old one is kept as far as it fits, and no new one appears. */
  ghost predicate RefilledFrom(before: nat, after: nat, length: nat, arg: FillArg) {
    && (arg.Total? ==> after == length)
    && (arg.Exact? && 0 <= arg.n <= length ==> after == arg.n)
    && (arg.Keep? && before != NO_FILL ==> after == if before < length then before else length)
    && (arg.Keep? && before == NO_FILL ==> after == NO_FILL)
  }

  lemma AdjustedMeans(items: seq<Object>, fill: nat, length: nat, initial: Option<Object>, arg: FillArg)
    requires length <= LIMIT
    ensures AdjustedFrom(items, AdjustedItems(items, length, initial), initial)
    ensures RefilledFrom(fill, AdjustedFill(fill, length, arg), length, arg)
  {}

  /** ADJUST-ARRAY, element by element; every active element that still fits stays active. */
  lemma AdjustKeepsActive(p: Plain, length: nat, initial: Option<Object>, arg: FillArg)
    requires p.fill <= |p.items| && FillFits(arg, length) && length <= LIMIT
    ensures var q := PlainAdjust(p, length, initial, arg).0;
      && q.fill <= |q.items| == length
      && AdjustedFrom(p.items, q.items, initial)
      && (arg.Total? ==> q.fill == length) && (arg.Exact? ==> q.fill == arg.n)
      && (arg.Keep? ==> Active(q) == Active(p)[..if p.fill <= length then p.fill else length])
      && (p.fill <= q.fill ==> Active(p) <= Active(q))
  {
    var q := PlainAdjust(p, length, initial, arg).0;
    if p.fill <= q.fill {
      assert Active(q)[..p.fill] == Active(p);
      assert Active(q) == Active(p) + Active(q)[p.fill..];
    }
  }
}
