/** The vector operations of src/core/builtins_array.c over a heap of vector objects that they
    change in place. Each is tied to the plain sequence of Vectors, and says what it does to
    every other array that is displaced onto the same storage. */
module VectorHeap {
  import Digits
  import opened Vectors

  datatype Op =
    | Push(x: Object)
    | PushExtend(x: Object, extension: Option<int>)
    | Pop
    | Adjust(length: int, initial: Option<Object>, arg: FillArg)

  /** An object the operations can meet: its own storage, or a link, is in place. */
  predicate VectorOk(v: Vector) {
    && v.length <= LIMIT
    && 0 <= v.fill < 0x1_0000_0000
    && (v.displaced || v.adjustable || v.fill != NO_FILL ==> |v.data| >= 2)
    && (!v.displaced ==> v.length <= |v.data|)
  }

  ghost predicate HeapOk(h: Heap, next: nat) {
    forall id :: id in h ==> id < next && VectorOk(h[id])
  }

  /** Every element of the vector exists, and its fill pointer lies within it. */
  ghost predicate SoundIn(h: Heap, rank: map<nat, nat>, id: nat)
    requires Chained(h, rank)
  {
    && id in h
    && (forall i :: 0 <= i < h[id].length ==> Read(h, rank, id, i).Some?)
    && (h[id].fill == NO_FILL || h[id].fill <= h[id].length)
  }

  /** One slot has been written: whatever means that slot reads the new element, the rest is as before. */
  ghost predicate StoreFrame(h: Heap, h': Heap, rank: map<nat, nat>, id: nat, i: nat, x: Object) {
    && Chained(h, rank) && Chained(h', rank) && h'.Keys == h.Keys && id in h
    && forall w, j: nat :: w in h ==>
      Read(h', rank, w, j) ==
        if Reach(h, rank, w, j) == Reach(h, rank, id, i) then Some(x) else Read(h, rank, w, j)
  }

  /** One vector has got a new store: what does not pass through it, or passes through its first
      `kept` elements, reads as before. */
  ghost predicate GrowthFrame(h: Heap, rank: map<nat, nat>, h': Heap, rank': map<nat, nat>, id: nat, kept: nat) {
    && Chained(h, rank) && Chained(h', rank') && h.Keys <= h'.Keys && id in h
    && forall w, j: nat :: w in h ==>
      var p := Via(h, rank, w, j, id);
      p.None? || p.value < kept ==> Read(h', rank', w, j) == Read(h, rank, w, j)
  }

  class ObjectHeap {
    var objects: Heap
    var next: nat
    ghost var rank: map<nat, nat>

    ghost predicate Valid()
      reads this
    {
      Chained(objects, rank) && HeapOk(objects, next)
    }

    ghost predicate Sound(id: nat)
      reads this
      requires Valid()
    {
      SoundIn(objects, rank, id)
    }

    ghost function Items(id: nat): (s: seq<Object>)
      reads this
      requires Valid() && Sound(id)
      ensures |s| == objects[id].length
      ensures forall i :: 0 <= i < |s| ==> Read(objects, rank, id, i) == Some(s[i])
    {
      ItemsOf(objects, rank, id)
    }

    ghost predicate HasFill(id: nat)
      reads this
      requires Valid() && Sound(id)
    {
      objects[id].fill != NO_FILL
    }

    ghost function View(id: nat): (p: Plain)
      reads this
      requires Valid() && Sound(id) && HasFill(id)
      ensures p.fill <= |p.items|
    {
      Plain(Items(id), objects[id].fill)
    }

    constructor ()
      ensures Valid() && objects == map[]
    {
      objects, next, rank := map[], 0, map[];
    }

    /** cl_make_array for rank 1: at least two slots where a link may have to go. */
    method MakeVector(length: nat, fill: int, adjustable: bool) returns (id: nat)
      requires Valid() && length <= LIMIT && 0 <= fill < 0x1_0000_0000
      modifies this
      ensures Valid() && id !in old(objects)
      ensures objects == old(objects)[id := Vector(length, fill, adjustable, false, Repeat(Nil, if
        (adjustable || fill != NO_FILL) && length < 2 then 2 else length))]
      ensures rank == old(rank)[id := 0] && id == old(next) && next == id + 1
    {
      var slots := if (adjustable || fill != NO_FILL) && length < 2 then 2 else length;
      id := next;
      objects := objects[id := Vector(length, fill, adjustable, false, Repeat(Nil, slots))];
      rank := rank[id := 0];
      next := next + 1;
    }

    /** cl_vector_data_fn: follow the links, adding up the offsets. */
    method DataOf(id: nat) returns (base: nat, offset: nat)
      requires Valid() && id in objects
      ensures base in objects && !objects[base].displaced
      ensures forall i: nat :: Reach(objects, rank, id, i) == (base, i + offset)
    {
      hide Chained, VectorOk, Reach;
      base, offset := id, 0;
      StartHere(objects, rank, id);
      while objects[base].displaced
        invariant base in objects && SameReach(objects, rank, id, base, offset)
        decreases if base in rank then rank[base] else 0
      {
        LinkInside(objects, rank, base);
        FollowLink(objects, rank, id, base, offset);
        base, offset := Backing(objects[base]), offset + Offset(objects[base]);
      }
      EndHere(objects, rank, id, base, offset);
    }

    /** The element store behind VECTOR-PUSH; the new fill pointer goes with it. */
    method StoreAt(id: nat, i: nat, x: Object)
      requires Valid() && Sound(id) && i < objects[id].length
      modifies this`objects
      ensures Valid() && objects.Keys == old(objects).Keys && Sound(id)
      ensures forall w :: w in objects ==> objects[w].(data := old(objects)[w].data) == old(objects)[w]
      ensures StoreFrame(old(objects), objects, rank, id, i, x)
      ensures Items(id) == old(Items(id))[i := x]
    {
      hide Chained, VectorOk, Read, Reach, SoundIn, ItemsOf, StoreFrame, HeapOk;
      SoundFill(objects, rank, id);
      var base, offset := DataOf(id);
      ghost var h := objects;
      assert Reach(objects, rank, id, i) == (base, i + offset);
      SlotThere(h, rank, id, i);
      objects := Stored(objects, base, i + offset, x);
      StoredChained(h, rank, base, i + offset, x);
      StoredOk(h, next, base, i + offset, x);
      StoredFrame(h, rank, id, i, base, i + offset, x);
    }

    method SetFill(id: nat, fill: nat)
      requires Valid() && Sound(id) && HasFill(id) && fill <= objects[id].length
      modifies this`objects
      ensures Valid() && objects == old(objects)[id := old(objects)[id].(fill := fill)]
      ensures Sound(id) && HasFill(id) && Items(id) == old(Items(id))
      ensures SameReads(old(objects), objects, rank)
    {
      ghost var before := objects;
      objects := objects[id := objects[id].(fill := fill)];
      FillKeeps(before, rank, id, fill);
    }

    /** VECTOR-PUSH. */
    method VectorPush(id: nat, x: Object) returns (r: Reply)
      requires Valid() && Sound(id) && HasFill(id)
      modifies this`objects
      ensures Valid() && Sound(id) && HasFill(id)
      ensures (View(id), r) == PlainPush(old(View(id)), x)
      ensures objects.Keys == old(objects).Keys && objects[id].adjustable == old(objects)[id].adjustable
      ensures r == Value(Nil) ==> objects == old(objects)
      ensures r != Value(Nil) ==> StoreFrame(old(objects), objects, rank, id, old(objects)[id].fill, x)
    {
      hide Chained, VectorOk, Read, Reach, StoreFrame, SameReads, SoundIn;
      ghost var h := objects;
      SoundFill(h, rank, id);
      var fp := objects[id].fill;
      if fp >= objects[id].length { return Value(Nil); }
      StoreAt(id, fp, x);
      ghost var h1 := objects;
      SetFill(id, fp + 1);
      StoreThenSame(h, h1, objects, rank, id, fp, x);
      r := Value(Num(fp));
    }

    /** VECTOR-POP. */
    method VectorPop(id: nat) returns (r: Reply)
      requires Valid() && Sound(id) && HasFill(id)
      modifies this`objects
      ensures Valid() && Sound(id) && HasFill(id)
      ensures (View(id), r) == PlainPop(old(View(id)))
      ensures objects == old(objects)[id := objects[id]] && objects[id] == old(objects)[id].(fill := objects[id].fill)
      ensures SameReads(old(objects), objects, rank)
    {
      hide Chained, VectorOk, SameReads;
      SameReadsHere(objects, rank);
      var fp := objects[id].fill;
      if fp == 0 { return Signal("fill pointer is zero"); }
      var base, offset := DataOf(id);
      assert Read(objects, rank, id, fp - 1).Some?;
      assert Reach(objects, rank, id, fp - 1) == (base, fp - 1 + offset);
      r := Value(objects[base].data[fp - 1 + offset]);
      assert r.o == Items(id)[fp - 1];
      SetFill(id, fp - 1);
    }

    /** The first `count` elements, read through the chain. */
    method CopyItems(id: nat, count: nat) returns (data: seq<Object>)
      requires Valid() && Sound(id) && count <= objects[id].length
      ensures data == Items(id)[..count]
    {
      hide Chained, VectorOk;
      var base, offset := DataOf(id);
      data := [];
      for i := 0 to count
        invariant data == Items(id)[..i]
      {
        assert Read(objects, rank, id, i).Some?;
        assert Reach(objects, rank, id, i) == (base, i + offset);
        data := data + [objects[base].data[i + offset]];
      }
    }

    /** Give the object a new store: a fresh vector becomes its backing, at offset 0. */
    method Displace(id: nat, store: Vector, length: nat, fill: nat, ghost kept: nat) returns (n: nat)
      requires Valid() && Sound(id) && |objects[id].data| >= 2
      requires !store.displaced && VectorOk(store) && store.length == length && fill < 0x1_0000_0000
      requires kept <= objects[id].length && kept <= length && store.data[..kept] == Items(id)[..kept]
      modifies this
      ensures Valid() && n !in old(objects) && objects.Keys == old(objects).Keys + {n}
      ensures objects[id] == Redirected(old(objects)[id], n, length, fill)
      ensures length <= |store.data| && ItemsOf(objects, rank, id) == store.data[..length]
      ensures fill <= length || fill == NO_FILL ==> Sound(id)
      ensures GrowthFrame(old(objects), old(rank), objects, rank, id, kept)
    {
      hide VectorOk, Read, Reach, Chained, ItemsOf, SoundIn, GrowthFrame, HeapOk;
      ghost var h, order := objects, rank;
      SoundFill(h, order, id);
      StoreFits(store);
      n := MakeVector(length, NO_FILL, true);
      objects := objects[n := store][id := Redirected(objects[id], n, length, fill)];
      rank := Raised(order, n);
      NextFree(h, n);
      assert objects == Grown(h, id, n, store, length, fill);
      GrownChained(h, order, id, n, store, length, fill);
      GrownOk(h, id, n, store, length, fill);
      GrownItems(h, order, id, n, store, length, fill);
      GrownFrame(h, order, id, n, store, length, fill, kept);
    }

    /** VECTOR-PUSH-EXTEND. With room it stores; without, the vector grows in place, and arrays
        displaced onto the preserved prefix read what they read before. */
    method VectorPushExtend(id: nat, x: Object, extension: Option<int>) returns (r: Reply)
      requires Valid() && Sound(id) && HasFill(id)
      modifies this
      ensures Valid() && Sound(id) && HasFill(id) && old(objects).Keys <= objects.Keys
      ensures (View(id), r) == PlainPushExtend(old(View(id)), x, extension)
      ensures objects[id].adjustable == old(objects)[id].adjustable
      ensures r.Signal? ==> objects == old(objects)
      ensures r.Value? ==>
        if old(objects)[id].fill < old(objects)[id].length
        then rank == old(rank) && StoreFrame(old(objects), objects, rank, id, old(objects)[id].fill, x)
        else GrowthFrame(old(objects), old(rank), objects, rank, id, old(objects)[id].length)
    {
      hide Chained, Read, Reach, Via, StoreFrame, GrowthFrame, SoundIn, ItemsOf, HeapOk, VectorOk, NewCapacity;
      SoundFill(objects, rank, id);
      InHeap(objects, next, id);
      var fp, oldLen := objects[id].fill, objects[id].length;
      if fp < oldLen {
        r := VectorPush(id, x);
        return;
      }
      if oldLen >= LIMIT { return Signal("cannot extend beyond ARRAY-DIMENSION-LIMIT"); }
      if extension.Some? {
        if extension.value < 0 { return Signal("extension must be a non-negative integer"); }
        if extension.value > LIMIT - oldLen { return Signal("extension would exceed ARRAY-DIMENSION-LIMIT"); }
      }
      ExtendFull(id, x, NewCapacity(oldLen, extension));
      r := Value(Num(fp));
    }

    /** The growing half of VECTOR-PUSH-EXTEND: the vector is full. */
    method ExtendFull(id: nat, x: Object, cap: nat)
      requires Valid() && Sound(id) && HasFill(id) && objects[id].fill == objects[id].length < cap <= LIMIT && cap >= 4
      modifies this
      ensures Valid() && Sound(id) && HasFill(id) && old(objects).Keys <= objects.Keys
      ensures objects[id].fill == old(objects)[id].fill + 1 && objects[id].adjustable == old(objects)[id].adjustable
      ensures Items(id) == old(Items(id)) + [x] + Repeat(Nil, cap - old(objects)[id].length - 1)
      ensures GrowthFrame(old(objects), old(rank), objects, rank, id, old(objects)[id].length)
    {
      hide Chained, Read, Reach, Via, StoreFrame, GrowthFrame, SoundIn, ItemsOf, HeapOk, VectorOk;
      SoundFill(objects, rank, id);
      InHeap(objects, next, id);
      var fp, oldLen := objects[id].fill, objects[id].length;
      var data := CopyItems(id, oldLen);
      ghost var items := Items(id);
      assert items[..oldLen] == items;
      data := data + [x] + Repeat(Nil, cap - oldLen - 1);
      var store := Vector(cap, NO_FILL, true, false, data);
      StoreIsOk(store);
      assert store.data[..oldLen] == items[..oldLen];
      var n := Displace(id, store, cap, fp + 1, oldLen);
      assert data[..cap] == data;
    }

    /** ADJUST-ARRAY on a vector: in place when it is adjustable, else a new vector. */
    method AdjustArray(id: nat, length: int, initial: Option<Object>, arg: FillArg) returns (r: Reply, result: nat)
      requires Valid() && Sound(id)
      modifies this
      ensures Valid() && old(objects).Keys <= objects.Keys && result in objects
      ensures r.Signal? <==> length < 0 || length > LIMIT
      ensures length < 0 ==> r == Signal("array dimension must be non-negative")
      ensures length > LIMIT ==> r == Signal("array dimension exceeds ARRAY-DIMENSION-LIMIT")
      ensures r.Value? ==> r == Value(Nil)
      ensures r.Signal? ==> objects == old(objects) && rank == old(rank) && result == id
      ensures r.Value? ==>
        && (result == id <==> old(objects)[id].adjustable)
        && objects[result].adjustable && objects[result].length == length
        && objects[result].fill == AdjustedFill(old(objects)[id].fill, length, arg)
        && ItemsOf(objects, rank, result) == AdjustedItems(old(Items(id)), length, initial)
        && (objects[result].fill <= length || objects[result].fill == NO_FILL ==> Sound(result))
      ensures r.Value? ==>
        && |ItemsOf(objects, rank, result)| == length
        && AdjustedFrom(old(Items(id)), ItemsOf(objects, rank, result), initial)
        && RefilledFrom(old(objects)[id].fill, objects[result].fill, length, arg)
      ensures r.Value? ==>
        GrowthFrame(old(objects), old(rank), objects, rank, id,
          if old(objects)[id].length < length then old(objects)[id].length else length)
      ensures r.Value? && result != id ==> objects == old(objects)[result := objects[result]]
    {
      hide Chained, Read, Reach, Via, GrowthFrame, SoundIn, ItemsOf, HeapOk, VectorOk, AdjustedFrom, RefilledFrom,
        AdjustedItems;
      SoundFill(objects, rank, id);
      InHeap(objects, next, id);
      if 0 <= length <= LIMIT { AdjustedMeans(Items(id), objects[id].fill, length, initial, arg); }
      result := id;
      if length < 0 { return Signal("array dimension must be non-negative"), id; }
      if length > LIMIT { return Signal("array dimension exceeds ARRAY-DIMENSION-LIMIT"), id; }
      var oldLen := objects[id].length;
      var copyLen := if oldLen < length then oldLen else length;
      var fill := AdjustedFill(objects[id].fill, length, arg);
      var store := NewStore(id, length, copyLen, initial, fill);
      StoreIsOk(store);
      if objects[id].adjustable {
        var n := Displace(id, store, length, fill, copyLen);
      } else {
        result := AddVector(id, store, copyLen);
      }
      r := Value(Nil);
    }

    /** The copied and filled elements of the new array. */
    method NewStore(id: nat, length: nat, copyLen: nat, initial: Option<Object>, fill: nat) returns (store: Vector)
      requires Valid() && Sound(id) && copyLen == if objects[id].length < length then objects[id].length else length
      ensures store.length == length && store.fill == fill && store.adjustable && !store.displaced
      ensures |store.data| >= 2 && |store.data| >= length
      ensures store.data[..length] == AdjustedItems(Items(id), length, initial)
      ensures store.data[..copyLen] == Items(id)[..copyLen]
    {
      hide Chained, Read, Reach, SoundIn, HeapOk, ItemsOf;
      var data := CopyItems(id, copyLen);
      data := data + Repeat(if initial.Some? then initial.value else Nil, length - copyLen);
      store := Vector(length, fill, true, false, if length < 2 then data + Repeat(Nil, 2 - length) else data);
      assert store.data[..length] == data;
      assert data[..copyLen] == Items(id)[..copyLen];
      assert store.data[..copyLen] == data[..copyLen];
    }

    method AddVector(ghost id: nat, store: Vector, ghost kept: nat) returns (n: nat)
      requires Valid() && id in objects && !store.displaced && VectorOk(store) && store.length <= LIMIT
      modifies this
      ensures Valid() && n !in old(objects) && objects == old(objects)[n := store]
      ensures store.length <= |store.data| && ItemsOf(objects, rank, n) == store.data[..store.length]
      ensures store.fill <= store.length || store.fill == NO_FILL ==> Sound(n)
      ensures GrowthFrame(old(objects), old(rank), objects, rank, id, kept)
    {
      hide Chained, Read, Reach, Via, GrowthFrame, SoundIn, ItemsOf, HeapOk, VectorOk;
      ghost var h, order := objects, rank;
      StoreFits(store);
      FillWord(store);
      n := MakeVector(store.length, store.fill, true);
      objects := objects[n := store];
      NextFree(h, n);
      assert objects == h[n := store];
      FreshFrame(h, order, n, store, next, id, kept);
    }

    /** MAKE-ARRAY with :displaced-to a vector. The bounds are tested in 32 bits, so that a view with a
        negative offset is made when its end lies within the target; such a view is told apart. */
    method MakeDisplaced(target: nat, offset: int, length: nat, fill: nat, adjustable: bool) returns (r: Displacement)
      requires Valid() && target in objects && length <= LIMIT && fill < 0x1_0000_0000
      requires -0x4000_0000 <= offset < 0x4000_0000
      modifies this
      ensures Valid() && (r.Refused? <==> offset + length > old(objects)[target].length || offset + length < 0)
      ensures r.Misplaced? <==> offset < 0 && 0 <= offset + length <= old(objects)[target].length
      ensures !r.Made? ==> objects == old(objects) && rank == old(rank)
      ensures r.Made? ==>
        && r.id !in old(objects) && objects.Keys == old(objects).Keys + {r.id} && objects[r.id].length == length
        && (forall j: nat :: Read(objects, rank, r.id, j) == Read(objects, rank, target, j + offset))
        && (forall w, j: nat :: w in old(objects) ==>
          Read(objects, rank, w, j) == Read(old(objects), old(rank), w, j))
        && (forall j: nat :: Via(objects, rank, r.id, j, target) == Some(j + offset))
    {
      hide VectorOk, HeapOk, Read, Via;
      LengthOk(objects, next, target);
      BoundsTest(offset, length, objects[target].length);
      if Digits.Unsigned(Digits.Unsigned(offset) + length) > objects[target].length {
        return Refused("displaced bounds exceed target array");
      }
      if offset < 0 { return Misplaced; }
      ghost var h, order := objects, rank;
      NextFree(objects, next);
      var id := next;
      var view := Vector(length, fill, adjustable, true, [VectorAt(target), Num(offset)]);
      objects := objects[id := view];
      rank := rank[id := rank[target] + 1];
      next := next + 1;
      assert Chained(objects, rank);
      ViewAdded(h, order, id, view, next, target, offset);
      r := Made(id);
    }

    /** Any run of operations on one adjustable vector with a fill pointer follows a plain sequence
        and answers as it does; the object stays the same. */
    method Run(id: nat, ops: seq<Op>) returns (replies: seq<Reply>)
      requires Valid() && Sound(id) && HasFill(id) && objects[id].adjustable
      requires forall k :: 0 <= k < |ops| ==> OpFits(ops[k])
      modifies this
      ensures Valid() && Sound(id) && HasFill(id)
      ensures (View(id), replies) == PlainRun(old(View(id)), ops)
    {
      hide Chained, Read, Reach, Via, StoreFrame, GrowthFrame, SoundIn, ItemsOf, HeapOk, VectorOk, PlainStep;
      SoundFill(objects, rank, id);
      replies := [];
      ghost var start := View(id);
      for k := 0 to |ops|
        invariant Valid() && Sound(id) && id in objects && HasFill(id) && objects[id].adjustable
        invariant (View(id), replies) == PlainRun(start, ops[..k])
      {
        var r := Perform(id, ops[k]);
        PlainRunSnoc(start, ops, k);
        replies := replies + [r];
      }
      assert ops[..|ops|] == ops;
    }

    method Perform(id: nat, op: Op) returns (r: Reply)
      requires Valid() && Sound(id) && HasFill(id) && objects[id].adjustable && OpFits(op)
      modifies this
      ensures Valid() && Sound(id) && id in objects && HasFill(id) && objects[id].adjustable
      ensures (View(id), r) == PlainStep(old(View(id)), op)
    {
      hide Chained, Read, Reach, Via, StoreFrame, GrowthFrame, SoundIn, ItemsOf, HeapOk, VectorOk, AdjustedItems;
      SoundFill(objects, rank, id);
      match op {
        case Push(x) => r := VectorPush(id, x);
        case PushExtend(x, extension) => r := VectorPushExtend(id, x, extension);
        case Pop => r := VectorPop(id);
        case Adjust(length, initial, arg) =>
          var same: nat;
          r, same := AdjustArray(id, length, initial, arg);
      }
      SoundFill(objects, rank, id);
    }
  }

  /** An integer :fill-pointer lies within the length it comes with. */
  predicate OpFits(op: Op) {
    op.Adjust? && op.length >= 0 ==> FillFits(op.arg, op.length)
  }

  function PlainStep(p: Plain, op: Op): (r: (Plain, Reply))
    requires p.fill <= |p.items| && OpFits(op)
    ensures r.0.fill <= |r.0.items|
  {
    match op
    case Push(x) => PlainPush(p, x)
    case PushExtend(x, extension) => PlainPushExtend(p, x, extension)
    case Pop => PlainPop(p)
    case Adjust(length, initial, arg) => PlainAdjust(p, length, initial, arg)
  }

  function PlainRun(p: Plain, ops: seq<Op>): (r: (Plain, seq<Reply>))
    requires p.fill <= |p.items| && forall k :: 0 <= k < |ops| ==> OpFits(ops[k])
    ensures r.0.fill <= |r.0.items|
  {
    if ops == [] then (p, [])
    else
      var (q, replies) := PlainRun(p, ops[..|ops| - 1]);
      var (q', r) := PlainStep(q, ops[|ops| - 1]);
      (q', replies + [r])
  }

  lemma PlainRunSnoc(p: Plain, ops: seq<Op>, k: nat)
    requires p.fill <= |p.items| && k < |ops| && forall i :: 0 <= i < |ops| ==> OpFits(ops[i])
    ensures PlainRun(p, ops[..k + 1]) ==
      (PlainStep(PlainRun(p, ops[..k]).0, ops[k]).0,
       PlainRun(p, ops[..k]).1 + [PlainStep(PlainRun(p, ops[..k]).0, ops[k]).1])
  {
    hide PlainStep, OpFits;
    assert ops[..k + 1][..k] == ops[..k];
  }

  /** A displaced view changes nothing for the others and reads its target from its offset on. */
  lemma ViewAdded(h: Heap, rank: map<nat, nat>, id: nat, view: Vector, next: nat, target: nat, offset: nat)
    requires Chained(h, rank) && HeapOk(h, id) && target in h && next == id + 1
    requires view.displaced && view.data == [VectorAt(target), Num(offset)]
    requires view.length <= LIMIT && view.fill < 0x1_0000_0000
    requires Chained(h[id := view], rank[id := rank[target] + 1])
    ensures var h', rank' := h[id := view], rank[id := rank[target] + 1];
      && HeapOk(h', next)
      && (forall j: nat :: Read(h', rank', id, j) == Read(h', rank', target, j + offset))
      && (forall w, j: nat :: w in h ==> Read(h', rank', w, j) == Read(h, rank, w, j))
      && (forall j: nat :: Via(h', rank', id, j, target) == Some(j + offset))
  {
    var h', rank' := h[id := view], rank[id := rank[target] + 1];
    NextFree(h, id);
    forall w, j: nat | w in h ensures Read(h', rank', w, j) == Read(h, rank, w, j) {
      ViewReach(h, rank, id, view, target, w, j);
    }
    forall j: nat
      ensures Read(h', rank', id, j) == Read(h', rank', target, j + offset)
      ensures Via(h', rank', id, j, target) == Some(j + offset)
    {
      assert Reach(h', rank', id, j) == Reach(h', rank', target, j + offset);
      assert Via(h', rank', target, j + offset, target) == Some(j + offset);
    }
  }

  lemma {:induction false} ViewReach(h: Heap, rank: map<nat, nat>, id: nat, view: Vector, target: nat, w: nat, j: nat)
    requires Chained(h, rank) && id !in h && w in h && target in h
    requires Chained(h[id := view], rank[id := rank[target] + 1])
    ensures Reach(h[id := view], rank[id := rank[target] + 1], w, j) == Reach(h, rank, w, j)
    ensures Read(h[id := view], rank[id := rank[target] + 1], w, j) == Read(h, rank, w, j)
    decreases rank[w]
  {
    if h[w].displaced { ViewReach(h, rank, id, view, target, Backing(h[w]), j + Offset(h[w])); }
    ReachBase(h, rank, w, j);
  }

  lemma FillWord(store: Vector)
    requires VectorOk(store)
    ensures store.fill < 0x1_0000_0000
  {}

  lemma InHeap(h: Heap, next: nat, id: nat)
    requires HeapOk(h, next) && id in h
    ensures VectorOk(h[id]) && h[id].length <= LIMIT && h[id].fill < 0x1_0000_0000
    ensures h[id].displaced || h[id].adjustable || h[id].fill != NO_FILL ==> |h[id].data| >= 2
  {}

  lemma NextFree(h: Heap, next: nat)
    requires HeapOk(h, next)
    ensures next !in h
  {}

  lemma SoundFill(h: Heap, rank: map<nat, nat>, id: nat)
    requires Chained(h, rank) && SoundIn(h, rank, id)
    ensures id in h && (h[id].fill == NO_FILL || h[id].fill <= h[id].length)
  {}

  ghost predicate SameReads(h: Heap, h': Heap, rank: map<nat, nat>) {
    && Chained(h, rank) && Chained(h', rank) && h'.Keys == h.Keys
    && forall w, j: nat :: w in h ==>
      Read(h', rank, w, j) == Read(h, rank, w, j)
  }

  lemma SameReadsHere(h: Heap, rank: map<nat, nat>)
    requires Chained(h, rank)
    ensures SameReads(h, h, rank)
  {}

  lemma FillKeeps(h: Heap, rank: map<nat, nat>, id: nat, fill: nat)
    requires Chained(h, rank) && id in h
    ensures SameReads(h, h[id := h[id].(fill := fill)], rank)
    ensures ItemsOf(h[id := h[id].(fill := fill)], rank, id) == ItemsOf(h, rank, id)
  {
    var h' := h[id := h[id].(fill := fill)];
    assert Chained(h', rank);
    forall w, j: nat | w in h ensures Read(h', rank, w, j) == Read(h, rank, w, j) {
      FillReach(h, rank, id, fill, w, j);
    }
  }

  lemma StoreThenSame(h: Heap, h1: Heap, h2: Heap, rank: map<nat, nat>, id: nat, i: nat, x: Object)
    requires StoreFrame(h, h1, rank, id, i, x) && SameReads(h1, h2, rank)
    ensures StoreFrame(h, h2, rank, id, i, x)
  {
    hide Read, Reach, Chained;
  }

  lemma GrownItems(h: Heap, rank: map<nat, nat>, v: nat, n: nat, store: Vector, length: nat, fill: nat)
    requires Chained(h, rank) && v in h && |h[v].data| >= 2 && n !in h && !store.displaced
    requires Chained(Grown(h, v, n, store, length, fill), Raised(rank, n)) && length <= |store.data|
    ensures var h' := Grown(h, v, n, store, length, fill); var rank' := Raised(rank, n);
      && ItemsOf(h', rank', v) == store.data[..length]
      && (fill <= length || fill == NO_FILL ==> SoundIn(h', rank', v))
  {
    hide Chained, Read, Reach;
    var h', rank' := Grown(h, v, n, store, length, fill), Raised(rank, n);
    forall i | 0 <= i < length ensures Read(h', rank', v, i) == Some(store.data[i]) {
      GrownRead(h, rank, v, n, store, length, fill, v, i);
      assert Via(h, rank, v, i, v) == Some(i);
    }
  }

  lemma GrownFrame(h: Heap, rank: map<nat, nat>, v: nat, n: nat, store: Vector, length: nat, fill: nat, kept: nat)
    requires Chained(h, rank) && SoundIn(h, rank, v) && |h[v].data| >= 2 && n !in h && !store.displaced
    requires Chained(Grown(h, v, n, store, length, fill), Raised(rank, n))
    requires kept <= h[v].length && kept <= length <= |store.data| && store.data[..kept] == ItemsOf(h, rank, v)[..kept]
    ensures GrowthFrame(h, rank, Grown(h, v, n, store, length, fill), Raised(rank, n), v, kept)
  {
    hide Chained, Reach, Read;
    var h', rank' := Grown(h, v, n, store, length, fill), Raised(rank, n);
    forall w, j: nat | w in h && (Via(h, rank, w, j, v).None? || Via(h, rank, w, j, v).value < kept)
      ensures Read(h', rank', w, j) == Read(h, rank, w, j)
    {
      GrownRead(h, rank, v, n, store, length, fill, w, j);
      if Via(h, rank, w, j, v).Some? {
        var p := Via(h, rank, w, j, v).value;
        ViaReads(h, rank, w, j, v);
        assert store.data[..kept][p] == ItemsOf(h, rank, v)[..kept][p];
      }
    }
  }

  lemma FreshFrame(h: Heap, rank: map<nat, nat>, n: nat, store: Vector, next: nat, id: nat, kept: nat)
    requires Chained(h, rank) && n !in h && !store.displaced && VectorOk(store) && id in h
    requires HeapOk(h, n) && next == n + 1
    ensures var h', rank' := h[n := store], rank[n := 0];
      && Chained(h', rank') && HeapOk(h', next)
      && store.length <= |store.data| && ItemsOf(h', rank', n) == store.data[..store.length]
      && (store.fill <= store.length || store.fill == NO_FILL ==> SoundIn(h', rank', n))
      && GrowthFrame(h, rank, h', rank', id, kept)
  {
    var h', rank' := h[n := store], rank[n := 0];
    FreshKeeps(h, rank, n, store);
    FreshItems(h', rank', n, store);
  }

  lemma GrownOk(h: Heap, v: nat, n: nat, store: Vector, length: nat, fill: nat)
    requires v in h && |h[v].data| >= 2 && HeapOk(h, n) && VectorOk(store) && length == store.length
    requires fill < 0x1_0000_0000
    ensures HeapOk(Grown(h, v, n, store, length, fill), n + 1)
  {}

  lemma StoreFits(store: Vector)
    requires !store.displaced && VectorOk(store)
    ensures store.length <= |store.data| && store.length <= LIMIT
  {}

  lemma StoreIsOk(store: Vector)
    requires store.length <= LIMIT && store.fill < 0x1_0000_0000 && !store.displaced
    requires |store.data| >= 2 && store.length <= |store.data|
    ensures VectorOk(store)
  {}

  /** What passes through `v` reads as `v` does. */
  lemma ViaReads(h: Heap, rank: map<nat, nat>, w: nat, j: nat, v: nat)
    requires Chained(h, rank) && w in h && v in h && Via(h, rank, w, j, v).Some?
    ensures Read(h, rank, w, j) == Read(h, rank, v, Via(h, rank, w, j, v).value)
  {
    ViaReach(h, rank, w, j, v);
  }

  lemma {:induction false} FreshReach(h: Heap, rank: map<nat, nat>, n: nat, store: Vector, w: nat, j: nat)
    requires Chained(h, rank) && n !in h && !store.displaced && w in h
    ensures Chained(h[n := store], rank[n := 0])
    ensures Read(h[n := store], rank[n := 0], w, j) == Read(h, rank, w, j)
    ensures Reach(h[n := store], rank[n := 0], w, j) == Reach(h, rank, w, j)
    decreases rank[w]
  {
    assert Chained(h[n := store], rank[n := 0]);
    if h[w].displaced { FreshReach(h, rank, n, store, Backing(h[w]), j + Offset(h[w])); }
    ReachBase(h, rank, w, j);
  }

  /** A new vector changes nothing for the others. */
  lemma FreshKeeps(h: Heap, rank: map<nat, nat>, n: nat, store: Vector)
    requires Chained(h, rank) && n !in h && !store.displaced
    ensures Chained(h[n := store], rank[n := 0])
    ensures forall w, j: nat :: w in h ==> Read(h[n := store], rank[n := 0], w, j) == Read(h, rank, w, j)
  {
    assert Chained(h[n := store], rank[n := 0]);
    forall w, j: nat | w in h ensures Read(h[n := store], rank[n := 0], w, j) == Read(h, rank, w, j) {
      FreshReach(h, rank, n, store, w, j);
    }
  }

  lemma FreshItems(h: Heap, rank: map<nat, nat>, n: nat, store: Vector)
    requires Chained(h, rank) && n in h && h[n] == store && !store.displaced && store.length <= |store.data|
    ensures ItemsOf(h, rank, n) == store.data[..store.length]
    ensures forall i :: 0 <= i < store.length ==> Read(h, rank, n, i) == Some(store.data[i])
  {}

  /** The test on displaced bounds, in 32 bits. */
  lemma BoundsTest(offset: int, length: nat, total: nat)
    requires -0x4000_0000 <= offset < 0x4000_0000 && length <= LIMIT && total <= LIMIT
    ensures Digits.Unsigned(Digits.Unsigned(offset) + length) > total <==>
      offset + length > total || offset + length < 0
  {}

  lemma LengthOk(h: Heap, next: nat, id: nat)
    requires HeapOk(h, next) && id in h
    ensures h[id].length <= LIMIT
  {}

  lemma StartHere(h: Heap, rank: map<nat, nat>, id: nat)
    requires Chained(h, rank) && id in h
    ensures SameReach(h, rank, id, id, 0)
  {}

  lemma LinkInside(h: Heap, rank: map<nat, nat>, id: nat)
    requires Chained(h, rank) && id in h && h[id].displaced
    ensures LinkOk(h[id]) && Backing(h[id]) in h && id in rank && Backing(h[id]) in rank
    ensures rank[Backing(h[id])] < rank[id]
  {}

  lemma EndHere(h: Heap, rank: map<nat, nat>, id: nat, base: nat, offset: nat)
    requires Chained(h, rank) && id in h && base in h && !h[base].displaced && SameReach(h, rank, id, base, offset)
    ensures forall i: nat :: Reach(h, rank, id, i) == (base, i + offset)
  {}

  lemma StoredOk(h: Heap, next: nat, b: nat, slot: nat, x: Object)
    requires b in h && slot < |h[b].data| && HeapOk(h, next)
    ensures HeapOk(Stored(h, b, slot, x), next)
  {}

  /** An index of a sound vector means a slot that exists. */
  lemma SlotThere(h: Heap, rank: map<nat, nat>, id: nat, i: nat)
    requires Chained(h, rank) && SoundIn(h, rank, id) && i < h[id].length
    ensures var (b, slot) := Reach(h, rank, id, i); b in h && !h[b].displaced && slot < |h[b].data|
  {
    hide Chained, Reach;
    assert Read(h, rank, id, i).Some?;
    ReachBase(h, rank, id, i);
  }

  lemma StoredFrame(h: Heap, rank: map<nat, nat>, id: nat, i: nat, b: nat, slot: nat, x: Object)
    requires Chained(h, rank) && SoundIn(h, rank, id) && i < h[id].length && Reach(h, rank, id, i) == (b, slot)
    requires b in h && !h[b].displaced && slot < |h[b].data| && Chained(Stored(h, b, slot, x), rank)
    ensures var h' := Stored(h, b, slot, x);
      && StoreFrame(h, h', rank, id, i, x)
      && SoundIn(h', rank, id)
      && ItemsOf(h', rank, id) == ItemsOf(h, rank, id)[i := x]
      && forall w :: w in h' ==> h'[w].(data := h[w].data) == h[w]
  {
    hide Chained, Reach, Read;
    var h' := Stored(h, b, slot, x);
    forall w, j: nat | w in h
      ensures Read(h', rank, w, j) == if Reach(h, rank, w, j) == (b, slot) then Some(x) else Read(h, rank, w, j)
    {
      StoredRead(h, rank, b, slot, x, w, j);
    }
    forall j | 0 <= j < h[id].length && j != i ensures Reach(h, rank, id, j) != (b, slot) {
      SlotsDiffer(h, rank, id, i, j);
    }
  }

  /** Two indices of one vector never mean the same slot. */
  lemma {:induction false} SlotsDiffer(h: Heap, rank: map<nat, nat>, id: nat, i: nat, j: nat)
    requires Chained(h, rank) && id in h && i != j
    ensures Reach(h, rank, id, i) != Reach(h, rank, id, j)
    decreases rank[id]
  {
    if h[id].displaced { SlotsDiffer(h, rank, Backing(h[id]), i + Offset(h[id]), j + Offset(h[id])); }
  }

  lemma {:induction false} FillReach(h: Heap, rank: map<nat, nat>, id: nat, fill: nat, w: nat, j: nat)
    requires Chained(h, rank) && id in h && w in h
    requires Chained(h[id := h[id].(fill := fill)], rank)
    ensures Reach(h[id := h[id].(fill := fill)], rank, w, j) == Reach(h, rank, w, j)
    ensures Read(h[id := h[id].(fill := fill)], rank, w, j) == Read(h, rank, w, j)
    decreases rank[w]
  {
    if h[w].displaced { FillReach(h, rank, id, fill, Backing(h[w]), j + Offset(h[w])); }
    ReachBase(h, rank, w, j);
  }
}
