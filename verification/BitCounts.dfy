/** LOGBITP, LOGCOUNT and INTEGER-LENGTH (src/core/bignum.c), against the same bit view. */
module BitCounts {
  import opened Digits
  import opened Magnitude
  import opened Integers
  import opened Arithmetic
  import opened Bits
  import opened BitOps

  // ---- counting one bits ----

  function PopCount(v: nat): nat { if v == 0 then 0 else v % 2 + PopCount(v / 2) }

  /** The reference: how many of the lowest `n` bits of `x` differ from its sign. */
  ghost function DifferingBits(x: int, n: nat): nat {
    if n == 0 then 0 else DifferingBits(x, n - 1) + (if Bit(x, n - 1) != (x < 0) then 1 else 0)
  }

  lemma {:induction false} PopConcat(low: nat, high: nat, k: nat)
    requires low < Pow(2, k)
    ensures low + high * Pow(2, k) >= 0 && PopCount(low + high * Pow(2, k)) == PopCount(low) + PopCount(high)
    decreases k
  {
    PowPositive(2, k);
    MulMonotone(0, high, Pow(2, k));
    if k > 0 {
      var p := Pow(2, k - 1);
      ConcatHalf(low, high, p);
      PopConcat(low / 2, high, k - 1);
    }
  }

  /** Counting bits by position and by halving agree. */
  lemma {:induction false} PopCountIsDiffering(v: nat, n: nat)
    requires v < Pow(2, n)
    ensures DifferingBits(v, n) == PopCount(v)
  {
    if n > 0 {
      var p := Pow(2, n - 1);
      var low, high := SplitBelow(v, p);
      hide Pow, PopCount, Bit;
      PopConcat(low, high, n - 1);
      BitConcat(low, high, n - 1, n - 1);
      OneBit(high);
      PopCountIsDiffering(low, n - 1);
      SamePrefix(v, low, high, n - 1, n - 1);
    }
  }

  lemma SplitBelow(v: nat, p: int) returns (low: nat, high: nat)
    requires p > 0 && v < 2 * p
    ensures v == low + high * p && low < p && high < 2
  {
    if v < p { low, high := v, 0; } else { low, high := v - p, 1; }
  }

  lemma OneBit(x: nat)
    requires x < 2
    ensures Bit(x, 0) == (x == 1) && PopCount(x) == x
  {
    BitZero(x);
  }

  lemma {:induction false} SamePrefix(x: int, y: int, h: int, n: nat, m: nat)
    requires (x < 0) == (y < 0) && m <= n && 0 <= y < Pow(2, n) && x == y + h * Pow(2, n)
    ensures DifferingBits(x, m) == DifferingBits(y, m)
    decreases m
  {
    if m > 0 {
      BitConcat(y, h, n, m - 1);
      SamePrefix(x, y, h, n, m - 1);
    }
  }

  /** Complementing flips the sign with the bits, so the count stays. */
  lemma {:induction false} DifferingComplement(x: int, n: nat)
    ensures DifferingBits(-1 - x, n) == DifferingBits(x, n)
  {
    if n > 0 {
      BitComplement(x, n - 1);
      DifferingComplement(x, n - 1);
    }
  }

  // ---- `v &= v - 1` clears the lowest one bit ----

  lemma {:induction false} ClearLowest(v: nat, n: nat)
    requires 0 < v < Pow(2, n)
    ensures 0 <= WordOp(And, v, v - 1, n) < v
    ensures PopCount(v) > 0 && PopCount(WordOp(And, v, v - 1, n)) == PopCount(v) - 1
    decreases n
  {
    if v % 2 == 1 {
      assert (v - 1) / 2 == v / 2;
      AndSelf(v / 2, n - 1);
    } else {
      assert (v - 1) / 2 == v / 2 - 1;
      ClearLowest(v / 2, n - 1);
    }
  }

  lemma {:induction false} AndSelf(v: nat, n: nat)
    requires v < Pow(2, n)
    ensures WordOp(And, v, v, n) == v
    decreases n
  {
    if n > 0 { AndSelf(v / 2, n - 1); }
  }

  lemma PopZero(v: nat)
    ensures PopCount(v) == 0 <==> v == 0
  {}

  /** popcount16, and the loop of LOGCOUNT on a fixnum's word. */
  method CountOnes(v0: Word32) returns (c: nat)
    ensures c == PopCount(v0)
  {
    var v: Word32 := v0;
    c := 0;
    TwoToThirty();
    PowStep(2, 31);
    while v != 0
      invariant c + PopCount(v) == PopCount(v0)
      decreases v
    {
      ClearLowest(v, 32);
      v := WordOp(And, v, v - 1, 32);
      c := c + 1;
    }
  }

  // ---- the limbs of |n| - 1, one at a time ----

  /** After `i` limbs of subtracting one. */
  ghost predicate Decremented(s: seq<Limb>, i: nat, done: seq<Limb>, borrow: int) {
    i <= |s| && |done| == i && Value(done, BASE) - borrow * Pow(BASE, i) == Value(s[..i], BASE) - 1
  }

  lemma DecrementStep(s: seq<Limb>, i: nat, done: seq<Limb>, borrow: Word32)
    requires Decremented(s, i, done, borrow) && i < |s| && borrow <= 1
    ensures var val := WrapSub(s[i], 0, borrow);
            Decremented(s, i + 1, done + [val % BASE], (val / BASE) % 2)
  {
    var val := WrapSub(s[i], 0, borrow);
    BorrowFact(s[i], 0, borrow);
    ValueSnoc(done, val % BASE, BASE);
    ValuePrefix(s, i, BASE);
    BorrowStep(s[i], 0, borrow, val % BASE, (val / BASE) % 2, BASE, Pow(BASE, i), Pow(BASE, i + 1));
  }

  lemma DecrementEnd(s: seq<Limb>, done: seq<Limb>, borrow: Word32)
    requires Decremented(s, |s|, done, borrow) && borrow <= 1 && Mag(s) > 0
    ensures Mag(done) == Mag(s) - 1
  {
    assert s[..|s|] == s;
    ValueBound(done, BASE);
  }

  lemma PopLimb(done: seq<Limb>, d: Limb)
    ensures PopCount(Mag(done + [d])) == PopCount(Mag(done)) + PopCount(d)
  {
    ValueSnoc(done, d, BASE);
    PowBase(|done|);
    hide Value;
    PopConcat(Mag(done), d, 16 * |done|);
  }

  method LogCount(x: Integer) returns (c: nat)
    requires Canonical(x)
    ensures c == PopCount(if ToInt(x) < 0 then -1 - ToInt(x) else ToInt(x))
  {
    LimbsOfValue(x);
    if x.Fixnum? {
      c := CountOnes(if x.v < 0 then -1 - x.v else x.v);
      return;
    }
    var limbs := x.limbs;
    var borrow: Word32, i := if x.neg then 1 else 0, 0;
    ghost var done: seq<Limb> := [];
    assert limbs[..0] == [];
    hide Value, Pow;
    c := 0;
    if !x.neg {
      while i < |limbs|
        invariant 0 <= i <= |limbs| && c == PopCount(Mag(limbs[..i]))
      {
        var ones := CountOnes(limbs[i]);
        PopLimb(limbs[..i], limbs[i]);
        assert limbs[..i + 1] == limbs[..i] + [limbs[i]];
        c := c + ones;
        i := i + 1;
      }
      assert limbs[..i] == limbs;
    } else {
      DecrementStart(limbs);
      while i < |limbs|
        invariant 0 <= i <= |limbs| && borrow <= 1 && c == PopCount(Mag(done))
        invariant Decremented(limbs, i, done, borrow)
      {
        var val := WrapSub(limbs[i], 0, borrow);
        DecrementStep(limbs, i, done, borrow);
        var ones := CountOnes(val % BASE);
        PopLimb(done, val % BASE);
        done := done + [val % BASE];
        c := c + ones;
        borrow := (val / BASE) % 2;
        i := i + 1;
      }
      DecrementEnd(limbs, done, borrow);
    }
  }

  lemma DecrementStart(s: seq<Limb>)
    ensures Decremented(s, 0, [], 1)
  {
    assert s[..0] == [];
  }

  /** LOGCOUNT counts the bits that differ from the sign, however many low bits are looked at. */
  lemma LogCountMeaning(x: int, n: nat)
    requires -Pow(2, n) <= x < Pow(2, n)
    ensures PopCount(if x < 0 then -1 - x else x) == DifferingBits(x, n)
  {
    PopCountIsDiffering(if x < 0 then -1 - x else x, n);
    if x < 0 { DifferingComplement(x, n); }
  }

  // ---- LOGBITP ----

  method LogBitp(index: Int32, x: Integer) returns (b: bool)
    requires Canonical(x)
    ensures index >= 0 ==> b == Bit(ToInt(x), index)
    ensures index < 0 ==> !b
  {
    if index < 0 { return false; }
    if x.Fixnum? {
      if index >= 31 {
        TwoToThirty();
        BitHigh(x.v, 31, index);
        return x.v < 0;
      }
      PowPositive(2, index);
      return (x.v / Pow(2, index)) % 2 == 1;
    }
    LimbsOfValue(x);
    b := BignumBit(x, index);
  }

  method BignumBit(x: Integer, index: nat) returns (b: bool)
    requires x.Bignum? && Mag(x.limbs) > 0
    ensures b == Bit(ToInt(x), index)
  {
    var limbs := x.limbs;
    var k, j := index / 16, index % 16;
    PowPositive(2, j);
    if !x.neg {
      if k >= |limbs| {
        MagHighBit(limbs, index);
        return false;
      }
      LimbBit(limbs, k, j);
      return (limbs[k] / Pow(2, j)) % 2 == 1;
    }
    BitComplement(ToInt(x), index);
    if k >= |limbs| {
      DecrementedHighBit(limbs, index);
      return true;
    }
    var val := DecrementedLimb(limbs, k);
    LimbBitBelow(limbs, k, j, val);
    b := !((val / Pow(2, j)) % 2 == 1);
  }

  lemma MagHighBit(s: seq<Limb>, i: nat)
    requires i >= 16 * |s|
    ensures !Bit(Mag(s), i)
  {
    PowBase(|s|);
    BitHigh(Mag(s), 16 * |s|, i);
  }

  lemma DecrementedHighBit(s: seq<Limb>, i: nat)
    requires i >= 16 * |s| && Mag(s) > 0
    ensures !Bit(Mag(s) - 1, i)
  {
    PowBase(|s|);
    BitHigh(Mag(s) - 1, 16 * |s|, i);
  }

  /** Limb `k` of |n| - 1, by streaming the subtraction up to it. */
  method DecrementedLimb(limbs: seq<Limb>, k: nat) returns (val: Limb)
    requires k < |limbs| && Mag(limbs) > 0
    ensures exists done: seq<Limb> :: |done| == |limbs| && Mag(done) == Mag(limbs) - 1 && done[k] == val
  {
    var borrow: Word32, i := 1, 0;
    ghost var done: seq<Limb> := [];
    DecrementStart(limbs);
    hide Decremented, Mag;
    val := 0;
    while i <= k
      invariant 0 <= i <= k + 1 && borrow <= 1 && |done| == i
      invariant i > 0 ==> done[i - 1] == val
      invariant Decremented(limbs, i, done, borrow)
    {
      var v := WrapSub(limbs[i], 0, borrow);
      DecrementStep(limbs, i, done, borrow);
      val := v % BASE;
      borrow := (v / BASE) % 2;
      done := done + [val];
      i := i + 1;
    }
    DecrementRest(limbs, i, done, borrow);
  }

  lemma {:induction false} DecrementRest(s: seq<Limb>, i: nat, done: seq<Limb>, borrow: Word32)
    requires Decremented(s, i, done, borrow) && borrow <= 1 && Mag(s) > 0
    ensures exists all: seq<Limb> :: |all| == |s| && Mag(all) == Mag(s) - 1 && done <= all
    decreases |s| - i
  {
    if i == |s| {
      DecrementEnd(s, done, borrow);
      assert done <= done;
    } else {
      var v := WrapSub(s[i], 0, borrow);
      DecrementStep(s, i, done, borrow);
      DecrementRest(s, i + 1, done + [v % BASE], (v / BASE) % 2);
      var all: seq<Limb> :| |all| == |s| && Mag(all) == Mag(s) - 1 && done + [v % BASE] <= all;
      assert done <= all;
    }
  }

  lemma LimbBitBelow(limbs: seq<Limb>, k: nat, j: nat, val: Limb)
    requires k < |limbs| && j < 16 && Mag(limbs) > 0
    requires exists done: seq<Limb> :: |done| == |limbs| && Mag(done) == Mag(limbs) - 1 && done[k] == val
    ensures Bit(Mag(limbs) - 1, 16 * k + j) == Bit(val, j)
  {
    var done: seq<Limb> :| |done| == |limbs| && Mag(done) == Mag(limbs) - 1 && done[k] == val;
    LimbBit(done, k, j);
  }

  // ---- INTEGER-LENGTH ----

  /** The bits needed beside the sign. */
  function IntLength(x: int): nat { BitLen(if x < 0 then -1 - x else x) }

  /** INTEGER-LENGTH is the least width of a two's complement field (without its sign bit). */
  lemma IntLengthLeast(x: int, n: nat)
    ensures -Pow(2, n) <= x < Pow(2, n) <==> IntLength(x) <= n
  {
    var v := if x < 0 then -1 - x else x;
    BitLenBounds(v);
    if IntLength(x) <= n {
      PowMonotone(2, BitLen(v), n);
    } else {
      PowMonotone(2, n, BitLen(v) - 1);
    }
  }

  method IntegerLength(x: Integer) returns (bits: nat)
    requires Canonical(x)
    ensures bits == IntLength(ToInt(x))
  {
    if x.Fixnum? {
      if x.v == 0 || x.v == -1 { return 0; }
      bits := BitLength32(if x.v < 0 then -1 - x.v else x.v);
      return;
    }
    LimbsOfValue(x);
    var limbs := x.limbs;
    var top := limbs[|limbs| - 1];
    var topBits := BitLength32(top);
    bits := (|limbs| - 1) * 16 + topBits;
    LimbsLength(limbs);
    if x.neg {
      PowerOfTwoLimbs(limbs);
      BelowPowerOfTwo(Mag(limbs));
      ClearTop(top);
      if WordOp(And, top, top - 1, 16) == 0 {
        var allZero := AllZero(limbs, |limbs| - 1);
        if allZero { bits := bits - 1; }
      }
    }
  }

  method AllZero(limbs: seq<Limb>, n: nat) returns (allZero: bool)
    requires n <= |limbs|
    ensures allZero <==> forall k :: 0 <= k < n ==> limbs[k] == 0
  {
    for i := 0 to n
      invariant forall k :: 0 <= k < i ==> limbs[k] == 0
    {
      if limbs[i] != 0 { return false; }
    }
    allZero := true;
  }

  lemma ClearTop(top: Limb)
    requires top > 0
    ensures WordOp(And, top, top - 1, 16) == 0 <==> PopCount(top) == 1
  {
    TwoToSixteen();
    ClearLowest(top, 16);
    PopZero(WordOp(And, top, top - 1, 16));
  }

  lemma LimbsLength(s: seq<Limb>)
    requires s != [] && s[|s| - 1] != 0
    ensures BitLen(Mag(s)) == (|s| - 1) * 16 + BitLen(s[|s| - 1])
  {
    var n := |s| - 1;
    BitLenBounds(s[n]);
    ValuePrefix(s, n, BASE);
    assert s[..n + 1] == s;
    ValueBound(s[..n], BASE);
    PowBase(n);
    hide Value, Pow, BitLen;
    PowAdd(2, 16 * n, BitLen(s[n]));
    PowAdd(2, 16 * n, BitLen(s[n]) - 1);
    LengthRing(Mag(s), Value(s[..n], BASE), s[n], Pow(2, 16 * n), Pow(2, BitLen(s[n])), Pow(2, BitLen(s[n]) - 1));
    BitLenUnique(Mag(s), 16 * n + BitLen(s[n]));
  }

  lemma LengthRing(v: int, low: int, top: int, p: int, t: int, h: int)
    requires v == low + top * p && 0 <= low < p && h <= top < t
    ensures p * h <= v < p * t
  {
    MulMonotone(h, top, p);
    MulMonotone(top + 1, t, p);
    MulDistribute(p, top, 1);
  }

  /** A magnitude has one bit set exactly when its top limb has and the others are zero. */
  lemma PowerOfTwoLimbs(s: seq<Limb>)
    requires s != [] && s[|s| - 1] != 0
    ensures PopCount(Mag(s)) == 1 <==> PopCount(s[|s| - 1]) == 1 && forall k :: 0 <= k < |s| - 1 ==> s[k] == 0
  {
    var n := |s| - 1;
    assert s == s[..n] + [s[n]];
    PopLimb(s[..n], s[n]);
    PopZero(Mag(s[..n]));
    PopZero(s[n]);
    if Mag(s[..n]) == 0 {
      PowPositive(BASE, 0);
      ValueSmall(s[..n], 0, BASE);
      forall k | 0 <= k < n ensures s[k] == 0 { assert s[k] == s[..n][k]; }
    } else if forall k :: 0 <= k < n ==> s[k] == 0 {
      ValueZeros(s[..n], BASE);
    }
  }

  lemma {:induction false} PopOne(v: nat)
    requires v > 0
    ensures PopCount(v) == 1 <==> v == Pow(2, BitLen(v) - 1)
  {
    PopZero(v / 2);
    if v > 1 {
      PopOne(v / 2);
      PowStep(2, BitLen(v / 2) - 1);
    }
  }

  /** |n| - 1 is one bit shorter exactly when |n| is a power of two. */
  lemma BelowPowerOfTwo(v: nat)
    requires v > 0
    ensures BitLen(v - 1) == if PopCount(v) == 1 then BitLen(v) - 1 else BitLen(v)
  {
    PopOne(v);
    BitLenBounds(v);
    if PopCount(v) == 1 {
      if BitLen(v) - 1 > 0 {
        PowStep(2, BitLen(v) - 2);
        PowPositive(2, BitLen(v) - 2);
        BitLenUnique(v - 1, BitLen(v) - 1);
      }
    } else {
      BitLenUnique(v - 1, BitLen(v));
    }
  }
}
