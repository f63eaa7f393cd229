/** Infinite two's complement: the bits of an integer, and the word operations of C seen
    through them. */
module Bits {
  import opened Digits

  /** Bit `i` of the infinite two's complement of `x`; `/` rounds towards minus infinity here. */
  ghost predicate Bit(x: int, i: nat) {
    PowPositive(2, i);
    (x / Pow(2, i)) % 2 == 1
  }

  lemma BitZero(x: int)
    ensures Bit(x, 0) <==> x % 2 == 1
  {}

  lemma BitSucc(x: int, i: nat)
    ensures Bit(x, i + 1) == Bit(x / 2, i)
  {
    PowPositive(2, i);
    DivDiv(x, 2, Pow(2, i));
  }

  /** Two integers with the same bits are equal. */
  lemma {:induction false} SameBits(x: int, y: int)
    requires forall i: nat :: Bit(x, i) == Bit(y, i)
    ensures x == y
    decreases (if x < 0 then -x else x) + (if y < 0 then -y else y)
  {
    BitZero(x);
    BitZero(y);
    assert Bit(x, 0) == Bit(y, 0);
    if !(-1 <= x <= 0 && -1 <= y <= 0) {
      forall i: nat ensures Bit(x / 2, i) == Bit(y / 2, i) {
        BitSucc(x, i);
        BitSucc(y, i);
        assert Bit(x, i + 1) == Bit(y, i + 1);
      }
      SameBits(x / 2, y / 2);
    }
  }

  /** Bits of a number assembled from a low part below 2^k and a high part. */
  lemma {:induction false} BitConcat(low: int, high: int, k: nat, i: nat)
    requires 0 <= low < Pow(2, k)
    ensures Bit(low + high * Pow(2, k), i) == if i < k then Bit(low, i) else Bit(high, i - k)
    decreases k
  {
    if k > 0 {
      var p := Pow(2, k - 1);
      ConcatHalf(low, high, p);
      if i == 0 {
        BitZero(low);
        BitZero(low + high * Pow(2, k));
      } else {
        BitSucc(low + high * Pow(2, k), i - 1);
        BitSucc(low, i - 1);
        BitConcat(low / 2, high, k - 1, i - 1);
      }
    }
  }

  lemma ConcatHalf(low: int, high: int, p: int)
    ensures (low + high * (2 * p)) / 2 == low / 2 + high * p
    ensures (low + high * (2 * p)) % 2 == low % 2
  {
    assert high * (2 * p) == 2 * (high * p);
  }

  lemma BitSplit(x: int, low: int, high: int, p: int, k: nat, i: nat)
    requires p == Pow(2, k) && x == low + p * high && 0 <= low < p
    ensures Bit(x, i) == if i < k then Bit(low, i) else Bit(high, i - k)
  {
    BitConcat(low, high, k, i);
  }

  /** Complement flips every bit. */
  lemma {:induction false} BitComplement(x: int, i: nat)
    ensures Bit(-1 - x, i) == !Bit(x, i)
    decreases i
  {
    if i == 0 {
      BitZero(x);
      BitZero(-1 - x);
    } else {
      assert (-1 - x) / 2 == -1 - x / 2;
      BitSucc(x, i - 1);
      BitSucc(-1 - x, i - 1);
      BitComplement(x / 2, i - 1);
    }
  }

  /** Sign extension: beyond its width a number shows only its sign. */
  lemma BitHigh(x: int, k: nat, i: nat)
    requires -Pow(2, k) <= x < Pow(2, k) && i >= k
    ensures Bit(x, i) == (x < 0)
  {
    if x >= 0 {
      BitConcat(x, 0, k, i);
      BitOfZero(i - k);
    } else {
      BitComplement(x, i);
      BitConcat(-1 - x, 0, k, i);
      BitOfZero(i - k);
    }
  }

  lemma BitOfZero(i: nat)
    ensures !Bit(0, i)
  {
    PowPositive(2, i);
    DivModUnique(0, Pow(2, i), 0, 0);
  }

  // ---- lengths ----

  /** The number of significant bits. */
  function BitLen(v: nat): nat { if v == 0 then 0 else 1 + BitLen(v / 2) }

  lemma {:induction false} BitLenBounds(v: nat)
    ensures v < Pow(2, BitLen(v))
    ensures v > 0 ==> BitLen(v) > 0 && Pow(2, BitLen(v) - 1) <= v
  {
    if v > 0 {
      BitLenBounds(v / 2);
      if v / 2 > 0 { assert Pow(2, BitLen(v) - 1) == 2 * Pow(2, BitLen(v / 2) - 1); }
    }
  }

  lemma BitLenUnique(v: nat, n: nat)
    requires n > 0 && Pow(2, n - 1) <= v < Pow(2, n)
    ensures BitLen(v) == n
  {
    BitLenBounds(v);
    PowPositive(2, n - 1);
    if BitLen(v) < n { PowMonotone(2, BitLen(v), n - 1); }
    if BitLen(v) > n { PowMonotone(2, n, BitLen(v) - 1); }
  }

  /** bit_length32: `while (v) { n++; v >>= 1; }`. */
  method BitLength32(v0: Word32) returns (n: nat)
    ensures n == BitLen(v0)
  {
    var v: Word32 := v0;
    n := 0;
    while v != 0
      invariant n + BitLen(v) == BitLen(v0)
    {
      n := n + 1;
      v := v / 2;
    }
  }
}
