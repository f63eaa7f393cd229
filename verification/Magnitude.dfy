/** The routines on raw limb arrays of src/core/bignum.c, except long division. Operands
    the C code only reads are sequences; buffers it writes are arrays. */
module Magnitude {
  import opened Digits

  /** The natural number held in a run of limbs. */
  ghost function Mag(s: seq<Limb>): (v: nat)
    ensures v < Pow(BASE, |s|)
  {
    ValueBound(s, BASE);
    Value(s, BASE)
  }

  ghost function Mag32(s: seq<Word32>): (v: nat)
    ensures v < Pow(BASE32, |s|)
  {
    ValueBound(s, BASE32);
    Value(s, BASE32)
  }

  function Max(x: nat, y: nat): nat { if x < y then y else x }

  /** What one carry-propagating step does at weight `p`, the next weight being `p'`. */
  lemma CarryStep(x: int, y: int, z: int, digit: int, carry: int, b: int, p: int, p': int)
    requires x + y + z == digit + carry * b && p' == b * p
    ensures x * p + y * p + z * p == digit * p + carry * p'
  {
    MulDistribute(p, x + y, z);
    MulDistribute(p, x, y);
    MulDistribute(p, digit, carry * b);
  }

  lemma BorrowStep(x: int, y: int, z: int, digit: int, borrow: int, b: int, p: int, p': int)
    requires x - y - z == digit - borrow * b && p' == b * p
    ensures x * p - y * p - z * p == digit * p - borrow * p'
  {
    MulDistribute(p, x - y, z);
    MulDistribute(p, x, y);
    MulDistribute(p, digit, borrow * b);
  }

  // ---- comparison ----

  /** The order bignum_compare_mag gives: by length, then by value. */
  ghost function LimbOrder(a: seq<Limb>, b: seq<Limb>): int {
    if |a| > |b| then 1 else if |a| < |b| then -1 else Sign(Mag(a) - Mag(b))
  }

  /** -1, 0 or 1: for operands without leading zero limbs the order of the magnitudes. */
  method CompareMag(a: seq<Limb>, b: seq<Limb>) returns (c: int)
    ensures c == LimbOrder(a, b)
    ensures Stripped(a) && Stripped(b) ==> c == Sign(Mag(a) - Mag(b))
  {
    if Stripped(a) && Stripped(b) {
      LongerIsLarger(a, b);
      LongerIsLarger(b, a);
    }
    if |a| != |b| { return if |a| > |b| then 1 else -1; }
    var i := |a|;
    while i > 0
      invariant 0 <= i <= |a|
      invariant a[i..] == b[i..]
    {
      if a[i - 1] != b[i - 1] {
        DigitDecides(a, b, i - 1);
        return if a[i - 1] > b[i - 1] then 1 else -1;
      }
      assert a[i - 1..] == [a[i - 1]] + a[i..] && b[i - 1..] == [b[i - 1]] + b[i..];
      i := i - 1;
    }
    assert a == a[0..] && b == b[0..];
    c := 0;
  }

  function Sign(x: int): int { if x < 0 then -1 else if x > 0 then 1 else 0 }

  /** No leading zero limb, except that zero is the single limb 0. */
  predicate Stripped(s: seq<Limb>) {
    s != [] && (|s| > 1 ==> s[|s| - 1] != 0)
  }

  lemma LongerIsLarger(a: seq<Limb>, b: seq<Limb>)
    requires Stripped(a) && Stripped(b)
    ensures |a| > |b| ==> Mag(a) > Mag(b)
  {
    if |a| > |b| {
      ValueTop(a, BASE);
      PowMonotone(BASE, |b|, |a| - 1);
    }
  }

  /** The highest differing limb decides the order. */
  lemma DigitDecides(a: seq<Limb>, b: seq<Limb>, k: nat)
    requires |a| == |b| && k < |a| && a[k + 1..] == b[k + 1..]
    ensures a[k] < b[k] ==> Mag(a) < Mag(b)
    ensures a[k] > b[k] ==> Mag(a) > Mag(b)
  {
    var p := Pow(BASE, k);
    PowPositive(BASE, k);
    ValuePrefix(a, k, BASE);
    ValuePrefix(b, k, BASE);
    ValueBound(a[..k], BASE);
    ValueBound(b[..k], BASE);
    if a[k] < b[k] { LeadDecides(Value(a[..k], BASE), Value(b[..k], BASE), a[k], b[k], p); }
    if a[k] > b[k] { LeadDecides(Value(b[..k], BASE), Value(a[..k], BASE), b[k], a[k], p); }
    ValueSplit(a, k + 1, BASE);
    ValueSplit(b, k + 1, BASE);
  }

  lemma LeadDecides(lowX: nat, lowY: nat, x: nat, y: nat, p: nat)
    requires x < y && lowX < p
    ensures lowX + x * p < lowY + y * p
  {
    MulMonotone(x + 1, y, p);
  }

  // ---- addition and subtraction ----

  /** The digits of `s` below position `i`; positions past its end count as 0. */
  function Digit(s: seq<Limb>, i: nat): Limb { if i < |s| then s[i] else 0 }

  /** After `i` limbs: what is written plus the pending carry is the sum of the prefixes. */
  ghost predicate Added(a: seq<Limb>, b: seq<Limb>, i: nat, done: seq<Limb>, carry: int) {
    |done| == i && Value(done, BASE) + carry * Pow(BASE, i) == Prefix(a, i) + Prefix(b, i)
  }

  ghost predicate Subtracted(a: seq<Limb>, b: seq<Limb>, i: nat, done: seq<Limb>, borrow: int) {
    |done| == i && Value(done, BASE) - borrow * Pow(BASE, i) == Prefix(a, i) - Prefix(b, i)
  }

  /** The value of the lowest `i` limbs. */
  ghost function Prefix(s: seq<Limb>, i: nat): int {
    Value(if i < |s| then s[..i] else s, BASE)
  }

  lemma PrefixStep(s: seq<Limb>, i: nat)
    ensures Prefix(s, i + 1) == Prefix(s, i) + Digit(s, i) * Pow(BASE, i)
  {
    if i < |s| {
      ValuePrefix(s, i, BASE);
      if i + 1 == |s| { assert s[..i + 1] == s; }
    }
  }

  lemma AddStep(a: seq<Limb>, b: seq<Limb>, i: nat, done: seq<Limb>, carry: int, sum: int)
    requires Added(a, b, i, done, carry) && sum == Digit(a, i) + Digit(b, i) + carry
    ensures Added(a, b, i + 1, done + [sum % BASE], sum / BASE)
  {
    PrefixStep(a, i);
    PrefixStep(b, i);
    ValueSnoc(done, sum % BASE, BASE);
    CarryStep(Digit(a, i), Digit(b, i), carry, sum % BASE, sum / BASE,
              BASE, Pow(BASE, i), Pow(BASE, i + 1));
  }

  method AddMag(a0: seq<Limb>, b0: seq<Limb>, result: array<Limb>) returns (len: nat)
    requires result.Length > Max(|a0|, |b0|)
    modifies result
    ensures Max(|a0|, |b0|) <= len <= result.Length
    ensures Mag(result[..len]) == Mag(a0) + Mag(b0)
    ensures Stripped(a0) && Stripped(b0) ==> Stripped(result[..len])
  {
    var a, b := a0, b0;
    if |a| < |b| { a, b := b, a; }
    var carry: Word32 := AddCommon(a, b, result);
    var i := |b|;
    ghost var done: seq<Limb> := result[..i];
    hide Added, Mag, Value, Pow, Prefix;
    while i < |a|
      invariant |b| <= i <= |a| && carry <= 1 && done == result[..i]
      invariant Added(a, b, i, done, carry)
    {
      var sum: Word32 := a[i] + carry;
      AddStep(a, b, i, done, carry, sum);
      result[i] := sum % BASE;
      carry := sum / BASE;
      done := done + [sum % BASE];
      i := i + 1;
    }
    AddEnd(a, b, i, done, carry);
    len := |a|;
    if carry != 0 {
      result[len] := carry;
      len := len + 1;
      assert result[..len] == done + [carry];
    } else if Stripped(a) {
      SumStripped(a, result[..len], Mag(b));
    }
  }

  /** A sum as long as an operand without leading zeros has none either. */
  lemma SumStripped(a: seq<Limb>, sum: seq<Limb>, b: nat)
    requires Stripped(a) && |sum| == |a| && Mag(sum) == Mag(a) + b
    ensures Stripped(sum)
  {
    var n := |a| - 1;
    if n > 0 {
      ValueTop(a, BASE);
      ValueBound(sum[..n], BASE);
    }
  }

  /** The limbs both operands have. */
  method AddCommon(a: seq<Limb>, b: seq<Limb>, result: array<Limb>) returns (carry: Word32)
    requires |b| <= |a| <= result.Length
    modifies result
    ensures carry <= 1 && Added(a, b, |b|, result[..|b|], carry)
  {
    carry := 0;
    var i := 0;
    ghost var done: seq<Limb> := [];
    assert Added(a, b, 0, done, 0);
    hide Added, Mag, Value, Pow, Prefix;
    while i < |b|
      invariant 0 <= i <= |b| && carry <= 1 && done == result[..i]
      invariant Added(a, b, i, done, carry)
    {
      var sum: Word32 := a[i] + b[i] + carry;
      AddStep(a, b, i, done, carry, sum);
      result[i] := sum % BASE;
      carry := sum / BASE;
      done := done + [sum % BASE];
      i := i + 1;
    }
  }

  lemma AddEnd(a: seq<Limb>, b: seq<Limb>, i: nat, done: seq<Limb>, carry: Limb)
    requires Added(a, b, i, done, carry) && |a| <= i && |b| <= i
    ensures Mag(done + [carry]) == Mag(a) + Mag(b)
    ensures carry == 0 ==> Mag(done) == Mag(a) + Mag(b)
  {
    ValueSnoc(done, carry, BASE);
  }

  /** The 32-bit difference x - y - z as the C code computes it, wrapping around. */
  function WrapSub(x: Word32, y: Word32, z: Word32): Word32 {
    (x - y - z) % BASE32
  }

  /** The stored limb is `diff & 0xFFFF`, the borrow `(diff >> 16) & 1`. */
  lemma SubStep(a: seq<Limb>, b: seq<Limb>, i: nat, done: seq<Limb>, borrow: Word32)
    requires Subtracted(a, b, i, done, borrow) && borrow <= 1
    ensures var diff := WrapSub(Digit(a, i), Digit(b, i), borrow);
            Subtracted(a, b, i + 1, done + [diff % BASE], (diff / BASE) % 2)
  {
    var diff := WrapSub(Digit(a, i), Digit(b, i), borrow);
    PrefixStep(a, i);
    PrefixStep(b, i);
    ValueSnoc(done, diff % BASE, BASE);
    BorrowFact(Digit(a, i), Digit(b, i), borrow);
    BorrowStep(Digit(a, i), Digit(b, i), borrow, diff % BASE, (diff / BASE) % 2,
               BASE, Pow(BASE, i), Pow(BASE, i + 1));
  }

  lemma BorrowFact(x: Limb, y: Limb, z: Word32)
    requires z <= 1
    ensures var d := WrapSub(x, y, z);
            x - y - z == d % BASE - ((d / BASE) % 2) * BASE
  {}

  lemma SubEnd(a: seq<Limb>, b: seq<Limb>, i: nat, done: seq<Limb>, borrow: Word32)
    requires Subtracted(a, b, i, done, borrow) && |a| <= i && |b| <= i
    requires borrow <= 1 && Mag(a) >= Mag(b)
    ensures Mag(done) == Mag(a) - Mag(b)
  {
    ValueBound(done, BASE);
  }

  method SubMag(a: seq<Limb>, b: seq<Limb>, result: array<Limb>) returns (len: nat)
    requires 0 < |b| <= |a| <= result.Length && Mag(a) >= Mag(b)
    modifies result
    ensures 0 < len <= |a| && Stripped(result[..len])
    ensures Mag(result[..len]) == Mag(a) - Mag(b)
  {
    assert Subtracted(a, b, 0, [], 0);
    hide Subtracted, Mag, Value, Pow, Prefix;
    var i, borrow: Word32 := 0, 0;
    ghost var done: seq<Limb> := [];
    while i < |b|
      invariant 0 <= i <= |b| && borrow <= 1 && done == result[..i]
      invariant Subtracted(a, b, i, done, borrow)
    {
      var diff := WrapSub(a[i], b[i], borrow);
      SubStep(a, b, i, done, borrow);
      result[i] := diff % BASE;
      borrow := (diff / BASE) % 2;
      done := done + [diff % BASE];
      i := i + 1;
    }
    while i < |a|
      invariant |b| <= i <= |a| && borrow <= 1 && done == result[..i]
      invariant Subtracted(a, b, i, done, borrow)
    {
      var diff := WrapSub(a[i], 0, borrow);
      SubStep(a, b, i, done, borrow);
      result[i] := diff % BASE;
      borrow := (diff / BASE) % 2;
      done := done + [diff % BASE];
      i := i + 1;
    }
    SubEnd(a, b, i, done, borrow);
    len := Strip(result, |a|);
  }

  /** `while (len > 1 && r[len - 1] == 0) len--`, the idiom that ends every routine. */
  method Strip(r: array<Limb>, n: nat) returns (len: nat)
    requires 0 < n <= r.Length
    ensures 0 < len <= n && Stripped(r[..len]) && Mag(r[..len]) == Mag(r[..n])
    ensures forall k :: len <= k < n ==> r[k] == 0
  {
    len := n;
    while len > 1 && r[len - 1] == 0
      invariant 0 < len <= n && Mag(r[..len]) == Mag(r[..n])
      invariant forall k :: len <= k < n ==> r[k] == 0
    {
      ValuePrefix(r[..], len - 1, BASE);
      assert r[..][..len] == r[..len] && r[..][..len - 1] == r[..len - 1];
      len := len - 1;
    }
  }
}
