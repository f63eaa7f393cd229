/** Positional notation, little endian: the meaning of a limb array.
    Everything else in the arithmetic modules is stated through `Value`. */
module Digits {

  /** One 16-bit limb. */
  type Limb = x: int | 0 <= x < 0x1_0000

  /** The machine words the C code computes in. A value assigned to a variable of such
      a type is thereby proved not to overflow it. */
  type Word32 = x: int | 0 <= x < 0x1_0000_0000
  type Word64 = x: int | 0 <= x < 0x1_0000_0000_0000_0000
  type Word128 = x: int | 0 <= x < 0x1_0000_0000_0000_0000_0000_0000_0000_0000
  type Int32 = x: int | -0x8000_0000 <= x < 0x8000_0000

  const BASE: int := 0x1_0000
  const BASE32: int := 0x1_0000_0000

  /** A C int as an unsigned word of 32 bits. */
  function Unsigned(i: int): Word32 { i % 0x1_0000_0000 }

  function Pow(b: int, n: nat): int {
    if n == 0 then 1 else b * Pow(b, n - 1)
  }

  /** The number whose digits in base `b`, least significant first, are `s`. */
  function Value(s: seq<int>, b: int): int {
    if s == [] then 0 else Value(s[..|s| - 1], b) + s[|s| - 1] * Pow(b, |s| - 1)
  }

  ghost predicate InBase(s: seq<int>, b: int) {
    forall i :: 0 <= i < |s| ==> 0 <= s[i] < b
  }

  // ---- powers ----

  lemma PowZero(b: int)
    ensures Pow(b, 0) == 1
  {}

  lemma PowStep(b: int, n: nat)
    ensures Pow(b, n + 1) == b * Pow(b, n)
  {}

  lemma {:induction false} PowPositive(b: int, n: nat)
    requires b > 0
    ensures Pow(b, n) > 0
  {
    if n > 0 { PowPositive(b, n - 1); MulPositive(b, Pow(b, n - 1)); }
  }

  lemma {:induction false} PowAdd(b: int, m: nat, n: nat)
    ensures Pow(b, m + n) == Pow(b, m) * Pow(b, n)
  {
    if m > 0 {
      PowAdd(b, m - 1, n);
      MulAssoc(b, Pow(b, m - 1), Pow(b, n));
    }
  }

  lemma {:induction false} PowMonotone(b: int, m: nat, n: nat)
    requires b > 0 && m <= n
    ensures Pow(b, m) <= Pow(b, n)
    decreases n
  {
    if m < n {
      PowMonotone(b, m, n - 1);
      PowPositive(b, n - 1);
      MulMonotone(1, b, Pow(b, n - 1));
    }
  }

  lemma {:induction false} PowMul(b: int, m: nat, n: nat)
    ensures Pow(Pow(b, m), n) == Pow(b, m * n)
    decreases n
  {
    if n > 0 {
      PowMul(b, m, n - 1);
      assert m * n == m + m * (n - 1);
      PowAdd(b, m, m * (n - 1));
    }
  }

  // ---- multiplication facts the solver should not have to search for ----

  lemma MulPositive(x: int, y: int)
    requires x > 0 && y > 0
    ensures x * y > 0
  {}

  lemma MulAssoc(x: int, y: int, z: int)
    ensures x * (y * z) == (x * y) * z
  {}

  lemma MulDistribute(x: int, y: int, z: int)
    ensures x * (y + z) == x * y + x * z
    ensures x * (y - z) == x * y - x * z
  {}

  lemma MulInterchange(a: int, b: int, x: int, y: int)
    ensures (a * b) * (x * y) == (a * x) * (b * y)
  {
    MulAssoc(a * b, x, y);
    MulAssoc(a, b, x);
    MulAssoc(a, x, b);
    MulAssoc(a * x, b, y);
  }

  lemma MulMonotone(x: int, y: int, z: int)
    requires x <= y && z >= 0
    ensures x * z <= y * z
  {}

  lemma MulCancelLess(x: int, y: int, z: int)
    requires x * z < y * z && z > 0
    ensures x < y
  {
    if x >= y { MulMonotone(y, x, z); }
  }

  lemma MulCancelEqual(x: int, y: int, z: int)
    requires x * z == y * z && z != 0
    ensures x == y
  {
    assert (x - y) * z == 0;
  }

  /** Quotient and remainder are determined by their defining property. */
  lemma DivModUnique(a: int, b: int, q: int, r: int)
    requires b > 0 && a == q * b + r && 0 <= r < b
    ensures a / b == q && a % b == r
  {
    var q', r' := a / b, a % b;
    assert a == q' * b + r' && 0 <= r' < b;
    assert (q - q') * b == r' - r;
    if q > q' { MulMonotone(1, q - q', b); }
    if q < q' { MulMonotone(q - q', -1, b); }
  }

  /** Dividing twice is dividing by the product. */
  lemma DivDiv(x: int, a: int, b: int)
    requires a > 0 && b > 0
    ensures a * b > 0 && x / (a * b) == (x / a) / b
  {
    MulPositive(a, b);
    var q, r := x / a, x % a;
    var q', r' := q / b, q % b;
    assert x == q * a + r && q == q' * b + r';
    DivDivRing(x, a, b, q, r, q', r');
    MulMonotone(r', b - 1, a);
    MulMonotone(0, r', a);
    DivModUnique(x, a * b, q', r' * a + r);
  }

  lemma DivDivRing(x: int, a: int, b: int, q: int, r: int, q': int, r': int)
    requires x == q * a + r && q == q' * b + r'
    ensures x == q' * (a * b) + (r' * a + r)
  {
    MulDistribute(a, q' * b, r');
  }

  // ---- values ----

  /** Appending a digit. */
  lemma ValueSnoc(s: seq<int>, d: int, b: int)
    ensures Value(s + [d], b) == Value(s, b) + d * Pow(b, |s|)
  {
    assert (s + [d])[..|s|] == s;
  }

  /** Extending a prefix by one digit. */
  lemma ValuePrefix(s: seq<int>, i: nat, b: int)
    requires i < |s|
    ensures Value(s[..i + 1], b) == Value(s[..i], b) + s[i] * Pow(b, i)
  {
    assert s[..i + 1] == s[..i] + [s[i]];
    ValueSnoc(s[..i], s[i], b);
  }

  lemma {:induction false} ValueBound(s: seq<int>, b: int)
    requires b > 0 && InBase(s, b)
    ensures 0 <= Value(s, b) < Pow(b, |s|)
  {
    if s != [] {
      var n := |s| - 1;
      ValueBound(s[..n], b);
      PowPositive(b, n);
      MulMonotone(0, s[n], Pow(b, n));
      MulMonotone(s[n], b - 1, Pow(b, n));
      assert (b - 1) * Pow(b, n) == b * Pow(b, n) - Pow(b, n);
    }
  }

  lemma {:induction false} ValueConcat(s: seq<int>, t: seq<int>, b: int)
    ensures Value(s + t, b) == Value(s, b) + Pow(b, |s|) * Value(t, b)
  {
    if t == [] {
      assert s + t == s;
    } else {
      var n := |t| - 1;
      assert s + t == (s + t[..n]) + [t[n]];
      ValueConcat(s, t[..n], b);
      ValueSnoc(s + t[..n], t[n], b);
      PowAdd(b, |s|, n);
      var p, q := Pow(b, |s|), Pow(b, n);
      MulDistribute(p, Value(t[..n], b), t[n] * q);
      MulAssoc(p, t[n], q);
      MulAssoc(t[n], p, q);
    }
  }

  lemma ValueSplit(s: seq<int>, i: nat, b: int)
    requires i <= |s|
    ensures Value(s, b) == Value(s[..i], b) + Pow(b, i) * Value(s[i..], b)
  {
    assert s == s[..i] + s[i..];
    ValueConcat(s[..i], s[i..], b);
  }

  /** The least significant digit. */
  lemma ValueCons(s: seq<int>, b: int)
    requires s != []
    ensures Value(s, b) == s[0] + b * Value(s[1..], b)
  {
    ValueSplit(s, 1, b);
    assert Pow(b, 1) == b * Pow(b, 0);
    assert s[..1][..0] == [];
  }

  /** Storing one digit changes the value by the difference at its weight. */
  lemma ValueUpdate(s: seq<int>, k: nat, d: int, b: int)
    requires k < |s|
    ensures Value(s[k := d], b) == Value(s, b) + (d - s[k]) * Pow(b, k)
  {
    var t := s[k := d];
    var rest := s[k + 1..];
    assert s == s[..k] + [s[k]] + rest && t == s[..k] + [d] + rest;
    ValueConcat(s[..k] + [s[k]], rest, b);
    ValueConcat(s[..k] + [d], rest, b);
    ValueSnoc(s[..k], s[k], b);
    ValueSnoc(s[..k], d, b);
    MulDistribute(Pow(b, k), d, s[k]);
  }

  lemma {:induction false} ValueZeros(s: seq<int>, b: int)
    requires forall i :: 0 <= i < |s| ==> s[i] == 0
    ensures Value(s, b) == 0
  {
    if s != [] { ValueZeros(s[..|s| - 1], b); }
  }

  /** Leading zero digits do not count. */
  lemma ValuePad(s: seq<int>, n: nat, b: int)
    requires n <= |s|
    requires forall i :: n <= i < |s| ==> s[i] == 0
    ensures Value(s, b) == Value(s[..n], b)
  {
    ValueSplit(s, n, b);
    ValueZeros(s[n..], b);
  }

  /** A nonzero leading digit bounds the value from below. */
  lemma ValueTop(s: seq<int>, b: int)
    requires b > 0 && InBase(s, b) && s != [] && s[|s| - 1] != 0
    ensures Value(s, b) >= Pow(b, |s| - 1)
  {
    var n := |s| - 1;
    ValueBound(s[..n], b);
    PowPositive(b, n);
    MulMonotone(1, s[n], Pow(b, n));
  }

  /** A value below b^n has only zero digits from position n on. */
  lemma {:induction false} ValueSmall(s: seq<int>, n: nat, b: int)
    requires b > 0 && InBase(s, b) && n <= |s| && Value(s, b) < Pow(b, n)
    ensures forall i :: n <= i < |s| ==> s[i] == 0
  {
    if n < |s| {
      var k := |s| - 1;
      if s[k] != 0 {
        ValueTop(s, b);
        PowMonotone(b, n, k);
      }
      assert Value(s, b) == Value(s[..k], b);
      ValueSmall(s[..k], n, b);
    }
  }

  /** Equally long numerals with the same value are the same numeral. */
  lemma {:induction false} ValueInjective(s: seq<int>, t: seq<int>, b: int)
    requires b > 0 && InBase(s, b) && InBase(t, b) && |s| == |t|
    requires Value(s, b) == Value(t, b)
    ensures s == t
  {
    if s != [] {
      ValueCons(s, b);
      ValueCons(t, b);
      var x, y := Value(s[1..], b), Value(t[1..], b);
      DivModUnique(s[0] + b * x, b, x, s[0]);
      DivModUnique(t[0] + b * y, b, y, t[0]);
      ValueInjective(s[1..], t[1..], b);
      assert s == [s[0]] + s[1..] && t == [t[0]] + t[1..];
    }
  }

  /** Value of one- and two-digit numerals. */
  lemma ValueShort(s: seq<int>, b: int)
    ensures |s| == 1 ==> Value(s, b) == s[0]
    ensures |s| == 2 ==> Value(s, b) == s[0] + b * s[1]
  {
    if |s| == 1 {
      ValueCons(s, b);
    } else if |s| == 2 {
      ValueCons(s, b);
      ValueCons(s[1..], b);
    }
  }
}
