/** ASH (src/core/bignum.c): arithmetic shifts of Lisp integers by whole limbs and odd bits. */
module Shift {
  import opened Digits
  import opened Magnitude
  import opened Multiplication
  import opened Division
  import opened Integers
  import opened Arithmetic
  import opened Bits
  import opened BitOps
  import opened BitCounts

  /** What ASH by a fixnum means: multiplication by a power of two, or division by one rounded
      towards minus infinity. */
  function Shifted(n: int, count: int): int {
    if count >= 0 then n * Pow(2, count) else PowPositive(2, -count); n / Pow(2, -count)
  }

  /** A shift by whole limbs and then by fewer than 16 bits. */
  lemma ShiftParts(shift: nat)
    ensures Pow(2, shift) == Pow(BASE, shift / 16) * Pow(2, shift % 16) > 0
  {
    PowBase(shift / 16);
    PowAdd(2, 16 * (shift / 16), shift % 16);
    PowPositive(2, shift);
  }

  // ---- left ----

  method ShiftLimbsLeft(nl: seq<Limb>, words: nat, bits: nat) returns (r: seq<Limb>)
    requires nl != [] && bits < 16
    ensures r != [] && Mag(r) == Mag(nl) * (Pow(BASE, words) * Pow(2, bits))
  {
    ShiftDividesBase(bits);
    var m: Limb := Pow(2, bits);
    var result := new Limb[|nl| + words + 1];
    for k := 0 to result.Length
      invariant forall i :: 0 <= i < k ==> result[i] == 0
    {
      result[k] := 0;
    }
    var i, carry: Limb := 0, 0;
    ghost var done: seq<Limb> := [];
    assert nl[..0] == [] && Scaled(nl, 0, m, done, 0);
    hide Scaled, Value, Pow, Mag;
    while i < |nl|
      invariant 0 <= i <= |nl| && carry < m && done == result[words..words + i]
      invariant forall k :: 0 <= k < words || words + i <= k < result.Length ==> result[k] == 0
      invariant Scaled(nl, i, m, done, carry)
    {
      ShiftFits(nl[i], m, carry);
      var val: Word32 := nl[i] * m + carry;
      UnitStep(nl, i, m, done, carry, val % BASE, val / BASE);
      result[i + words] := val % BASE;
      carry := val / BASE;
      done := done + [val % BASE];
      i := i + 1;
    }
    ScaledAll(nl, m, done, carry);
    if carry != 0 { result[|nl| + words] := carry; }
    r := result[..];
    assert r == r[..words] + (done + [carry]);
    LeftValue(nl, r[..words], done, carry, m);
  }

  lemma LeftValue(nl: seq<Limb>, zeros: seq<Limb>, done: seq<Limb>, carry: Limb, m: int)
    requires Flushed(Mag(nl) * m, done, carry) && |done| == |nl|
    requires forall k :: 0 <= k < |zeros| ==> zeros[k] == 0
    ensures Mag(zeros + (done + [carry])) == Mag(nl) * (Pow(BASE, |zeros|) * m)
  {
    ValueZeros(zeros, BASE);
    ValueConcat(zeros, done + [carry], BASE);
    ValueSnoc(done, carry, BASE);
    LeftRing(Mag(zeros + (done + [carry])), Pow(BASE, |zeros|), Value(done + [carry], BASE), Mag(nl), m);
  }

  lemma LeftRing(v: int, p: int, w: int, n: int, m: int)
    requires v == 0 + p * w && w == n * m
    ensures v == n * (p * m)
  {}

  // ---- right ----

  /** After `i` result limbs: they hold the first `i` limbs shifted, short of the bits borrowed from
      limb `i` and of the bits dropped from limb 0. */
  ghost predicate Narrowed(s: seq<Limb>, m: int, i: nat, done: seq<Limb>) {
    s != [] && m > 0 && i <= |s| && |done| == i
    && m * Value(done, BASE) + s[0] % m == Value(s[..i], BASE) + (Digit(s, i) % m) * Pow(BASE, i)
  }

  lemma NarrowStep(s: seq<Limb>, m: int, k: int, i: nat, done: seq<Limb>, d: Limb)
    requires Narrowed(s, m, i, done) && i < |s| && m * k == BASE
    requires d == s[i] / m + (Digit(s, i + 1) % m) * k
    ensures Narrowed(s, m, i + 1, done + [d])
  {
    hide Value, Pow;
    PowStep(BASE, i);
    ValueSnoc(done, d, BASE);
    ValuePrefix(s, i, BASE);
    NarrowRing(m, Value(done, BASE), s[0] % m, Value(s[..i], BASE), s[i], s[i] / m, s[i] % m, Pow(BASE, i), d,
               Digit(s, i + 1) % m, k, Value(done + [d], BASE), Value(s[..i + 1], BASE), Pow(BASE, i + 1));
  }

  lemma NarrowRing(m: int, vd: int, low: int, vs: int, x: int, q: int, r: int, p: int, d: int, y: int, k: int,
                   vd': int, vs': int, p': int)
    requires m * vd + low == vs + r * p && x == q * m + r && m * k == BASE && d == q + y * k
    requires vd' == vd + d * p && vs' == vs + x * p && p' == BASE * p
    ensures m * vd' + low == vs' + y * p'
  {
    MulDistribute(m, vd, d * p);
    MulDistribute(p * m, q, y * k);
    MulDistribute(p, q * m, r);
    assert (m * p) * (y * k) == y * ((m * k) * p);
  }

  lemma NarrowFits(x: Limb, y: Limb, m: int, k: int)
    requires m > 0 && k > 0 && m * k == BASE
    ensures 0 <= x / m + (y % m) * k < BASE
    ensures (y * k) % BASE == (y % m) * k
  {
    var q, r := x / m, x % m;
    assert x == q * m + r;
    MulCancelLess(q, k, m);
    MulCancelLess(-1, q, m);
    var a, b := y / m, y % m;
    assert y == a * m + b;
    MulMonotone(b, m - 1, k);
    MulMonotone(0, b, k);
    MulDistribute(k, m, 1);
    MulDistribute(k, a * m, b);
    assert y * k == a * (m * k) + b * k;
    DivModUnique(y * k, BASE, a, b * k);
  }

  /** The surviving limbs moved down by `bits`. */
  method ShiftLimbsRight(s: seq<Limb>, bits: nat) returns (r: seq<Limb>)
    requires s != [] && bits < 16
    ensures |r| == |s|
    ensures Pow(2, bits) > 0 && Mag(s) == Mag(r) * Pow(2, bits) + s[0] % Pow(2, bits)
  {
    ShiftDividesBase(bits);
    if bits == 0 { return s; }
    var m: Limb, k: Limb := Pow(2, bits), Pow(2, 16 - bits);
    var result := new Limb[|s|];
    var i := 0;
    ghost var done: seq<Limb> := [];
    NarrowStart(s, m);
    hide Narrowed, Value, Pow, Mag;
    while i < |s|
      invariant 0 <= i <= |s| && done == result[..i]
      invariant Narrowed(s, m, i, done)
    {
      var val := NarrowLimb(s, i, m, k);
      NarrowStep(s, m, k, i, done, val);
      result[i] := val;
      done := done + [val];
      i := i + 1;
    }
    NarrowEnd(s, m, done);
    r := result[..];
    assert r == done;
  }

  /** `val = s[i] >> bits`, or-ed with the bits that come down from the next limb, if there is one. */
  method NarrowLimb(s: seq<Limb>, i: nat, m: Limb, k: Limb) returns (val: Limb)
    requires i < |s| && m > 0 && k > 0 && m * k == BASE
    ensures val == s[i] / m + (Digit(s, i + 1) % m) * k
  {
    NarrowFits(s[i], Digit(s, i + 1), m, k);
    DivModUnique(0, m, 0, 0);
    if i + 1 < |s| { val := s[i] / m + (s[i + 1] * k) % BASE; } else { val := s[i] / m; }
  }

  lemma NarrowStart(s: seq<Limb>, m: int)
    requires s != [] && m > 0
    ensures Narrowed(s, m, 0, [])
  {
    assert s[..0] == [];
  }

  lemma NarrowEnd(s: seq<Limb>, m: int, done: seq<Limb>)
    requires Narrowed(s, m, |s|, done)
    ensures Mag(s) == Mag(done) * m + s[0] % m
  {
    assert s[..|s|] == s;
    DivModUnique(0, m, 0, 0);
  }

  /** Whether any of the bits shifted out was set. */
  method AnyDropped(nl: seq<Limb>, words: nat, bits: nat) returns (any: bool)
    requires words < |nl| && bits < 16
    ensures Pow(2, bits) > 0 && (any <==> Mag(nl[..words]) != 0 || nl[words] % Pow(2, bits) != 0)
  {
    PowPositive(2, bits);
    DivModUnique(nl[words], 1, nl[words], 0);
    for w := 0 to words
      invariant forall k :: 0 <= k < w ==> nl[k] == 0
    {
      if nl[w] != 0 {
        PrefixZero(nl, words);
        return true;
      }
    }
    ValueZeros(nl[..words], BASE);
    any := bits > 0 && nl[words] % Pow(2, bits) != 0;
  }

  lemma PrefixZero(s: seq<Limb>, n: nat)
    requires n <= |s|
    ensures Mag(s[..n]) == 0 ==> forall k :: 0 <= k < n ==> s[k] == 0
  {
    if Mag(s[..n]) == 0 {
      PowPositive(BASE, 0);
      ValueSmall(s[..n], 0, BASE);
      forall k | 0 <= k < n ensures s[k] == 0 { assert s[k] == s[..n][k]; }
    }
  }

  /** Quotient and remainder of the whole right shift. */
  lemma RightValue(nl: seq<Limb>, words: nat, m: int, r: int)
    requires words < |nl| && m > 0 && r >= 0
    requires Mag(nl[words..]) == r * m + nl[words] % m
    ensures Pow(BASE, words) * m > 0
    ensures Mag(nl) / (Pow(BASE, words) * m) == r
    ensures Mag(nl) % (Pow(BASE, words) * m) == 0 <==> Mag(nl[..words]) == 0 && nl[words] % m == 0
  {
    hide Value, Pow;
    PowPositive(BASE, words);
    ValueSplit(nl, words, BASE);
    RightInts(Mag(nl), Mag(nl[..words]), Pow(BASE, words), r, m, nl[words] % m, Mag(nl[words..]));
  }

  lemma RightInts(v: int, low: int, p: int, r: int, m: int, x: int, high: int)
    requires v == low + p * high && high == r * m + x && 0 <= low < p && m > 0 && 0 <= x < m
    ensures p * m > 0 && v / (p * m) == r
    ensures v % (p * m) == 0 <==> low == 0 && x == 0
  {
    MulPositive(p, m);
    RightRing(v, low, p, r, m, x);
    MulMonotone(x, m - 1, p);
    MulMonotone(0, x, p);
    DivModUnique(v, p * m, r, low + x * p);
    if x != 0 { MulMonotone(1, x, p); }
  }

  lemma RightRing(v: int, low: int, p: int, r: int, m: int, x: int)
    requires v == low + p * (r * m + x)
    ensures v == r * (p * m) + (low + x * p)
    ensures (m - 1) * p == p * m - p
  {
    MulDistribute(p, r * m, x);
  }

  /** Rounding the quotient of a negative number towards minus infinity. */
  lemma FloorOfNegative(m: nat, d: int)
    requires d > 0
    ensures (0 - m) / d == 0 - m / d - (if m % d != 0 then 1 else 0)
  {
    var q, r := m / d, m % d;
    assert m == q * d + r;
    MulDistribute(d, 0 - q, 1);
    if r == 0 { DivModUnique(0 - m, d, 0 - q, 0); } else { DivModUnique(0 - m, d, 0 - q - 1, d - r); }
  }

  method ShiftRightObject(n: Integer, shift: nat) returns (r: Integer)
    requires Canonical(n)
    ensures Canonical(r) && ToInt(r) == Shifted(ToInt(n), 0 - shift)
  {
    LimbsOfValue(n);
    var nl, neg := LimbsOf(n), Negative(n);
    var words, bits := shift / 16, shift % 16;
    ShiftParts(shift);
    FloorOfNegative(Mag(nl), Pow(2, shift));
    if words >= |nl| {
      ShiftedAway(nl, shift);
      ValueShort(nl, BASE);
      return if neg then Fixnum(-1) else Fixnum(0);
    }
    PowPositive(2, bits);
    var result := ShiftLimbsRight(nl[words..], bits);
    RightValue(nl, words, Pow(2, bits), Mag(result));
    var any := AnyDropped(nl, words, bits);
    r := FromLimbs(result, neg);
    if neg && any { r := Sub(r, Fixnum(1)); }
  }

  lemma ShiftedAway(nl: seq<Limb>, shift: nat)
    requires |nl| <= shift / 16
    ensures Pow(2, shift) > 0 && Mag(nl) / Pow(2, shift) == 0 && Mag(nl) % Pow(2, shift) == Mag(nl)
  {
    PowBase(|nl|);
    PowMonotone(2, 16 * |nl|, shift);
    PowPositive(2, shift);
    DivModUnique(Mag(nl), Pow(2, shift), 0, Mag(nl));
  }

  // ---- ASH ----

  method Ash(n: Integer, count: Integer) returns (r: Outcome<Integer>)
    requires Canonical(n) && (count.Fixnum? ==> FitsFixnum(count.v))
    ensures r.Signal? <==> count.Bignum? && !count.neg && ToInt(n) != 0
    ensures r.Ok? ==> Canonical(r.value)
    ensures count.Fixnum? ==> r.Ok? && ToInt(r.value) == Shifted(ToInt(n), count.v)
    ensures count.Bignum? && r.Ok? ==> ToInt(r.value) == if ToInt(n) < 0 then -1 else 0
    ensures count.Bignum? && count.neg && Canonical(count) && IntLength(ToInt(n)) <= FIXNUM_MAX ==>
      ToInt(r.value) == Shifted(ToInt(n), ToInt(count))
  {
    PredicateMeaning(n);
    if count.Bignum? {
      if Canonical(count) && count.neg && IntLength(ToInt(n)) <= FIXNUM_MAX {
        LimbsOfValue(count);
        ShiftPastLength(ToInt(n), -ToInt(count));
      }
      if Minusp(count) { return Ok(if Minusp(n) then Fixnum(-1) else Fixnum(0)); }
      if Zerop(n) { return Ok(n); }
      return Signal(TypeError);
    }
    var shift := count.v;
    if shift == 0 {
      ShiftByZero(ToInt(n));
      return Ok(n);
    }
    var done, fast := FixnumShift(n, shift);
    if done { return Ok(fast); }
    if shift > 0 {
      LimbsOfValue(n);
      ShiftParts(shift);
      var result := ShiftLimbsLeft(LimbsOf(n), shift / 16, shift % 16);
      SignedShift(Negative(n), Mag(LimbsOf(n)), Pow(2, shift));
      var big := FromLimbs(result, Negative(n));
      r := Ok(big);
    } else {
      var small := ShiftRightObject(n, -shift);
      r := Ok(small);
    }
  }

  lemma ShiftByZero(n: int)
    ensures Shifted(n, 0) == n
  {}

  lemma SignedShift(neg: bool, m: int, p: int)
    ensures Signed(neg, m) * p == Signed(neg, m * p)
  {}

  /** The fixnum path: right shifts of fixnums always, left shifts when the result is a fixnum. */
  method FixnumShift(n: Integer, shift: int) returns (done: bool, r: Integer)
    requires Canonical(n) && FitsFixnum(shift) && shift != 0
    ensures done ==> Canonical(r) && ToInt(r) == Shifted(ToInt(n), shift)
  {
    done, r := false, n;
    if n.Fixnum? {
      if n.v == 0 {
        ZeroShifted(shift);
        return true, Fixnum(0);
      }
      if shift < 0 {
        var s := -shift;
        PowPositive(2, s);
        RightShiftFits(n.v, s);
        if s >= 31 { return true, if n.v < 0 then Fixnum(-1) else Fixnum(0); }
        MakeFixnumFits(n.v / Pow(2, s));
        return true, MakeFixnum(n.v / Pow(2, s));
      }
      if shift < 31 {
        var wide := n.v * Pow(2, shift);
        if FIXNUM_MIN <= wide <= FIXNUM_MAX { return true, MakeFixnum(wide); }
      }
    }
  }

  lemma ZeroShifted(shift: int)
    ensures Shifted(0, shift) == 0
  {
    if shift < 0 {
      PowPositive(2, -shift);
      DivModUnique(0, Pow(2, -shift), 0, 0);
    }
  }

  lemma RightShiftFits(v: int, s: nat)
    requires FitsFixnum(v)
    ensures Pow(2, s) > 0 && FitsFixnum(v / Pow(2, s))
    ensures s >= 31 ==> v / Pow(2, s) == if v < 0 then -1 else 0
  {
    var p := Pow(2, s);
    PowPositive(2, s);
    if s >= 31 {
      TwoToThirty();
      PowMonotone(2, 31, s);
    }
    hide Pow;
    QuotientRange(v, p);
    if s >= 31 { FarShift(v, p); }
  }

  lemma QuotientRange(v: int, p: int)
    requires FitsFixnum(v) && p > 0
    ensures FitsFixnum(v / p)
  {
    var q, r := v / p, v % p;
    assert v == q * p + r;
    MulDistribute(p, q, 1);
    MulCancelLess(q, FIXNUM_MAX + 1, p);
    MulCancelLess(FIXNUM_MIN, q + 1, p);
  }

  lemma FarShift(v: int, p: int)
    requires FitsFixnum(v) && p >= 0x8000_0000
    ensures v / p == if v < 0 then -1 else 0
  {
    if v < 0 { DivModUnique(v, p, -1, v + p); } else { DivModUnique(v, p, 0, v); }
  }

  /** A right shift by at least the integer's length leaves only its sign; so the answer for
      bignum counts is the floor too, for integers of up to 2^30 bits. */
  lemma ShiftPastLength(n: int, count: nat)
    requires IntLength(n) <= count
    ensures Shifted(n, 0 - count) == if n < 0 then -1 else 0
  {
    IntLengthLeast(n, count);
    hide IntLength;
    PowPositive(2, count);
    DivModUnique(n, Pow(2, count), if n < 0 then -1 else 0, if n < 0 then n + Pow(2, count) else n);
    if count == 0 { ShiftByZero(n); }
  }
}
