/** Every multiplication routine of src/core/bignum.c computes the same product: the
    16-bit schoolbook, the packed 32-bit schoolbook, and the one-pass small multiplier in
    its wide and its 68020 form. */
module Multiplication {
  import opened Digits
  import opened Magnitude

  // ---- schoolbook multiplication, in either base ----

  /** Row `i` after `j` digits: the buffer plus the pending carry is what the buffer held
      before the row plus the partial product. */
  ghost predicate Row(r: seq<int>, before: int, x: int, i: nat, v: seq<int>, j: nat, carry: int, b: int) {
    j <= |v| && Value(r, b) + carry * Pow(b, i + j) == before + x * (Pow(b, i) * Value(v[..j], b))
  }

  lemma RowStart(r: seq<int>, x: int, i: nat, v: seq<int>, b: int)
    ensures Row(r, Value(r, b), x, i, v, 0, 0, b)
  {
    assert v[..0] == [];
    assert Pow(b, i) * 0 == 0 && x * 0 == 0;
  }

  lemma RowStep(r: seq<int>, before: int, x: int, i: nat, v: seq<int>, j: nat, carry: int, b: int,
                digit: int, carry': int)
    requires Row(r, before, x, i, v, j, carry, b) && j < |v| && i + j < |r|
    requires x * v[j] + r[i + j] + carry == digit + carry' * b
    ensures Row(r[i + j := digit], before, x, i, v, j + 1, carry', b)
  {
    var p, p' := Pow(b, i + j), Pow(b, i + (j + 1));
    assert p' == b * p;
    ValueUpdate(r, i + j, digit, b);
    RowProduct(x, i, v, j, b);
    RowRing(Value(r, b), carry, p, before, x * (Pow(b, i) * Value(v[..j], b)), x * v[j], r[i + j],
            digit, carry', b, p', Value(r[i + j := digit], b), x * (Pow(b, i) * Value(v[..j + 1], b)));
  }

  lemma RowRing(vr: int, c: int, p: int, before: int, xq: int, y: int, rk: int, d: int, c': int, b: int,
                p': int, vr': int, xq': int)
    requires vr + c * p == before + xq && y + rk + c == d + c' * b && p' == b * p
    requires vr' == vr + (d - rk) * p && xq' == xq + y * p
    ensures vr' + c' * p' == before + xq'
  {
    MulDistribute(p, y + rk, c);
    MulDistribute(p, y, rk);
    MulDistribute(p, d, c' * b);
    MulDistribute(p, d, rk);
  }

  lemma RowProduct(x: int, i: nat, v: seq<int>, j: nat, b: int)
    requires j < |v|
    ensures x * (Pow(b, i) * Value(v[..j + 1], b))
         == x * (Pow(b, i) * Value(v[..j], b)) + (x * v[j]) * Pow(b, i + j)
  {
    var w, q := Value(v[..j], b), Pow(b, i);
    ValuePrefix(v, j, b);
    PowAdd(b, i, j);
    MulDistribute(q, w, v[j] * Pow(b, j));
    MulDistribute(x, q * w, q * (v[j] * Pow(b, j)));
    MulInterchange(x, q, v[j], Pow(b, j));
    MulAssoc(x, q, v[j] * Pow(b, j));
  }

  /** Adding the last carry into the still empty limb completes the row. */
  lemma RowEnd(r: seq<int>, before: int, x: int, i: nat, v: seq<int>, carry: int, b: int, u: seq<int>)
    requires Row(r, before, x, i, v, |v|, carry, b) && i + |v| < |r| && r[i + |v|] == 0
    requires i < |u| && u[i] == x && before == Value(u[..i], b) * Value(v, b)
    ensures Value(r[i + |v| := carry], b) == Value(u[..i + 1], b) * Value(v, b)
  {
    assert v[..|v|] == v;
    ValueUpdate(r, i + |v|, carry, b);
    ValuePrefix(u, i, b);
    RowEndRing(Value(r, b), carry, Pow(b, i + |v|), before, x, Pow(b, i), Value(v, b),
               Value(u[..i], b), Value(u[..i + 1], b), Value(r[i + |v| := carry], b));
  }

  lemma RowEndRing(vr: int, c: int, p: int, before: int, x: int, q: int, v: int, u: int, u': int, vr': int)
    requires vr + c * p == before + x * (q * v) && before == u * v
    requires u' == u + x * q && vr' == vr + (c - 0) * p
    ensures vr' == u' * v
  {
    MulDistribute(v, u, x * q);
  }

  /** The 16-bit form; every intermediate fits 32 bits. */
  method MulMag(a: seq<Limb>, b: seq<Limb>, result: array<Limb>) returns (len: nat)
    requires a != [] && b != [] && result.Length >= |a| + |b|
    modifies result
    ensures 0 < len <= |a| + |b| && Stripped(result[..len])
    ensures Mag(result[..len]) == Mag(a) * Mag(b)
  {
    var n := |a| + |b|;
    for k := 0 to n
      invariant forall m :: 0 <= m < k ==> result[m] == 0
    {
      result[k] := 0;
    }
    ValueZeros(result[..n], BASE);
    assert Value(a[..0], BASE) * Value(b, BASE) == 0;
    var i := 0;
    while i < |a|
      invariant 0 <= i <= |a|
      invariant Value(result[..n], BASE) == Value(a[..i], BASE) * Value(b, BASE)
      invariant forall m :: i + |b| <= m < n ==> result[m] == 0
    {
      MulRow(a, b, result, i);
      i := i + 1;
    }
    assert a[..i] == a;
    len := Strip(result, n);
  }

  method MulRow(a: seq<Limb>, b: seq<Limb>, result: array<Limb>, i: nat)
    requires i < |a| && b != [] && result.Length >= |a| + |b|
    requires Value(result[..|a| + |b|], BASE) == Value(a[..i], BASE) * Value(b, BASE)
    requires forall m :: i + |b| <= m < |a| + |b| ==> result[m] == 0
    modifies result
    ensures Value(result[..|a| + |b|], BASE) == Value(a[..i + 1], BASE) * Value(b, BASE)
    ensures forall m :: i + 1 + |b| <= m < |a| + |b| ==> result[m] == 0
  {
    var n := |a| + |b|;
    ghost var before, r := Value(result[..n], BASE), result[..n];
    RowStart(r, a[i], i, b, BASE);
    hide Row;
    var carry: Word32, j := 0, 0;
    while j < |b|
      invariant 0 <= j <= |b| && carry < BASE && r == result[..n]
      invariant Row(r, before, a[i], i, b, j, carry, BASE)
      invariant forall m :: i + |b| <= m < n ==> result[m] == 0
    {
      ProductFits(a[i], b[j], BASE);
      var prod: Word32 := a[i] * b[j] + result[i + j] + carry;
      RowStep(r, before, a[i], i, b, j, carry, BASE, prod % BASE, prod / BASE);
      result[i + j] := prod % BASE;
      carry := prod / BASE;
      r := r[i + j := prod % BASE];
      j := j + 1;
    }
    RowEnd(r, before, a[i], i, b, carry, BASE, a);
    var last: Word32 := result[i + |b|] + carry;
    result[i + |b|] := last;
    assert result[..n] == r[i + |b| := carry];
  }

  lemma ProductFits(x: int, y: int, b: int)
    requires 0 <= x < b && 0 <= y < b
    ensures 0 <= x * y <= (b - 1) * (b - 1)
  {
    MulMonotone(0, x, y);
    MulMonotone(x, b - 1, y);
    MulMonotone(y, b - 1, b - 1);
  }

  /** The 32-bit form for 64-bit hosts; every intermediate fits 64 bits. */
  method MulMag32(a: seq<Word32>, b: seq<Word32>, result: array<Word32>) returns (len: nat)
    requires a != [] && b != [] && result.Length >= |a| + |b|
    modifies result
    ensures 0 < len <= |a| + |b|
    ensures Mag32(result[..len]) == Mag32(a) * Mag32(b)
  {
    var n := |a| + |b|;
    for k := 0 to n
      invariant forall m :: 0 <= m < k ==> result[m] == 0
    {
      result[k] := 0;
    }
    ValueZeros(result[..n], BASE32);
    assert Value(a[..0], BASE32) * Value(b, BASE32) == 0;
    var i := 0;
    while i < |a|
      invariant 0 <= i <= |a|
      invariant Value(result[..n], BASE32) == Value(a[..i], BASE32) * Value(b, BASE32)
      invariant forall m :: i + |b| <= m < n ==> result[m] == 0
    {
      MulRow32(a, b, result, i);
      i := i + 1;
    }
    assert a[..i] == a;
    len := n;
    while len > 1 && result[len - 1] == 0
      invariant 0 < len <= n && Mag32(result[..len]) == Mag32(a) * Mag32(b)
    {
      assert result[..len] == result[..len - 1] + [result[len - 1]];
      ValueSnoc(result[..len - 1], 0, BASE32);
      len := len - 1;
    }
  }

  method MulRow32(a: seq<Word32>, b: seq<Word32>, result: array<Word32>, i: nat)
    requires i < |a| && b != [] && result.Length >= |a| + |b|
    requires Value(result[..|a| + |b|], BASE32) == Value(a[..i], BASE32) * Value(b, BASE32)
    requires forall m :: i + |b| <= m < |a| + |b| ==> result[m] == 0
    modifies result
    ensures Value(result[..|a| + |b|], BASE32) == Value(a[..i + 1], BASE32) * Value(b, BASE32)
    ensures forall m :: i + 1 + |b| <= m < |a| + |b| ==> result[m] == 0
  {
    var n := |a| + |b|;
    ghost var before, r := Value(result[..n], BASE32), result[..n];
    RowStart(r, a[i], i, b, BASE32);
    hide Row;
    var carry: Word64, j := 0, 0;
    while j < |b|
      invariant 0 <= j <= |b| && carry < BASE32 && r == result[..n]
      invariant Row(r, before, a[i], i, b, j, carry, BASE32)
      invariant forall m :: i + |b| <= m < n ==> result[m] == 0
    {
      ProductFits(a[i], b[j], BASE32);
      var prod: Word64 := a[i] * b[j] + result[i + j] + carry;
      RowStep(r, before, a[i], i, b, j, carry, BASE32, prod % BASE32, prod / BASE32);
      result[i + j] := prod % BASE32;
      carry := prod / BASE32;
      r := r[i + j := prod % BASE32];
      j := j + 1;
    }
    RowEnd(r, before, a[i], i, b, carry, BASE32, a);
    var last: Word64 := result[i + |b|] + carry;
    result[i + |b|] := last;
    assert result[..n] == r[i + |b| := carry];
  }

  // ---- packing 16-bit limbs into 32-bit limbs and back ----

  lemma PowBase32(i: nat)
    ensures Pow(BASE32, i) == Pow(BASE, 2 * i)
  {
    assert Pow(BASE, 2) == BASE * (BASE * Pow(BASE, 0));
    PowMul(BASE, 2, i);
  }

  /** One 32-bit limb weighs as much as its two halves. */
  lemma HalvesStep(wide: seq<Word32>, narrow: seq<Limb>, lo: Limb, hi: Limb)
    requires |narrow| == 2 * |wide| && Value(wide, BASE32) == Value(narrow, BASE)
    ensures Value(wide + [lo + hi * BASE], BASE32) == Value(narrow + [lo, hi], BASE)
  {
    PowBase32(|wide|);
    TwoLimbs([lo, hi]);
    ValueSnoc(wide, lo + hi * BASE, BASE32);
    ValueConcat(narrow, [lo, hi], BASE);
    HalvesRing(lo + hi * BASE, Value([lo, hi], BASE), Pow(BASE32, |wide|), Pow(BASE, |narrow|));
  }

  lemma HalvesRing(x: int, y: int, p: int, q: int)
    requires x == y && p == q
    ensures x * p == q * y
  {}

  method Pack(src: seq<Limb>, dst: array<Word32>) returns (n: nat)
    requires src != [] && dst.Length >= (|src| + 1) / 2
    modifies dst
    ensures n == (|src| + 1) / 2
    ensures Mag32(dst[..n]) == Mag(src)
  {
    n := (|src| + 1) / 2;
    var i := 0;
    ghost var wide: seq<Word32>, narrow: seq<Limb> := [], [];
    while i < |src| / 2
      invariant 0 <= i <= |src| / 2 && wide == dst[..i] && narrow == src[..2 * i]
      invariant Value(wide, BASE32) == Value(narrow, BASE)
    {
      HalvesStep(wide, narrow, src[2 * i], src[2 * i + 1]);
      dst[i] := src[2 * i] + src[2 * i + 1] * BASE;
      wide := wide + [src[2 * i] + src[2 * i + 1] * BASE];
      narrow := narrow + [src[2 * i], src[2 * i + 1]];
      i := i + 1;
    }
    if |src| % 2 == 1 {
      LoneHalf(wide, narrow, src[|src| - 1]);
      dst[n - 1] := src[|src| - 1];
      wide, narrow := wide + [src[|src| - 1]], narrow + [src[|src| - 1]];
    }
    assert wide == dst[..n] && narrow == src;
  }

  lemma LoneHalf(wide: seq<Word32>, narrow: seq<Limb>, lo: Limb)
    requires |narrow| == 2 * |wide| && Value(wide, BASE32) == Value(narrow, BASE)
    ensures Value(wide + [lo], BASE32) == Value(narrow + [lo], BASE)
  {
    PowBase32(|wide|);
    ValueSnoc(wide, lo, BASE32);
    ValueSnoc(narrow, lo, BASE);
  }

  method Unpack(src: seq<Word32>, dst: array<Limb>) returns (n: nat)
    requires src != [] && dst.Length >= 2 * |src|
    modifies dst
    ensures 0 < n <= 2 * |src| && Stripped(dst[..n])
    ensures Mag(dst[..n]) == Mag32(src)
  {
    var i := 0;
    while i < |src|
      invariant 0 <= i <= |src|
      invariant Value(dst[..2 * i], BASE) == Value(src[..i], BASE32)
    {
      HalvesStep(src[..i], dst[..2 * i], src[i] % BASE, src[i] / BASE);
      ghost var done: seq<Limb> := dst[..2 * i];
      dst[2 * i] := src[i] % BASE;
      dst[2 * i + 1] := src[i] / BASE;
      assert dst[..2 * (i + 1)] == done + [src[i] % BASE, src[i] / BASE];
      assert src[..i + 1] == src[..i] + [src[i] % BASE + (src[i] / BASE) * BASE];
      i := i + 1;
    }
    assert src[..i] == src;
    n := Strip(dst, 2 * |src|);
  }

  // ---- the one-pass small multiplier ----

  /** After the first `i` limbs, the limbs written and the pending carry make up the product. */
  ghost predicate Scaled(a: seq<Limb>, i: nat, m: int, done: seq<Limb>, carry: int) {
    i <= |a| && |done| == i
    && Value(done, BASE) + carry * Pow(BASE, i) == Value(a[..i], BASE) * m
  }

  /** A step over any number of limbs at once; the carry never exceeds the multiplier. */
  lemma ScaleStep(a: seq<Limb>, i: nat, m: int, done: seq<Limb>, carry: int, digits: seq<Limb>, carry': int)
    requires Scaled(a, i, m, done, carry) && 0 <= carry <= m && i + |digits| <= |a|
    requires Value(a[i..i + |digits|], BASE) * m + carry == Value(digits, BASE) + carry' * Pow(BASE, |digits|)
    ensures Scaled(a, i + |digits|, m, done + digits, carry') && 0 <= carry' <= m
  {
    ScaleCarry(a[i..i + |digits|], m, carry, digits, carry');
    ScaleValue(a, i, m, done, carry, digits, carry');
  }

  lemma ScaleCarry(x: seq<Limb>, m: int, carry: int, digits: seq<Limb>, carry': int)
    requires 0 <= carry <= m && |x| == |digits|
    requires Value(x, BASE) * m + carry == Value(digits, BASE) + carry' * Pow(BASE, |digits|)
    ensures 0 <= carry' <= m
  {
    ValueBound(x, BASE);
    ValueBound(digits, BASE);
    CarryBound(Value(x, BASE), m, carry, Value(digits, BASE), carry', Pow(BASE, |digits|));
  }

  lemma CarryBound(x: int, m: int, carry: int, digits: int, carry': int, p: int)
    requires 0 <= x < p && 0 <= carry <= m && 0 <= digits < p
    requires x * m + carry == digits + carry' * p
    ensures 0 <= carry' <= m
  {
    if carry' < 0 { MulMonotone(carry', -1, p); MulMonotone(0, x, m); }
    if carry' > m { MulMonotone(m + 1, carry', p); MulMonotone(x, p - 1, m); }
  }

  lemma ScaleValue(a: seq<Limb>, i: nat, m: int, done: seq<Limb>, carry: int, digits: seq<Limb>, carry': int)
    requires Scaled(a, i, m, done, carry) && i + |digits| <= |a|
    requires Value(a[i..i + |digits|], BASE) * m + carry == Value(digits, BASE) + carry' * Pow(BASE, |digits|)
    ensures Scaled(a, i + |digits|, m, done + digits, carry')
  {
    hide Value, Pow;
    var w := |digits|;
    var x := a[i..i + w];
    assert a[..i + w] == a[..i] + x;
    ValueConcat(done, digits, BASE);
    ValueConcat(a[..i], x, BASE);
    PowAdd(BASE, i, w);
    ScaleRing(Value(done, BASE), carry, Pow(BASE, i), Value(a[..i], BASE), m, Value(x, BASE), Value(digits, BASE),
              carry', Pow(BASE, w), Pow(BASE, i + w), Value(done + digits, BASE), Value(a[..i + w], BASE));
  }

  lemma ScaleRing(vd: int, c: int, p: int, va: int, m: int, x: int, dg: int, c': int, w: int,
                  p': int, vd': int, va': int)
    requires vd + c * p == va * m && x * m + c == dg + c' * w
    requires p' == p * w && vd' == vd + p * dg && va' == va + p * x
    ensures vd' + c' * p' == va' * m
  {
    MulDistribute(p, x * m, c);
    MulDistribute(p, dg, c' * w);
    MulDistribute(m, va, p * x);
  }

  /** Flushing the carry fills the limbs above the operand. */
  ghost predicate Flushed(product: int, done: seq<Limb>, carry: int) {
    0 <= carry && Value(done, BASE) + carry * Pow(BASE, |done|) == product
  }

  lemma FlushStep(product: int, done: seq<Limb>, carry: int)
    requires Flushed(product, done, carry)
    ensures Flushed(product, done + [carry % BASE], carry / BASE)
  {
    ValueSnoc(done, carry % BASE, BASE);
    CarryStep(carry, 0, 0, carry % BASE, carry / BASE, BASE, Pow(BASE, |done|), Pow(BASE, |done| + 1));
  }

  lemma FlushEnd(product: int, done: seq<Limb>, carry: int)
    requires Flushed(product, done, carry) && product < Pow(BASE, |done|)
    ensures Value(done, BASE) == product
  {
    ValueBound(done, BASE);
    if carry > 0 { MulMonotone(1, carry, Pow(BASE, |done|)); }
  }

  /** The tail loop shared by both builds. */
  method FlushCarry(result: array<Limb>, from: nat, rLen: nat, carry0: nat, ghost product: int)
    requires from <= rLen <= result.Length
    requires Flushed(product, result[..from], carry0) && product < Pow(BASE, rLen)
    modifies result
    ensures Mag(result[..rLen]) == product
  {
    var i, carry := from, carry0;
    ghost var done: seq<Limb> := result[..from];
    while i < rLen
      invariant from <= i <= rLen && done == result[..i]
      invariant Flushed(product, done, carry)
    {
      FlushStep(product, done, carry);
      result[i] := carry % BASE;
      done := done + [carry % BASE];
      carry := carry / BASE;
      i := i + 1;
    }
    FlushEnd(product, done, carry);
  }

  /** Four limbs a step, where the compiler has a 128-bit product. */
  method MulQuads(a: seq<Limb>, m: Word32, result: array<Limb>) returns (i: nat, carry: Word64)
    requires 1 <= m <= 0x4000_0000 && |a| <= result.Length
    modifies result
    ensures i <= |a| && carry <= m && Scaled(a, i, m, result[..i], carry)
  {
    i, carry := 0, 0;
    ghost var done: seq<Limb> := [];
    assert a[..0] == [] && Scaled(a, 0, m, done, 0);
    hide Scaled, Mag, Value, Pow;
    while i + 3 < |a|
      invariant 0 <= i <= |a| && done == result[..i] && carry <= m
      invariant Scaled(a, i, m, done, carry)
    {
      var x: Word64 := a[i] + a[i + 1] * BASE + a[i + 2] * BASE32 + a[i + 3] * (BASE32 * BASE);
      ScaleFits(x, m, BASE32 * BASE32);
      var prod: Word128 := x * m + carry;
      var lo := prod % (BASE32 * BASE32);
      QuadStep(a, i, m, done, carry, x, prod);
      done := done + [lo % BASE, (lo / BASE) % BASE, (lo / BASE32) % BASE, lo / (BASE32 * BASE)];
      result[i], result[i + 1], result[i + 2], result[i + 3] :=
        lo % BASE, (lo / BASE) % BASE, (lo / BASE32) % BASE, lo / (BASE32 * BASE);
      carry := prod / (BASE32 * BASE32);
      i := i + 4;
    }
  }

  /** Two limbs a step, from limb `from` on. */
  method MulPairs(a: seq<Limb>, m: Word32, result: array<Limb>, from: nat, carry0: Word64)
    returns (i: nat, carry: Word64)
    requires 1 <= m <= 0x4000_0000 && from <= |a| <= result.Length
    requires carry0 <= m && Scaled(a, from, m, result[..from], carry0)
    modifies result
    ensures |a| - 1 <= i <= |a| && carry <= m && Scaled(a, i, m, result[..i], carry)
  {
    hide Scaled, Mag, Value, Pow;
    i, carry := from, carry0;
    ghost var done: seq<Limb> := result[..i];
    while i + 1 < |a|
      invariant 0 <= i <= |a| && done == result[..i] && carry <= m
      invariant Scaled(a, i, m, done, carry)
    {
      var x: Word32 := a[i] + a[i + 1] * BASE;
      ScaleFits(x, m, BASE32);
      var prod: Word64 := x * m + carry;
      PairStep(a, i, m, done, carry, x, prod);
      done := done + [prod % BASE, (prod / BASE) % BASE];
      result[i], result[i + 1] := prod % BASE, (prod / BASE) % BASE;
      carry := prod / BASE32;
      i := i + 2;
    }
  }

  /** 64-bit hosts: four limbs a step where a 128-bit product exists, then two, then one. */
  method MulSmallWide(a: seq<Limb>, m: Word32, result: array<Limb>, rLen: nat, int128: bool)
    requires 1 <= m <= 0x4000_0000 && |a| <= rLen <= result.Length
    requires Mag(a) * m < Pow(BASE, rLen)
    modifies result
    ensures Mag(result[..rLen]) == Mag(a) * m
  {
    var i, carry: Word64 := 0, 0;
    assert a[..0] == [] && result[..0] == [] && Scaled(a, 0, m, result[..0], 0);
    hide Scaled, Mag, Value, Pow;
    if int128 { i, carry := MulQuads(a, m, result); }
    i, carry := MulPairs(a, m, result, i, carry);
    ghost var done: seq<Limb> := result[..i];
    if i < |a| {
      ScaleFits(a[i], m, BASE);
      var prod: Word64 := a[i] * m + carry;
      UnitStep(a, i, m, done, carry, prod % BASE, prod / BASE);
      done := done + [prod % BASE];
      result[i] := prod % BASE;
      carry := prod / BASE;
      i := i + 1;
    }
    assert done == result[..i];
    ScaledAll(a, m, done, carry);
    FlushCarry(result, i, rLen, carry, Mag(a) * m);
  }

  /** 68020: only 16 x 16 -> 32 multiplies, the carry split into halves; it stays below 2^31. */
  method MulSmallSplit(a: seq<Limb>, m: Word32, result: array<Limb>, rLen: nat)
    requires 1 <= m <= 0x4000_0000 && |a| <= rLen <= result.Length
    requires Mag(a) * m < Pow(BASE, rLen)
    modifies result
    ensures Mag(result[..rLen]) == Mag(a) * m
  {
    var ml, mh := m % BASE, m / BASE;
    var i, carry: Word32 := 0, 0;
    ghost var done: seq<Limb> := [];
    assert a[..0] == [] && Scaled(a, 0, m, done, 0);
    hide Scaled, Mag, Value, Pow;
    while i < |a|
      invariant 0 <= i <= |a| && done == result[..i] && carry <= m < 0x8000_0000
      invariant Scaled(a, i, m, done, carry)
    {
      var x: Word32 := a[i];
      ProductFits(x, ml, BASE);
      ProductFits(x, mh, BASE);
      if mh == 0 {
        var prod: Word32 := x * ml + carry;
        UnitStep(a, i, m, done, carry, prod % BASE, prod / BASE);
        result[i] := prod % BASE;
        carry := prod / BASE;
      } else {
        var p0: Word32 := x * ml + carry % BASE;
        SplitProduct(x, ml, mh, carry);
        UnitStep(a, i, m, done, carry, p0 % BASE, x * mh + carry / BASE + p0 / BASE);
        result[i] := p0 % BASE;
        carry := x * mh + carry / BASE + p0 / BASE;
      }
      done := done + [result[i]];
      i := i + 1;
    }
    ScaledAll(a, m, done, carry);
    FlushCarry(result, i, rLen, carry, Mag(a) * m);
  }

  lemma UnitStep(a: seq<Limb>, i: nat, m: int, done: seq<Limb>, carry: int, digit: Limb, carry': int)
    requires Scaled(a, i, m, done, carry) && 0 <= carry <= m && i < |a|
    requires a[i] * m + carry == digit + carry' * BASE
    ensures Scaled(a, i + 1, m, done + [digit], carry') && 0 <= carry' <= m
  {
    hide Value, Pow;
    OneLimb(a[i..i + 1]);
    OneLimb([digit]);
    MulCongruent(a[i], Value(a[i..i + 1], BASE), m);
    ScaleStep(a, i, m, done, carry, [digit], carry');
  }

  lemma PairStep(a: seq<Limb>, i: nat, m: int, done: seq<Limb>, carry: int, x: int, prod: Word64)
    requires Scaled(a, i, m, done, carry) && 0 <= carry <= m && i + 2 <= |a|
    requires x == a[i] + a[i + 1] * BASE && prod == x * m + carry
    ensures Scaled(a, i + 2, m, done + [prod % BASE, (prod / BASE) % BASE], prod / BASE32)
    ensures 0 <= prod / BASE32 <= m
  {
    hide Value, Pow;
    var digits: seq<Limb> := [prod % BASE, (prod / BASE) % BASE];
    TwoLimbs(a[i..i + 2]);
    TwoLimbs(digits);
    MulCongruent(x, Value(a[i..i + 2], BASE), m);
    ScaleStep(a, i, m, done, carry, digits, prod / BASE32);
  }

  lemma QuadStep(a: seq<Limb>, i: nat, m: int, done: seq<Limb>, carry: int, x: int, prod: Word128)
    requires Scaled(a, i, m, done, carry) && 0 <= carry <= m && i + 4 <= |a|
    requires x == a[i] + a[i + 1] * BASE + a[i + 2] * BASE32 + a[i + 3] * (BASE32 * BASE)
    requires prod == x * m + carry
    ensures var lo := prod % (BASE32 * BASE32);
            Scaled(a, i + 4, m, done + [lo % BASE, (lo / BASE) % BASE, (lo / BASE32) % BASE, lo / (BASE32 * BASE)],
                   prod / (BASE32 * BASE32))
    ensures 0 <= prod / (BASE32 * BASE32) <= m
  {
    hide Value, Pow;
    var lo := prod % (BASE32 * BASE32);
    var digits: seq<Limb> := [lo % BASE, (lo / BASE) % BASE, (lo / BASE32) % BASE, lo / (BASE32 * BASE)];
    FourLimbs(a, i);
    FourDigits(lo);
    MulCongruent(x, Value(a[i..i + 4], BASE), m);
    ScaleStep(a, i, m, done, carry, digits, prod / (BASE32 * BASE32));
  }

  lemma MulCongruent(x: int, y: int, m: int)
    requires x == y
    ensures x * m == y * m
  {}

  lemma ScaledAll(a: seq<Limb>, m: int, done: seq<Limb>, carry: int)
    requires Scaled(a, |a|, m, done, carry) && carry >= 0
    ensures Flushed(Mag(a) * m, done, carry)
  {
    assert a[..|a|] == a;
  }

  lemma ScaleFits(x: int, m: int, p: int)
    requires 0 <= x < p && 0 <= m <= 0x4000_0000
    ensures 0 <= x * m <= p * 0x4000_0000 - m
  {
    MulMonotone(0, x, m);
    MulMonotone(x, p - 1, m);
    MulMonotone(m, 0x4000_0000, p);
  }

  lemma SplitProduct(x: int, ml: int, mh: int, carry: int)
    ensures var p0 := x * ml + carry % BASE;
            x * (mh * BASE + ml) + carry == p0 % BASE + (x * mh + carry / BASE + p0 / BASE) * BASE
  {
    MulDistribute(x, mh * BASE, ml);
    MulAssoc(x, mh, BASE);
  }

  lemma OneLimb(s: seq<Limb>)
    requires |s| == 1
    ensures Value(s, BASE) == s[0] && Pow(BASE, 1) == BASE
  {
    ValueShort(s, BASE);
    assert Pow(BASE, 1) == BASE * Pow(BASE, 0);
  }

  lemma TwoLimbs(s: seq<Limb>)
    requires |s| == 2
    ensures Value(s, BASE) == s[0] + s[1] * BASE && Pow(BASE, 2) == BASE32
  {
    ValueShort(s, BASE);
    PowBase32(1);
    assert Pow(BASE32, 1) == BASE32 * Pow(BASE32, 0);
  }

  lemma FourLimbs(a: seq<Limb>, i: nat)
    requires i + 4 <= |a|
    ensures Value(a[i..i + 4], BASE) == a[i] + a[i + 1] * BASE + a[i + 2] * BASE32 + a[i + 3] * (BASE32 * BASE)
    ensures Pow(BASE, 4) == BASE32 * BASE32
  {
    var s := a[i..i + 4];
    TwoLimbs(s[..2]);
    TwoLimbs(s[2..]);
    ValueSplit(s, 2, BASE);
    PowBase32(2);
    assert Pow(BASE32, 2) == BASE32 * (BASE32 * Pow(BASE32, 0));
  }

  lemma FourDigits(lo: Word64)
    ensures var s := [lo % BASE, (lo / BASE) % BASE, (lo / BASE32) % BASE, lo / (BASE32 * BASE)];
            (forall k :: 0 <= k < 4 ==> 0 <= s[k] < BASE) && Value(s, BASE) == lo
  {
    hide Value, Pow;
    var d0: int, d1: int, d2: int, d3: int :=
      lo % BASE, (lo / BASE) % BASE, (lo / BASE32) % BASE, lo / (BASE32 * BASE);
    DivDiv(lo, BASE, BASE);
    DivDiv(lo, BASE32, BASE);
    Quotients(lo, d0, lo / BASE, d1, lo / BASE32, d2, d3);
    var s: seq<Limb> := [d0, d1, d2, d3];
    FourLimbs(s, 0);
    assert s[0..4] == s;
  }

  lemma Quotients(x: Word64, d0: int, q0: int, d1: int, q1: int, d2: int, d3: int)
    requires q0 == x / BASE && q1 == q0 / BASE && d3 == q1 / BASE
    requires d0 == x % BASE && d1 == q0 % BASE && d2 == q1 % BASE
    ensures x == d0 + d1 * BASE + d2 * BASE32 + d3 * (BASE32 * BASE) && 0 <= d3 < BASE
  {}
}
