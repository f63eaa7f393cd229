/** Multiplication, division, negation and absolute value on Lisp integers
    (src/core/bignum.c). */
module Arithmetic {
  import opened Digits
  import opened Magnitude
  import opened Multiplication
  import opened Division
  import opened Integers
  import opened Bits

  // ---- multiplication ----

  /** Two fixnums whose product provably fits 32 bits, from 16 x 16 partial products; TooWide
      is the bail-out to the bignum path. */
  datatype Partial = Fits(product: Word32) | TooWide
  datatype Fast = Done(value: Integer) | Bail

  method SmallProduct(ua: Word32, ub: Word32) returns (r: Partial)
    requires ua <= 0x4000_0000 && ub <= 0x4000_0000
    ensures r.Fits? <==> ua * ub < BASE32
    ensures r.Fits? ==> r.product == ua * ub
  {
    var aHi, aLo, bHi, bLo := ua / BASE, ua % BASE, ub / BASE, ub % BASE;
    PartialProducts(ua, ub);
    if aHi != 0 && bHi != 0 {
      MulMonotone(BASE, ua, ub);
      return TooWide;
    }
    ProductFits(aHi, bLo, BASE);
    ProductFits(aLo, bHi, BASE);
    ProductFits(aLo, bLo, BASE);
    var cross: Word32 := if aHi != 0 then aHi * bLo else aLo * bHi;
    if cross > 0xFFFF { return TooWide; }
    var low: Word32 := aLo * bLo;
    if low / BASE + cross > 0xFFFF { return TooWide; }
    var product: Word32 := low + cross * BASE;
    r := Fits(product);
  }

  lemma PartialProducts(ua: nat, ub: nat)
    ensures var aHi, aLo, bHi, bLo := ua / BASE, ua % BASE, ub / BASE, ub % BASE;
            && (aHi == 0 ==> ua * ub == aLo * bLo + (aLo * bHi) * BASE)
            && (bHi == 0 ==> ua * ub == aLo * bLo + (aHi * bLo) * BASE)
  {
    var aHi, aLo, bHi, bLo := ua / BASE, ua % BASE, ub / BASE, ub % BASE;
    if aHi == 0 { MulDistribute(ua, bLo, bHi * BASE); }
    if bHi == 0 { MulDistribute(ub, aLo, aHi * BASE); }
  }

  /** The result buffer sized from the operands' bit lengths holds the product. */
  lemma ProductSize(a: seq<Limb>, m: nat, rLen: nat)
    requires a != [] && a[|a| - 1] != 0 && m > 0
    requires rLen == ((|a| - 1) * 16 + BitLen(a[|a| - 1]) + BitLen(m) + 15) / 16
    ensures |a| <= rLen && Mag(a) * m < Pow(BASE, rLen)
  {
    hide Value, Pow, BitLen;
    var n, la, lm := |a| - 1, BitLen(a[|a| - 1]), BitLen(m);
    BitLenBounds(a[n]);
    BitLenBounds(m);
    RoundedUp(n, la, lm, rLen);
    ValuePrefix(a, n, BASE);
    assert a[..n + 1] == a;
    PowBase(n);
    PowBase(rLen);
    PowAdd(2, 16 * n, la);
    PowAdd(2, 16 * n + la, lm);
    PowMonotone(2, 16 * n + la + lm, 16 * rLen);
    SizeRing(Mag(a), Mag(a[..n]), a[n], Pow(2, 16 * n), Pow(2, la), m, Pow(2, lm));
  }

  lemma RoundedUp(n: nat, la: nat, lm: nat, rLen: nat)
    requires la > 0 && lm > 0 && rLen == (n * 16 + la + lm + 15) / 16
    ensures n < rLen && 16 * n + la + lm <= 16 * rLen
  {}

  lemma PowBase(n: nat)
    ensures Pow(BASE, n) == Pow(2, 16 * n)
  {
    PowMul(2, 16, n);
    TwoToFifteen();
    assert Pow(2, 16) == BASE;
  }

  lemma SizeRing(v: int, low: int, top: int, p: int, t: int, m: int, u: int)
    requires v == low + top * p && 0 <= low < p && 0 <= top < t && 0 <= m < u
    ensures v * m < (p * t) * u
  {
    MulMonotone(top + 1, t, p);
    MulDistribute(p, top, 1);
    MulMonotone(0, top, p);
    MulMonotone(v, p * t - 1, m);
    MulMonotone(m, u - 1, p * t);
    MulMonotone(1, u, p * t);
    MulDistribute(p * t, u, 1);
    MulDistribute(m, p * t, 1);
  }

  lemma SignedProduct(x: int, y: int, neg: bool, m: int)
    requires neg == ((x < 0) != (y < 0)) && m == Abs(x) * Abs(y)
    ensures Signed(neg, m) == x * y
  {
    if x < 0 && y < 0 {
      assert Abs(x) * Abs(y) == (-x) * (-y) == x * y;
    } else if x < 0 {
      assert Abs(x) * Abs(y) == (-x) * y == -(x * y);
    } else if y < 0 {
      assert Abs(x) * Abs(y) == x * (-y) == -(x * y);
    }
  }

  /** Bignum times fixnum, in one pass into the result. */
  method MulByFixnum(host: Host, big: Integer, v: int) returns (r: Integer)
    requires Proper(big) && big.Bignum? && FitsFixnum(v)
    ensures Proper(r) && ToInt(r) == ToInt(big) * v
    ensures Canonical(big) ==> Canonical(r)
  {
    var m: Word32 := Abs(v);
    LimbsOfValue(big);
    if m == 0 { return Fixnum(0); }
    if v == 1 { return big; }
    var a := big.limbs;
    var topBits := BitLength32(a[|a| - 1]);
    var mBits := BitLength32(m);
    var rLen := ((|a| - 1) * 16 + topBits + mBits + 15) / 16;
    ProductSize(a, m, rLen);
    var result := new Limb[rLen];
    match host {
      case Host64(int128) => MulSmallWide(a, m, result, rLen, int128);
      case M68020 => MulSmallSplit(a, m, result, rLen);
    }
    SignedProduct(ToInt(big), v, big.neg != (v < 0), Mag(result[..rLen]));
    r := NormalizeBignum(big.neg != (v < 0), result[..rLen]);
  }

  /** The general product: packed 32-bit limbs on 64-bit hosts, 16-bit limbs on the 68020. */
  method MulLimbs(host: Host, a: seq<Limb>, b: seq<Limb>) returns (r: seq<Limb>)
    requires a != [] && b != []
    ensures r != [] && Mag(r) == Mag(a) * Mag(b)
  {
    match host {
      case Host64(_) =>
        var a32, b32 := new Word32[(|a| + 1) / 2], new Word32[(|b| + 1) / 2];
        var aLen := Pack(a, a32);
        var bLen := Pack(b, b32);
        var wide := new Word32[aLen + bLen];
        var wLen := MulMag32(a32[..aLen], b32[..bLen], wide);
        var narrow := new Limb[2 * wLen];
        var len := Unpack(wide[..wLen], narrow);
        r := narrow[..len];
      case M68020 =>
        var result := new Limb[|a| + |b|];
        var len := MulMag(a, b, result);
        r := result[..len];
    }
  }

  /** The path that is not one fixnum and one bignum. */
  method MulGeneral(host: Host, a: Integer, b: Integer) returns (r: Integer)
    requires Proper(a) && Proper(b)
    ensures Canonical(r) && ToInt(r) == ToInt(a) * ToInt(b)
  {
    LimbsOfValue(a);
    LimbsOfValue(b);
    var al, bl := LimbsOf(a), LimbsOf(b);
    ValueShort(al, BASE);
    ValueShort(bl, BASE);
    hide Value, Mag;
    if al == [0] || bl == [0] { return Fixnum(0); }
    var product := MulLimbs(host, al, bl);
    SignedProduct(ToInt(a), ToInt(b), Negative(a) != Negative(b), Mag(product));
    r := FromLimbs(product, Negative(a) != Negative(b));
  }

  /** The path of two fixnums; Bail sends them to the bignum path. */
  method MulFixnums(a: int, b: int) returns (r: Fast)
    requires FitsFixnum(a) && FitsFixnum(b)
    ensures r.Done? ==> Canonical(r.value) && ToInt(r.value) == a * b
    ensures Abs(a) * Abs(b) < BASE32 ==> r.Done?
  {
    if a == 0 || b == 0 { return Done(Fixnum(0)); }
    if a == 1 { return Done(Fixnum(b)); }
    if b == 1 { return Done(Fixnum(a)); }
    var neg := (a < 0) != (b < 0);
    var p := SmallProduct(Abs(a), Abs(b));
    if p.TooWide? { return Bail; }
    SignedProduct(a, b, neg, p.product);
    if !neg && p.product <= FIXNUM_MAX { return Done(MakeFixnum(p.product)); }
    if neg && p.product <= 0x4000_0000 { return Done(MakeFixnum(0 - p.product)); }
    var big := FromUint32(p.product, neg);
    r := Done(big);
  }

  method Mul(host: Host, a: Integer, b: Integer) returns (r: Integer)
    requires Proper(a) && Proper(b)
    ensures Proper(r) && ToInt(r) == ToInt(a) * ToInt(b)
    ensures Canonical(a) && Canonical(b) ==> Canonical(r)
  {
    if a.Fixnum? && b.Fixnum? {
      var small := MulFixnums(a.v, b.v);
      if small.Done? { return small.value; }
      r := MulGeneral(host, a, b);
    } else if a.Fixnum? {
      r := MulByFixnum(host, b, a.v);
    } else if b.Fixnum? {
      r := MulByFixnum(host, a, b.v);
    } else {
      r := MulGeneral(host, a, b);
    }
  }

  // ---- division ----

  /** The quotient rounded towards zero, as C divides. */
  function Quot(a: int, b: int): int
    requires b != 0
  {
    Signed((a < 0) != (b < 0), Abs(a) / Abs(b))
  }

  /** The remainder that goes with it: it has the dividend's sign. */
  function Rem(a: int, b: int): int
    requires b != 0
  {
    Signed(a < 0, Abs(a) % Abs(b))
  }

  /** The remainder of FLOOR: it has the divisor's sign. */
  function Modulo(a: int, b: int): int
    requires b != 0
  {
    var r := Rem(a, b);
    if r != 0 && (r < 0) != (b < 0) then r + b else r
  }

  lemma QuotRem(a: int, b: int)
    requires b != 0
    ensures a == Quot(a, b) * b + Rem(a, b)
    ensures Abs(Rem(a, b)) < Abs(b) && (Rem(a, b) == 0 || (Rem(a, b) < 0) == (a < 0))
  {
    var q, r := Abs(a) / Abs(b), Abs(a) % Abs(b);
    assert Abs(a) == q * Abs(b) + r;
    if b < 0 { assert q * Abs(b) == -(q * b) == (-q) * b; }
    assert (-q) * b == -(q * b);
  }

  /** MOD's result is the only number congruent to the dividend with the divisor's sign and a
      smaller magnitude. */
  lemma ModuloUnique(a: int, b: int, k: int, r: int)
    requires b != 0 && a == k * b + r
    requires Abs(r) < Abs(b) && (r == 0 || (r < 0) == (b < 0))
    ensures Modulo(a, b) == r
  {
    hide Modulo;
    var j := ModuloSpec(a, b);
    MulDistribute(b, j, k);
    SmallMultiple(j - k, b);
  }

  lemma ModuloSpec(a: int, b: int) returns (j: int)
    requires b != 0
    ensures a == j * b + Modulo(a, b)
    ensures Abs(Modulo(a, b)) < Abs(b) && (Modulo(a, b) == 0 || (Modulo(a, b) < 0) == (b < 0))
  {
    hide Quot, Rem;
    QuotRem(a, b);
    j := if Modulo(a, b) == Rem(a, b) then Quot(a, b) else Quot(a, b) - 1;
    MulDistribute(b, Quot(a, b), 1);
  }

  lemma SmallMultiple(d: int, b: int)
    requires 0 - Abs(b) < d * b < Abs(b)
    ensures d == 0
  {
    if b > 0 {
      MulCancelLess(d, 1, b);
      MulCancelLess(-1, d, b);
    } else {
      assert d * (-b) == -(d * b);
      MulCancelLess(d, 1, -b);
      MulCancelLess(-1, d, -b);
    }
  }

  method Truncate(a: Integer, b: Integer) returns (r: Outcome<Integer>)
    requires Proper(a) && Proper(b)
    ensures ToInt(b) == 0 ==> r == Signal(DivisionByZero)
    ensures ToInt(b) != 0 ==> r.Ok? && Canonical(r.value)
    ensures ToInt(b) != 0 && ((Canonical(a) && Canonical(b)) || ToInt(a) >= 0) ==>
      ToInt(r.value) == TruncateResult(ToInt(a), ToInt(b))
  {
    if a.Fixnum? && b.Fixnum? {
      if b.v == 0 { return Signal(DivisionByZero); }
      FixnumQuotient(a.v, b.v);
      var q: Int32 := Quot(a.v, b.v);
      return Ok(MakeFixnum(q));
    }
    LimbsOfValue(a);
    LimbsOfValue(b);
    var al, bl := LimbsOf(a), LimbsOf(b);
    ValueShort(bl, BASE);
    if bl == [0] { return Signal(DivisionByZero); }
    var cmp := CompareMag(al, bl);
    SmallQuotient(ToInt(a), ToInt(b));
    if cmp < 0 { return Ok(Fixnum(0)); }
    LongerIsLarger(bl, al);
    var quot, rem := new Limb[|al|], new Limb[|al|];
    var qLen := DivMod(al, bl, quot, rem);
    MagnitudeQuotient(ToInt(a), ToInt(b), Mag(quot[..qLen]), Mag(rem[..|bl|]));
    var q := FromLimbs(quot[..qLen], Negative(a) != Negative(b));
    r := Ok(q);
  }

  /** What TRUNCATE gives: the quotient rounded towards zero, except for the one pair of fixnums
      whose quotient is not a fixnum, where tagging it as one loses the sign. */
  function TruncateResult(a: int, b: int): int
    requires b != 0
  {
    if a == FIXNUM_MIN && b == -1 then FIXNUM_MIN else Quot(a, b)
  }

  lemma FixnumQuotient(a: int, b: int)
    requires FitsFixnum(a) && FitsFixnum(b) && b != 0
    ensures -0x4000_0000 <= Quot(a, b) <= 0x4000_0000
    ensures MakeFixnum(Quot(a, b)) == Fixnum(TruncateResult(a, b))
  {
    hide Quot, MakeFixnum;
    var q := QuotientSize(a, b);
    FixnumTag(Quot(a, b));
  }

  lemma QuotientSize(a: int, b: int) returns (q: nat)
    requires b != 0
    ensures Quot(a, b) == Signed((a < 0) != (b < 0), q)
    ensures q <= Abs(a) && (Abs(b) > 1 ==> 2 * q <= Abs(a)) && (Abs(b) == 1 ==> q == Abs(a))
  {
    assert Abs(b) > 0;
    hide Abs, Signed;
    SmallDivision(Abs(a), Abs(b));
    q := Abs(a) / Abs(b);
  }

  /** The one number just beyond the fixnums loses its sign. */
  lemma FixnumTag(n: Int32)
    requires -0x4000_0000 <= n <= 0x4000_0000
    ensures MakeFixnum(n) == Fixnum(if n == 0x4000_0000 then FIXNUM_MIN else n)
  {}

  lemma SmallDivision(m: nat, n: nat)
    requires n > 0
    ensures m / n <= m && (n > 1 ==> 2 * (m / n) <= m) && (n == 1 ==> m / n == m)
  {
    var q := m / n;
    assert m == q * n + m % n;
    if n == 1 {
      DivModUnique(m, 1, m, 0);
    } else {
      MulMonotone(2, n, q);
    }
  }

  /** Below the divisor in magnitude: quotient 0, remainder the dividend. */
  lemma SmallQuotient(a: int, b: int)
    requires b != 0
    ensures Abs(a) < Abs(b) ==> Quot(a, b) == 0 && Rem(a, b) == a
  {
    if Abs(a) < Abs(b) { DivModUnique(Abs(a), Abs(b), 0, Abs(a)); }
  }

  lemma MagnitudeQuotient(a: int, b: int, q: nat, r: nat)
    requires b != 0 && Abs(a) == Abs(b) * q + r && r < Abs(b)
    ensures Quot(a, b) == Signed((a < 0) != (b < 0), q) && Rem(a, b) == Signed(a < 0, r)
  {
    DivModUnique(Abs(a), Abs(b), q, r);
  }

  method Mod(a: Integer, b: Integer) returns (r: Outcome<Integer>)
    requires Canonical(a) && Canonical(b)
    ensures ToInt(b) == 0 ==> r == Signal(DivisionByZero)
    ensures ToInt(b) != 0 ==> r.Ok? && Canonical(r.value) && ToInt(r.value) == Modulo(ToInt(a), ToInt(b))
  {
    if a.Fixnum? && b.Fixnum? {
      if b.v == 0 { return Signal(DivisionByZero); }
      var m := FixnumMod(a.v, b.v);
      return Ok(m);
    }
    LimbsOfValue(b);
    ValueShort(LimbsOf(b), BASE);
    if LimbsOf(b) == [0] { return Signal(DivisionByZero); }
    var rest := Remainder(a, b);
    RemainderMeaning(a, b, rest);
    PredicateMeaning(rest);
    if !Zerop(rest) && Minusp(rest) != Minusp(b) { rest := Add(rest, b); }
    r := Ok(rest);
  }

  method FixnumMod(a: int, b: int) returns (r: Integer)
    requires FitsFixnum(a) && FitsFixnum(b) && b != 0
    ensures r == Fixnum(Modulo(a, b)) && Canonical(r)
  {
    hide Quot, Rem;
    QuotRem(a, b);
    var rest: Int32 := Rem(a, b);
    if rest != 0 && (rest < 0) != (b < 0) { rest := rest + b; }
    MakeFixnumFits(rest);
    hide MakeFixnum;
    r := MakeFixnum(rest);
  }

  /** The remainder of the limb division, with the dividend's sign; shared by MOD and GCD. Only the
      divisor needs a leading limb that is not 0. */
  method Remainder(a: Integer, b: Integer) returns (r: Integer)
    requires a.Fixnum? ==> FitsFixnum(a.v)
    requires Proper(b) && ToInt(b) != 0
    ensures LimbOrder(LimbsOf(a), LimbsOf(b)) < 0 ==> r == a
    ensures LimbOrder(LimbsOf(a), LimbsOf(b)) >= 0 ==> Canonical(r)
    ensures Mag(LimbsOf(b)) > 0
    ensures LimbOrder(LimbsOf(a), LimbsOf(b)) >= 0 ==>
      ToInt(r) == Signed(Negative(a), Mag(LimbsOf(a)) % Mag(LimbsOf(b)))
  {
    LimbsOfValue(b);
    var al, bl := LimbsOf(a), LimbsOf(b);
    assert bl[|bl| - 1] != 0 by { ValueShort(bl, BASE); }
    hide Value, Pow, LimbsOf, Mag;
    var cmp := CompareMag(al, bl);
    if cmp < 0 { return a; }
    var quot, rem := new Limb[|al|], new Limb[|al|];
    var qLen := DivMod(al, bl, quot, rem);
    RemainderOf(Mag(al), Mag(bl), Mag(quot[..qLen]), Mag(rem[..|bl|]));
    var remLen := Strip(rem, |bl|);
    r := FromLimbs(rem[..remLen], Negative(a));
  }

  lemma RemainderOf(a: nat, b: nat, q: nat, r: nat)
    requires a == b * q + r && r < b
    ensures a % b == r
  {
    DivModUnique(a, b, q, r);
  }

  /** On numbers without leading zero limbs it gives the remainder of TRUNCATE. */
  lemma RemainderMeaning(a: Integer, b: Integer, r: Integer)
    requires Proper(a) && Proper(b) && ToInt(b) != 0 && Mag(LimbsOf(b)) > 0
    requires LimbOrder(LimbsOf(a), LimbsOf(b)) < 0 ==> r == a
    requires LimbOrder(LimbsOf(a), LimbsOf(b)) >= 0 ==>
      ToInt(r) == Signed(Negative(a), Mag(LimbsOf(a)) % Mag(LimbsOf(b)))
    ensures ToInt(r) == Rem(ToInt(a), ToInt(b))
  {
    LimbsOfValue(a);
    LimbsOfValue(b);
    hide LimbsOf, Mag, Value, Pow;
    LongerIsLarger(LimbsOf(b), LimbsOf(a));
    SmallQuotient(ToInt(a), ToInt(b));
  }

  // ---- negation and absolute value ----

  /** The number of limbs of a magnitude; zero takes one. */
  function LimbCount(m: nat): (n: nat)
    ensures n > 0
  {
    if m < BASE then 1 else 1 + LimbCount(m / BASE)
  }

  lemma {:induction false} LimbCountBounds(m: nat)
    ensures m < Pow(BASE, LimbCount(m))
    ensures LimbCount(m) > 1 ==> Pow(BASE, LimbCount(m) - 1) <= m
  {
    assert Pow(BASE, 1) == BASE * Pow(BASE, 0);
    if m >= BASE {
      LimbCountBounds(m / BASE);
      var n := LimbCount(m / BASE);
      PowStep(BASE, n);
      MulMonotone(m / BASE + 1, Pow(BASE, n), BASE);
      if n > 1 { MulMonotone(Pow(BASE, n - 1), m / BASE, BASE); PowStep(BASE, n - 1); }
    }
  }

  lemma LimbCountMonotone(m: nat, n: nat)
    requires m <= n
    ensures LimbCount(m) <= LimbCount(n)
  {
    hide LimbCount, Pow;
    LimbCountBounds(m);
    LimbCountBounds(n);
    if LimbCount(m) > LimbCount(n) { PowMonotone(BASE, LimbCount(n), LimbCount(m) - 1); }
  }

  lemma LimbCountOf(s: seq<Limb>)
    requires Stripped(s)
    ensures LimbCount(Mag(s)) == |s|
  {
    hide LimbCount, Pow;
    var n := LimbCount(Mag(s));
    LimbCountBounds(Mag(s));
    if |s| < n { PowMonotone(BASE, |s|, n - 1); }
    if |s| > n {
      ValueTop(s, BASE);
      PowMonotone(BASE, n, |s| - 1);
    }
  }

  /** The limbs NEGATE and ABS copy: their count is held in 16 bits. */
  function CopiedLimbs(limbs: seq<Limb>): seq<Limb> { limbs[..|limbs| % BASE] }

  /** What is left of a magnitude whose limbs are so counted. */
  function Kept(m: nat): nat {
    PowPositive(BASE, LimbCount(m) % BASE);
    m % Pow(BASE, LimbCount(m) % BASE)
  }

  lemma KeptLimbs(limbs: seq<Limb>)
    requires Stripped(limbs)
    ensures Mag(CopiedLimbs(limbs)) == Kept(Mag(limbs))
    ensures |limbs| < BASE ==> CopiedLimbs(limbs) == limbs
  {
    hide Pow, Value, LimbCount;
    LimbCountOf(limbs);
    var k := |limbs| % BASE;
    ValueSplit(limbs, k, BASE);
    LowDigits(Mag(limbs), Mag(limbs[..k]), Mag(limbs[k..]), Pow(BASE, k));
  }

  lemma LowDigits(v: int, low: nat, high: nat, p: int)
    requires v == low + p * high && low < p
    ensures v % p == low
  {
    DivModUnique(v, p, high, low);
  }

  /** Nothing is lost exactly below 65536 limbs. */
  lemma KeptExact(m: nat)
    ensures Kept(m) == m <==> LimbCount(m) < BASE
    ensures Kept(m) <= m
  {
    hide Pow, LimbCount;
    var n := LimbCount(m);
    LimbCountBounds(m);
    PowPositive(BASE, n % BASE);
    if n < BASE {
      DivModUnique(m, Pow(BASE, n), 0, m);
    } else {
      PowMonotone(BASE, n % BASE, n - 1);
    }
  }

  /** The number NEGATE gives. */
  function KeptNegate(x: int): int { Signed(x > 0, Kept(Abs(x))) }

  /** The magnitude ABS gives, and the number of limbs it has. */
  function KeptAbs(x: int): nat { if x < 0 then Kept(-x) else x }

  function KeptCount(x: int): nat { if x < 0 then LimbCount(-x) % BASE else LimbCount(x) }

  /** The negative numbers that ABS miscopies: their limbs cannot be counted in 16 bits. */
  predicate LongNegative(x: int) { x < 0 && LimbCount(-x) >= BASE }

  /** Those of them of which it keeps no limb, or a leading limb 0. */
  predicate LosesTop(x: int) {
    LongNegative(x) && (KeptCount(x) == 0 || KeptAbs(x) < Pow(BASE, KeptCount(x) - 1))
  }

  lemma KeptAbsExact(x: int)
    ensures KeptAbs(x) == Abs(x) <==> !LongNegative(x)
    ensures !LongNegative(x) ==> KeptCount(x) == LimbCount(Abs(x))
  {
    KeptExact(Abs(x));
  }

  /** A bignum of a multiple of 65536 limbs keeps none; the result then is no canonical object. */
  method Negate(a: Integer) returns (r: Integer)
    requires Canonical(a)
    ensures ToInt(r) == KeptNegate(ToInt(a))
    ensures if LimbCount(Abs(ToInt(a))) % BASE == 0 then r == Bignum(ToInt(a) > 0, []) else Canonical(r)
    ensures ToInt(r) == -ToInt(a) <==> LimbCount(Abs(ToInt(a))) < BASE
  {
    LimbsOfValue(a);
    LimbCountOf(LimbsOf(a));
    KeptExact(Abs(ToInt(a)));
    hide Kept, LimbCount;
    if a.Fixnum? {
      if a.v == FIXNUM_MIN {
        r := FromUint32(0x4000_0000, false);
        return;
      }
      return MakeFixnum(0 - a.v);
    }
    KeptLimbs(a.limbs);
    r := NormalizeBignum(!a.neg, CopiedLimbs(a.limbs));
  }

  method AbsoluteValue(a: Integer) returns (r: Integer)
    requires Proper(a)
    ensures !Negative(r) && (r.Fixnum? ==> FitsFixnum(r.v))
    ensures |LimbsOf(r)| == KeptCount(ToInt(a)) && Mag(LimbsOf(r)) == ToInt(r) == KeptAbs(ToInt(a))
    ensures Proper(r) <==> !LosesTop(ToInt(a))
    ensures Zerop(r) <==> ToInt(a) == 0
    ensures Canonical(a) && !LongNegative(ToInt(a)) ==> Canonical(r)
  {
    if a.Fixnum? {
      r := FixnumAbs(a);
      return;
    }
    LimbsOfValue(a);
    LimbCountOf(a.limbs);
    KeptAbsExact(ToInt(a));
    hide Kept, LimbCount, Pow, Value;
    TopKept(a.limbs);
    if !a.neg { return a; }
    KeptLimbs(a.limbs);
    r := Bignum(false, CopiedLimbs(a.limbs));
    assert LimbsOf(r) == CopiedLimbs(a.limbs);
    TopKept(CopiedLimbs(a.limbs));
  }

  method FixnumAbs(a: Integer) returns (r: Integer)
    requires a.Fixnum? && FitsFixnum(a.v)
    ensures Canonical(r) && ToInt(r) == Abs(a.v) == KeptAbs(a.v) && !Negative(r) && (Zerop(r) <==> a.v == 0)
    ensures |LimbsOf(r)| == KeptCount(a.v) && Mag(LimbsOf(r)) == Abs(a.v) && !LongNegative(a.v)
  {
    LimbsOfValue(a);
    LimbCountOf(LimbsOf(a));
    KeptAbsExact(a.v);
    hide Kept, LimbCount;
    if a.v == FIXNUM_MIN {
      r := FromUint32(0x4000_0000, false);
    } else {
      r := MakeFixnum(if a.v < 0 then 0 - a.v else a.v);
    }
    LimbsOfValue(r);
    LimbCountOf(LimbsOf(r));
  }

  /** Whether the leading limb is 0 can be told from length and value. */
  lemma TopKept(s: seq<Limb>)
    ensures s != [] ==> (s[|s| - 1] != 0 <==> Mag(s) >= Pow(BASE, |s| - 1))
  {
    if s != [] {
      ValueBound(s[..|s| - 1], BASE);
      if s[|s| - 1] != 0 { ValueTop(s, BASE); }
    }
  }

  /** 65536^k and a small rest: when k is a multiple of 65536 only the rest is kept. */
  lemma LeadingOne(k: nat, rest: nat)
    requires k > 0 && k % BASE == 0 && rest < BASE
    ensures var x := -(Pow(BASE, k) + rest);
      LongNegative(x) && KeptCount(x) == 1 && KeptAbs(x) == rest
  {
    hide Pow, LimbCount;
    PowPositive(BASE, k);
    var m: nat := Pow(BASE, k) + rest;
    LimbCountBounds(m);
    PowMonotone(BASE, 1, k);
    PowStep(BASE, k);
    assert Pow(BASE, 1) == BASE by { PowStep(BASE, 0); PowZero(BASE); }
    var n := LimbCount(m);
    if n <= k { PowMonotone(BASE, n, k); }
    if n > k + 1 { PowMonotone(BASE, k + 1, n - 1); }
    PowAdd(BASE, 1, k - 1);
    LowDigits(m, rest, Pow(BASE, k - 1), BASE);
  }

  // ---- comparing absolute values ----

  /** A magnitude as the comparison sees it: how many limbs it has, and what they are worth. */
  datatype Size = Limbs(count: nat, value: nat)

  function AbsLimbs(x: int): Size { Limbs(KeptCount(x), KeptAbs(x)) }

  function Order(x: Size, y: Size): int {
    if x.count > y.count then 1 else if x.count < y.count then -1 else Sign(x.value - y.value)
  }

  /** Both absolute values, then the comparison of lengths and limbs: right unless ABS miscopies. */
  method CompareAbsolute(a: Integer, b: Integer) returns (c: int)
    requires Canonical(a) && Canonical(b)
    ensures c == Order(AbsLimbs(ToInt(a)), AbsLimbs(ToInt(b)))
    ensures !LongNegative(ToInt(a)) && !LongNegative(ToInt(b)) ==> c == Sign(Abs(ToInt(a)) - Abs(ToInt(b)))
  {
    var absA := AbsoluteValue(a);
    var absB := AbsoluteValue(b);
    hide Kept, LimbCount, Mag, Canonical, LimbsOf, Negative;
    c := Compare(absA, absB);
    if !LongNegative(ToInt(a)) && !LongNegative(ToInt(b)) { OrderExact(ToInt(a), ToInt(b)); }
  }

  lemma OrderExact(x: int, y: int)
    requires !LongNegative(x) && !LongNegative(y)
    ensures Order(AbsLimbs(x), AbsLimbs(y)) == Sign(Abs(x) - Abs(y))
  {
    KeptAbsExact(x);
    KeptAbsExact(y);
    hide Kept, LimbCount;
    if Abs(x) <= Abs(y) { LimbCountMonotone(Abs(x), Abs(y)); }
    if Abs(y) <= Abs(x) { LimbCountMonotone(Abs(y), Abs(x)); }
  }
}
