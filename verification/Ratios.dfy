/** Rational arithmetic (src/core/ratio.c). A rational is a numerator over a positive denominator, an
    integer one over 1. Results are reduced by a greatest common divisor, for which ABS is taken of
    the numerator; what becomes of numerators that ABS miscopies is modelled too. Integers stand for
    the canonical objects of their value. */
module Ratios {
  import opened Digits
  import opened Magnitude
  import opened Integers
  import opened Arithmetic
  import opened NumberTheory

  datatype Rational = Rational(n: int, d: int)

  predicate Whole(x: Rational) { x.d == 1 }

  /** The number a rational stands for. */
  ghost function ToReal(x: Rational): real
    requires x.d > 0
  {
    x.n as real / x.d as real
  }

  function FromInt(i: int): Rational { Rational(i, 1) }

  // ---- reduction to lowest terms ----

  lemma DenominatorLeft(a: nat, den: nat)
    ensures den > 0 && Euclid(a, den) > 0 ==> den / Euclid(a, den) > 0
  {
    var g := Euclid(a, den);
    EuclidIsGcd(a, den);
    hide Euclid;
    if den > 0 {
      DividesBound(g, den);
      var k: int :| den == k * g;
      ExactDivision(den, g, k);
    }
  }

  /** Numerator and denominator divided by their greatest common divisor, as far as ABS lets it be
      found. */
  function Reduced(num: int, den: nat): (r: Outcome<Rational>)
    ensures den > 0 && r.Ok? ==> r.value.d > 0
  {
    if GcdStuck(num, den) then Signal(Stuck)
    else
      var g := Euclid(KeptAbs(num), den);
      DenominatorLeft(KeptAbs(num), den);
      if g == 0 then Signal(DivisionByZero) else Ok(Rational(Quot(num, g), den / g))
  }

  /** cl_make_ratio_normalized. Negation by NEGATE leaves an object without limbs, on which no
      division works, or what it keeps of the number. */
  function Normalized(num: int, den: int): (r: Outcome<Rational>)
    ensures den > 0 && r.Ok? ==> r.value.d > 0
  {
    if den == 0 then Signal(DivisionByZero)
    else if num == 0 then Ok(FromInt(0))
    else if den > 0 then Reduced(num, den)
    else if LimbCount(Abs(num)) % BASE == 0 || LimbCount(Abs(den)) % BASE == 0 then Signal(Stuck)
    else Reduced(KeptNegate(num), Kept(-den))
  }

  /** `x` is num / den. */
  predicate KeepsValue(x: Rational, num: int, den: int) { x.d > 0 && x.n * den == num * x.d }

  /** The same with no larger parts. */
  predicate IsResult(x: Rational, num: int, den: int) {
    KeepsValue(x, num, den) && Abs(x.n) <= Abs(num) && x.d <= den
  }

  ghost predicate LowestTerms(x: Rational) { IsGcd(1, x.n, x.d) }

  /** Reduction keeps the value exactly when what was taken for the common divisor divides the
      numerator; and always unless ABS miscopies it, with a result in lowest terms. */
  lemma ReductionExact(num: int, den: int)
    requires den > 0
    ensures var r := Normalized(num, den);
      && (r.Ok? <==> !GcdStuck(num, den))
      && (r.Ok? ==> r.value.d > 0 && (KeepsValue(r.value, num, den) <==> Divides(Euclid(KeptAbs(num), den), num)))
      && (!LongNegative(num) ==> r.Ok? && IsResult(r.value, num, den) && LowestTerms(r.value))
  {
    var g := Euclid(KeptAbs(num), den);
    EuclidIsGcd(KeptAbs(num), den);
    hide Euclid, KeptAbs, GcdStuck, Quot, Rem, LimbCount, Kept;
    DividesBound(g, den);
    if num == 0 {
      DividesIntro(g, 0, 0);
      LowestZero();
      ShortReduction(0, den);
    } else {
      QuotientOfBoth(num, den, g);
      if !LongNegative(num) { ShortReduction(num, den); }
    }
  }

  lemma LowestZero()
    ensures LowestTerms(FromInt(0))
  {
    GcdZero(1);
  }

  lemma ShortReduction(num: int, den: nat)
    requires !LongNegative(num)
    ensures !GcdStuck(num, den) && IsGcd(Euclid(KeptAbs(num), den), num, den)
  {
    EuclidIsGcd(KeptAbs(num), den);
    KeptAbsExact(num);
    hide Kept, LimbCount, Euclid, IsGcd;
    GcdAbs(Euclid(KeptAbs(num), den), num, den);
  }

  /** Dividing by a common divisor, or by something that divides the denominator only. */
  lemma QuotientOfBoth(num: int, den: int, g: int)
    requires den > 0 && g > 0 && Divides(g, den)
    ensures var x := Rational(Quot(num, g), den / g);
      && x.d > 0 && (KeepsValue(x, num, den) <==> Divides(g, num))
      && Abs(x.n) <= Abs(num) && x.d <= den
      && (IsGcd(g, num, den) ==> LowestTerms(x))
  {
    QuotRem(num, g);
    QuotBound(num, g);
    hide Quot, Rem, IsGcd;
    var k: int :| den == k * g;
    ExactDivision(den, g, k);
    QuotientParts(Quot(num, g), Rem(num, g), g, k, num, den);
  }

  lemma ExactDivision(den: int, g: int, k: int)
    requires den > 0 && g > 0 && den == k * g
    ensures den / g == k && 0 < k <= den
  {
    DivModUnique(den, g, k, 0);
    MulCancelLess(0, k, g);
    MulMonotone(1, g, k);
  }

  lemma QuotientParts(q: int, r: int, g: int, k: int, num: int, den: int)
    requires g > 0 && k > 0 && num == q * g + r && den == k * g && Abs(r) < g
    ensures KeepsValue(Rational(q, k), num, den) <==> Divides(g, num)
    ensures IsGcd(g, num, den) ==> LowestTerms(Rational(q, k))
  {
    hide IsGcd;
    QuotientRing(q, r, g, k, num, den);
    if r == 0 { DividesIntro(g, q, num); }
    if Divides(g, num) { RemainderZero(num, g, q, r); }
    if IsGcd(g, num, den) {
      GcdDivides(g, num, den);
      RemainderZero(num, g, q, r);
      LowestAfter(g, q, k);
    }
  }

  lemma QuotBound(num: int, g: int)
    requires g > 0
    ensures Abs(Quot(num, g)) <= Abs(num)
  {
    hide Quot;
    var q := QuotientSize(num, g);
  }

  lemma GcdDivides(g: int, a: int, b: int)
    requires IsGcd(g, a, b)
    ensures Divides(g, a) && Divides(g, b)
  {}

  lemma QuotientRing(q: int, r: int, g: int, k: int, num: int, den: int)
    requires num == q * g + r && den == k * g && k > 0
    ensures q * den == num * k <==> r == 0
  {
    assert num * k == q * (k * g) + r * k;
    if r > 0 { MulPositive(r, k); }
    if r < 0 { MulPositive(-r, k); }
  }

  lemma RemainderZero(num: int, g: int, q: int, r: int)
    requires g > 0 && Divides(g, num) && num == q * g + r && Abs(r) < g
    ensures r == 0
  {
    var j: int :| num == j * g;
    MulDistribute(g, j, q);
    SmallMultiple(j - q, g);
  }

  /** What is left of two numbers after division by their greatest common divisor has none but 1. */
  lemma LowestAfter(g: int, q: int, k: int)
    requires g > 0 && IsGcd(g, q * g, k * g)
    ensures IsGcd(1, q, k)
  {
    DividesIntro(1, q, q);
    DividesIntro(1, k, k);
    forall e: int | Divides(e, q) && Divides(e, k) ensures Divides(e, 1) {
      var u: int :| q == u * e;
      var v: int :| k == v * e;
      MulAssoc(u, e, g);
      MulAssoc(v, e, g);
      DividesIntro(e * g, u, q * g);
      DividesIntro(e * g, v, k * g);
      assert Divides(e * g, g);
      var w: int :| g == w * (e * g);
      MulAssoc(w, e, g);
      MulCancelEqual(1, w * e, g);
      DividesIntro(e, w, 1);
    }
  }

  /** A numerator of 65537 limbs that is not kept: (3 + 65536^k) / -3 comes out as an integer. */
  lemma LongReductionFails(k: nat)
    requires k > 0 && k % BASE == 0
    ensures var num := -(Pow(BASE, k) + 3);
      Normalized(num, 3).Ok? && Whole(Normalized(num, 3).value) && !KeepsValue(Normalized(num, 3).value, num, 3)
  {
    var num := -(Pow(BASE, k) + 3);
    GcdMissed(k);
    PowPositive(BASE, k);
    hide Pow, Euclid, KeptAbs, GcdStuck, LongNegative;
    ReductionExact(num, 3);
    GcdZero(3);
    if Divides(3, num) { GcdOfMultiple(num); }
  }

  lemma GcdOfMultiple(n: int)
    requires Divides(3, n)
    ensures IsGcd(3, n, 3)
  {
    DividesIntro(3, 1, 3);
  }

  // ---- the operations ----

  lemma DenominatorProduct(x: int, y: int)
    ensures x > 0 && y > 0 ==> x * y > 0
  {}

  function Times(x: Rational, y: Rational): (r: Outcome<Rational>)
    ensures x.d > 0 && y.d > 0 && r.Ok? ==> r.value.d > 0
  {
    DenominatorProduct(x.d, y.d);
    if Whole(x) && Whole(y) then Ok(FromInt(x.n * y.n)) else Normalized(x.n * y.n, x.d * y.d)
  }

  function Plus(x: Rational, y: Rational): (r: Outcome<Rational>)
    ensures x.d > 0 && y.d > 0 && r.Ok? ==> r.value.d > 0
  {
    DenominatorProduct(x.d, y.d);
    if Whole(x) && Whole(y) then Ok(FromInt(x.n + y.n)) else Normalized(x.n * y.d + y.n * x.d, x.d * y.d)
  }

  function Minus(x: Rational, y: Rational): (r: Outcome<Rational>)
    ensures x.d > 0 && y.d > 0 && r.Ok? ==> r.value.d > 0
  {
    DenominatorProduct(x.d, y.d);
    if Whole(x) && Whole(y) then Ok(FromInt(x.n - y.n)) else Normalized(x.n * y.d - y.n * x.d, x.d * y.d)
  }

  /** cl_ratio_div. */
  function Over(x: Rational, y: Rational): Outcome<Rational> {
    if y.n == 0 then Signal(DivisionByZero) else Normalized(x.n * y.d, x.d * y.n)
  }

  /** What cl_arith_mul makes of a magnitude ABS has copied and a positive integer: by 1 it is handed
      on as it is; a fixnum looks at its leading limb. */
  function Scaled(m: Size, d: int): Outcome<Size>
    requires d > 0
  {
    if d == 1 then Ok(m)
    else if m.count == 0 && FitsFixnum(d) then Signal(Stuck)
    else Ok(Limbs(LimbCount(m.value * d), m.value * d))
  }

  /** Absolute values, then the comparison; ratios are cross-multiplied for it. */
  function CompareAbs(x: Rational, y: Rational): Outcome<int>
    requires x.d > 0 && y.d > 0
  {
    if Whole(x) && Whole(y) then Ok(Order(AbsLimbs(x.n), AbsLimbs(y.n)))
    else
      var l, r := Scaled(AbsLimbs(x.n), y.d), Scaled(AbsLimbs(y.n), x.d);
      if l.Signal? then Signal(l.fault) else if r.Signal? then Signal(r.fault) else Ok(Order(l.value, r.value))
  }

  // ---- they compute the exact values ----

  ghost function AbsR(x: real): real { if x < 0.0 then -x else x }

  lemma RealOf(x: Rational, v: real)
    requires x.d > 0 && x.n as real == v * x.d as real
    ensures ToReal(x) == v
  {}

  lemma RealTimesDen(x: Rational)
    requires x.d > 0
    ensures x.n as real == ToReal(x) * x.d as real
    ensures x.n < 0 <==> ToReal(x) < 0.0
    ensures x.n == 0 <==> ToReal(x) == 0.0
  {}

  /** Equal cross products are equal numbers. */
  lemma KeptReal(x: Rational, num: int, den: int, v: real)
    requires den > 0 && KeepsValue(x, num, den) && num as real == v * den as real
    ensures ToReal(x) == v
  {
    var n, d, e := x.n as real, x.d as real, den as real;
    assert n * e == (v * e) * d by { assert (x.n * den) as real == (num * x.d) as real; }
    KeptRing(n, d, e, v);
    RealOf(x, v);
  }

  lemma KeptRing(n: real, d: real, e: real, v: real)
    requires n * e == (v * e) * d && e > 0.0
    ensures n == v * d
  {
    assert (n - v * d) * e == 0.0;
  }

  /** Whole operands, or a numerator that ABS copies faithfully. */
  predicate Copied(x: Rational, y: Rational, num: int) { (Whole(x) && Whole(y)) || !LongNegative(num) }

  /** `v` is num / den. */
  ghost predicate Fraction(num: int, den: int, v: real) { den > 0 && num as real == v * den as real }

  lemma RealFraction(x: Rational)
    requires x.d > 0
    ensures Fraction(x.n, x.d, ToReal(x))
  {}

  lemma ResultExact(r: Outcome<Rational>, whole: bool, num: int, den: int, v: real)
    requires r == if whole then Ok(FromInt(num)) else Normalized(num, den)
    requires (whole ==> den == 1) && (whole || !LongNegative(num)) && Fraction(num, den, v)
    ensures r.Ok? && IsResult(r.value, num, den) && ToReal(r.value) == v
  {
    ReductionExact(num, den);
    hide Normalized, LongNegative, ToReal;
    assert num * 1 == 1 * num;
    KeptReal(r.value, num, den, v);
  }

  lemma PlusExact(x: Rational, y: Rational)
    requires x.d > 0 && y.d > 0 && Copied(x, y, x.n * y.d + y.n * x.d)
    ensures var r := Plus(x, y);
      r.Ok? && IsResult(r.value, x.n * y.d + y.n * x.d, x.d * y.d) && ToReal(r.value) == ToReal(x) + ToReal(y)
  {
    CrossForms(x, y);
    CrossValue(x, y);
    hide Normalized, ToReal, LongNegative, Plus, IsResult, Fraction;
    ResultExact(Plus(x, y), Whole(x) && Whole(y), x.n * y.d + y.n * x.d, x.d * y.d, ToReal(x) + ToReal(y));
  }

  lemma MinusExact(x: Rational, y: Rational)
    requires x.d > 0 && y.d > 0 && Copied(x, y, x.n * y.d - y.n * x.d)
    ensures var r := Minus(x, y);
      r.Ok? && IsResult(r.value, x.n * y.d - y.n * x.d, x.d * y.d) && ToReal(r.value) == ToReal(x) - ToReal(y)
  {
    CrossForms(x, y);
    CrossValue(x, y);
    hide Normalized, ToReal, LongNegative, Minus, IsResult, Fraction;
    ResultExact(Minus(x, y), Whole(x) && Whole(y), x.n * y.d - y.n * x.d, x.d * y.d, ToReal(x) - ToReal(y));
  }

  lemma CrossForms(x: Rational, y: Rational)
    requires x.d > 0 && y.d > 0
    ensures var whole, den := Whole(x) && Whole(y), x.d * y.d;
      && (whole ==> den == 1)
      && Plus(x, y) == (var num := x.n * y.d + y.n * x.d; if whole then Ok(FromInt(num)) else Normalized(num, den))
      && Minus(x, y) == (var num := x.n * y.d - y.n * x.d; if whole then Ok(FromInt(num)) else Normalized(num, den))
  {
    hide Normalized;
  }

  lemma CrossValue(x: Rational, y: Rational)
    requires x.d > 0 && y.d > 0
    ensures Fraction(x.n * y.d + y.n * x.d, x.d * y.d, ToReal(x) + ToReal(y))
    ensures Fraction(x.n * y.d - y.n * x.d, x.d * y.d, ToReal(x) - ToReal(y))
  {
    RealTimesDen(x);
    RealTimesDen(y);
    hide ToReal, Fraction;
    CrossReals(x.n, y.d, y.n, x.d, ToReal(x), ToReal(y));
  }

  lemma CrossReals(a: int, e: int, b: int, d: int, u: real, v: real)
    requires d > 0 && e > 0 && a as real == u * d as real && b as real == v * e as real
    ensures Fraction(a * e + b * d, d * e, u + v) && Fraction(a * e - b * d, d * e, u - v)
  {
    MulPositive(d, e);
    ProductCast(a, e);
    ProductCast(b, d);
    ProductCast(d, e);
    PlusRing(u, v, d as real, e as real);
  }

  lemma ProductCast(a: int, b: int)
    ensures (a * b) as real == a as real * b as real
  {}

  lemma PlusRing(u: real, v: real, d: real, e: real)
    ensures (u * d) * e + (v * e) * d == (u + v) * (d * e)
    ensures (u * d) * e - (v * e) * d == (u - v) * (d * e)
  {}

  ghost function Multiple(q: int, u: real): real { q as real * u }

  lemma TimesExact(q: int, y: Rational)
    requires y.d > 0 && Copied(FromInt(q), y, q * y.n)
    ensures var r := Times(FromInt(q), y);
      r.Ok? && IsResult(r.value, q * y.n, y.d) && ToReal(r.value) == Multiple(q, ToReal(y))
  {
    TimesForm(q, y);
    RealFraction(y);
    hide Normalized, ToReal, LongNegative, Times, IsResult, Fraction, Multiple;
    ScaledValue(q, y.n, y.d, ToReal(y));
    ResultExact(Times(FromInt(q), y), Whole(y), q * y.n, y.d, Multiple(q, ToReal(y)));
  }

  lemma TimesForm(q: int, y: Rational)
    ensures Times(FromInt(q), y) == if Whole(y) then Ok(FromInt(q * y.n)) else Normalized(q * y.n, y.d)
  {
    assert 1 * y.d == y.d;
  }

  lemma ScaledValue(q: int, n: int, d: int, u: real)
    requires Fraction(n, d, u)
    ensures Fraction(q * n, d, Multiple(q, u))
  {
    ProductCast(q, n);
    TimesRing(q as real, u, d as real);
  }

  lemma TimesRing(q: real, u: real, d: real)
    ensures q * (u * d) == (q * u) * d
  {}

  lemma CompareAbsExact(x: Rational, y: Rational)
    requires x.d > 0 && y.d > 0 && !LongNegative(x.n) && !LongNegative(y.n)
    ensures CompareAbs(x, y).Ok?
    ensures CompareAbs(x, y).value == CompareReals(AbsR(ToReal(x)), AbsR(ToReal(y)))
  {
    var u, v := Abs(x.n) * y.d, Abs(y.n) * x.d;
    ScaledExact(x.n, y.d);
    ScaledExact(y.n, x.d);
    OrderExact(u, v);
    CrossReal(x, y);
    if Whole(x) && Whole(y) { OrderExact(x.n, y.n); }
  }

  function CompareReals(u: real, v: real): int { if u < v then -1 else if u > v then 1 else 0 }

  lemma ScaledExact(x: int, d: int)
    requires d > 0 && !LongNegative(x)
    ensures Abs(x) * d >= 0 && Scaled(AbsLimbs(x), d) == Ok(AbsLimbs(Abs(x) * d))
  {
    KeptAbsExact(x);
    MulMonotone(0, Abs(x), d);
  }

  lemma CrossReal(x: Rational, y: Rational)
    requires x.d > 0 && y.d > 0
    ensures Sign(Abs(x.n) * y.d - Abs(y.n) * x.d) == CompareReals(AbsR(ToReal(x)), AbsR(ToReal(y)))
  {
    RealTimesDen(x);
    RealTimesDen(y);
    AbsTimes(x);
    AbsTimes(y);
    hide ToReal;
    CrossRing(AbsR(ToReal(x)), AbsR(ToReal(y)), x.d as real, y.d as real);
  }

  lemma AbsTimes(x: Rational)
    requires x.d > 0
    ensures Abs(x.n) as real == AbsR(ToReal(x)) * x.d as real
  {}

  lemma CrossRing(u: real, v: real, d: real, e: real)
    requires d > 0.0 && e > 0.0
    ensures u < v ==> (u * d) * e < (v * e) * d
    ensures u > v ==> (u * d) * e > (v * e) * d
    ensures u == v ==> (u * d) * e == (v * e) * d
  {
    assert (v * e) * d - (u * d) * e == (v - u) * (d * e);
    assert d * e > 0.0;
    if u < v { assert (v - u) * (d * e) > 0.0; }
    if u > v { assert (u - v) * (d * e) > 0.0; assert (v - u) * (d * e) == -((u - v) * (d * e)); }
  }
}
