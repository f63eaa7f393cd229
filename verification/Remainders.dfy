/** REM and MOD on rationals, the one-argument roundings, and the agreement of the integer
    operations with them (src/core/builtins_arith.c). */
module Remainders {
  import opened Digits
  import opened Magnitude
  import opened Integers
  import opened Arithmetic
  import opened NumberTheory
  import opened Ratios
  import opened Rounding

  /** `r` is a remainder of `x` by `y` that keeps the promise of the mode. */
  ghost predicate IsRemainder(mode: Mode, x: real, y: real, r: real) {
    exists q: int :: Balanced(x, y, q, r) && Promised(mode, x, y, q, r)
  }

  // ---- the quotient as a ratio ----

  /** Equal fractions have the same floor and leave a rest together. */
  lemma SameFloor(n: nat, d: nat, a: nat, b: nat)
    requires d > 0 && b > 0 && n * b == a * d
    ensures n / d == a / b && (n % d == 0 <==> a % b == 0)
  {
    var q, r := a / b, a % b;
    assert a == q * b + r;
    FloorRing(n, d, a, b, q, r);
    var s := n - q * d;
    if s >= d { MulMonotone(d, s, b); MulMonotone(r, b - 1, d); }
    if s < 0 { MulMonotone(1, -s, b); MulMonotone(0, r, d); }
    DivModUnique(n, d, q, s);
    if s == 0 || r == 0 { ZeroTogether(s, b, r, d); }
  }

  lemma FloorRing(n: int, d: int, a: int, b: int, q: int, r: int)
    requires n * b == a * d && a == q * b + r
    ensures (n - q * d) * b == r * d
  {
    MulDistribute(d, q * b, r);
    assert (q * d) * b == d * (q * b);
  }

  lemma ZeroTogether(s: int, b: int, r: int, d: int)
    requires s * b == r * d && b > 0 && d > 0
    ensures s == 0 <==> r == 0
  {
    if s == 0 { MulCancelEqual(r, 0, d); }
    if r == 0 { MulCancelEqual(s, 0, b); }
  }

  /** So do their truncated quotients. */
  lemma SameQuotient(x: Rational, a: int, b: int)
    requires b > 0 && KeepsValue(x, a, b)
    ensures Quot(x.n, x.d) == Quot(a, b) && (Rem(x.n, x.d) == 0 <==> Rem(a, b) == 0)
    ensures x.n < 0 <==> a < 0
  {
    AbsProduct(x.n, b);
    AbsProduct(a, x.d);
    SameSign(x.n, b, a, x.d);
    hide KeepsValue;
    SameFloor(Abs(x.n), x.d, Abs(a), b);
  }

  lemma SameSign(n: int, b: int, a: int, d: int)
    requires b > 0 && d > 0 && n * b == a * d
    ensures n < 0 <==> a < 0
  {
    if n < 0 { MulMonotone(n, -1, b); if a >= 0 { MulMonotone(0, a, d); } }
    if a < 0 { MulMonotone(a, -1, d); if n >= 0 { MulMonotone(0, n, b); } }
  }

  lemma NegatedFraction(a: int, b: int)
    requires b != 0 && a != 0
    ensures Quot(-a, -b) == Quot(a, b) && (Rem(-a, -b) == 0 <==> Rem(a, b) == 0)
  {}

  /** Where there is room the quotient of ratios is found exactly, whatever the divisor's sign. */
  lemma OverExact(a: Rational, b: Rational) returns (x: Rational)
    requires a.d > 0 && b.d > 0 && IntB(a, b) != 0 && Roomy(a, b)
    ensures Over(a, b) == Ok(x) && x.d > 0 && SameRatio(x, IntA(a, b), IntB(a, b))
  {
    ProductOfZero(a.d, b.n);
    RoomAbove(a, b);
    hide Room, LimbCount, Normalized, SameRatio, Abs;
    LimbCountMonotone(Abs(IntA(a, b)), Room(a, b));
    LimbCountMonotone(Abs(IntB(a, b)), Room(a, b));
    x := QuotientReduced(IntA(a, b), IntB(a, b));
  }

  /** Truncation and flooring of `x` are those of a / b. */
  predicate SameRatio(x: Rational, a: int, b: int)
    requires x.d > 0 && b != 0
  {
    && Quot(x.n, x.d) == Quot(a, b)
    && (Rem(x.n, x.d) == 0 <==> Rem(a, b) == 0)
    && (x.n < 0 <==> a != 0 && (a < 0) != (b < 0))
  }

  lemma QuotientReduced(num: int, den: int) returns (x: Rational)
    requires den != 0 && LimbCount(Abs(num)) < BASE && LimbCount(Abs(den)) < BASE
    ensures Normalized(num, den) == Ok(x) && x.d > 0 && SameRatio(x, num, den)
  {
    KeptExact(Abs(num));
    KeptExact(Abs(den));
    hide Quot, Rem, Kept, LimbCount, Reduced, KeepsValue;
    if num == 0 {
      ZeroQuotient(den);
      x := FromInt(0);
    } else if den > 0 {
      ReductionExact(num, den);
      x := Normalized(num, den).value;
      SameQuotient(x, num, den);
    } else {
      assert Normalized(num, den) == Normalized(-num, -den);
      ReductionExact(-num, -den);
      x := Normalized(-num, -den).value;
      SameQuotient(x, -num, -den);
      NegatedFraction(num, den);
    }
  }

  lemma ZeroQuotient(den: int)
    requires den != 0
    ensures Quot(0, 1) == Quot(0, den) && Rem(0, 1) == 0 == Rem(0, den)
  {
    SmallQuotient(0, den);
    SmallQuotient(0, 1);
  }

  // ---- REM and MOD ----

  /** bi_rem with a ratio among its arguments: an integer quotient is taken as it is, else truncated. */
  method RemRational(a: Rational, b: Rational) returns (res: Outcome<Rational>)
    requires a.d > 0 && b.d > 0 && !(Whole(a) && Whole(b))
    ensures b.n == 0 ==> res == Signal(DivisionByZero)
    ensures b.n != 0 && Roomy(a, b) ==>
      res.Ok? && res.value.d > 0 && IsRemainder(Truncated, ToReal(a), ToReal(b), ToReal(res.value))
  {
    ZeroDivisor(a, b);
    hide ToReal, IntA, IntB, Minus, Times, Over, IsRemainder, Quot, Rem, Roomy;
    if b.n != 0 && Roomy(a, b) { ghost var _ := OverExact(a, b); }
    var quot := DividedInto(a, b);
    if quot.Signal? { return Signal(quot.fault); }
    var q := TruncateRatio(quot.value);
    res := MinusTimes(a, q, b);
    if b.n != 0 && Roomy(a, b) {
      ghost var r := TruncatedResult(a, b, q);
    }
  }

  lemma TruncatedResult(a: Rational, b: Rational, q: int) returns (r: Rational)
    requires a.d > 0 && b.d > 0 && IntB(a, b) != 0 && Roomy(a, b) && q == Quot(IntA(a, b), IntB(a, b))
    ensures Times(FromInt(q), b).Ok? && Minus(a, Times(FromInt(q), b).value) == Ok(r) && r.d > 0
    ensures IsRemainder(Truncated, ToReal(a), ToReal(b), ToReal(r))
  {
    hide ToReal, IntA, IntB, Minus, Times, Promised, Balanced, Quot, Roomy, Multiple;
    QuotientTimes(IntA(a, b), IntB(a, b));
    var p;
    p, r := FirstSteps(a, b, q);
    TruncatedPromise(a, b, q, ToReal(r));
    BalancedWhole(ToReal(a), ToReal(b), q, ToReal(r));
  }

  /** The quotient, unless its denominator has come out as 0. */
  method DividedInto(a: Rational, b: Rational) returns (quot: Outcome<Rational>)
    ensures b.n == 0 ==> quot == Signal(DivisionByZero)
    ensures quot.Ok? ==> quot == Over(a, b) && quot.value.d != 0
    ensures quot.Signal? && Over(a, b).Ok? ==> Over(a, b).value.d == 0
  {
    quot := Over(a, b);
    if quot.Ok? && quot.value.d == 0 { quot := Signal(DivisionByZero); }
  }

  method TruncateRatio(x: Rational) returns (q: int)
    requires x.d != 0
    ensures x.d > 0 ==> q == Quot(x.n, x.d)
  {
    if Whole(x) { WholeQuot(x.n); }
    q := if Whole(x) then x.n else TruncateResult(x.n, x.d);
  }

  lemma WholeQuot(n: int)
    ensures Quot(n, 1) == n && Rem(n, 1) == 0
  {
    DivModUnique(Abs(n), 1, Abs(n), 0);
  }

  method MinusTimes(a: Rational, q: int, b: Rational) returns (res: Outcome<Rational>)
    ensures Times(FromInt(q), b).Ok? ==> res == Minus(a, Times(FromInt(q), b).value)
  {
    var p := Times(FromInt(q), b);
    if p.Signal? { return Signal(p.fault); }
    res := Minus(a, p.value);
  }

  lemma BalancedWhole(x: real, y: real, q: int, r: real)
    requires r == x - Multiple(q, y)
    ensures Balanced(x, y, q, r)
  {}

  /** bi_mod with a ratio among its arguments: the quotient is floored by hand. */
  method ModRational(a: Rational, b: Rational) returns (res: Outcome<Rational>)
    requires a.d > 0 && b.d > 0 && !(Whole(a) && Whole(b))
    ensures b.n == 0 ==> res == Signal(DivisionByZero)
    ensures b.n != 0 && Roomy(a, b) ==>
      res.Ok? && res.value.d > 0 && IsRemainder(Floor, ToReal(a), ToReal(b), ToReal(res.value))
  {
    ZeroDivisor(a, b);
    hide ToReal, IntA, IntB, Minus, Times, Over, IsRemainder, Quot, Rem, Roomy;
    if b.n != 0 && Roomy(a, b) { ghost var _ := OverExact(a, b); }
    var quot := DividedInto(a, b);
    if quot.Signal? { return Signal(quot.fault); }
    var q := FloorRatio(quot.value);
    res := MinusTimes(a, q, b);
    if b.n != 0 && Roomy(a, b) {
      ghost var r := FlooredResult(a, b, q);
    }
  }

  predicate IsFloorQuotient(q: int, a: int, b: int)
    requires b != 0
  {
    q == if Rem(a, b) != 0 && a != 0 && (a < 0) != (b < 0) then Quot(a, b) - 1 else Quot(a, b)
  }

  lemma FlooredResult(a: Rational, b: Rational, q: int) returns (r: Rational)
    requires a.d > 0 && b.d > 0 && IntB(a, b) != 0 && Roomy(a, b) && IsFloorQuotient(q, IntA(a, b), IntB(a, b))
    ensures Times(FromInt(q), b).Ok? && Minus(a, Times(FromInt(q), b).value) == Ok(r) && r.d > 0
    ensures IsRemainder(Floor, ToReal(a), ToReal(b), ToReal(r))
  {
    hide ToReal, IntA, IntB, Minus, Times, Promised, Balanced, Quot, Rem, Roomy, Multiple;
    FloorTimes(IntA(a, b), IntB(a, b), q);
    var p;
    p, r := FirstSteps(a, b, q);
    FlooredQuotient(a, b, q, ToReal(r));
    BalancedWhole(ToReal(a), ToReal(b), q, ToReal(r));
  }

  method FloorRatio(x: Rational) returns (q: int)
    requires x.d != 0
    ensures x.d > 0 ==> q == if Rem(x.n, x.d) != 0 && x.n < 0 then Quot(x.n, x.d) - 1 else Quot(x.n, x.d)
  {
    var truncated := TruncateRatio(x);
    if Whole(x) {
      WholeQuot(x.n);
      return truncated;
    }
    QuotRem(x.n, x.d);
    hide Quot, Rem;
    var check := truncated * x.d;
    q := if check != x.n && x.n < 0 then truncated - 1 else truncated;
  }

  lemma FloorTimes(a: int, b: int, q: int)
    requires b != 0 && (q == Quot(a, b) || q == Quot(a, b) - 1)
    ensures Abs(q * b) <= Abs(a) + Abs(b)
  {
    QuotientTimes(a, b);
    hide Quot;
    MulDistribute(b, Quot(a, b), 1);
  }

  lemma FlooredQuotient(a: Rational, b: Rational, q: int, r: real)
    requires a.d > 0 && b.d > 0 && IntB(a, b) != 0 && r == ToReal(a) - Multiple(q, ToReal(b))
    requires IsFloorQuotient(q, IntA(a, b), IntB(a, b))
    ensures Promised(Floor, ToReal(a), ToReal(b), q, r)
  {
    hide ToReal, IntA, IntB, Quot, Rem, Promised, Adjusted, Multiple;
    var q0 := Quot(IntA(a, b), IntB(a, b));
    var r0 := ToReal(a) - Multiple(q0, ToReal(b));
    TruncatedPromise(a, b, q0, r0);
    RemainderSigns(a, b, q0, r0);
    RemOfZero(IntA(a, b), IntB(a, b));
    StepDown(ToReal(a), ToReal(b), q0, q, r0, r);
    FloorFromTruncation(ToReal(a), ToReal(b), q0, r0, q, r);
  }

  lemma StepDown(x: real, y: real, q0: int, q: int, r0: real, r: real)
    requires r0 == x - Multiple(q0, y) && r == x - Multiple(q, y)
    ensures q == q0 - 1 ==> r == r0 + y
    ensures q == q0 ==> r == r0
  {
    ApartRing(q as real, q0 as real, y);
    OneLess(y);
  }

  lemma OneLess(y: real)
    ensures (-1.0) * y == -y && 0.0 * y == 0.0
  {}

  lemma RemOfZero(a: int, b: int)
    requires b != 0
    ensures a == 0 ==> Rem(a, b) == 0
  {
    if a == 0 { SmallQuotient(a, b); }
  }

  /** Signs over the common denominator are the signs of the rationals. */
  lemma RemainderSigns(a: Rational, b: Rational, q: int, r: real)
    requires a.d > 0 && b.d > 0 && IntB(a, b) != 0 && q == Quot(IntA(a, b), IntB(a, b))
    requires r == ToReal(a) - Multiple(q, ToReal(b))
    ensures Rem(IntA(a, b), IntB(a, b)) == 0 <==> r == 0.0
    ensures (IntA(a, b) < 0 <==> ToReal(a) < 0.0) && (IntB(a, b) < 0 <==> ToReal(b) < 0.0) && ToReal(b) != 0.0
  {
    hide ToReal, IntA, IntB, Quot, Rem, Multiple, Fraction;
    Common(a, b);
    QuotRem(IntA(a, b), IntB(a, b));
    SignsScaled(IntA(a, b), IntB(a, b), q, Rem(IntA(a, b), IntB(a, b)), a.d * b.d, ToReal(a), ToReal(b), r);
  }

  lemma SignsScaled(A: int, B: int, q: int, rem: int, D: int, x: real, y: real, r: real)
    requires A == q * B + rem && Abs(rem) < Abs(B) && r == x - Multiple(q, y)
    requires Fraction(A, D, x) && Fraction(B, D, y)
    ensures rem == 0 <==> r == 0.0
    ensures (A < 0 <==> x < 0.0) && (B < 0 <==> y < 0.0) && (B == 0 <==> y == 0.0)
  {
    IdentityReal(A, q, B, rem);
    SignsReal(A as real, B as real, q as real, rem as real, D as real, x, y, r);
  }

  lemma SignsReal(A: real, B: real, q: real, rem: real, D: real, x: real, y: real, r: real)
    requires A == q * B + rem && D > 0.0 && A == x * D && B == y * D && r == x - q * y
    ensures rem == 0.0 <==> r == 0.0
    ensures (A < 0.0 <==> x < 0.0) && (B < 0.0 <==> y < 0.0) && (B == 0.0 <==> y == 0.0)
  {
    RescaleRing(x, y, q, D, A, B, r);
    SignScale(rem, r, D);
    SignScale(A, x, D);
    SignScale(B, y, D);
  }

  /** The adjustment for FLOOR, decided by the signs of number and divisor. */
  lemma FloorFromTruncation(x: real, y: real, q0: int, r0: real, q: int, r: real)
    requires y != 0.0 && Promised(Truncated, x, y, q0, r0)
    requires if r0 != 0.0 && (x < 0.0) != (y < 0.0) then q == q0 - 1 && r == r0 + y else q == q0 && r == r0
    ensures Promised(Floor, x, y, q, r)
  {
    assert Adjusted(Floor, x, y, q0, r0, 0, q, r);
    AdjustmentKeeps(Floor, x, y, q0, r0, 0, q, r);
  }

  /** MOD and TRUNCATE on integers keep the promises of FLOOR and TRUNCATE on rationals. */
  lemma IntegersAgree(a: int, b: int)
    requires b != 0
    ensures Balanced(a as real, b as real, Quot(a, b), Rem(a, b) as real)
    ensures Promised(Truncated, a as real, b as real, Quot(a, b), Rem(a, b) as real)
    ensures IsRemainder(Floor, a as real, b as real, Modulo(a, b) as real)
  {
    hide Quot, Rem, Modulo;
    QuotRem(a, b);
    IntegerPromise(Truncated, a, b, Quot(a, b), Rem(a, b));
    var j := ModuloSpec(a, b);
    IntegerPromise(Floor, a, b, j, Modulo(a, b));
  }

  lemma IntegerPromise(mode: Mode, a: int, b: int, q: int, r: int)
    requires a == q * b + r && Abs(r) < Abs(b)
    requires mode.Truncated? ==> r == 0 || (r < 0) == (a < 0)
    requires mode.Floor? ==> r == 0 || (r < 0) == (b < 0)
    requires mode.Truncated? || mode.Floor?
    ensures Balanced(a as real, b as real, q, r as real)
    ensures Promised(mode, a as real, b as real, q, r as real)
  {
    IdentityReal(a, q, b, r);
  }

  // ---- one argument ----

  /** do_rounding with one rational argument: an integer rounds to itself; a ratio is rounded as
      numerator over denominator, and the remainder is taken from the ratio again. The quotient is
      right exactly when the comparison of ROUND is; the remainder exactly when its reduction is. */
  method RoundOne(mode: Mode, a: Rational) returns (res: Outcome<Rounded>)
    requires a.d > 0
    ensures res.Ok? ==> res.value.r.d > 0
    ensures Whole(a) ==> res == Ok(Rounded(a.n, FromInt(0)))
    ensures !Whole(a) && res.Ok? ==>
      var x, q := ToReal(a), res.value.q;
      Promised(mode, x, 1.0, q, x - q as real) <==> !(mode.Round? && Misjudged(a.n, a.d))
    ensures !Whole(a) && res.Ok? ==>
      var num := a.n - res.value.q * a.d;
      Balanced(ToReal(a), 1.0, res.value.q, ToReal(res.value.r)) <==> Divides(Euclid(KeptAbs(num), a.d), num)
    ensures LimbCount(2 * a.d) < BASE ==>
      res.Ok?
      && Balanced(ToReal(a), 1.0, res.value.q, ToReal(res.value.r))
      && Promised(mode, ToReal(a), 1.0, res.value.q, ToReal(res.value.r))
  {
    hide ToReal, Promised, Balanced, Minus, Unlucky, Misjudged, Multiple, Euclid, KeptAbs, Divides, LimbCount,
      LongNegative, Normalized, Roomy;
    if Whole(a) {
      WholeNumber(mode, a);
      return Ok(Rounded(a.n, FromInt(0)));
    }
    var n, d := FromInt(a.n), FromInt(a.d);
    DenominatorLucky(n, d);
    var two := DoRounding(mode, n, d);
    var q := two.value.q;
    var r := Minus(a, FromInt(q));
    QuotientOfRatio(mode, a, q, two.value.r);
    RemainderOfRatio(a, q);
    if LimbCount(2 * a.d) < BASE {
      ShortRatio(mode, a, q);
      BalancedOne(ToReal(a), q, ToReal(r.value));
    }
    if r.Signal? { return Signal(r.fault); }
    res := Ok(Rounded(q, r.value));
  }

  lemma DenominatorLucky(n: Rational, d: Rational)
    requires n.d == 1 && d.n > 1
    ensures !Unlucky(n, d)
  {}

  lemma WholeNumber(mode: Mode, a: Rational)
    requires Whole(a)
    ensures Balanced(ToReal(a), 1.0, a.n, ToReal(FromInt(0)))
    ensures Promised(mode, ToReal(a), 1.0, a.n, ToReal(FromInt(0)))
  {}

  /** The quotient serves the ratio as it serves numerator and denominator. */
  lemma QuotientOfRatio(mode: Mode, a: Rational, q: int, r: Rational)
    requires a.d > 0 && r.d > 0
    requires Balanced(ToReal(FromInt(a.n)), ToReal(FromInt(a.d)), q, ToReal(r))
    ensures Promised(mode, ToReal(a), 1.0, q, ToReal(a) - q as real) <==>
      Promised(mode, ToReal(FromInt(a.n)), ToReal(FromInt(a.d)), q, ToReal(r))
  {
    WholeReal(a.n);
    WholeReal(a.d);
    RealTimesDen(a);
    hide ToReal, Promised;
    OneArgument(mode, a.n as real, ToReal(a), a.d as real, q, ToReal(r), ToReal(a) - q as real);
  }

  /** Dividing number, divisor and remainder by the denominator neither keeps nor breaks the promise. */
  lemma OneArgument(mode: Mode, n: real, x: real, d: real, q: int, r: real, r': real)
    requires d > 0.0 && n == x * d && Balanced(n, d, q, r) && r' == x - q as real
    ensures Promised(mode, x, 1.0, q, r') <==> Promised(mode, n, d, q, r)
  {
    OneArgumentRing(n, x, d, q as real, r, r');
    DoubledRing(r, r', d);
    SignScale(r, r', d);
    SignScale(n, x, d);
    SignScale(r + r, r' + r', d);
    hide AbsR;
    ScaledOrder(AbsR(r'), AbsR(r), d);
    ScaledOrder(AbsR(r' + r'), AbsR(r + r), d);
    AbsOf(d);
    AbsOf(1.0);
  }

  lemma AbsOf(d: real)
    requires d > 0.0
    ensures AbsR(d) == d
  {}

  lemma OneArgumentRing(n: real, x: real, d: real, q: real, r: real, r': real)
    requires n == x * d && n == q * d + r && r' == x - q
    ensures r == r' * d
  {}

  lemma DoubledRing(r: real, r': real, d: real)
    requires r == r' * d
    ensures r + r == (r' + r') * d
  {}

  lemma ScaledOrder(u: real, v: real, d: real)
    requires d > 0.0 && v == u * d
    ensures (u < 1.0 <==> v < d) && (u == 1.0 <==> v == d)
  {
    if u < 1.0 { assert (1.0 - u) * d > 0.0; }
    if u > 1.0 { assert (u - 1.0) * d > 0.0; }
  }

  lemma RemainderOfRatio(a: Rational, q: int)
    requires a.d > 0 && !Whole(a)
    ensures var r, num := Minus(a, FromInt(q)), a.n - q * a.d;
      && r == Normalized(num, a.d)
      && (r.Ok? ==> (Balanced(ToReal(a), 1.0, q, ToReal(r.value)) <==> Divides(Euclid(KeptAbs(num), a.d), num)))
      && (!LongNegative(num) ==> r.Ok? && ToReal(r.value) == ToReal(a) - q as real)
  {
    var num := a.n - q * a.d;
    assert a.n * 1 - q * a.d == num && a.d * 1 == a.d;
    ReductionExact(num, a.d);
    CrossValue(a, FromInt(q));
    WholeReal(q);
    hide ToReal, Normalized, Divides, LongNegative, Fraction, KeepsValue;
    if Normalized(num, a.d).Ok? {
      ExactExactly(Normalized(num, a.d).value, num, a.d, ToReal(a) - q as real);
      BalancedOne(ToReal(a), q, ToReal(Normalized(num, a.d).value));
    }
  }

  lemma BalancedOne(x: real, q: int, r: real)
    ensures Balanced(x, 1.0, q, r) <==> r == x - q as real
  {}

  /** A fraction has the value of another exactly when the cross products agree. */
  lemma ExactExactly(x: Rational, num: int, den: int, v: real)
    requires x.d > 0 && Fraction(num, den, v)
    ensures ToReal(x) == v <==> KeepsValue(x, num, den)
  {
    if KeepsValue(x, num, den) { KeptReal(x, num, den, v); }
    if ToReal(x) == v {
      RealFraction(x);
      ProductCast(x.n, den);
      ProductCast(num, x.d);
      ValueRing(v, x.d as real, den as real);
    }
  }

  lemma ValueRing(v: real, d: real, e: real)
    ensures (v * d) * e == (v * e) * d
  {}

  /** With a denominator of fewer limbs nothing is too long. */
  lemma ShortRatio(mode: Mode, a: Rational, q: int)
    requires a.d > 0 && LimbCount(2 * a.d) < BASE
    requires Promised(mode, ToReal(a), 1.0, q, ToReal(a) - q as real) <==> !(mode.Round? && Misjudged(a.n, a.d))
    ensures Promised(mode, ToReal(a), 1.0, q, ToReal(a) - q as real) && !LongNegative(a.n - q * a.d)
  {
    NotMisjudged(a.n, a.d);
    RealFraction(a);
    hide ToReal, Fraction, Promised, Misjudged, LongNegative, LimbCount;
    PromiseSize(mode, ToReal(a), q, ToReal(a) - q as real);
    RemainderSize(a.n, a.d, q, ToReal(a));
    ShortWithin(a.n - q * a.d, 2 * a.d);
  }

  lemma NotMisjudged(n: int, d: int)
    requires d > 0 && LimbCount(2 * d) < BASE
    ensures !Misjudged(n, d)
  {
    QuotRem(n, d);
    hide Quot, Rem, LimbCount;
    ShortWithin(2 * Rem(n, d), 2 * d);
    if Misjudged(n, d) { MisjudgedIsLong(n, d); }
  }

  lemma PromiseSize(mode: Mode, x: real, q: int, r: real)
    requires Promised(mode, x, 1.0, q, r)
    ensures AbsR(r) <= 1.0
  {}

  lemma RemainderSize(n: int, d: int, q: int, x: real)
    requires Fraction(n, d, x) && AbsR(x - q as real) <= 1.0
    ensures Abs(n - q * d) <= d
  {
    ProductCast(q, d);
    SizeRing(x, q as real, d as real);
    ScaleBound(x - q as real, d as real);
  }

  lemma SizeRing(x: real, q: real, d: real)
    ensures x * d - q * d == (x - q) * d
  {}

  lemma ScaleBound(s: real, d: real)
    requires d > 0.0 && AbsR(s) <= 1.0
    ensures -d <= s * d <= d
  {
    assert d - s * d == (1.0 - s) * d && d + s * d == (1.0 + s) * d;
    NonNegative(1.0 - s, d);
    NonNegative(1.0 + s, d);
  }

  lemma NonNegative(u: real, v: real)
    requires u >= 0.0 && v >= 0.0
    ensures u * v >= 0.0
  {}
}
