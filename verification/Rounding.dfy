/** FLOOR, CEILING, TRUNCATE and ROUND on rationals (src/core/builtins_arith.c). */
module Rounding {
  import opened Digits
  import opened Magnitude
  import opened Integers
  import opened Arithmetic
  import opened Ratios

  datatype Mode = Floor | Ceiling | Truncated | Round

  // ---- what the modes promise ----

  /** The remainder's side and size, by mode (section 12.2 of the Common Lisp HyperSpec); `x` is the
      number, `y` the divisor, `q` the quotient and `r` the remainder. */
  ghost predicate Promised(mode: Mode, x: real, y: real, q: int, r: real) {
    match mode
    case Floor => AbsR(r) < AbsR(y) && (r == 0.0 || (r < 0.0) == (y < 0.0))
    case Ceiling => AbsR(r) < AbsR(y) && (r == 0.0 || (r < 0.0) != (y < 0.0))
    case Truncated => AbsR(r) < AbsR(y) && (r == 0.0 || (r < 0.0) == (x < 0.0))
    case Round => AbsR(r + r) <= AbsR(y) && (AbsR(r + r) == AbsR(y) ==> q % 2 == 0)
  }

  /** The number is quotient times divisor plus remainder. */
  ghost predicate Balanced(x: real, y: real, q: int, r: real) { x == q as real * y + r }

  /** The promise fixes quotient and remainder. */
  lemma PromiseUnique(mode: Mode, x: real, y: real, q: int, r: real, q': int, r': real)
    requires y != 0.0 && Balanced(x, y, q, r) && Balanced(x, y, q', r')
    requires Promised(mode, x, y, q, r) && Promised(mode, x, y, q', r')
    ensures q == q' && r == r'
  {
    if q > q' { OnlyOne(mode, x, y, q, r, q', r'); }
    if q' > q { OnlyOne(mode, x, y, q', r', q, r); }
  }

  /** A larger quotient leaves a remainder smaller by as many divisors; one of the two breaks the
      promise. */
  lemma OnlyOne(mode: Mode, x: real, y: real, q: int, r: real, q': int, r': real)
    requires y != 0.0 && q > q' && Balanced(x, y, q, r) && Balanced(x, y, q', r')
    ensures !(Promised(mode, x, y, q, r) && Promised(mode, x, y, q', r'))
  {
    var k := q - q';
    ApartRing(q as real, q' as real, y);
    assert r' == r + k as real * y;
    if k >= 2 {
      FarApart(mode, x, y, q, r, q', r', k as real);
    } else {
      OneTimes(k as real, y);
    }
  }

  lemma OneTimes(k: real, y: real)
    requires k == 1.0
    ensures k * y == y
  {}

  lemma ApartRing(q: real, q': real, y: real)
    ensures q * y - q' * y == (q - q') * y
  {}

  lemma FarApart(mode: Mode, x: real, y: real, q: int, r: real, q': int, r': real, k: real)
    requires y != 0.0 && k >= 2.0 && r' == r + k * y
    ensures !(Promised(mode, x, y, q, r) && Promised(mode, x, y, q', r'))
  {
    TwiceAtLeast(k, y);
    FarApartLinear(mode, x, y, q, r, q', r', k * y);
  }

  lemma FarApartLinear(mode: Mode, x: real, y: real, q: int, r: real, q': int, r': real, z: real)
    requires y != 0.0 && r' == r + z
    requires (y > 0.0 ==> z >= y + y) && (y < 0.0 ==> z <= y + y)
    ensures !(Promised(mode, x, y, q, r) && Promised(mode, x, y, q', r'))
  {}

  lemma TwiceAtLeast(k: real, y: real)
    requires k >= 2.0
    ensures y > 0.0 ==> k * y >= y + y
    ensures y < 0.0 ==> k * y <= y + y
  {
    assert k * y == (k - 2.0) * y + (y + y);
    if y > 0.0 { assert (k - 2.0) * y >= 0.0; }
    if y < 0.0 { assert (k - 2.0) * y <= 0.0; }
  }

  // ---- truncation ----

  /** The integers the quotient is computed from: both sides over the common denominator. */
  function IntA(a: Rational, b: Rational): int { a.n * b.d }
  function IntB(a: Rational, b: Rational): int { a.d * b.n }

  /** The pair of fixnums TRUNCATE gets wrong. */
  predicate Unlucky(a: Rational, b: Rational) { IntA(a, b) == FIXNUM_MIN && IntB(a, b) == -1 }

  /** After truncation the remainder is smaller than the divisor and on the number's side. */
  lemma TruncatedPromise(a: Rational, b: Rational, q: int, r: real)
    requires a.d > 0 && b.d > 0 && IntB(a, b) != 0
    requires q == Quot(IntA(a, b), IntB(a, b)) && r == ToReal(a) - Multiple(q, ToReal(b))
    ensures Promised(Truncated, ToReal(a), ToReal(b), q, r)
  {
    hide ToReal, Quot, Rem, Promised, Multiple, Fraction;
    Common(a, b);
    QuotRem(IntA(a, b), IntB(a, b));
    TruncatedInts(IntA(a, b), IntB(a, b), q, Rem(IntA(a, b), IntB(a, b)), a.d * b.d, ToReal(a), ToReal(b), r);
  }

  lemma TruncatedInts(A: int, B: int, q: int, rem: int, D: int, x: real, y: real, r: real)
    requires A == q * B + rem && Abs(rem) < Abs(B) && (rem == 0 || (rem < 0) == (A < 0))
    requires Fraction(A, D, x) && Fraction(B, D, y) && r == x - Multiple(q, y)
    ensures Promised(Truncated, x, y, q, r)
  {
    IdentityReal(A, q, B, rem);
    Rescale(x, y, q as real, D as real, A as real, B as real, rem as real, r);
  }

  lemma IdentityReal(A: int, q: int, B: int, rem: int)
    requires A == q * B + rem && Abs(rem) < Abs(B)
    ensures A as real == q as real * B as real + rem as real && AbsR(rem as real) < AbsR(B as real)
  {}

  /** Both sides over the common denominator. */
  lemma Common(a: Rational, b: Rational)
    requires a.d > 0 && b.d > 0
    ensures Fraction(IntA(a, b), a.d * b.d, ToReal(a)) && Fraction(IntB(a, b), a.d * b.d, ToReal(b))
    ensures ToReal(a) < 0.0 <==> a.n < 0
    ensures ToReal(b) < 0.0 <==> b.n < 0
    ensures ToReal(b) == 0.0 <==> b.n == 0
  {
    RealTimesDen(a);
    RealTimesDen(b);
    hide ToReal, Fraction;
    CommonInts(a.n, a.d, b.n, b.d, ToReal(a), ToReal(b));
  }

  lemma CommonInts(n: int, d: int, m: int, e: int, x: real, y: real)
    requires d > 0 && e > 0 && n as real == x * d as real && m as real == y * e as real
    ensures Fraction(n * e, d * e, x) && Fraction(d * m, d * e, y)
  {
    MulPositive(d, e);
    ProductCast(n, e);
    ProductCast(d, m);
    ProductCast(d, e);
    DenominatorRing(x, y, d as real, e as real);
  }

  lemma DenominatorRing(x: real, y: real, d: real, e: real)
    ensures (x * d) * e == x * (d * e) && d * (y * e) == y * (d * e)
  {}

  lemma NonzeroProduct(x: int, y: int)
    requires x != 0 && y != 0
    ensures x * y != 0
  {}

  lemma ProductOfZero(x: int, y: int)
    ensures y == 0 ==> x * y == 0
  {}

  lemma Rescale(x: real, y: real, q: real, D: real, A: real, B: real, rem: real, r: real)
    requires D > 0.0 && A == x * D && B == y * D && A == q * B + rem && r == x - q * y
    requires AbsR(rem) < AbsR(B) && (rem == 0.0 || (rem < 0.0) == (A < 0.0))
    ensures AbsR(r) < AbsR(y) && (r == 0.0 || (r < 0.0) == (x < 0.0))
  {
    RescaleRing(x, y, q, D, A, B, r);
    RescaleSigns(x, y, r, D, A, B, rem);
  }

  lemma RescaleRing(x: real, y: real, q: real, D: real, A: real, B: real, r: real)
    requires A == x * D && B == y * D && r == x - q * y
    ensures A - q * B == r * D
  {}

  lemma RescaleSigns(x: real, y: real, r: real, D: real, A: real, B: real, rem: real)
    requires D > 0.0 && A == x * D && B == y * D && rem == r * D
    requires AbsR(rem) < AbsR(B) && (rem == 0.0 || (rem < 0.0) == (A < 0.0))
    ensures AbsR(r) < AbsR(y) && (r == 0.0 || (r < 0.0) == (x < 0.0))
  {
    SignScale(A, x, D);
    SignScale(B, y, D);
    SignScale(rem, r, D);
    hide AbsR;
    AbsScale(AbsR(r), AbsR(y), AbsR(rem), AbsR(B), D);
  }

  lemma SignScale(v: real, x: real, d: real)
    requires d > 0.0 && v == x * d
    ensures (v < 0.0 <==> x < 0.0) && (v == 0.0 <==> x == 0.0)
    ensures AbsR(v) == AbsR(x) * d
  {}

  lemma AbsScale(r: real, y: real, rem: real, B: real, d: real)
    requires d > 0.0 && rem == r * d && B == y * d && rem < B
    ensures r < y
  {}

  // ---- one quotient too few or too many ----

  /** ROUND's rule, from the order of twice the remainder and the divisor. */
  predicate Further(cmp: int, q: int) { cmp > 0 || (cmp == 0 && q % 2 != 0) }

  /** The adjustment by one, as decided on the first quotient and remainder; `cmp` is what the
      comparison of ROUND said. */
  ghost predicate Adjusted(mode: Mode, x: real, y: real, q0: int, r0: real, cmp: int, q: int, r: real) {
    var up, down := q == q0 + 1 && r == r0 - y, q == q0 - 1 && r == r0 + y;
    var none := q == q0 && r == r0;
    if mode.Truncated? || r0 == 0.0 then none
    else match mode
      case Floor => if (r0 < 0.0) != (y < 0.0) then down else none
      case Ceiling => if (r0 < 0.0) == (y < 0.0) then up else none
      case Truncated => none
      case Round => if Further(cmp, q0) then (if (x < 0.0) == (y < 0.0) then up else down) else none
  }

  /** ROUND goes on to the next quotient exactly when it should. */
  ghost predicate Judged(y: real, q0: int, r0: real, cmp: int) {
    r0 != 0.0 ==> (Further(cmp, q0) <==> Further(CompareReals(AbsR(r0 + r0), AbsR(y)), q0))
  }

  /** From a truncated quotient the adjustment leads to the mode's promise, for ROUND exactly when the
      comparison was right; from a remainder of 2^31 divisors it never does. */
  lemma AdjustmentKeeps(mode: Mode, x: real, y: real, q0: int, r0: real, cmp: int, q: int, r: real)
    requires y != 0.0 && Adjusted(mode, x, y, q0, r0, cmp, q, r)
    ensures Promised(Truncated, x, y, q0, r0) ==>
      (Promised(mode, x, y, q, r) <==> (mode.Round? ==> Judged(y, q0, r0, cmp)))
    ensures r0 == 2147483648.0 * y ==> !Promised(mode, x, y, q, r)
  {}

  lemma AdjustedByOne(mode: Mode, x: real, y: real, q0: int, r0: real, cmp: int, q: int, r: real)
    requires Adjusted(mode, x, y, q0, r0, cmp, q, r)
    ensures (q == q0 && r == r0) || (q == q0 + 1 && r == r0 - y) || (q == q0 - 1 && r == r0 + y)
  {}

  lemma StepIdentity(x: real, y: real, q0: int, q: int, r0: real, r: real)
    requires Balanced(x, y, q0, r0)
    requires (q == q0 && r == r0) || (q == q0 + 1 && r == r0 - y) || (q == q0 - 1 && r == r0 + y)
    ensures Balanced(x, y, q, r)
  {
    ApartRing(q as real, q0 as real, y);
    if q == q0 + 1 { assert 1.0 * y == y; }
    if q == q0 - 1 { assert (-1.0) * y == -y; }
  }

  lemma RoundingCorrect(mode: Mode, a: Rational, b: Rational, q0: int, r0: real, cmp: int, q: int, r: real)
    requires a.d > 0 && b.d > 0 && IntB(a, b) != 0 && q0 == TruncateResult(IntA(a, b), IntB(a, b))
    requires r0 == ToReal(a) - Multiple(q0, ToReal(b)) && Adjusted(mode, ToReal(a), ToReal(b), q0, r0, cmp, q, r)
    ensures Balanced(ToReal(a), ToReal(b), q, r)
    ensures Promised(mode, ToReal(a), ToReal(b), q, r) <==>
      !Unlucky(a, b) && (mode.Round? ==> Judged(ToReal(b), q0, r0, cmp))
  {
    FirstRemainder(a, b, q0, r0);
    hide ToReal, IntA, IntB, Unlucky, TruncateResult, Promised, Balanced, Adjusted, Judged;
    AdjustmentKeeps(mode, ToReal(a), ToReal(b), q0, r0, cmp, q, r);
    AdjustedByOne(mode, ToReal(a), ToReal(b), q0, r0, cmp, q, r);
    StepIdentity(ToReal(a), ToReal(b), q0, q, r0, r);
  }

  /** The truncated quotient's remainder, before any adjustment. */
  lemma FirstRemainder(a: Rational, b: Rational, q: int, r: real)
    requires a.d > 0 && b.d > 0 && IntB(a, b) != 0 && q == TruncateResult(IntA(a, b), IntB(a, b))
    requires r == ToReal(a) - Multiple(q, ToReal(b))
    ensures ToReal(b) != 0.0 && Balanced(ToReal(a), ToReal(b), q, r)
    ensures !Unlucky(a, b) ==> Promised(Truncated, ToReal(a), ToReal(b), q, r)
    ensures Unlucky(a, b) ==> r == 2147483648.0 * ToReal(b)
  {
    ProductOfZero(a.d, b.n);
    hide ToReal, Quot, Promised, Fraction;
    Common(a, b);
    if Unlucky(a, b) { UnluckyRemainder(a, b); } else { TruncatedPromise(a, b, q, r); }
  }

  /** Off by 2^31 divisors, which no adjustment by one makes good. */
  lemma UnluckyRemainder(a: Rational, b: Rational)
    requires a.d > 0 && b.d > 0 && b.n != 0 && Unlucky(a, b)
    ensures ToReal(a) - FIXNUM_MIN as real * ToReal(b) == 2147483648.0 * ToReal(b)
    ensures ToReal(b) < 0.0
  {
    Common(a, b);
    hide ToReal;
    UnluckyScale(ToReal(a), ToReal(b), (a.d * b.d) as real);
  }

  lemma UnluckyScale(x: real, y: real, D: real)
    requires D > 0.0 && x * D == -1073741824.0 && y * D == -1.0
    ensures x == 1073741824.0 * y && y < 0.0
  {
    SignScale(-1.0, y, D);
    var r := x - 1073741824.0 * y;
    RescaleRing(x, y, 1073741824.0, D, -1073741824.0, -1.0, r);
    SignScale(0.0, r, D);
  }
  // ---- the builtins ----

  datatype Rounded = Rounded(q: int, r: Rational)

  /** Twice the remainder against the divisor. */
  function Compared(r: Rational, b: Rational): Outcome<int>
    requires r.d > 0 && b.d > 0
  {
    var two := Plus(r, r);
    if two.Signal? then Signal(two.fault) else CompareAbs(two.value, b)
  }

  /** The adjustment of do_rounding. */
  method Adjust(mode: Mode, a: Rational, b: Rational, q: int, r: Rational) returns (res: Outcome<Rounded>)
    requires a.d > 0 && b.d > 0 && r.d > 0
    ensures res.Ok? ==> res.value.r.d > 0
    ensures Whole(r) && Whole(b) && res.Ok? ==> Whole(res.value.r)
    ensures Compared(r, b).Ok? && Copied(r, b, r.n * b.d + b.n * r.d) && Copied(r, b, r.n * b.d - b.n * r.d) ==>
      res.Ok? &&
      Adjusted(mode, ToReal(a), ToReal(b), q, ToReal(r), Compared(r, b).value, res.value.q, ToReal(res.value.r))
  {
    RealTimesDen(a);
    RealTimesDen(b);
    RealTimesDen(r);
    if Copied(r, b, r.n * b.d + b.n * r.d) { PlusExact(r, b); }
    if Copied(r, b, r.n * b.d - b.n * r.d) { MinusExact(r, b); }
    hide ToReal, Normalized, CompareAbs, LongNegative, IsResult, Copied;
    if mode == Truncated || r.n == 0 { return Ok(Rounded(q, r)); }
    var step := 0;
    match mode {
      case Floor =>
        if (r.n < 0) != (b.n < 0) { step := -1; }
      case Ceiling =>
        if (r.n < 0) == (b.n < 0) { step := 1; }
      case Round =>
        var cmp := Compared(r, b);
        if cmp.Signal? { return Signal(cmp.fault); }
        if Further(cmp.value, q) { step := if (a.n < 0) == (b.n < 0) then 1 else -1; }
    }
    if step == 0 { return Ok(Rounded(q, r)); }
    var rest := if step == 1 then Minus(r, b) else Plus(r, b);
    if rest.Signal? { return Signal(rest.fault); }
    res := Ok(Rounded(q + step, rest.value));
  }

  /** ROUND of integers is misled by the limbs ABS keeps of twice the remainder and of the divisor. */
  predicate Misjudged(a: int, b: int)
    requires b != 0
  {
    var q, r2 := Quot(a, b), 2 * Rem(a, b);
    && r2 != 0
    && Further(Order(AbsLimbs(r2), AbsLimbs(b)), q) != Further(Sign(Abs(r2) - Abs(b)), q)
  }

  /** That takes a negative number of 65536 limbs or more. */
  lemma MisjudgedIsLong(a: int, b: int)
    requires b != 0 && Misjudged(a, b)
    ensures LongNegative(2 * Rem(a, b)) || LongNegative(b)
  {
    hide Rem, Quot, LongNegative, KeptAbs, KeptCount;
    if !LongNegative(2 * Rem(a, b)) && !LongNegative(b) { OrderExact(2 * Rem(a, b), b); }
  }

  /** And it happens: 1 over -65536^k, of which ABS keeps the limb 0, is rounded to -1. */
  lemma RoundMisjudges(k: nat)
    requires k > 0 && k % BASE == 0
    ensures var m := Pow(BASE, k);
      && m > 2 && Misjudged(1, -m) && !Unlucky(FromInt(1), FromInt(-m))
      && !Promised(Round, 1.0, (-m) as real, -1, (1 - m) as real)
  {
    LeadingOne(k, 0);
    PowAdd(BASE, 1, k - 1);
    PowPositive(BASE, k - 1);
    PowZero(BASE);
    PowStep(BASE, 0);
    hide Pow, KeptAbs, KeptCount, LongNegative, Quot, Rem;
    MulMonotone(1, Pow(BASE, k - 1), BASE);
    SmallQuotient(1, -Pow(BASE, k));
    SmallLimbs(2);
  }

  lemma SmallLimbs(x: nat)
    requires x < BASE
    ensures AbsLimbs(x) == Limbs(1, x)
  {}

  /** Room for every numerator on the way. */
  function Room(a: Rational, b: Rational): nat
    requires a.d > 0 && b.d > 0
  {
    MulPositive(a.d, b.d);
    var sum := Abs(IntA(a, b)) + Abs(IntB(a, b));
    MulMonotone(0, sum, a.d * b.d);
    4 * (sum * (a.d * b.d))
  }

  predicate Roomy(a: Rational, b: Rational)
    requires a.d > 0 && b.d > 0
  {
    LimbCount(Room(a, b)) < BASE
  }

  lemma ShortWithin(x: int, m: nat)
    requires Abs(x) <= m && LimbCount(m) < BASE
    ensures !LongNegative(x)
  {
    LimbCountMonotone(Abs(x), m);
  }

  lemma AbsProduct(x: int, y: int)
    ensures Abs(x * y) == Abs(x) * Abs(y)
  {
    if x < 0 { assert (-x) * y == -(x * y); }
    if y < 0 { assert x * (-y) == -(x * y) && (-x) * (-y) == x * y; }
  }

  /** The numerators of the product and of the remainder, for any quotient that is not far off. */
  lemma RemainderRoom(a: Rational, b: Rational, q: int, p: Rational)
    requires a.d > 0 && b.d > 0 && Roomy(a, b) && IsResult(p, q * b.n, b.d)
    requires Abs(q * IntB(a, b)) <= Abs(IntA(a, b)) + Abs(IntB(a, b))
    ensures !LongNegative(a.n * p.d - p.n * a.d)
    ensures Abs(a.n * p.d - p.n * a.d) <= 2 * (Abs(IntA(a, b)) + Abs(IntB(a, b)))
  {
    RoomAbove(a, b);
    hide Room, LongNegative, LimbCount, Abs;
    ProductBound(q, b.n, a.d, Abs(IntA(a, b)) + Abs(IntB(a, b)));
    RemainderBound(a.n, b.d, a.d, p.n, p.d, Abs(q * b.n), Abs(IntA(a, b)) + Abs(IntB(a, b)));
    ShortWithin(a.n * p.d - p.n * a.d, Room(a, b));
  }

  lemma ProductRoom(a: Rational, b: Rational, q: int)
    requires a.d > 0 && b.d > 0 && Roomy(a, b)
    requires Abs(q * IntB(a, b)) <= Abs(IntA(a, b)) + Abs(IntB(a, b))
    ensures !LongNegative(q * b.n)
  {
    RoomAbove(a, b);
    hide Room, LongNegative, LimbCount, Abs;
    ProductBound(q, b.n, a.d, Abs(IntA(a, b)) + Abs(IntB(a, b)));
    ShortWithin(q * b.n, Room(a, b));
  }

  lemma ProductBound(q: int, n: int, d: int, s: nat)
    requires d > 0 && Abs(q * (d * n)) <= s
    ensures Abs(q * n) <= s && Abs(q * n) * d <= s
  {
    var m := q * n;
    MulAssoc(q, n, d);
    AbsProduct(m, d);
    MulMonotone(1, d, Abs(m));
  }

  lemma RemainderBound(n: int, e: int, d: int, pn: int, pd: int, t: nat, s: nat)
    requires 0 < pd <= e && d > 0 && Abs(pn) <= t && t * d <= s && Abs(n * e) <= s
    ensures Abs(n * pd - pn * d) <= 2 * s
  {
    AbsProduct(n, pd);
    AbsProduct(n, e);
    AbsProduct(pn, d);
    MulMonotone(pd, e, Abs(n));
    MulMonotone(Abs(pn), t, d);
  }

  lemma RoomAbove(a: Rational, b: Rational)
    requires a.d > 0 && b.d > 0
    ensures 4 * (Abs(IntA(a, b)) + Abs(IntB(a, b))) <= Room(a, b)
  {
    MulPositive(a.d, b.d);
    MulMonotone(1, a.d * b.d, Abs(IntA(a, b)) + Abs(IntB(a, b)));
  }

  /** The numerators of the adjustment and of its comparison. */
  lemma AdjustmentRoom(a: Rational, b: Rational, r: Rational)
    requires a.d > 0 && b.d > 0 && Roomy(a, b) && 0 < r.d <= a.d * b.d
    requires Abs(r.n) <= 2 * (Abs(IntA(a, b)) + Abs(IntB(a, b)))
    ensures !LongNegative(r.n * b.d + b.n * r.d) && !LongNegative(r.n * b.d - b.n * r.d)
    ensures Compared(r, b).Ok? && Compared(r, b).value == CompareReals(AbsR(ToReal(r) + ToReal(r)), AbsR(ToReal(b)))
  {
    var sum := Abs(IntA(a, b)) + Abs(IntB(a, b));
    var room := Room(a, b);
    RoomAbove(a, b);
    SumRoom(a, b, r);
    ShortWithin(r.n * b.d + b.n * r.d, room);
    ShortWithin(r.n * b.d - b.n * r.d, room);
    DoubleRoom(a, b, r);
    ShortWithin(r.n * r.d + r.n * r.d, room);
    AbsProduct(a.d, b.n);
    MulMonotone(1, a.d, Abs(b.n));
    ShortWithin(b.n, room);
    hide LongNegative, Room;
    PlusExact(r, r);
    ShortWithin(Plus(r, r).value.n, room);
    CompareAbsExact(Plus(r, r).value, b);
  }

  lemma SumRoom(a: Rational, b: Rational, r: Rational)
    requires a.d > 0 && b.d > 0 && 0 < r.d <= a.d * b.d
    requires Abs(r.n) <= 2 * (Abs(IntA(a, b)) + Abs(IntB(a, b)))
    ensures Abs(r.n * b.d + b.n * r.d) <= Room(a, b) && Abs(r.n * b.d - b.n * r.d) <= Room(a, b)
  {
    SumBound(r.n, b.d, b.n, r.d, a.d, Abs(IntA(a, b)) + Abs(IntB(a, b)));
  }

  lemma SumBound(rn: int, e: int, n: int, rd: int, d: int, s: nat)
    requires d > 0 && e > 0 && 0 < rd <= d * e && Abs(rn) <= 2 * s && Abs(d * n) <= s
    ensures Abs(rn * e) + Abs(n * rd) <= 4 * (s * (d * e))
  {
    AbsProduct(rn, e);
    AbsProduct(n, rd);
    AbsProduct(d, n);
    MulMonotone(Abs(rn), 2 * s, e);
    MulMonotone(rd, d * e, Abs(n));
    MulMonotone(d * Abs(n), s, e);
    MulMonotone(1, d, e);
    MulMonotone(e, d * e, s);
    SumRing(Abs(n), d, e, s);
  }

  lemma SumRing(n: int, d: int, e: int, sum: int)
    ensures n * (d * e) == (d * n) * e && (2 * sum) * e == 2 * (sum * e) && sum * e == e * sum
    ensures d * e == e * d
  {}

  lemma DoubleRoom(a: Rational, b: Rational, r: Rational)
    requires a.d > 0 && b.d > 0 && 0 < r.d <= a.d * b.d
    requires Abs(r.n) <= 2 * (Abs(IntA(a, b)) + Abs(IntB(a, b)))
    ensures Abs(r.n * r.d + r.n * r.d) <= Room(a, b)
  {
    var sum := Abs(IntA(a, b)) + Abs(IntB(a, b));
    AbsProduct(r.n, r.d);
    MulMonotone(Abs(r.n), 2 * sum, r.d);
    MulMonotone(r.d, a.d * b.d, sum);
    SumRing(0, 0, r.d, sum);
    SumRing(0, 0, a.d * b.d, sum);
  }

  /** A truncated quotient times the divisor does not exceed the number. */
  lemma QuotientTimes(a: int, b: int)
    requires b != 0
    ensures Abs(TruncateResult(a, b) * b) <= Abs(a) && Abs(Quot(a, b) * b) <= Abs(a)
  {
    QuotRem(a, b);
    var q := QuotientSize(a, b);
    hide Quot, Rem;
    AbsProduct(Quot(a, b), b);
    MulMonotone(0, q, Abs(b));
    SameSide(a, Quot(a, b) * b, Rem(a, b), b, q);
  }

  lemma SameSide(a: int, qb: int, r: int, b: int, q: nat)
    requires a == qb + r && (r == 0 || (r < 0) == (a < 0)) && Abs(r) < Abs(b) && Abs(qb) == q * Abs(b)
    ensures Abs(qb) <= Abs(a)
  {
    if q == 0 {
      assert q * Abs(b) == 0;
    } else {
      MulMonotone(1, q, Abs(b));
    }
  }

  /** do_rounding with two rational arguments. For integers, and for ratios that leave room, the number
      is quotient times divisor plus remainder; the mode's promise then is kept off the unlucky pair,
      for ROUND of integers exactly when the comparison is not misled. */
  method DoRounding(mode: Mode, a: Rational, b: Rational) returns (res: Outcome<Rounded>)
    requires a.d > 0 && b.d > 0
    ensures b.n == 0 ==> res == Signal(DivisionByZero)
    ensures res.Ok? ==> res.value.r.d > 0 && (Whole(a) && Whole(b) ==> Whole(res.value.r))
    ensures b.n != 0 && ((Whole(a) && Whole(b)) || Roomy(a, b)) ==>
      res.Ok? && Balanced(ToReal(a), ToReal(b), res.value.q, ToReal(res.value.r))
    ensures b.n != 0 && Whole(a) && Whole(b) ==>
      (Promised(mode, ToReal(a), ToReal(b), res.value.q, ToReal(res.value.r)) <==>
        !Unlucky(a, b) && !(mode.Round? && Misjudged(a.n, b.n)))
    ensures b.n != 0 && Roomy(a, b) ==>
      (Promised(mode, ToReal(a), ToReal(b), res.value.q, ToReal(res.value.r)) <==> !Unlucky(a, b))
  {
    ZeroDivisor(a, b);
    hide ToReal, Unlucky, TruncateResult, Minus, Times, Promised, Adjusted, Balanced, Compared, Roomy, Misjudged;
    if IntB(a, b) == 0 { return Signal(DivisionByZero); }
    var q0 := TruncateResult(IntA(a, b), IntB(a, b));
    QuotientTimes(IntA(a, b), IntB(a, b));
    var p := Times(FromInt(q0), b);
    if (Whole(a) && Whole(b)) || Roomy(a, b) { ghost var _, _ := FirstSteps(a, b, q0); }
    if p.Signal? { return Signal(p.fault); }
    var r0 := Minus(a, p.value);
    if r0.Signal? { return Signal(r0.fault); }
    res := Adjust(mode, a, b, q0, r0.value);
    if (Whole(a) && Whole(b)) || Roomy(a, b) {
      RoundingCorrect(mode, a, b, q0, ToReal(r0.value), Compared(r0.value, b).value, res.value.q, ToReal(res.value.r));
      if Whole(a) && Whole(b) && !Unlucky(a, b) { JudgedWhole(a, b, q0, r0.value); }
    }
  }

  lemma ZeroDivisor(a: Rational, b: Rational)
    requires a.d > 0
    ensures IntB(a, b) == 0 <==> b.n == 0
  {
    if b.n != 0 { NonzeroProduct(a.d, b.n); }
  }

  /** Product and first remainder are exact, and so is what the adjustment may need. */
  lemma FirstSteps(a: Rational, b: Rational, q: int) returns (p: Rational, r: Rational)
    requires a.d > 0 && b.d > 0 && ((Whole(a) && Whole(b)) || Roomy(a, b))
    requires Abs(q * IntB(a, b)) <= Abs(IntA(a, b)) + Abs(IntB(a, b))
    ensures Times(FromInt(q), b) == Ok(p) && Minus(a, p) == Ok(r) && r.d > 0
    ensures ToReal(r) == ToReal(a) - Multiple(q, ToReal(b))
    ensures Copied(r, b, r.n * b.d + b.n * r.d) && Copied(r, b, r.n * b.d - b.n * r.d) && Compared(r, b).Ok?
    ensures Roomy(a, b) ==> Compared(r, b).value == CompareReals(AbsR(ToReal(r) + ToReal(r)), AbsR(ToReal(b)))
    ensures Whole(a) && Whole(b) ==> Whole(r) && r.n == a.n - q * b.n
  {
    hide ToReal, LongNegative, Room, CompareAbs;
    if Roomy(a, b) { ProductRoom(a, b, q); }
    TimesExact(q, b);
    p := Times(FromInt(q), b).value;
    if Roomy(a, b) { RemainderRoom(a, b, q, p); }
    MinusExact(a, p);
    r := Minus(a, p).value;
    if Roomy(a, b) {
      MulMonotone(p.d, b.d, a.d);
      AdjustmentRoom(a, b, r);
    } else {
      WholeCompared(r, b);
    }
  }

  lemma WholeCompared(r: Rational, b: Rational)
    requires Whole(r) && Whole(b)
    ensures Compared(r, b) == Ok(Order(AbsLimbs(2 * r.n), AbsLimbs(b.n)))
  {}

  lemma JudgedWhole(a: Rational, b: Rational, q: int, r: Rational)
    requires Whole(a) && Whole(b) && b.n != 0 && !Unlucky(a, b) && q == TruncateResult(IntA(a, b), IntB(a, b))
    requires Whole(r) && r.n == a.n - q * b.n
    ensures Compared(r, b).Ok?
    ensures Judged(ToReal(b), q, ToReal(r), Compared(r, b).value) <==> !Misjudged(a.n, b.n)
  {
    WholeParts(a, b);
    hide Unlucky, TruncateResult, IntA, IntB;
    WholeQuotient(a.n, b.n, q, r.n);
    WholeCompared(r, b);
    hide Quot, Rem, Compared, KeptAbs, KeptCount;
    WholeReal(r.n);
    WholeReal(b.n);
    hide ToReal;
    DoubledReal(r.n, b.n);
  }

  lemma WholeParts(a: Rational, b: Rational)
    requires Whole(a) && Whole(b)
    ensures IntA(a, b) == a.n && IntB(a, b) == b.n
    ensures Unlucky(a, b) <==> a.n == FIXNUM_MIN && b.n == -1
  {}

  lemma WholeQuotient(a: int, b: int, q: int, r: int)
    requires b != 0 && !(a == FIXNUM_MIN && b == -1) && q == TruncateResult(a, b) && r == a - q * b
    ensures q == Quot(a, b) && r == Rem(a, b)
  {
    QuotRem(a, b);
    hide Quot, Rem;
  }

  lemma WholeReal(i: int)
    ensures ToReal(FromInt(i)) == i as real
  {}

  lemma DoubledReal(r: int, b: int)
    ensures CompareReals(AbsR(r as real + r as real), AbsR(b as real)) == Sign(Abs(2 * r) - Abs(b))
  {}
}
