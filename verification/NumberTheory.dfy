/** GCD, EXPT and ISQRT (src/core/bignum.c). */
module NumberTheory {
  import opened Digits
  import opened Magnitude
  import opened Division
  import opened Integers
  import opened Arithmetic
  import opened Bits
  import opened BitOps
  import opened BitCounts
  import opened Shift

  // ---- greatest common divisors ----

  ghost predicate Divides(d: int, n: int) { exists k: int :: n == k * d }

  /** `g` is the greatest common divisor of `a` and `b`: a common divisor that every other common
      divisor divides; it is 0 only for two zeros. */
  ghost predicate IsGcd(g: int, a: int, b: int) {
    g >= 0 && Divides(g, a) && Divides(g, b) && forall d: int :: Divides(d, a) && Divides(d, b) ==> Divides(d, g)
  }

  lemma DividesIntro(d: int, k: int, n: int)
    requires n == k * d
    ensures Divides(d, n)
  {}

  lemma DividesCombination(d: int, x: int, y: int, q: int)
    requires Divides(d, x) && Divides(d, y)
    ensures Divides(d, q * x + y)
  {
    var k: int :| x == k * d;
    var l: int :| y == l * d;
    MulDistribute(d, q * k, l);
    DividesIntro(d, q * k + l, q * x + y);
  }

  /** Euclid's step: replacing the larger argument by the remainder keeps the divisors. */
  lemma GcdStep(g: int, a: int, b: int, q: int, r: int)
    requires a == q * b + r
    ensures IsGcd(g, b, r) ==> IsGcd(g, a, b)
  {
    if IsGcd(g, b, r) {
      DividesCombination(g, b, r, q);
      forall d: int | Divides(d, a) && Divides(d, b) ensures Divides(d, g) {
        DividesCombination(d, b, a, 0 - q);
        assert (0 - q) * b + a == r;
      }
    }
  }

  lemma GcdZero(a: int)
    requires a >= 0
    ensures IsGcd(a, a, 0) && IsGcd(a, 0, a)
  {
    DividesIntro(a, 1, a);
    DividesIntro(a, 0, 0);
  }

  lemma GcdAbs(g: int, a: int, b: int)
    requires IsGcd(g, Abs(a), Abs(b))
    ensures IsGcd(g, a, b)
  {
    DividesAbs(g, a);
    DividesAbs(g, b);
    forall d: int | Divides(d, a) && Divides(d, b) ensures Divides(d, g) {
      DividesAbs(d, a);
      DividesAbs(d, b);
    }
  }

  lemma DividesAbs(d: int, n: int)
    ensures Divides(d, n) <==> Divides(d, Abs(n))
  {
    if Divides(d, n) {
      var k: int :| n == k * d;
      assert 0 - n == (0 - k) * d;
      DividesIntro(d, if n < 0 then 0 - k else k, Abs(n));
    }
    if Divides(d, Abs(n)) {
      var k: int :| Abs(n) == k * d;
      assert 0 - Abs(n) == (0 - k) * d;
      DividesIntro(d, if n < 0 then 0 - k else k, n);
    }
  }

  /** The greatest common divisor is unique. */
  lemma GcdUnique(g: int, h: int, a: int, b: int)
    requires IsGcd(g, a, b) && IsGcd(h, a, b)
    ensures g == h
  {
    DividesBound(g, h);
    DividesBound(h, g);
  }

  lemma DividesBound(d: int, n: int)
    requires Divides(d, n) && d >= 0 && n >= 0
    ensures n == 0 || d <= n
    ensures d == 0 ==> n == 0
  {
    var k: int :| n == k * d;
    if n > 0 && d > n {
      MulCancelLess(0, k, d);
      MulMonotone(1, k, d);
    }
  }

  /** Euclid's algorithm on magnitudes. */
  function Euclid(a: nat, b: nat): nat
    decreases b
  {
    if b == 0 then a else Euclid(b, a % b)
  }

  lemma {:induction false} EuclidIsGcd(a: nat, b: nat)
    ensures IsGcd(Euclid(a, b), a, b)
    decreases b
  {
    if b == 0 {
      GcdZero(a);
    } else {
      hide IsGcd;
      EuclidIsGcd(b, a % b);
      GcdStep(Euclid(a, b), a, b, a / b, a % b);
    }
  }

  /** The first division of Euclid's loop is by limbs with a leading 0, which ABS has left over. */
  predicate GcdStuck(x: int, y: int) {
    x != 0 && y != 0 && LosesTop(if Order(AbsLimbs(x), AbsLimbs(y)) < 0 then x else y)
  }

  /** The greatest common divisor of the magnitudes that ABS hands on. */
  method Gcd(a0: Integer, b0: Integer) returns (g: Integer)
    requires Proper(a0) && Proper(b0) && !GcdStuck(ToInt(a0), ToInt(b0))
    ensures ToInt(g) == Euclid(KeptAbs(ToInt(a0)), KeptAbs(ToInt(b0)))
    ensures IsGcd(ToInt(g), KeptAbs(ToInt(a0)), KeptAbs(ToInt(b0)))
    ensures !LosesTop(ToInt(a0)) && !LosesTop(ToInt(b0)) ==> Proper(g) && !LongNegative(ToInt(g))
    ensures !LongNegative(ToInt(a0)) && !LongNegative(ToInt(b0)) ==> IsGcd(ToInt(g), ToInt(a0), ToInt(b0))
    ensures Canonical(a0) && Canonical(b0) && !LongNegative(ToInt(a0)) && !LongNegative(ToInt(b0)) ==> Canonical(g)
  {
    hide IsGcd, Divides, Kept, LimbCount;
    var a := AbsoluteValue(a0);
    var b := AbsoluteValue(b0);
    g := GcdLoop(a, b);
    EuclidIsGcd(ToInt(a), ToInt(b));
    GcdUnique(ToInt(g), Euclid(ToInt(a), ToInt(b)), ToInt(a), ToInt(b));
    if !LongNegative(ToInt(a0)) && !LongNegative(ToInt(b0)) {
      KeptAbsExact(ToInt(a0));
      KeptAbsExact(ToInt(b0));
      GcdAbs(ToInt(g), ToInt(a0), ToInt(b0));
    }
  }

  /** What Euclid's loop may be given: a number to divide by next that has no leading zero limb. */
  ghost predicate Divisible(a: Integer, b: Integer) {
    if LimbOrder(LimbsOf(a), LimbsOf(b)) < 0 then Proper(a) else Proper(b)
  }

  method GcdLoop(a0: Integer, b0: Integer) returns (g: Integer)
    requires !Negative(a0) && !Negative(b0)
    requires (a0.Fixnum? ==> FitsFixnum(a0.v)) && (b0.Fixnum? ==> FitsFixnum(b0.v))
    requires Zerop(a0) || Zerop(b0) || Divisible(a0, b0)
    ensures IsGcd(ToInt(g), ToInt(a0), ToInt(b0))
    ensures Proper(a0) && Proper(b0) ==> Proper(g)
    ensures Canonical(a0) && Canonical(b0) ==> Canonical(g)
  {
    var a, b := a0, b0;
    GcdZero(ToInt(a));
    GcdZero(ToInt(b));
    if Zerop(a) { return b; }
    if Zerop(b) { return a; }
    hide IsGcd, Divides, LimbsOf, Mag, Canonical;
    while !Zerop(b)
      invariant !Negative(a) && !Negative(b)
      invariant (a.Fixnum? ==> FitsFixnum(a.v)) && (b.Fixnum? ==> FitsFixnum(b.v)) && Divisible(a, b)
      invariant forall d: int :: IsGcd(d, ToInt(a), ToInt(b)) ==> IsGcd(d, ToInt(a0), ToInt(b0))
      invariant Proper(a0) && Proper(b0) ==> Proper(a) && Proper(b)
      invariant Canonical(a0) && Canonical(b0) ==> Canonical(a) && Canonical(b)
      decreases EuclidRank(a, b).0, EuclidRank(a, b).1
    {
      var temp := EuclidRemainder(a, b);
      EuclidStep(a, b, temp, ToInt(a0), ToInt(b0));
      a, b := b, temp;
    }
    GcdZero(ToInt(a));
    GcdSign(a);
    g := a;
  }

  lemma GcdSign(a: Integer)
    requires !Negative(a)
    ensures ToInt(a) >= 0
  {}

  /** `temp` is what Euclid's loop goes on with: the dividend when its limbs are fewer or smaller, else
      the remainder. */
  ghost predicate Reduces(a: Integer, b: Integer, temp: Integer) {
    if LimbOrder(LimbsOf(a), LimbsOf(b)) < 0 then temp == a
    else ToInt(b) > 0 && Canonical(temp) && !Negative(temp) && ToInt(temp) == ToInt(a) % ToInt(b)
  }

  method EuclidRemainder(a: Integer, b: Integer) returns (temp: Integer)
    requires !Negative(a) && !Negative(b) && !Zerop(b) && Divisible(a, b)
    requires (a.Fixnum? ==> FitsFixnum(a.v)) && (b.Fixnum? ==> FitsFixnum(b.v))
    ensures Reduces(a, b, temp)
  {
    var order := CompareMag(LimbsOf(a), LimbsOf(b));
    if a.Fixnum? && b.Fixnum? {
      LimbsOfValue(a);
      LimbsOfValue(b);
      LongerIsLarger(LimbsOf(b), LimbsOf(a));
      SmallQuotient(a.v, b.v);
      MakeFixnumFits(Rem(a.v, b.v));
      temp := MakeFixnum(Rem(a.v, b.v));
    } else if order < 0 {
      temp := a;
    } else {
      LimbsOfValue(b);
      if a.Fixnum? { LimbsOfValue(a); }
      temp := Remainder(a, b);
      GcdSign(a);
    }
  }

  /** Two proper numbers shrink; a number with leading zeros is first divided, or swapped once. */
  ghost function EuclidRank(a: Integer, b: Integer): (r: (nat, nat))
    requires !Negative(b)
  {
    GcdSign(b);
    if Proper(a) && Proper(b) then (0, ToInt(b))
    else (1, if LimbOrder(LimbsOf(a), LimbsOf(b)) < 0 then 1 else 0)
  }

  lemma EuclidStep(a: Integer, b: Integer, temp: Integer, x0: int, y0: int)
    requires !Negative(a) && !Negative(b) && !Zerop(b) && Divisible(a, b) && Reduces(a, b, temp)
    requires forall d: int :: IsGcd(d, ToInt(a), ToInt(b)) ==> IsGcd(d, x0, y0)
    ensures !Negative(temp) && Divisible(b, temp)
    ensures var r, r' := EuclidRank(a, b), EuclidRank(b, temp); r'.0 < r.0 || (r'.0 == r.0 && r'.1 < r.1)
    ensures forall d: int :: IsGcd(d, ToInt(b), ToInt(temp)) ==> IsGcd(d, x0, y0)
    ensures (Proper(a) && Proper(b) ==> Proper(temp)) && (Canonical(a) && Canonical(b) ==> Canonical(temp))
  {
    hide IsGcd, LimbsOf, Mag;
    if Proper(a) && Proper(b) {
      LimbsOfValue(a);
      LimbsOfValue(b);
      LongerIsLarger(LimbsOf(b), LimbsOf(a));
    }
    forall d: int | IsGcd(d, ToInt(b), ToInt(temp)) ensures IsGcd(d, x0, y0) {
      if LimbOrder(LimbsOf(a), LimbsOf(b)) < 0 {
        GcdSwap(d, ToInt(b), ToInt(a));
      } else {
        GcdStep(d, ToInt(a), ToInt(b), ToInt(a) / ToInt(b), ToInt(temp));
      }
      assert IsGcd(d, ToInt(a), ToInt(b));
    }
  }

  lemma GcdSwap(g: int, a: int, b: int)
    requires IsGcd(g, a, b)
    ensures IsGcd(g, b, a)
  {}

  /** A failing input: with k a multiple of 65536, ABS keeps 3 of 3 + 65536^k, so GCD with 3 gives 3. */
  lemma GcdMissed(k: nat)
    requires k > 0 && k % BASE == 0
    ensures var x := -(Pow(BASE, k) + 3);
      LongNegative(x) && !GcdStuck(x, 3) && Euclid(KeptAbs(x), KeptAbs(3)) == 3 && !IsGcd(3, x, 3)
  {
    PowZero(BASE);
    PowModThree(k);
    LeadingOne(k, 3);
    hide Pow, Kept;
    var x := -(Pow(BASE, k) + 3);
    assert AbsLimbs(x) == Limbs(1, 3) == AbsLimbs(3);
    if Divides(3, x) { DividesExactly(3, x); }
    EuclidOfEqual(3);
  }

  lemma EuclidOfEqual(n: nat)
    requires n > 0
    ensures Euclid(n, n) == n
  {
    assert n % n == 0;
  }

  lemma DividesExactly(d: int, n: int)
    requires Divides(d, n) && d > 0
    ensures n % d == 0
  {
    var k: int :| n == k * d;
    DivModUnique(n, d, k, 0);
  }

  lemma {:induction false} PowModThree(k: nat)
    ensures Pow(BASE, k) % 3 == 1
  {
    if k > 0 {
      PowModThree(k - 1);
      var q := Pow(BASE, k - 1) / 3;
      assert Pow(BASE, k) == 3 * (BASE * q + 21845) + 1;
    }
  }
  // ---- powers ----

  /** base^exp for a negative exponent, rounded to an integer towards zero. */
  function NegativePower(base: int, exp: int): int {
    if base == 1 then 1 else if base == -1 then (if exp % 2 == 0 then 1 else -1) else 0
  }

  lemma SquareStep(base: int, exp: nat)
    ensures exp % 2 == 0 ==> Pow(base, exp) == Pow(base * base, exp / 2)
    ensures exp % 2 == 1 ==> Pow(base, exp) == base * Pow(base * base, exp / 2)
  {
    PowMul(base, 2, exp / 2);
    assert Pow(base, 2) == base * (base * Pow(base, 0));
    if exp % 2 == 1 { PowStep(base, exp - 1); }
  }

  method Expt(host: Host, base0: Integer, exp0: Integer) returns (r: Integer)
    requires Canonical(base0) && Canonical(exp0)
    ensures Canonical(r)
    ensures ToInt(exp0) >= 0 ==> ToInt(r) == Pow(ToInt(base0), ToInt(exp0))
    ensures ToInt(exp0) < 0 ==> ToInt(r) == NegativePower(ToInt(base0), ToInt(exp0))
  {
    PredicateMeaning(exp0);
    if Minusp(exp0) {
      var c := Compare(base0, Fixnum(1));
      if c == 0 { return Fixnum(1); }
      c := Compare(base0, Fixnum(-1));
      if c == 0 { return if Evenp(exp0) then Fixnum(1) else Fixnum(-1); }
      return Fixnum(0);
    }
    if Zerop(exp0) { return Fixnum(1); }
    r := Fixnum(1);
    var base, exp := base0, exp0;
    hide Pow;
    while !Zerop(exp)
      invariant Canonical(r) && Canonical(base) && Canonical(exp) && ToInt(exp) >= 0
      invariant Zerop(exp) <==> ToInt(exp) == 0
      invariant ToInt(r) * Pow(ToInt(base), ToInt(exp)) == Pow(ToInt(base0), ToInt(exp0))
      decreases ToInt(exp)
    {
      PredicateMeaning(exp);
      SquareStep(ToInt(base), ToInt(exp));
      ghost var r', b, e := ToInt(r), ToInt(base), ToInt(exp);
      if !Evenp(exp) {
        r := Mul(host, r, base);
        MulAssoc(r', b, Pow(b * b, e / 2));
      }
      base := Mul(host, base, base);
      Halving(e);
      var half := Truncate(exp, Fixnum(2));
      exp := half.value;
      PredicateMeaning(exp);
    }
    PowZero(ToInt(base));
  }

  lemma Halving(e: int)
    ensures e >= 0 ==> TruncateResult(e, 2) == e / 2
  {}

  // ---- integer square roots ----

  /** The Newton step from `x`, as the code computes it with truncating divisions. */
  function Newton(n: nat, x: int): int
    requires x > 0
  {
    (x + n / x) / 2
  }

  /** The step never falls below the root. */
  lemma NewtonAbove(n: nat, x: int, r: int)
    requires x > 0 && r >= 0 && r * r <= n
    ensures Newton(n, x) >= r
  {
    var q, rest := n / x, n % x;
    assert n == q * x + rest;
    if x + q < 2 * r {
      MulDistribute(x, q, 1);
      NewtonRing(x, q, r);
      assert false;
    }
  }

  /** With x + q <= 2r - 1, the product (q + 1) x is at most r squared, so n would be below it. */
  lemma NewtonRing(x: int, q: int, r: int)
    requires x + q <= 2 * r - 1 && x > 0
    ensures (q + 1) * x <= r * r
  {
    var d := r - x;
    assert q + 1 <= r + d;
    MulMonotone(q + 1, r + d, x);
    assert (r + d) * (r - d) == r * r - d * d;
    MulSquare(d);
  }

  lemma MulSquare(d: int)
    ensures d * d >= 0
  {}

  /** Not yet at the root, the step decreases. */
  lemma NewtonDecreases(n: nat, x: int)
    requires x > 0 && x * x > n
    ensures Newton(n, x) < x
  {
    var q, rest := n / x, n % x;
    assert n == q * x + rest;
    MulCancelLess(q, x, x);
  }

  /** The starting point is above the root: 2^ceil(len/2) squared exceeds n. */
  lemma StartAbove(n: nat)
    ensures var s := Pow(2, (BitLen(n) + 1) / 2); s > 0 && s * s > n
  {
    hide Pow, BitLen;
    var k := (BitLen(n) + 1) / 2;
    BitLenBounds(n);
    PowPositive(2, k);
    PowAdd(2, k, k);
    PowMonotone(2, BitLen(n), 2 * k);
  }

  /** There is a root, and only one. */
  ghost predicate IsRoot(n: int, r: int) { r >= 0 && r * r <= n < (r + 1) * (r + 1) }

  lemma RootUnique(n: int, r: int, s: int)
    requires IsRoot(n, r) && IsRoot(n, s)
    ensures r == s
  {
    if r < s { RootLess(n, r, s); }
    if s < r { RootLess(n, s, r); }
  }

  lemma RootLess(n: int, r: int, s: int)
    requires 0 <= r < s && s * s <= n
    ensures !(n < (r + 1) * (r + 1))
  {
    MulMonotone(r + 1, s, r + 1);
    MulMonotone(r + 1, s, s);
  }

  lemma {:induction false} RootExists(n: nat, bound: nat) returns (r: nat)
    requires n < (bound + 1) * (bound + 1)
    ensures IsRoot(n, r)
  {
    r := bound;
    while r * r > n
      invariant n < (r + 1) * (r + 1)
    {
      r := r - 1;
    }
  }

  lemma SquareBound(n: nat)
    ensures n < (n + 1) * (n + 1)
  {
    MulMonotone(1, n + 1, n + 1);
  }

  /** ISQRT: Newton's iteration from above, at most 1000 steps, then a correction that needs nothing
      but a start that is not below the root. The limit on the length is the C code's `int`. */
  method Isqrt(host: Host, n: Integer) returns (r: Outcome<Integer>)
    requires Canonical(n) && IntLength(ToInt(n)) < 0x7FFF_FFFE
    ensures ToInt(n) < 0 ==> r == Signal(TypeError)
    ensures ToInt(n) >= 0 ==> r.Ok? && Canonical(r.value) && IsRoot(ToInt(n), ToInt(r.value))
  {
    PredicateMeaning(n);
    if Minusp(n) { return Signal(TypeError); }
    if Zerop(n) { return Ok(Fixnum(0)); }
    var bits := IntegerLength(n);
    StartAbove(ToInt(n));
    SquareBound(ToInt(n));
    ghost var root := RootExists(ToInt(n), ToInt(n));
    hide Pow, BitLen;
    ShiftedOne((bits + 1) / 2);
    RootBelow(ToInt(n), root, Pow(2, (bits + 1) / 2));
    var start := Ash(Fixnum(1), Fixnum((bits + 1) / 2));
    var x := NewtonLoop(n, start.value, root);
    x := CorrectDown(host, n, x, root);
    r := Ok(x);
  }

  lemma ShiftedOne(k: nat)
    ensures Shifted(1, k) == Pow(2, k)
  {}

  lemma RootBelow(n: int, root: int, s: int)
    requires IsRoot(n, root) && n > 0 && s > 0 && s * s > n
    ensures 0 < root < s
  {
    if s <= root {
      MulMonotone(s, root, s);
      MulMonotone(s, root, root);
    }
  }

  method NewtonLoop(n: Integer, start: Integer, ghost root: int) returns (x: Integer)
    requires Canonical(n) && Canonical(start) && ToInt(start) >= root > 0 && IsRoot(ToInt(n), root)
    ensures Canonical(x) && root <= ToInt(x) <= ToInt(start)
  {
    x := start;
    var iters := 0;
    while iters < 1000
      invariant Canonical(x) && root <= ToInt(x) <= ToInt(start)
    {
      iters := iters + 1;
      var q := Truncate(n, x);
      var sum := Add(x, q.value);
      var half := Truncate(sum, Fixnum(2));
      NewtonAbove(ToInt(n), ToInt(x), root);
      var c := Compare(half.value, x);
      if c >= 0 { break; }
      x := half.value;
    }
  }

  method CorrectDown(host: Host, n: Integer, x0: Integer, ghost root: int) returns (x: Integer)
    requires Canonical(n) && Canonical(x0) && ToInt(x0) >= root > 0 && IsRoot(ToInt(n), root)
    ensures Canonical(x) && ToInt(x) == root
  {
    x := x0;
    while true
      invariant Canonical(x) && ToInt(x) >= root
      decreases ToInt(x)
    {
      var square := Mul(host, x, x);
      var c := Compare(square, n);
      if c <= 0 { break; }
      if ToInt(x) == root { assert false; }
      x := Sub(x, Fixnum(1));
    }
    if root < ToInt(x) { RootLess(ToInt(n), root, ToInt(x)); }
  }
}
