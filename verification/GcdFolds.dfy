/** GCD and LCM of any number of integers (src/core/builtins_arith.c). */
module GcdFolds {
  import opened Digits
  import opened Integers
  import opened Arithmetic
  import opened NumberTheory

  /** The greatest common divisor of a list, in the order of divisibility. */
  ghost predicate IsGcdOf(g: int, args: seq<int>) {
    && g >= 0
    && (forall i :: 0 <= i < |args| ==> Divides(g, args[i]))
    && (forall d: int :: (forall i :: 0 <= i < |args| ==> Divides(d, args[i])) ==> Divides(d, g))
  }

  /** The least common multiple of a list, in the order of divisibility. */
  ghost predicate IsLcmOf(l: int, args: seq<int>) {
    && l >= 0
    && (forall i :: 0 <= i < |args| ==> Divides(args[i], l))
    && (forall m: int :: (forall i :: 0 <= i < |args| ==> Divides(args[i], m)) ==> Divides(l, m))
  }

  ghost function Values(args: seq<Integer>): (v: seq<int>)
    ensures |v| == |args|
  {
    seq(|args|, i requires 0 <= i < |args| => ToInt(args[i]))
  }

  /** The magnitudes that ABS hands on. */
  ghost function KeptValues(args: seq<Integer>): (v: seq<int>)
    ensures |v| == |args|
  {
    seq(|args|, i requires 0 <= i < |args| => KeptAbs(ToInt(args[i])))
  }

  /** No argument is miscopied by ABS. */
  ghost predicate AllShort(args: seq<Integer>) {
    forall i :: 0 <= i < |args| ==> !LongNegative(ToInt(args[i]))
  }

  /** Then the magnitudes have the divisors and the multiples of the arguments. */
  lemma KeptDivisibility(args: seq<Integer>, g: int)
    requires AllShort(args)
    ensures IsGcdOf(g, KeptValues(args)) ==> IsGcdOf(g, Values(args))
    ensures IsLcmOf(g, KeptValues(args)) ==> IsLcmOf(g, Values(args))
  {
    var kept, values := KeptValues(args), Values(args);
    forall i, d: int | 0 <= i < |args|
      ensures (Divides(d, values[i]) <==> Divides(d, kept[i])) && (Divides(values[i], d) <==> Divides(kept[i], d))
    {
      SameDivisibility(ToInt(args[i]), d);
    }
  }

  lemma SameDivisibility(x: int, d: int)
    requires !LongNegative(x)
    ensures (Divides(d, x) <==> Divides(d, KeptAbs(x))) && (Divides(x, d) <==> Divides(KeptAbs(x), d))
  {
    KeptAbsExact(x);
    hide Divides, Kept, LimbCount;
    DividesAbs(d, x);
    AbsDivides(x);
    if Divides(x, d) { DividesTransitive(Abs(x), x, d); }
    if Divides(Abs(x), d) { DividesTransitive(x, Abs(x), d); }
  }

  lemma DividesTransitive(a: int, b: int, c: int)
    requires Divides(a, b) && Divides(b, c)
    ensures Divides(a, c)
  {
    var k: int :| b == k * a;
    var l: int :| c == l * b;
    MulAssoc(l, k, a);
    DividesIntro(a, l * k, c);
  }

  /** Folding in one more argument. */
  lemma GcdOfMore(g: int, args: seq<int>, x: int, g': int)
    requires IsGcdOf(g, args) && IsGcd(g', g, x)
    ensures IsGcdOf(g', args + [x])
  {
    hide Divides;
    var all := args + [x];
    forall i | 0 <= i < |all| ensures Divides(g', all[i]) {
      if i < |args| { DividesTransitive(g', g, args[i]); }
    }
    forall d: int | forall i :: 0 <= i < |all| ==> Divides(d, all[i]) ensures Divides(d, g') {
      assert forall i :: 0 <= i < |args| ==> all[i] == args[i];
      assert Divides(d, all[|args|]);
    }
  }

  lemma GcdOfOne(x: nat)
    ensures IsGcdOf(x, [x])
  {
    GcdZero(x);
    assert forall d: int :: (forall i :: 0 <= i < |[x]| ==> Divides(d, [x][i])) ==> Divides(d, [x][0]);
  }

  lemma GcdOfNone()
    ensures IsGcdOf(0, [])
  {
    forall d: int ensures Divides(d, 0) { DividesIntro(d, 0, 0); }
  }

  /** bi_gcd, unless ABS leaves a leading limb 0. */
  method GcdFold(args: seq<Integer>) returns (g: Integer)
    requires forall i :: 0 <= i < |args| ==> Canonical(args[i]) && !LosesTop(ToInt(args[i]))
    ensures IsGcdOf(ToInt(g), KeptValues(args))
    ensures AllShort(args) ==> Canonical(g) && IsGcdOf(ToInt(g), Values(args))
  {
    hide IsGcdOf, IsGcd, Kept, LimbCount;
    GcdOfNone();
    if |args| == 0 {
      assert Values(args) == KeptValues(args) == [];
      return Fixnum(0);
    }
    g := AbsoluteValue(args[0]);
    GcdOfOne(KeptAbs(ToInt(args[0])));
    assert KeptValues(args)[..1] == [KeptAbs(ToInt(args[0]))];
    for i := 1 to |args|
      invariant Proper(g) && ToInt(g) >= 0 && IsGcdOf(ToInt(g), KeptValues(args)[..i])
      invariant AllShort(args) ==> Canonical(g)
    {
      ghost var before := ToInt(g);
      g := Gcd(g, args[i]);
      GcdOfMore(before, KeptValues(args)[..i], KeptAbs(ToInt(args[i])), ToInt(g));
      assert KeptValues(args)[..i + 1] == KeptValues(args)[..i] + [KeptAbs(ToInt(args[i]))];
    }
    assert KeptValues(args)[..|args|] == KeptValues(args);
    if AllShort(args) { KeptDivisibility(args, ToInt(g)); }
  }

  // ---- least common multiples ----

  /** The gcd is an integer combination of its arguments. */
  lemma {:induction false} Bezout(a: nat, b: nat) returns (g: int, s: int, t: int)
    ensures IsGcd(g, a, b) && g == s * a + t * b
    decreases b
  {
    if b == 0 {
      GcdZero(a);
      g, s, t := a, 1, 0;
    } else {
      var q, r := a / b, a % b;
      var g', s', t' := Bezout(b, r);
      assert a == q * b + r;
      GcdStep(g', a, b, q, r);
      BezoutRing(a, b, q, r, s', t');
      g, s, t := g', t', s' - t' * q;
    }
  }

  lemma BezoutRing(a: int, b: int, q: int, r: int, s: int, t: int)
    requires a == q * b + r
    ensures s * b + t * r == t * a + (s - t * q) * b
  {
    assert t * a == t * (q * b) + t * r;
    assert t * (q * b) == (t * q) * b;
  }

  /** (a / g) b is the least common multiple of a and b. */
  lemma LcmOfTwo(a: int, b: int, g: int, k: int, m: int)
    requires a > 0 && b > 0 && IsGcd(g, a, b) && a == k * g
    ensures Divides(a, k * b) && Divides(b, k * b) && k * b >= 0
    ensures Divides(a, m) && Divides(b, m) ==> Divides(k * b, m)
  {
    var g', s, t := Bezout(a, b);
    GcdUnique(g, g', a, b);
    var j: int :| b == j * g;
    LcmRing(a, b, g, k, j);
    DividesIntro(a, j, k * b);
    DividesIntro(b, k, k * b);
    LcmPositive(a, b, g, k);
    if Divides(a, m) && Divides(b, m) {
      var x: int :| m == x * a;
      var y: int :| m == y * b;
      hide IsGcd;
      MultipleRing(a, b, g, k, s, t, x, y, m);
      MulCancelEqual(m, (s * y + t * x) * (k * b), g);
      DividesIntro(k * b, s * y + t * x, m);
    }
  }

  lemma LcmRing(a: int, b: int, g: int, k: int, j: int)
    requires a == k * g && b == j * g
    ensures k * b == j * a
  {
    assert k * (j * g) == j * (k * g);
  }

  lemma LcmPositive(a: int, b: int, g: int, k: int)
    requires a > 0 && b > 0 && a == k * g && g >= 0
    ensures g > 0 && k * b >= 0
  {
    if k < 0 { MulMonotone(k, 0, g); }
    MulMonotone(0, k, b);
  }

  lemma MultipleRing(a: int, b: int, g: int, k: int, s: int, t: int, x: int, y: int, m: int)
    requires a == k * g && g == s * a + t * b && m == x * a && m == y * b
    ensures m * g == ((s * y + t * x) * (k * b)) * g
  {
    var p := a * b;
    assert m * (s * a) == s * (y * p) by { assert (y * b) * (s * a) == s * (y * (a * b)); }
    assert m * (t * b) == t * (x * p) by { assert (x * a) * (t * b) == t * (x * (a * b)); }
    MulDistribute(m, s * a, t * b);
    assert m * g == (s * y + t * x) * p by { assert s * (y * p) + t * (x * p) == (s * y + t * x) * p; }
    assert p == (k * b) * g;
    MulAssoc(s * y + t * x, k * b, g);
  }

  lemma LcmOfMore(l: int, args: seq<int>, x: int, l': int)
    requires IsLcmOf(l, args) && l' >= 0 && Divides(l, l') && Divides(x, l')
    requires forall m: int :: Divides(l, m) && Divides(x, m) ==> Divides(l', m)
    ensures IsLcmOf(l', args + [x])
  {
    hide Divides;
    var all := args + [x];
    forall i | 0 <= i < |all| ensures Divides(all[i], l') {
      if i < |args| { DividesTransitive(args[i], l, l'); }
    }
    forall m: int | forall i :: 0 <= i < |all| ==> Divides(all[i], m) ensures Divides(l', m) {
      assert forall i :: 0 <= i < |args| ==> all[i] == args[i];
      assert Divides(all[|args|], m);
    }
  }

  lemma LcmOfOne(x: nat)
    ensures IsLcmOf(x, [x])
  {
    DividesIntro(x, 1, x);
    assert forall m: int :: (forall i :: 0 <= i < |[x]| ==> Divides([x][i], m)) ==> Divides([x][0], m);
  }

  lemma AbsDivides(x: int)
    ensures Divides(x, Abs(x)) && Divides(Abs(x), x)
  {
    DividesIntro(x, if x < 0 then -1 else 1, Abs(x));
    DividesIntro(Abs(x), if x < 0 then -1 else 1, x);
  }

  lemma LcmOfNone()
    ensures IsLcmOf(1, [])
  {
    forall m: int ensures Divides(1, m) { DividesIntro(1, m, m); }
  }

  /** A zero among the arguments makes 0 the only common multiple. */
  lemma LcmWithZero(args: seq<int>, i: nat)
    requires i < |args| && args[i] == 0
    ensures IsLcmOf(0, args)
  {
    forall j | 0 <= j < |args| ensures Divides(args[j], 0) { DividesIntro(args[j], 0, 0); }
    forall m: int | forall j :: 0 <= j < |args| ==> Divides(args[j], m) ensures Divides(0, m) {
      assert Divides(args[i], m);
    }
  }

  /** 0 is a least common multiple only when some argument is 0. */
  lemma ZeroStays(args: seq<int>, rest: seq<int>)
    requires IsLcmOf(0, args)
    ensures IsLcmOf(0, args + rest)
  {
    hide Divides;
    var all := args + rest;
    forall j | 0 <= j < |all| ensures Divides(all[j], 0) { DividesIntro(all[j], 0, 0); }
    forall m: int | forall j :: 0 <= j < |all| ==> Divides(all[j], m) ensures Divides(0, m) {
      assert forall i :: 0 <= i < |args| ==> all[i] == args[i];
    }
  }

  /** One step of the loop, on magnitudes that are not zero. */
  method LcmStep(host: Host, a: Integer, b: Integer) returns (l: Integer)
    requires Proper(a) && Proper(b) && ToInt(a) > 0 && ToInt(b) > 0
    ensures Proper(l) && ToInt(l) >= 0 && Divides(ToInt(a), ToInt(l)) && Divides(ToInt(b), ToInt(l))
    ensures forall m: int :: Divides(ToInt(a), m) && Divides(ToInt(b), m) ==> Divides(ToInt(l), m)
    ensures Canonical(a) && Canonical(b) ==> Canonical(l)
  {
    var g := Gcd(a, b);
    ghost var k := ExactQuotient(ToInt(a), ToInt(b), ToInt(g));
    hide IsGcd, Divides, Kept, LimbCount;
    var q := Truncate(a, g);
    l := Mul(host, q.value, b);
    LcmOfTwo(ToInt(a), ToInt(b), ToInt(g), k, 0);
    forall m: int | Divides(ToInt(a), m) && Divides(ToInt(b), m) ensures Divides(ToInt(l), m) {
      LcmOfTwo(ToInt(a), ToInt(b), ToInt(g), k, m);
    }
  }

  lemma ExactQuotient(a: int, b: int, g: int) returns (k: int)
    requires a > 0 && b > 0 && IsGcd(g, a, b)
    ensures a == k * g && g > 0 && TruncateResult(a, g) == k
  {
    k :| a == k * g;
    LcmPositive(a, b, g, k);
    hide IsGcd;
    if k < 0 { MulMonotone(k, 0, g); }
    DivModUnique(a, g, k, 0);
  }

  /** bi_lcm: magnitudes, with 0 as soon as one of them is 0. */
  method LcmFold(host: Host, args: seq<Integer>) returns (l: Integer)
    requires forall i :: 0 <= i < |args| ==> Canonical(args[i]) && !LosesTop(ToInt(args[i]))
    ensures IsLcmOf(ToInt(l), KeptValues(args))
    ensures AllShort(args) ==> Canonical(l) && IsLcmOf(ToInt(l), Values(args))
  {
    hide IsLcmOf, IsGcdOf, Divides, Kept, LimbCount;
    LcmOfNone();
    if |args| == 0 {
      assert Values(args) == KeptValues(args) == [];
      return Fixnum(1);
    }
    ghost var kept := KeptValues(args);
    l := AbsoluteValue(args[0]);
    LcmOfOne(kept[0]);
    assert kept[..1] == [kept[0]];
    for i := 1 to |args|
      invariant Proper(l) && ToInt(l) >= 0 && IsLcmOf(ToInt(l), kept[..i])
      invariant AllShort(args) ==> Canonical(l)
    {
      var b := AbsoluteValue(args[i]);
      PredicateMeaning(l);
      PredicateMeaning(b);
      if Zerop(l) || Zerop(b) {
        if Zerop(l) {
          ZeroStays(kept[..i], kept[i..]);
          assert kept[..i] + kept[i..] == kept;
        } else {
          LcmWithZero(kept, i);
        }
        if AllShort(args) { KeptDivisibility(args, 0); }
        return Fixnum(0);
      }
      ghost var before := ToInt(l);
      l := LcmStep(host, l, b);
      LcmOfMore(before, kept[..i], kept[i], ToInt(l));
      assert kept[..i + 1] == kept[..i] + [kept[i]];
    }
    assert kept[..|args|] == kept;
    if AllShort(args) { KeptDivisibility(args, ToInt(l)); }
  }
}
