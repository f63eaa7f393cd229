/** Long division on limb arrays (src/core/bignum.c): division by one limb, and Knuth's
    Algorithm D (The Art of Computer Programming, volume 2, section 4.3.1). */
module Division {
  import opened Digits
  import opened Magnitude
  import opened Multiplication

  // ---- one-limb divisors ----

  /** Bringing down one more limb of the dividend. */
  lemma BringDown(s: seq<Limb>, q: seq<Limb>, i: nat, d: int, rem: int)
    requires 0 < i <= |s| && |q| == |s| - i && d > 0
    requires Value(s[i..], BASE) == d * Value(q, BASE) + rem && 0 <= rem < d
    ensures var cur := rem * BASE + s[i - 1];
            0 <= cur / d < BASE && 0 <= cur % d < d
            && Value(s[i - 1..], BASE) == d * Value([cur / d] + q, BASE) + cur % d
  {
    hide Value;
    var cur := rem * BASE + s[i - 1];
    ValueCons(s[i - 1..], BASE);
    assert s[i - 1..][1..] == s[i..];
    ValueCons([cur / d] + q, BASE);
    assert ([cur / d] + q)[1..] == q;
    QuotientFits(cur, d);
    BringDownRing(Value(s[i..], BASE), d, Value(q, BASE), rem, s[i - 1], cur / d, cur % d);
  }

  lemma QuotientFits(cur: int, d: int)
    requires d > 0 && 0 <= cur < d * BASE
    ensures 0 <= cur / d < BASE && 0 <= cur % d < d
  {
    var q, r := cur / d, cur % d;
    assert cur == q * d + r;
    MulCancelLess(q, BASE, d);
  }

  lemma BringDownRing(vs: int, d: int, vq: int, rem: int, x: int, q: int, r: int)
    requires vs == d * vq + rem && rem * BASE + x == q * d + r
    ensures x + BASE * vs == d * (q + BASE * vq) + r
  {
    MulDistribute(d, q, BASE * vq);
  }

  /** Divides in place when `quot` is `a` itself. */
  method DivSingle(a: array<Limb>, aLen: nat, d: Limb, quot: array<Limb>) returns (rem: Limb)
    requires aLen <= a.Length && aLen <= quot.Length && d > 0
    modifies quot
    ensures Mag(old(a[..aLen])) == d * Mag(quot[..aLen]) + rem && rem < d
    ensures quot[aLen..] == old(quot[aLen..])
  {
    ghost var s, q: seq<Limb> := a[..aLen], [];
    rem := 0;
    var i := aLen;
    assert s[i..] == [];
    hide Value, Pow;
    while i > 0
      invariant 0 <= i <= aLen && rem < d
      invariant a[..i] == s[..i] && q == quot[i..aLen] && quot[aLen..] == old(quot[aLen..])
      invariant Value(s[i..], BASE) == d * Value(q, BASE) + rem
    {
      BringDown(s, q, i, d, rem);
      assert s[i - 1] == a[..i][i - 1];
      var cur: Word32 := rem * BASE + a[i - 1];
      quot[i - 1] := cur / d;
      rem := cur % d;
      q := [cur / d] + q;
      i := i - 1;
    }
    assert s[0..] == s;
  }

  // ---- Algorithm D: estimating one quotient digit ----

  /** A window `w` of n + 1 dividend digits over an n-digit divisor `v`, seen through the digits
      the estimate looks at: `u3` is the value of the top three digits of the window, `v2`
      that of the top two of the divisor, and `p` the weight of what lies below them. */
  ghost predicate Window(w: int, v: int, u3: int, v2: int, p: int) {
    && p > 0 && 0 <= w < BASE * v
    && u3 * p <= w < (u3 + 1) * p
    && v2 * p <= v < (v2 + 1) * p
    && 0 <= u3 && v2 >= 0x8000 * BASE
  }

  /** The quotient of the window and the divisor. */
  lemma WindowQuotient(w: int, v: int, u3: int, v2: int, p: int)
    requires Window(w, v, u3, v2, p)
    ensures v > 0 && 0 <= w / v < BASE && (w / v) * v <= w < (w / v + 1) * v
    ensures (w / v) * v2 <= u3
    ensures u3 < BASE * (v2 + 1)
  {
    MulMonotone(1, v2, p);
    QuotientOf(w, v);
    MulCancelLess(w / v, BASE, v);
    TopQuotient(w / v, v, w, v2, u3, p);
    TopBound(w, v, u3, v2, p);
  }

  lemma TopQuotient(q: int, v: int, w: int, top: int, u3: int, p: int)
    requires q >= 0 && p > 0 && q * v <= w && top * p <= v && w < (u3 + 1) * p
    ensures q * top <= u3
  {
    MulMonotone(top * p, v, q);
    MulAssoc(q, top, p);
    MulCancelLess(q * top, u3 + 1, p);
  }

  lemma TopBound(w: int, v: int, u3: int, v2: int, p: int)
    requires p > 0 && u3 * p <= w < BASE * v && v < (v2 + 1) * p
    ensures u3 < BASE * (v2 + 1)
  {
    MulAssoc(BASE, v2 + 1, p);
    MulCancelLess(u3, BASE * (v2 + 1), p);
  }

  /** What the refinement loop keeps: the pair (qhat, rhat) divides the top two digits, and
      qhat is not below the true digit. */
  ghost predicate Trial(q: int, qhat: int, rhat: int, hi: int, v1: int) {
    0 <= q <= qhat && qhat * v1 + rhat == hi
  }

  lemma FirstTrial(q: int, u0: Limb, u1: Limb, u2: Limb, v1: Limb, v2: Limb)
    requires v1 >= 0x8000 && q >= 0
    requires q * (v1 * BASE + v2) <= (u0 * BASE + u1) * BASE + u2 < BASE * (v1 * BASE + v2 + 1)
    ensures Trial(q, (u0 * BASE + u1) / v1, (u0 * BASE + u1) % v1, u0 * BASE + u1, v1)
    ensures (u0 * BASE + u1) / v1 <= BASE + 1
  {
    var hi: int := u0 * BASE + u1;
    MulDistribute(q, v1 * BASE, v2);
    MulMonotone(0, q, v2);
    assert q * v1 <= hi;
    var k, r := hi / v1, hi % v1;
    assert hi == k * v1 + r;
    if q > k { MulMonotone(k + 1, q, v1); MulDistribute(v1, k, 1); }
    if k >= BASE + 2 { MulMonotone(BASE + 2, k, v1); }
  }

  /** The comparison the loop makes is one of top-three digits against qhat times top-two. */
  lemma TrialCompare(qhat: int, rhat: int, hi: int, u2: int, v1: int, v2: int)
    requires qhat * v1 + rhat == hi
    ensures qhat * (v1 * BASE + v2) - (hi * BASE + u2) == qhat * v2 - (rhat * BASE + u2)
  {
    MulDistribute(qhat, v1 * BASE, v2);
  }

  lemma TooLarge(q: int, qhat: int, top: int, u3: int)
    requires q * top <= u3 < qhat * top && top > 0
    ensures q < qhat
  {
    if q >= qhat { MulMonotone(qhat, q, top); }
  }

  /** Once the comparison fails, qhat is at most one too large. */
  lemma AtMostOneTooLarge(w: int, v: int, u3: int, v2: int, p: int, qhat: int)
    requires Window(w, v, u3, v2, p)
    requires 0 <= qhat < BASE && qhat * v2 <= u3
    ensures qhat <= w / v + 1
  {
    WindowQuotient(w, v, u3, v2, p);
    NearProduct(qhat, v, v2, p, u3, w);
    NearQuotient(qhat, w / v, v, w);
  }

  lemma NearProduct(qhat: int, v: int, v2: int, p: int, u3: int, w: int)
    requires 0 <= qhat < BASE <= v2 && p > 0 && qhat * v2 <= u3
    requires v2 * p <= v < (v2 + 1) * p && u3 * p <= w
    ensures qhat * v <= w + v
  {
    MulMonotone(v, (v2 + 1) * p, qhat);
    NearRing(qhat, v2, p);
    MulMonotone(qhat * v2, u3, p);
    MulMonotone(qhat, v2, p);
  }

  lemma NearRing(q: int, t: int, p: int)
    ensures ((t + 1) * p) * q == (q * t) * p + q * p
  {}

  lemma NearQuotient(qhat: int, q: int, v: int, w: int)
    requires qhat * v <= w + v && w < (q + 1) * v && v > 0
    ensures qhat <= q + 1
  {
    MulDistribute(v, q, 1);
    MulDistribute(v, q, 2);
    MulCancelLess(qhat, q + 2, v);
  }

  lemma TrialDown(q: int, qhat: int, rhat: int, hi: int, v1: int)
    requires Trial(q, qhat, rhat, hi, v1) && q < qhat
    ensures Trial(q, qhat - 1, rhat + v1, hi, v1)
  {
    MulDistribute(v1, qhat, 1);
  }

  /** Leaving the loop because rhat outgrew a limb: the comparison is bound to fail. */
  lemma RemainderOverflow(q: int, qhat: int, rhat: int, hi: int, u2: int, v1: int, v2: int)
    requires Trial(q, qhat, rhat, hi, v1) && hi < BASE * (v1 + 1) && rhat >= BASE
    requires 0 <= u2 && 0 <= v2 < BASE && v1 > 0
    ensures qhat < BASE && qhat * v2 <= rhat * BASE + u2
  {
    if qhat >= BASE { MulMonotone(BASE, qhat, v1); }
    ProductFits(qhat, v2, BASE);
  }

  /** Estimates the quotient digit from three digits of the window and two of the divisor;
      every product fits 32 bits. */
  method EstimateDigit(u0: Limb, u1: Limb, u2: Limb, v1: Limb, v2: Limb, ghost w: int, ghost v: int, ghost p: int)
    returns (qhat: Limb)
    requires v1 >= 0x8000
    requires Window(w, v, (u0 * BASE + u1) * BASE + u2, v1 * BASE + v2, p)
    ensures v > 0 && w / v <= qhat <= w / v + 1
  {
    var hi: Word32 := u0 * BASE + u1;
    ghost var q: int, u3: int, top: int := w / v, hi * BASE + u2, v1 * BASE + v2;
    WindowQuotient(w, v, u3, top, p);
    FirstTrial(q, u0, u1, u2, v1, v2);
    hide Window;
    var trial: Word32, rhat: Word32 := hi / v1, hi % v1;
    while true
      invariant rhat < BASE && trial <= BASE + 1
      invariant Trial(q, trial, rhat, hi, v1)
      decreases trial
    {
      TrialCompare(trial, rhat, hi, u2, v1, v2);
      if trial < BASE {
        ProductFits(trial, v2, BASE);
        var lhs: Word32 := trial * v2;
        var rhs: Word32 := rhat * BASE + u2;
        if lhs <= rhs { break; }
        TooLarge(q, trial, top, u3);
      }
      TrialDown(q, trial, rhat, hi, v1);
      trial := trial - 1;
      rhat := rhat + v1;
      if rhat >= BASE {
        RemainderOverflow(q, trial, rhat, hi, u2, v1, v2);
        TrialCompare(trial, rhat, hi, u2, v1, v2);
        break;
      }
    }
    AtMostOneTooLarge(w, v, u3, top, p, trial);
    qhat := trial;
  }

  // ---- Algorithm D: multiply and subtract, add back ----

  /** After `i` limbs of the subtraction of q times the divisor `v` from the window `w`. */
  ghost predicate Reduced(w: seq<Limb>, v: seq<Limb>, q: int, i: nat, done: seq<Limb>, carry: int, borrow: int) {
    i <= |v| < |w| && |done| == i
    && Value(done, BASE) + borrow * Pow(BASE, i)
       == Value(w[..i], BASE) - q * Value(v[..i], BASE) + carry * Pow(BASE, i)
  }

  lemma ReduceStep(w: seq<Limb>, v: seq<Limb>, q: int, i: nat, done: seq<Limb>, carry: int, borrow: int,
                   digit: Limb, carry': int, borrow': int)
    requires Reduced(w, v, q, i, done, carry, borrow) && i < |v|
    requires digit + borrow' * BASE == w[i] - (q * v[i] + carry - carry' * BASE) + borrow
    ensures Reduced(w, v, q, i + 1, done + [digit], carry', borrow')
  {
    var p, p' := Pow(BASE, i), Pow(BASE, i + 1);
    assert p' == BASE * p;
    hide Value, Pow;
    ValueSnoc(done, digit, BASE);
    ValuePrefix(w, i, BASE);
    ValuePrefix(v, i, BASE);
    ReduceRing(Value(done, BASE), borrow, p, Value(w[..i], BASE), q, Value(v[..i], BASE), carry, digit, borrow', w[i],
               v[i], carry', p', Value(done + [digit], BASE), Value(w[..i + 1], BASE), Value(v[..i + 1], BASE));
  }

  lemma ReduceRing(vd: int, br: int, p: int, vw: int, q: int, vv: int, c: int, d: int, br': int, x: int, y: int,
                   c': int, p': int, vd': int, vw': int, vv': int)
    requires vd + br * p == vw - q * vv + c * p && p' == BASE * p
    requires d + br' * BASE == x - (q * y + c - c' * BASE) + br
    requires vd' == vd + d * p && vw' == vw + x * p && vv' == vv + y * p
    ensures vd' + br' * p' == vw' - q * vv' + c' * p'
  {
    MulDistribute(q, vv, y * p);
    ReduceRingStep(br, p, q, c, d, br', x, y, c');
  }

  lemma ReduceRingStep(br: int, p: int, q: int, c: int, d: int, br': int, x: int, y: int, c': int)
    requires d + br' * BASE == x - (q * y + c - c' * BASE) + br
    ensures d * p + br' * (BASE * p) == x * p - q * (y * p) - c * p + c' * (BASE * p) + br * p
  {
    MulDistribute(p, d, br' * BASE);
    MulDistribute(p, x - (q * y + c - c' * BASE), br);
    MulDistribute(p, x, q * y + c - c' * BASE);
    MulDistribute(p, q * y + c, c' * BASE);
    MulDistribute(p, q * y, c);
  }

  /** The top limb closes the subtraction: what is stored differs from the true difference by the
      final borrow at the weight above the window. */
  lemma ReduceEnd(w: seq<Limb>, v: seq<Limb>, q: int, done: seq<Limb>, carry: int, borrow: int,
                  digit: Limb, borrow': int)
    requires Reduced(w, v, q, |v|, done, carry, borrow) && |w| == |v| + 1
    requires digit + borrow' * BASE == w[|v|] - carry + borrow
    ensures Value(done + [digit], BASE) + borrow' * Pow(BASE, |w|) == Value(w, BASE) - q * Value(v, BASE)
  {
    var p, p' := Pow(BASE, |v|), Pow(BASE, |w|);
    assert p' == BASE * p;
    assert v[..|v|] == v && w[..|v| + 1] == w;
    hide Value, Pow;
    ValueSnoc(done, digit, BASE);
    ValuePrefix(w, |v|, BASE);
    ReduceRingStep(borrow, p, 0, carry, digit, borrow', w[|v|], 0, 0);
    ReduceEndRing(Value(done, BASE), borrow, p, Value(w[..|v|], BASE), q * Value(v, BASE), carry, digit, borrow',
                  w[|v|], p', Value(done + [digit], BASE), Value(w, BASE));
  }

  lemma ReduceEndRing(vd: int, br: int, p: int, vw: int, qv: int, c: int, d: int, br': int, x: int, p': int,
                      vd': int, vw': int)
    requires vd + br * p == vw - qv + c * p && p' == BASE * p
    requires d + br' * BASE == x - c + br
    requires vd' == vd + d * p && vw' == vw + x * p
    ensures vd' + br' * p' == vw' - qv
  {
    ReduceRingStep(br, p, 0, c, d, br', x, 0, 0);
  }

  /** u[idx .. idx + n] -= qhat * v, in place; the result is the borrow, 0 or -1. */
  method MulSub(u: array<Limb>, idx: nat, v: seq<Limb>, qhat: Limb) returns (borrow: Int32)
    requires v != [] && idx + |v| < u.Length
    modifies u
    ensures -1 <= borrow <= 0
    ensures Value(u[idx..idx + |v| + 1], BASE) + borrow * Pow(BASE, |v| + 1)
         == Value(old(u[idx..idx + |v| + 1]), BASE) - qhat * Value(v, BASE)
    ensures u[..idx] == old(u[..idx]) && u[idx + |v| + 1..] == old(u[idx + |v| + 1..])
  {
    var n := |v|;
    ghost var w, done: seq<Limb> := u[idx..idx + n + 1], [];
    assert Reduced(w, v, qhat, 0, done, 0, 0);
    hide Reduced, Value, Pow;
    var carry: Word32, i := 0, 0;
    borrow := 0;
    while i < n
      invariant 0 <= i <= n && 0 <= carry < BASE && -1 <= borrow <= 0
      invariant done == u[idx..idx + i] && (forall k :: i <= k <= n ==> w[k] == u[idx + k])
      invariant u[..idx] == old(u[..idx]) && u[idx + n + 1..] == old(u[idx + n + 1..])
      invariant Reduced(w, v, qhat, i, done, carry, borrow)
    {
      ProductFits(qhat, v[i], BASE);
      var prod: Word32 := qhat * v[i] + carry;
      var diff: Int32 := u[idx + i] - prod % BASE + borrow;
      ReduceStep(w, v, qhat, i, done, carry, borrow, diff % BASE, prod / BASE, diff / BASE);
      carry := prod / BASE;
      u[idx + i] := diff % BASE;
      borrow := diff / BASE;
      done := done + [diff % BASE];
      i := i + 1;
    }
    var diff: Int32 := u[idx + n] - carry + borrow;
    ReduceEnd(w, v, qhat, done, carry, borrow, diff % BASE, diff / BASE);
    u[idx + n] := diff % BASE;
    borrow := diff / BASE;
    assert u[idx..idx + n + 1] == done + [diff % BASE];
  }

  /** After `i` limbs of adding the divisor back. */
  ghost predicate Restored(w: seq<Limb>, v: seq<Limb>, i: nat, done: seq<Limb>, carry: int) {
    |v| < |w| && Added(w[..|v|], v, i, done, carry)
  }

  lemma RestoreStep(w: seq<Limb>, v: seq<Limb>, i: nat, done: seq<Limb>, carry: int, sum: int)
    requires Restored(w, v, i, done, carry) && i < |v| && sum == w[i] + v[i] + carry
    ensures Restored(w, v, i + 1, done + [sum % BASE], sum / BASE)
  {
    AddStep(w[..|v|], v, i, done, carry, sum);
  }

  /** u[idx .. idx + n] += v, in place, the carry out of the top limb dropped. */
  method AddBack(u: array<Limb>, idx: nat, v: seq<Limb>) returns (ghost dropped: int)
    requires v != [] && idx + |v| < u.Length
    modifies u
    ensures 0 <= dropped <= 1
    ensures Value(u[idx..idx + |v| + 1], BASE) + dropped * Pow(BASE, |v| + 1)
         == Value(old(u[idx..idx + |v| + 1]), BASE) + Value(v, BASE)
    ensures u[..idx] == old(u[..idx]) && u[idx + |v| + 1..] == old(u[idx + |v| + 1..])
  {
    var n := |v|;
    ghost var w, done: seq<Limb> := u[idx..idx + n + 1], [];
    assert Restored(w, v, 0, done, 0);
    hide Restored, Value, Pow;
    var carry: Word32, i := 0, 0;
    while i < n
      invariant 0 <= i <= n && carry <= 1
      invariant done == u[idx..idx + i] && (forall k :: i <= k <= n ==> w[k] == u[idx + k])
      invariant u[..idx] == old(u[..idx]) && u[idx + n + 1..] == old(u[idx + n + 1..])
      invariant Restored(w, v, i, done, carry)
    {
      var sum: Word32 := u[idx + i] + v[i] + carry;
      RestoreStep(w, v, i, done, carry, sum);
      u[idx + i] := sum % BASE;
      carry := sum / BASE;
      done := done + [sum % BASE];
      i := i + 1;
    }
    dropped := (w[n] + carry) / BASE;
    AddBackEnd(w, v, done, carry);
    u[idx + n] := (u[idx + n] + carry) % BASE;
    assert u[idx..idx + n + 1] == done + [(w[n] + carry) % BASE];
  }

  lemma AddBackEnd(w: seq<Limb>, v: seq<Limb>, done: seq<Limb>, carry: Word32)
    requires |w| == |v| + 1 && Restored(w, v, |v|, done, carry) && carry <= 1
    ensures Value(done + [(w[|v|] + carry) % BASE], BASE) + ((w[|v|] + carry) / BASE) * Pow(BASE, |w|)
         == Value(w, BASE) + Value(v, BASE)
  {
    var n := |v|;
    var p, p' := Pow(BASE, n), Pow(BASE, |w|);
    assert p' == BASE * p;
    assert Prefix(w[..n], n) == Value(w[..n], BASE) && Prefix(v, n) == Value(v, BASE);
    assert w == w[..n + 1];
    hide Value, Pow, Prefix;
    ValueSnoc(done, (w[n] + carry) % BASE, BASE);
    ValuePrefix(w, n, BASE);
    CarryStep(w[n], 0, carry, (w[n] + carry) % BASE, (w[n] + carry) / BASE, BASE, p, p');
  }

  // ---- Algorithm D: one quotient digit ----

  lemma QuotientOf(w: int, v: int)
    requires v > 0 && w >= 0
    ensures 0 <= w / v && (w / v) * v <= w < (w / v + 1) * v
  {
    var q, r := w / v, w % v;
    assert w == q * v + r;
    MulDistribute(v, q, 1);
    MulCancelLess(-1, q, v);
  }

  /** The window seen through its top three and the divisor's top two digits. */
  lemma WindowOf(w: seq<Limb>, v: seq<Limb>)
    requires |v| >= 2 && |w| == |v| + 1 && v[|v| - 1] >= 0x8000
    requires Value(w, BASE) < BASE * Value(v, BASE)
    ensures var n := |v|;
            Window(Value(w, BASE), Value(v, BASE), (w[n] * BASE + w[n - 1]) * BASE + w[n - 2],
                   v[n - 1] * BASE + v[n - 2], Pow(BASE, n - 2))
  {
    PowPositive(BASE, |v| - 2);
    ValueBound(w, BASE);
    TopThree(w);
    TopTwo(v);
  }

  lemma TopThree(w: seq<Limb>)
    requires |w| >= 3
    ensures var n := |w| - 1; var top := (w[n] * BASE + w[n - 1]) * BASE + w[n - 2];
            top * Pow(BASE, n - 2) <= Value(w, BASE) < (top + 1) * Pow(BASE, n - 2)
  {
    var n, k := |w| - 1, |w| - 3;
    ValueSplit(w, k, BASE);
    ValueBound(w[..k], BASE);
    ValueCons(w[k..], BASE);
    ValueShort(w[k..][1..], BASE);
    TopDigits(Value(w, BASE), Value(w[..k], BASE), Pow(BASE, k), Value(w[k..], BASE),
      (w[n] * BASE + w[n - 1]) * BASE + w[n - 2]);
  }

  lemma TopTwo(v: seq<Limb>)
    requires |v| >= 2
    ensures var n := |v|; var top := v[n - 1] * BASE + v[n - 2];
            top * Pow(BASE, n - 2) <= Value(v, BASE) < (top + 1) * Pow(BASE, n - 2)
  {
    var n, k := |v|, |v| - 2;
    ValueSplit(v, k, BASE);
    ValueBound(v[..k], BASE);
    ValueShort(v[k..], BASE);
    TopDigits(Value(v, BASE), Value(v[..k], BASE), Pow(BASE, k), Value(v[k..], BASE), v[n - 1] * BASE + v[n - 2]);
  }

  lemma TopDigits(w: int, low: int, p: int, high: int, top: int)
    requires w == low + p * high && 0 <= low < p && high == top
    ensures top * p <= w < (top + 1) * p
  {
    MulDistribute(p, top, 1);
  }

  /** The digits above the window vanish, so the window holds all of what is left. */
  lemma WindowHoldsRest(s: seq<Limb>, v: seq<Limb>)
    requires |s| > |v| && Value(s[1..], BASE) < Value(v, BASE)
    ensures Value(s[..|v| + 1], BASE) == Value(s, BASE) < BASE * Value(v, BASE)
    ensures forall k :: |v| < k < |s| ==> s[k] == 0
  {
    ValueBound(v, BASE);
    ValueSmall(s[1..], |v|, BASE);
    forall k | |v| < k < |s| ensures s[k] == 0 { assert s[k] == s[1..][k - 1]; }
    ValuePad(s, |v| + 1, BASE);
    ValueCons(s, BASE);
  }

  /** One iteration of the main loop, on the window: the true quotient digit is found and the
      window reduced below the divisor. */
  method WindowStep(u: array<Limb>, idx: nat, v: seq<Limb>) returns (digit: Limb)
    requires |v| >= 2 && v[|v| - 1] >= 0x8000 && idx + |v| < u.Length
    requires Value(u[idx..idx + |v| + 1], BASE) < BASE * Value(v, BASE)
    modifies u
    ensures Value(u[idx..idx + |v| + 1], BASE)
         == Value(old(u[idx..idx + |v| + 1]), BASE) - digit * Value(v, BASE) < Value(v, BASE)
    ensures u[..idx] == old(u[..idx]) && u[idx + |v| + 1..] == old(u[idx + |v| + 1..])
  {
    var n := |v|;
    ghost var w := u[idx..idx + n + 1];
    ghost var vw: int, vv: int, top := Value(w, BASE), Value(v, BASE), Pow(BASE, n + 1);
    WindowOf(w, v);
    WindowDivides(w, v);
    ghost var q: int := vw / vv;
    assert u[idx + n] == w[n] && u[idx + n - 1] == w[n - 1] && u[idx + n - 2] == w[n - 2];
    hide Value, Pow, Window;
    digit := EstimateDigit(u[idx + n], u[idx + n - 1], u[idx + n - 2], v[n - 1], v[n - 2], vw, vv, Pow(BASE, n - 2));
    var borrow := MulSub(u, idx, v, digit);
    ghost var w1 := u[idx..idx + n + 1];
    ValueBound(w1, BASE);
    DigitCorrect(vw, vv, q, digit, Value(w1, BASE), borrow, top);
    if borrow < 0 {
      digit := digit - 1;
      ghost var dropped := AddBack(u, idx, v);
      ValueBound(u[idx..idx + n + 1], BASE);
      AddBackCorrect(vw, vv, q, Value(w1, BASE), Value(u[idx..idx + n + 1], BASE), dropped, top);
    }
  }

  lemma WindowDivides(w: seq<Limb>, v: seq<Limb>)
    requires |w| == |v| + 1
    requires Value(w, BASE) < BASE * Value(v, BASE)
    ensures 0 < Value(v, BASE) < Pow(BASE, |v| + 1)
    ensures var q := Value(w, BASE) / Value(v, BASE);
      0 <= q && q * Value(v, BASE) <= Value(w, BASE) < (q + 1) * Value(v, BASE)
  {
    ValueBound(w, BASE);
    ValueBound(v, BASE);
    PowMonotone(BASE, |v|, |v| + 1);
    QuotientOf(Value(w, BASE), Value(v, BASE));
  }

  /** No borrow: the estimate was the quotient digit. A borrow: it was exactly one too large. */
  lemma DigitCorrect(w: int, v: int, q: int, qhat: int, w1: int, borrow: int, top: int)
    requires v > 0 && q * v <= w < (q + 1) * v && q <= qhat <= q + 1
    requires 0 <= w1 < top && -1 <= borrow <= 0 && w1 + borrow * top == w - qhat * v
    ensures borrow == 0 ==> qhat == q && w1 == w - q * v < v
    ensures borrow < 0 ==> qhat == q + 1 && w1 - top == w - (q + 1) * v
  {
    MulDistribute(v, q, 1);
    if qhat == q { MulCongruent(qhat, q, v); } else { MulCongruent(qhat, q + 1, v); }
  }

  /** After the add-back the carry out of the top limb is dropped, undoing the borrow. */
  lemma AddBackCorrect(w: int, v: int, q: int, w1: int, w2: int, dropped: int, top: int)
    requires 0 < v < top && q * v <= w < (q + 1) * v
    requires w1 - top == w - (q + 1) * v
    requires 0 <= dropped <= 1 && 0 <= w2 < top && w2 + dropped * top == w1 + v
    ensures w2 == w - q * v < v
  {
    MulDistribute(v, q, 1);
  }

  /** One iteration of the main loop: the digit at `idx` is the true quotient digit, and
      what is left at and above `idx` drops below the divisor. */
  method DivideStep(u: array<Limb>, idx: nat, v: seq<Limb>) returns (digit: Limb)
    requires |v| >= 2 && v[|v| - 1] >= 0x8000 && idx + |v| < u.Length
    requires Value(u[idx + 1..], BASE) < Value(v, BASE)
    modifies u
    ensures u[..idx] == old(u[..idx])
    ensures Value(u[idx..], BASE) == Value(old(u[idx..]), BASE) - digit * Value(v, BASE) < Value(v, BASE)
  {
    var n := |v|;
    ghost var s := u[idx..];
    assert s[1..] == u[idx + 1..] && s[..n + 1] == u[idx..idx + n + 1];
    WindowHoldsRest(s, v);
    hide Value, Pow;
    digit := WindowStep(u, idx, v);
    ghost var t := u[idx..];
    assert t[..n + 1] == u[idx..idx + n + 1];
    forall k | n < k < |t| ensures t[k] == 0 {
      assert t[k] == u[idx + n + 1..][k - n - 1] == s[k];
    }
    ValuePad(t, n + 1, BASE);
  }

  // ---- Algorithm D: normalisation ----

  /** The left shift that brings the divisor's top limb to at least half the base. */
  method NormalizingShift(top: Limb) returns (shift: nat)
    requires top != 0
    ensures shift <= 15 && 0x8000 <= top * Pow(2, shift) < BASE
  {
    var bh: Limb := top;
    shift := 0;
    while bh < 0x8000
      invariant shift <= 15 && bh == top * Pow(2, shift) && bh > 0
      decreases BASE - bh
    {
      ShiftBelow(top, shift);
      bh := bh * 2;
      shift := shift + 1;
    }
  }

  lemma ShiftBelow(top: Limb, shift: nat)
    requires top != 0 && top * Pow(2, shift) < 0x8000
    ensures shift < 15 && top * Pow(2, shift + 1) == 2 * (top * Pow(2, shift))
  {
    PowPositive(2, shift);
    MulMonotone(1, top, Pow(2, shift));
    if shift >= 15 {
      PowMonotone(2, 15, shift);
      assert Pow(2, 15) == 0x8000 by { TwoToFifteen(); }
    }
  }

  lemma TwoToFifteen()
    ensures Pow(2, 15) == 0x8000
  {
    assert Pow(2, 5) == 32;
    PowAdd(2, 5, 5);
    PowAdd(2, 5, 10);
  }

  /** A shift of at most 15 divides the base. */
  lemma ShiftDividesBase(shift: nat)
    requires shift <= 15
    ensures 0 < Pow(2, shift) <= 0x8000 && Pow(2, shift) * Pow(2, 16 - shift) == BASE
  {
    PowPositive(2, shift);
    PowMonotone(2, shift, 15);
    TwoToFifteen();
    PowAdd(2, shift, 16 - shift);
    assert Pow(2, 16) == 2 * Pow(2, 15);
  }

  /** `val = (src[i] << shift) | carry`: the carry lies below the shifted limb's lowest bit, so the
      `or` is a sum. */
  method ShiftLeft(src: seq<Limb>, ghost shift: nat, m: Limb, dst: array<Limb>) returns (carry: Limb)
    requires shift <= 15 && m == Pow(2, shift) && |src| <= dst.Length
    modifies dst
    ensures carry < m && Value(dst[..|src|], BASE) + carry * Pow(BASE, |src|) == Value(src, BASE) * m
  {
    carry := 0;
    var i := 0;
    ghost var done: seq<Limb> := [];
    ShiftDividesBase(shift);
    assert src[..0] == [] && Scaled(src, 0, m, done, 0);
    hide Scaled, Value, Pow;
    while i < |src|
      invariant 0 <= i <= |src| && done == dst[..i] && carry < m
      invariant Scaled(src, i, m, done, carry)
    {
      ShiftFits(src[i], m, carry);
      var val: Word32 := src[i] * m + carry;
      UnitStep(src, i, m, done, carry, val % BASE, val / BASE);
      dst[i] := val % BASE;
      carry := val / BASE;
      done := done + [val % BASE];
      i := i + 1;
    }
    ScaledAll(src, m, done, carry);
    FlushedMeaning(Mag(src) * m, done, carry);
  }

  lemma FlushedMeaning(product: int, done: seq<Limb>, carry: int)
    requires Flushed(product, done, carry)
    ensures Value(done, BASE) + carry * Pow(BASE, |done|) == product
  {}

  lemma ShiftFits(x: Limb, m: Limb, carry: Limb)
    requires carry < m
    ensures 0 <= x * m + carry < BASE * m && (x * m + carry) / BASE < m
  {
    MulMonotone(0, x, m);
    MulMonotone(x, BASE - 1, m);
  }

  /** The shifted divisor needs no extra limb and has its top bit set. */
  lemma NormalizedDivisor(b: seq<Limb>, shift: nat, m: int, v: seq<Limb>, carry: int)
    requires b != [] && |v| == |b| && shift <= 15 && m == Pow(2, shift)
    requires 0x8000 <= b[|b| - 1] * m < BASE && 0 <= carry
    requires Value(v, BASE) + carry * Pow(BASE, |b|) == Value(b, BASE) * m
    ensures Value(v, BASE) == Value(b, BASE) * m && v[|v| - 1] >= 0x8000
  {
    hide Value, Pow;
    var n := |b| - 1;
    var p := Pow(BASE, n);
    ShiftDividesBase(shift);
    PowStep(BASE, n);
    ValuePrefix(b, n, BASE);
    ValuePrefix(v, n, BASE);
    assert b[..n + 1] == b && v[..n + 1] == v;
    ValueBound(b[..n], BASE);
    ValueBound(v, BASE);
    ValueBound(v[..n], BASE);
    NormalizedInts(Value(b, BASE), b[n], Value(b[..n], BASE), m, Pow(2, 16 - shift), p, Pow(BASE, |b|),
                   Value(v, BASE), v[n], Value(v[..n], BASE), carry);
  }

  lemma NormalizedInts(vb: int, top: int, low: int, m: int, k: int, p: int, p': int,
                       v: int, vtop: int, vlow: int, carry: int)
    requires vb == low + top * p && 0 <= low < p && m > 0 && k > 0 && m * k == BASE
    requires 0x8000 <= top * m < BASE && 0 <= carry && p' == BASE * p && 0 <= v
    requires v + carry * p' == vb * m && v == vlow + vtop * p && 0 <= vlow < p
    ensures v == vb * m && vtop >= 0x8000
  {
    TopTimesShift(top, m, k);
    NormalizedRing(vb, top, low, m, p);
    CarryVanishes(v, carry, p', vb * m);
    LeadingDigit(vtop, vlow, p, v);
  }

  lemma TopTimesShift(top: int, m: int, k: int)
    requires m > 0 && k > 0 && m * k == BASE && top * m < BASE
    ensures (top + 1) * m <= BASE
  {
    MulCancelLess(top, k, m);
    MulMonotone(top + 1, k, m);
  }

  lemma NormalizedRing(vb: int, top: int, low: int, m: int, p: int)
    requires vb == low + top * p && 0 <= low < p && m > 0
    requires 0x8000 <= top * m && (top + 1) * m <= BASE
    ensures 0x8000 * p <= vb * m < BASE * p
  {
    MulMonotone(top * p, vb, m);
    MulMonotone(0x8000, top * m, p);
    MulMonotone((top + 1) * m, BASE, p);
    MulDistribute(p, top, 1);
    MulMonotone(vb + 1, (top + 1) * p, m);
    MulDistribute(m, vb, 1);
    assert ((top + 1) * p) * m == ((top + 1) * m) * p;
    assert (top * p) * m == (top * m) * p;
  }

  lemma CarryVanishes(v: int, carry: int, top: int, product: int)
    requires 0 < top && 0 <= v && 0 <= carry && v + carry * top == product < top
    ensures carry == 0
  {
    if carry >= 1 { MulMonotone(1, carry, top); }
  }

  lemma LeadingDigit(d: int, low: int, p: int, v: int)
    requires v == low + d * p && 0 <= low < p && 0x8000 * p <= v
    ensures d >= 0x8000
  {
    MulDistribute(p, d, 1);
    MulCancelLess(0x7FFF, d, p);
  }

  /** Before the first iteration the digits above the window are below the divisor. */
  lemma TopBelowDivisor(s: seq<Limb>, v: seq<Limb>)
    requires |s| == |v| > 0 && s[|s| - 1] < v[|v| - 1]
    ensures Value(s, BASE) < Value(v, BASE)
  {
    var n := |s| - 1;
    ValueBound(s[..n], BASE);
    ValueBound(v[..n], BASE);
    LeadDecides(Value(s[..n], BASE), Value(v[..n], BASE), s[n], v[n], Pow(BASE, n));
  }

  /** The un-shift: division of the remainder by the power of two, from the top limb down. */
  method ShiftRight(u: array<Limb>, n: nat, shift: nat, m: Limb, rem: array<Limb>) returns (carry: Limb)
    requires n <= u.Length && n <= rem.Length && u != rem && shift <= 15 && m == Pow(2, shift)
    modifies rem
    ensures Value(u[..n], BASE) == m * Value(rem[..n], BASE) + carry && carry < m
  {
    ghost var s, q: seq<Limb> := u[..n], [];
    carry := 0;
    ShiftDividesBase(shift);
    ghost var k := Pow(2, 16 - shift);
    assert s[n..] == [] && s[0..] == s;
    hide Value, Pow;
    var i := n;
    while i > 0
      invariant 0 <= i <= n && carry < m && q == rem[i..n]
      invariant Value(s[i..], BASE) == m * Value(q, BASE) + carry
    {
      BringDown(s, q, i, m, carry);
      SameLowBits(u[i - 1], carry, m, k);
      var val: Word32 := carry * BASE + u[i - 1];
      rem[i - 1] := val / m;
      carry := u[i - 1] % m;
      q := [val / m] + q;
      i := i - 1;
    }
  }

  lemma SameLowBits(x: int, carry: int, m: int, k: int)
    requires m > 0 && m * k == BASE
    ensures (carry * BASE + x) % m == x % m
  {
    var q, r := x / m, x % m;
    assert x == q * m + r;
    MulDistribute(m, carry * k, q);
    DivModUnique(carry * BASE + x, m, carry * k + q, r);
  }

  /** From the shifted division back to the original one. */
  lemma Unshifted(a: int, b: int, m: int, q: int, u: int, r: int, c: int)
    requires m > 0 && a * m == (b * m) * q + u && 0 <= u < b * m && u == m * r + c && 0 <= c < m && 0 <= r
    ensures a == b * q + r && r < b
  {
    UnshiftedRing(a, b, m, q, r, c);
    MulCancelLess(-1, a - b * q - r, m);
    MulCancelLess(a - b * q - r, 1, m);
    MulCancelLess(r, b, m);
  }

  lemma UnshiftedRing(a: int, b: int, m: int, q: int, r: int, c: int)
    requires a * m == (b * m) * q + (m * r + c)
    ensures (a - b * q - r) * m == c
  {
    MulDistribute(m, a, b * q);
    MulDistribute(m, a - b * q, r);
  }

  // ---- Algorithm D: the main loop ----

  /** Dividend equals divisor times quotient so far plus what is left. */
  lemma QuotientStep(u: seq<Limb>, u': seq<Limb>, v: int, quot: seq<Limb>, idx: nat, digit: Limb, total: int)
    requires idx < |quot| && idx <= |u| == |u'| && quot[idx] == 0 && u'[..idx] == u[..idx]
    requires Value(u'[idx..], BASE) == Value(u[idx..], BASE) - digit * v
    requires total == v * Value(quot, BASE) + Value(u, BASE)
    ensures total == v * Value(quot[idx := digit], BASE) + Value(u', BASE)
  {
    hide Value, Pow;
    var p := Pow(BASE, idx);
    ValueSplit(u, idx, BASE);
    ValueSplit(u', idx, BASE);
    ValueUpdate(quot, idx, digit, BASE);
    QuotientRing(Value(u[..idx], BASE), p, Value(u[idx..], BASE), Value(u'[idx..], BASE), digit, v,
                 Value(quot, BASE), Value(quot[idx := digit], BASE));
  }

  lemma QuotientRing(low: int, p: int, high: int, high': int, d: int, v: int, q: int, q': int)
    requires high' == high - d * v && q' == q + (d - 0) * p
    ensures v * q + (low + p * high) == v * q' + (low + p * high')
  {
    MulDistribute(p, high, d * v);
    MulDistribute(v, q, d * p);
  }

  method DivideDigits(u: array<Limb>, v: seq<Limb>, quot: array<Limb>, m: nat)
    requires |v| >= 2 && v[|v| - 1] >= 0x8000 && u.Length == m + |v| + 1 && quot.Length > m && u != quot
    requires Value(u[m + 1..], BASE) < Value(v, BASE)
    modifies u, quot
    ensures Value(old(u[..]), BASE) == Value(v, BASE) * Value(quot[..m + 1], BASE) + Value(u[..], BASE)
    ensures Value(u[..], BASE) < Value(v, BASE)
  {
    ghost var total := Value(u[..], BASE);
    for k := 0 to m + 1
      invariant u[..] == old(u[..])
      invariant forall i :: 0 <= i < k ==> quot[i] == 0
    {
      quot[k] := 0;
    }
    ValueZeros(quot[..m + 1], BASE);
    hide Value, Pow;
    var j := m + 1;
    while j > 0
      invariant 0 <= j <= m + 1
      invariant forall i :: 0 <= i < j ==> quot[i] == 0
      invariant total == Value(v, BASE) * Value(quot[..m + 1], BASE) + Value(u[..], BASE)
      invariant Value(u[j..], BASE) < Value(v, BASE)
    {
      var idx := j - 1;
      ghost var before, q := u[..], quot[..m + 1];
      assert before[idx..] == u[idx..] && before[..idx] == u[..idx];
      var digit := DivideStep(u, idx, v);
      quot[idx] := digit;
      assert u[..][idx..] == u[idx..] && u[..][..idx] == u[..idx];
      QuotientStep(before, u[..], Value(v, BASE), q, idx, digit, total);
      assert quot[..m + 1] == q[idx := digit];
      j := idx;
    }
    assert u[0..] == u[..];
  }

  /** Quotient and remainder of limb arrays: for all operands with a nonzero leading divisor limb
      and a dividend at least as long, `a == b * quot + rem` with `rem < b`. */
  method DivMod(a: seq<Limb>, b: seq<Limb>, quot: array<Limb>, rem: array<Limb>) returns (qLen: nat)
    requires 0 < |b| <= |a| && b[|b| - 1] != 0
    requires quot.Length >= |a| && rem.Length >= |b| && quot != rem
    modifies quot, rem
    ensures 0 < qLen <= |a| && Stripped(quot[..qLen])
    ensures Mag(a) == Mag(b) * Mag(quot[..qLen]) + Mag(rem[..|b|]) && Mag(rem[..|b|]) < Mag(b)
  {
    if |b| == 1 {
      var source := new Limb[|a|](i requires 0 <= i < |a| => a[i]);
      assert source[..|a|] == a;
      var r := DivSingle(source, |a|, b[0], quot);
      rem[0] := r;
      ValueShort(rem[..1], BASE);
      ValueShort(b, BASE);
      qLen := Strip(quot, |a|);
    } else {
      qLen := DivModLong(a, b, quot, rem);
    }
  }

  method DivModLong(a: seq<Limb>, b: seq<Limb>, quot: array<Limb>, rem: array<Limb>) returns (qLen: nat)
    requires 2 <= |b| <= |a| && b[|b| - 1] != 0
    requires quot.Length > |a| - |b| && rem.Length >= |b| && quot != rem
    modifies quot, rem
    ensures 0 < qLen <= |a| - |b| + 1 && Stripped(quot[..qLen])
    ensures Mag(a) == Mag(b) * Mag(quot[..qLen]) + Mag(rem[..|b|]) && Mag(rem[..|b|]) < Mag(b)
  {
    var n, m := |b|, |a| - |b|;
    var shift, factor, u, v := Normalize(a, b);
    hide Value, Pow;
    DivideDigits(u, v[..], quot, m);
    ghost var q, left := Value(quot[..m + 1], BASE), Value(u[..], BASE);
    LeftFits(u[..], v[..]);
    assert u[..][..n] == u[..n];
    var low := Unshift(u, n, shift, factor, rem);
    Unshifted(Mag(a), Mag(b), factor, q, left, Mag(rem[..n]), low);
    qLen := Strip(quot, m + 1);
  }

  lemma LeftFits(u: seq<Limb>, v: seq<Limb>)
    requires |v| <= |u| && Value(u, BASE) < Value(v, BASE)
    ensures Value(u[..|v|], BASE) == Value(u, BASE) >= 0
  {
    ValueBound(v, BASE);
    ValueBound(u, BASE);
    ValueSmall(u, |v|, BASE);
    ValuePad(u, |v|, BASE);
  }

  /** The normalised copies of dividend and divisor. */
  method Normalize(a: seq<Limb>, b: seq<Limb>)
    returns (shift: nat, factor: Limb, u: array<Limb>, v: array<Limb>)
    requires 2 <= |b| <= |a| && b[|b| - 1] != 0
    ensures fresh(u) && fresh(v) && u.Length == |a| + 1 && v.Length == |b|
    ensures shift <= 15 && factor == Pow(2, shift) > 0
    ensures Value(u[..], BASE) == Mag(a) * factor && Value(v[..], BASE) == Mag(b) * factor
    ensures v[|b| - 1] >= 0x8000 && Value(u[|a| - |b| + 1..], BASE) < Value(v[..], BASE)
  {
    var n, m := |b|, |a| - |b|;
    shift := NormalizingShift(b[n - 1]);
    ShiftDividesBase(shift);
    factor := Pow(2, shift);
    v := new Limb[n];
    u := new Limb[|a| + 1];
    hide Value, Pow;
    var carry := ShiftLeft(b, shift, factor, v);
    assert v[..n] == v[..];
    NormalizedDivisor(b, shift, factor, v[..], carry);
    ghost var divisor := v[..];
    carry := ShiftLeft(a, shift, factor, u);
    ghost var low := u[..|a|];
    u[|a|] := carry;
    assert u[..] == low + [carry];
    ValueSnoc(low, carry, BASE);
    assert v[..] == divisor;
    TopBelowDivisor(u[m + 1..], v[..]);
  }

  method Unshift(u: array<Limb>, n: nat, shift: nat, factor: Limb, rem: array<Limb>) returns (low: Limb)
    requires n <= u.Length && n <= rem.Length && u != rem && shift <= 15 && factor == Pow(2, shift)
    modifies rem
    ensures Value(u[..n], BASE) == factor * Value(rem[..n], BASE) + low && low < factor
  {
    if shift > 0 {
      low := ShiftRight(u, n, shift, factor, rem);
    } else {
      low := 0;
      for i := 0 to n
        invariant rem[..i] == u[..i]
      {
        rem[i] := u[i];
      }
    }
  }
}
