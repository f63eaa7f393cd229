/** Reading and printing bignums (src/core/bignum.c). */
module Decimal {
  import opened Digits
  import opened Magnitude
  import opened Multiplication
  import opened Division
  import opened Integers
  import opened Arithmetic
  import opened Bits

  /** The accumulator of the reader: 256 limbs, so 4096 bits. */
  const ACC_LIMBS: nat := 256

  predicate IsDecimal(c: char) { '0' <= c <= '9' }

  /** The number a text denotes in decimal; characters that are not digits do not count. */
  function DecimalValue(s: string): nat {
    if s == "" then 0
    else
      var v, c := DecimalValue(s[..|s| - 1]), s[|s| - 1];
      if IsDecimal(c) then 10 * v + (c as int - '0' as int) else v
  }

  // ---- reading ----

  /** One Horner step in place; whatever grows past the accumulator is lost, so the step is exact
      modulo its size. */
  lemma HornerStep(v: nat, m: int, d: int, r: int, k: int)
    requires m > 0 && 0 <= r < m && r == 10 * (v % m) + d - k * m
    ensures r == (10 * v + d) % m
  {
    var q, rest := v / m, v % m;
    assert v == q * m + rest;
    MulDistribute(m, 10 * q, k);
    HornerRing(v, m, d, r, k, q, rest);
    DivModUnique(10 * v + d, m, 10 * q + k, r);
  }

  lemma HornerRing(v: int, m: int, d: int, r: int, k: int, q: int, rest: int)
    requires v == q * m + rest && r == 10 * rest + d - k * m
    ensures 10 * v + d == (10 * q + k) * m + r
  {}

  /** Multiplies the accumulator by 10. */
  method TimesTen(acc: array<Limb>, len: nat) returns (len': nat, ghost lost: nat)
    requires acc.Length == ACC_LIMBS && 0 < len <= ACC_LIMBS
    modifies acc
    ensures len <= len' <= ACC_LIMBS && (lost > 0 ==> len' == ACC_LIMBS)
    ensures Mag(acc[..len']) == 10 * Mag(old(acc[..len])) - lost * Pow(BASE, ACC_LIMBS)
  {
    ghost var a := acc[..len];
    var carry: Word32, j := 0, 0;
    ghost var done: seq<Limb> := [];
    assert a[..0] == [] && Scaled(a, 0, 10, done, 0);
    hide Scaled, Value, Pow, Mag;
    while j < len
      invariant 0 <= j <= len && carry <= 10 && done == acc[..j]
      invariant forall k :: j <= k < len ==> acc[k] == a[k]
      invariant Scaled(a, j, 10, done, carry)
    {
      var prod: Word32 := acc[j] * 10 + carry;
      UnitStep(a, j, 10, done, carry, prod % BASE, prod / BASE);
      acc[j] := prod % BASE;
      carry := prod / BASE;
      done := done + [prod % BASE];
      j := j + 1;
    }
    ScaledAll(a, 10, done, carry);
    TopDigit(10 * Mag(a), done, carry);
    len', lost := len, 0;
    if carry != 0 {
      if len < ACC_LIMBS {
        acc[len] := carry;
        len' := len + 1;
        assert acc[..len'] == done + [carry];
      } else {
        lost := carry;
      }
    }
  }

  lemma TopDigit(product: int, done: seq<Limb>, carry: Limb)
    requires Flushed(product, done, carry)
    ensures Mag(done + [carry]) == product
    ensures Mag(done) == product - carry * Pow(BASE, |done|)
  {
    ValueSnoc(done, carry, BASE);
  }

  /** Adds a digit to the accumulator, rippling the carry. */
  method AddDigit(acc: array<Limb>, len: nat, digit: Limb) returns (len': nat, ghost lost: nat)
    requires acc.Length == ACC_LIMBS && 0 < len <= ACC_LIMBS && digit <= 9
    modifies acc
    ensures len <= len' <= ACC_LIMBS && (lost > 0 ==> len' == ACC_LIMBS)
    ensures Mag(acc[..len']) == Mag(old(acc[..len])) + digit - lost * Pow(BASE, ACC_LIMBS)
  {
    ghost var before, s := Mag(acc[..len]), acc[..len];
    var carry: Word32, j := digit, 0;
    assert Rippled(s, 0, carry, before + digit) by { assert Pow(BASE, 0) == 1; }
    hide Value, Pow, Mag, Rippled;
    while j < len && carry != 0
      invariant 0 <= j <= len && carry <= 9 && s == acc[..len]
      invariant Rippled(s, j, carry, before + digit)
    {
      var sum: Word32 := acc[j] + carry;
      Ripple(s, j, carry, before + digit);
      acc[j] := sum % BASE;
      s := s[j := sum % BASE];
      carry := sum / BASE;
      j := j + 1;
    }
    len', lost := len, 0;
    if carry != 0 {
      AppendCarry(s, carry, before + digit);
      if len < ACC_LIMBS {
        acc[len] := carry;
        len' := len + 1;
        assert acc[..len'] == s + [carry];
      } else {
        lost := carry;
      }
    } else {
      NoCarry(s, j, before + digit);
    }
  }

  /** A carry waits at place `j`. */
  ghost predicate Rippled(s: seq<Limb>, j: nat, carry: int, total: int) {
    Mag(s) + carry * Pow(BASE, j) == total
  }

  lemma NoCarry(s: seq<Limb>, j: nat, total: int)
    requires Rippled(s, j, 0, total)
    ensures Mag(s) == total
  {}

  lemma Ripple(s: seq<Limb>, j: nat, carry: Word32, total: int)
    requires j < |s| && carry <= 9 && Rippled(s, j, carry, total)
    ensures var sum := s[j] + carry; Rippled(s[j := sum % BASE], j + 1, sum / BASE, total)
  {
    var sum: int := s[j] + carry;
    ValueUpdate(s, j, sum % BASE, BASE);
    PowStep(BASE, j);
    hide Value, Pow;
    RippleRing(s[j], carry, sum % BASE, sum / BASE, Pow(BASE, j), Pow(BASE, j + 1));
  }

  lemma RippleRing(x: int, c: int, d: int, c': int, p: int, p': int)
    requires x + c == d + c' * BASE && p' == BASE * p
    ensures (d - x) * p + c' * p' == c * p
  {
    MulDistribute(p, d, x);
    MulDistribute(p, x, c);
    MulDistribute(p, d, c' * BASE);
  }

  lemma AppendCarry(s: seq<Limb>, carry: Limb, total: int)
    requires Rippled(s, |s|, carry, total)
    ensures Mag(s + [carry]) == total && Mag(s) == total - carry * Pow(BASE, |s|)
  {
    ValueSnoc(s, carry, BASE);
  }

  /** cl_bignum_from_string: the value read is the value written, modulo 2^4096. */
  method ReadDecimal(str: string, negative: bool) returns (r: Integer)
    ensures Pow(BASE, ACC_LIMBS) > 0
    ensures Canonical(r) && ToInt(r) == Signed(negative, DecimalValue(str) % Pow(BASE, ACC_LIMBS))
  {
    var acc := new Limb[ACC_LIMBS](_ => 0);
    var len := 1;
    PowPositive(BASE, ACC_LIMBS);
    ValueShort(acc[..1], BASE);
    DivModUnique(0, Pow(BASE, ACC_LIMBS), 0, 0);
    hide Pow, Mag;
    for i := 0 to |str|
      invariant 0 < len <= ACC_LIMBS
      invariant Mag(acc[..len]) == DecimalValue(str[..i]) % Pow(BASE, ACC_LIMBS)
    {
      assert str[..i + 1][..i] == str[..i];
      if IsDecimal(str[i]) {
        len := ReadDigit(acc, len, str[i] as int - '0' as int, DecimalValue(str[..i]));
      }
    }
    assert str[..|str|] == str;
    r := FromLimbs(acc[..len], negative);
  }

  method ReadDigit(acc: array<Limb>, len0: nat, digit: Limb, ghost v: nat) returns (len: nat)
    requires acc.Length == ACC_LIMBS && 0 < len0 <= ACC_LIMBS && digit <= 9 && Pow(BASE, ACC_LIMBS) > 0
    requires Mag(acc[..len0]) == v % Pow(BASE, ACC_LIMBS)
    modifies acc
    ensures 0 < len <= ACC_LIMBS && Mag(acc[..len]) == (10 * v + digit) % Pow(BASE, ACC_LIMBS)
  {
    hide Pow, Mag;
    ghost var m, lost, lost' := Pow(BASE, ACC_LIMBS), 0, 0;
    len, lost := TimesTen(acc, len0);
    ghost var tens := Mag(acc[..len]);
    len, lost' := AddDigit(acc, len, digit);
    LimbsBelow(acc[..len]);
    DigitStep(v, m, digit, tens, Mag(acc[..len]), lost, lost');
  }

  /** Both halves of a step, and what each lost. */
  lemma DigitStep(v: nat, m: int, d: int, tens: int, r: int, lost: int, lost': int)
    requires m > 0 && 0 <= r < m
    requires tens == 10 * (v % m) - lost * m && r == tens + d - lost' * m
    ensures r == (10 * v + d) % m
  {
    MulDistribute(m, lost, lost');
    HornerStep(v, m, d, r, lost + lost');
  }

  lemma LimbsBelow(s: seq<Limb>)
    requires |s| <= ACC_LIMBS
    ensures Mag(s) < Pow(BASE, ACC_LIMBS)
  {
    PowMonotone(BASE, |s|, ACC_LIMBS);
  }

  /** Reading is exact exactly for magnitudes below 2^4096. */
  lemma ReadExact(str: string, negative: bool)
    ensures Pow(BASE, ACC_LIMBS) == Pow(2, 4096) > 0
    ensures Signed(negative, DecimalValue(str) % Pow(BASE, ACC_LIMBS)) == Signed(negative, DecimalValue(str))
        <==> DecimalValue(str) < Pow(2, 4096)
  {
    PowBase(ACC_LIMBS);
    PowPositive(BASE, ACC_LIMBS);
    hide Pow, DecimalValue;
    var v, m := DecimalValue(str), Pow(BASE, ACC_LIMBS);
    if v < m { DivModUnique(v, m, 0, v); }
  }

  // ---- printing ----

  const DIGIT_CHARS: string := "0123456789ABCDEFGHIJKLMNOPQRSTUVWXYZ"

  /** A numeral is the digits, most significant first, of a number in a base, without a leading
      zero. */
  ghost predicate IsNumeral(digits: seq<int>, base: int, v: int) {
    digits != [] && InBase(digits, base) && digits[|digits| - 1] != 0 && Value(digits, base) == v
  }

  /** Digits, least significant first, as text. */
  function Spelled(digits: seq<int>): string
    requires InBase(digits, 36)
  {
    seq(|digits|, i requires 0 <= i < |digits| => DIGIT_CHARS[digits[|digits| - 1 - i]])
  }

  /** The digit a character stands for: 0 to 9, then the letters from A on for 10 to 35. */
  function DigitOf(c: char): int {
    if '0' <= c <= '9' then c as int - '0' as int
    else if 'A' <= c <= 'Z' then c as int - 'A' as int + 10
    else -1
  }

  predicate IsDigit(c: char, base: int) { 0 <= DigitOf(c) < base }

  /** The number a text stands for, read from its first character on. */
  function TextValue(text: string, base: int): int {
    if text == "" then 0 else base * TextValue(text[..|text| - 1], base) + DigitOf(text[|text| - 1])
  }

  /** A digit's character stands for it, and so the text of the digits for their value, in every base. */
  lemma {:induction false} SpelledReads(digits: seq<int>, base: int)
    requires 2 <= base <= 36 && InBase(digits, base)
    ensures InBase(digits, 36) && TextValue(Spelled(digits), base) == Value(digits, base)
    ensures forall c :: c in Spelled(digits) ==> IsDigit(c, base)
  {
    hide Value, Spelled, DigitOf;
    if digits == [] {
      NothingSpelled(base);
    } else {
      SpelledReads(digits[1..], base);
      SpelledLast(digits);
      var text := Spelled(digits);
      assert text[..|text| - 1] == Spelled(digits[1..]);
      CharOfDigit(digits[0]);
      ValueCons(digits, base);
    }
  }

  lemma NothingSpelled(base: int)
    ensures Spelled([]) == "" && Value([], base) == 0
  {}

  lemma SpelledLast(digits: seq<int>)
    requires InBase(digits, 36) && digits != []
    ensures Spelled(digits) == Spelled(digits[1..]) + [DIGIT_CHARS[digits[0]]]
  {}

  /** A numeral's text has no leading zero. */
  lemma SpelledFirst(digits: seq<int>)
    requires InBase(digits, 36) && digits != [] && digits[|digits| - 1] != 0
    ensures Spelled(digits)[0] != '0'
  {
    CharOfDigit(digits[|digits| - 1]);
  }

  lemma CharOfDigit(d: int)
    requires 0 <= d < 36
    ensures DigitOf(DIGIT_CHARS[d]) == d
  {}

  /** The base PRINT uses: 10 for anything outside 2 .. 36. */
  function PrintBase(base: Int32): int { if base < 2 || base > 36 then 10 else base }

  /** Splitting off one digit of what is left to print. */
  ghost predicate Printed(total: int, digits: seq<int>, base: int, left: int) {
    base >= 2 && InBase(digits, base) && left >= 0
    && total == Value(digits, base) + Pow(base, |digits|) * left
    && (left == 0 ==> digits != [] && digits[|digits| - 1] != 0)
  }

  lemma PrintStep(total: int, digits: seq<int>, base: int, left: int, left': int, rem: int)
    requires Printed(total, digits, base, left) && left > 0
    requires left == base * left' + rem && 0 <= rem < base && left' >= 0
    ensures Printed(total, digits + [rem], base, left') && left' < left
  {
    ValueSnoc(digits, rem, base);
    PowStep(base, |digits|);
    hide Value, Pow;
    PrintRing(Pow(base, |digits|), base, left, left', rem, Pow(base, |digits| + 1));
    MulMonotone(2, base, left');
    if left' == 0 { assert base * left' == 0; }
  }

  lemma PrintRing(p: int, base: int, left: int, left': int, rem: int, p': int)
    requires left == base * left' + rem && p' == base * p
    ensures p * left == rem * p + p' * left'
  {
    MulDistribute(p, base * left', rem);
  }

  /** The digit buffer never overflows: at most 16 digits a limb. */
  lemma DigitRoom(limbs: seq<Limb>, digits: seq<int>, base: int, left: int)
    requires Printed(Mag(limbs), digits, base, left) && left > 0
    ensures |digits| < 16 * |limbs|
  {
    hide Value, Pow;
    PowBase(|limbs|);
    ValueBound(digits, base);
    PowPositive(base, |digits|);
    MulMonotone(1, left, Pow(base, |digits|));
    PowBaseMonotone(2, base, |digits|);
    if |digits| >= 16 * |limbs| { PowMonotone(2, 16 * |limbs|, |digits|); }
  }

  lemma {:induction false} PowBaseMonotone(a: int, b: int, n: nat)
    requires 0 <= a <= b
    ensures 0 <= Pow(a, n) <= Pow(b, n)
  {
    if n > 0 {
      PowBaseMonotone(a, b, n - 1);
      MulMonotone(0, a, Pow(a, n - 1));
      MulMonotone(a, b, Pow(a, n - 1));
      MulMonotone(Pow(a, n - 1), Pow(b, n - 1), b);
    }
  }

  /** cl_bignum_print_base: a sign for negative numbers, then the numeral of the magnitude. */
  method Print(x: Integer, base0: Int32) returns (out: string, digits: seq<int>)
    requires x.Bignum? && Canonical(x)
    ensures IsNumeral(digits, PrintBase(base0), Mag(x.limbs)) && |digits| <= 16 * |x.limbs|
    ensures InBase(digits, 36) && out == (if x.neg then "-" else "") + Spelled(digits)
    ensures var base := if 2 <= base0 <= 36 then base0 else 10;
      && TextValue(Spelled(digits), base) == Mag(x.limbs)
      && Spelled(digits)[0] != '0' && forall c :: c in Spelled(digits) ==> IsDigit(c, base)
  {
    var base: Limb := PrintBase(base0);
    var limbs := x.limbs;
    var work := new Limb[|limbs|](i requires 0 <= i < |limbs| => limbs[i]);
    assert work[..|limbs|] == limbs;
    var workLen := |limbs|;
    var cap := |limbs| * 16 + 2;
    var ds: seq<int> := [];
    LimbsOfValue(x);
    PrintStart(Mag(limbs), base);
    hide Printed, Mag, Value, Pow, TextValue, Spelled, IsDigit;
    ZeroTest(work[..workLen]);
    while workLen > 1 || work[0] != 0
      invariant 0 < workLen <= work.Length && InBase(ds, 36)
      invariant (workLen > 1 || work[0] != 0) <==> Mag(work[..workLen]) > 0
      invariant Stripped(work[..workLen]) && |ds| <= 16 * |limbs|
      invariant Printed(Mag(limbs), ds, base, Mag(work[..workLen]))
      decreases Mag(work[..workLen])
    {
      ghost var left := Mag(work[..workLen]);
      DigitRoom(limbs, ds, base, left);
      var rem := DivSingle(work, workLen, base, work);
      PrintStep(Mag(limbs), ds, base, left, Mag(work[..workLen]), rem);
      workLen := Strip(work, workLen);
      if |ds| < cap - 1 { ds := ds + [rem]; }
      ZeroTest(work[..workLen]);
    }
    PrintEnd(Mag(limbs), ds, base);
    SpelledReads(ds, base);
    SpelledFirst(ds);
    digits := ds;
    out := (if x.neg then "-" else "") + Spelled(ds);
  }

  lemma PrintStart(total: nat, base: int)
    requires base >= 2 && total > 0
    ensures Printed(total, [], base, total)
  {}

  lemma PrintEnd(total: int, digits: seq<int>, base: int)
    requires Printed(total, digits, base, 0)
    ensures IsNumeral(digits, base, total)
  {}

  lemma ZeroTest(s: seq<Limb>)
    requires Stripped(s)
    ensures (|s| > 1 || s[0] != 0) <==> Mag(s) > 0
  {
    ValueShort(s, BASE);
    if |s| > 1 {
      ValueTop(s, BASE);
      PowPositive(BASE, |s| - 1);
    }
  }

  // ---- each undoes the other ----

  /** Numerals are unique. */
  lemma {:induction false} NumeralUnique(s: seq<int>, t: seq<int>, base: int, v: int)
    requires base >= 2 && IsNumeral(s, base, v) && IsNumeral(t, base, v)
    ensures s == t
  {
    NumeralLength(s, t, base, v);
    NumeralLength(t, s, base, v);
    ValueInjective(s, t, base);
  }

  lemma NumeralLength(s: seq<int>, t: seq<int>, base: int, v: int)
    requires base >= 2 && IsNumeral(s, base, v) && IsNumeral(t, base, v)
    ensures |s| <= |t|
  {
    ValueTop(s, base);
    ValueBound(t, base);
    if |s| > |t| { PowMonotone(base, |t|, |s| - 1); }
  }

  /** What a decimal numeral is read as. */
  lemma {:induction false} SpelledValue(prefix: string, digits: seq<int>)
    requires InBase(digits, 10) && forall i :: 0 <= i < |prefix| ==> !IsDecimal(prefix[i])
    ensures InBase(digits, 36) && DecimalValue(prefix + Spelled(digits)) == Value(digits, 10)
  {
    if digits == [] {
      assert prefix + Spelled(digits) == prefix;
      NoDigits(prefix);
    } else {
      SpelledCons(prefix, digits);
      SpelledValue(prefix, digits[1..]);
      DigitChar(digits[0]);
      DecimalSnoc(prefix + Spelled(digits[1..]), DIGIT_CHARS[digits[0]]);
      ValueCons(digits, 10);
    }
  }

  lemma SpelledCons(prefix: string, digits: seq<int>)
    requires InBase(digits, 36) && digits != []
    ensures prefix + Spelled(digits) == prefix + Spelled(digits[1..]) + [DIGIT_CHARS[digits[0]]]
  {}

  lemma DecimalSnoc(s: string, c: char)
    ensures DecimalValue(s + [c]) ==
      if IsDecimal(c) then 10 * DecimalValue(s) + (c as int - '0' as int) else DecimalValue(s)
  {
    assert (s + [c])[..|s|] == s;
  }

  lemma {:induction false} NoDigits(s: string)
    requires forall i :: 0 <= i < |s| ==> !IsDecimal(s[i])
    ensures DecimalValue(s) == 0
  {
    if s != "" { NoDigits(s[..|s| - 1]); }
  }

  lemma DigitChar(d: int)
    requires 0 <= d < 10
    ensures IsDecimal(DIGIT_CHARS[d]) && DIGIT_CHARS[d] as int - '0' as int == d
  {}

  /** Reading what PRINT wrote in decimal gives back the same object, for magnitudes below 2^4096;
      the sign character is skipped, the sign passed apart. */
  lemma ReadOfPrint(x: Integer, out: string, digits: seq<int>, r: Integer)
    requires x.Bignum? && Canonical(x) && Mag(x.limbs) < Pow(2, 4096)
    requires IsNumeral(digits, 10, Mag(x.limbs)) && InBase(digits, 36)
    requires out == (if x.neg then "-" else "") + Spelled(digits)
    requires Pow(BASE, ACC_LIMBS) > 0
    requires Canonical(r) && ToInt(r) == Signed(x.neg, DecimalValue(out) % Pow(BASE, ACC_LIMBS))
    ensures r == x
  {
    SpelledValue(if x.neg then "-" else "", digits);
    ReadExact(out, x.neg);
    CanonicalUnique(r, x);
  }

  /** Printing what was read from a decimal numeral without leading zeros gives back its digits. */
  lemma PrintOfRead(digits: seq<int>, neg: bool, x: Integer, printed: seq<int>)
    requires InBase(digits, 36) && IsNumeral(digits, 10, Value(digits, 10)) && Value(digits, 10) < Pow(2, 4096)
    requires Pow(BASE, ACC_LIMBS) > 0 && Canonical(x) && x.Bignum?
    requires ToInt(x) == Signed(neg, DecimalValue(Spelled(digits)) % Pow(BASE, ACC_LIMBS))
    requires IsNumeral(printed, 10, Mag(x.limbs)) && InBase(printed, 36)
    ensures x.neg == neg && Spelled(printed) == Spelled(digits)
  {
    SpelledValue("", digits);
    assert "" + Spelled(digits) == Spelled(digits);
    ReadExact(Spelled(digits), neg);
    LimbsOfValue(x);
    NumeralUnique(printed, digits, 10, Mag(x.limbs));
  }
}
