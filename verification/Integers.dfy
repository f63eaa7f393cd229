/** Lisp integers: immediate 31-bit fixnums and sign-magnitude bignums on the heap
    (src/core/types.h, src/core/bignum.c), and the arithmetic that dispatches over them. */
module Integers {
  import opened Digits
  import opened Magnitude

  const FIXNUM_MAX: int := 0x3FFF_FFFF
  const FIXNUM_MIN: int := -0x4000_0000

  /** A heap bignum is never changed once it has been returned, so it is a value. */
  datatype Integer = Fixnum(v: int) | Bignum(neg: bool, limbs: seq<Limb>)

  /** The errors signalled. Stuck is none of them: it stands for a division by limbs with a leading
      0, which traps, reads outside the limbs, or does not end. */
  datatype Fault = DivisionByZero | TypeError | ArgsError | Stuck

  /** What a primitive gives: a value, or the error it signals. */
  datatype Outcome<+T> = Ok(value: T) | Signal(fault: Fault)

  /** The build: 64-bit hosts (with or without a 128-bit product), or the 68020. */
  datatype Host = Host64(int128: bool) | M68020

  function Signed(neg: bool, m: int): int { if neg then -m else m }

  function Abs(x: int): nat { if x < 0 then -x else x }

  /** The mathematical integer an object stands for. */
  ghost function ToInt(x: Integer): int {
    match x
    case Fixnum(v) => v
    case Bignum(neg, limbs) => Signed(neg, Mag(limbs))
  }

  predicate FitsFixnum(x: int) { FIXNUM_MIN <= x <= FIXNUM_MAX }

  /** A tagged fixnum, or a bignum without leading zero limbs. */
  predicate Proper(x: Integer) {
    match x
    case Fixnum(v) => FitsFixnum(v)
    case Bignum(_, limbs) => limbs != [] && limbs[|limbs| - 1] != 0
  }

  /** Fixnum exactly when the value fits, otherwise a bignum without leading zero limbs. */
  ghost predicate Canonical(x: Integer) {
    Proper(x) && (x.Bignum? ==> !FitsFixnum(ToInt(x)))
  }

  /** CL_MAKE_FIXNUM keeps the low 31 bits of its argument; CL_FIXNUM_VAL sign-extends them. */
  function MakeFixnum(n: Int32): Integer {
    Fixnum((n - FIXNUM_MIN) % 0x8000_0000 + FIXNUM_MIN)
  }

  lemma MakeFixnumFits(n: Int32)
    requires FitsFixnum(n)
    ensures MakeFixnum(n) == Fixnum(n) && Canonical(MakeFixnum(n))
  {}

  // ---- canonical objects are determined by their value ----

  lemma StrippedLength(s: seq<Limb>, t: seq<Limb>)
    requires Stripped(s) && Stripped(t) && Mag(s) == Mag(t)
    ensures s == t
  {
    LongerIsLarger(s, t);
    LongerIsLarger(t, s);
    ValueInjective(s, t, BASE);
  }

  lemma CanonicalUnique(x: Integer, y: Integer)
    requires Canonical(x) && Canonical(y) && ToInt(x) == ToInt(y)
    ensures x == y
  {
    if x.Bignum? && y.Bignum? { StrippedLength(x.limbs, y.limbs); }
  }

  /** A bignum of more than two limbs is outside the fixnum range; so is a one-limb value inside. */
  lemma LongIsLarge(s: seq<Limb>)
    requires |s| >= 3 && s[|s| - 1] != 0
    ensures Mag(s) >= BASE32
  {
    ValueTop(s, BASE);
    PowMonotone(BASE, 2, |s| - 1);
    assert Pow(BASE, 2) == BASE * (BASE * Pow(BASE, 0));
  }

  // ---- building objects ----

  /** cl_bignum_normalize: strip leading zero limbs, demote to a fixnum when the value fits.
      A bignum object with no limbs at all is returned as it is. */
  method NormalizeBignum(neg: bool, limbs: seq<Limb>) returns (r: Integer)
    ensures limbs != [] ==> Canonical(r) && ToInt(r) == Signed(neg, Mag(limbs))
    ensures limbs == [] ==> r == Bignum(neg, [])
  {
    var len := |limbs|;
    assert limbs[..len] == limbs;
    while len > 1 && limbs[len - 1] == 0
      invariant 0 <= len <= |limbs| && (limbs != [] ==> len > 0)
      invariant Mag(limbs[..len]) == Mag(limbs)
    {
      ValuePrefix(limbs, len - 1, BASE);
      len := len - 1;
    }
    var s := limbs[..len];
    var val: Word32;
    if len == 1 {
      val := s[0];
    } else if len == 2 {
      val := s[0] + s[1] * BASE;
    } else {
      if len >= 3 { LongIsLarge(s); }
      return Bignum(neg, s);
    }
    ValueShort(s, BASE);
    if val == 0 { return Fixnum(0); }
    if !neg && val <= FIXNUM_MAX { return Fixnum(val); }
    if neg && val <= 0x4000_0000 { return Fixnum(0 - val); }
    r := Bignum(neg, s);
  }

  /** bignum_from_limbs. */
  method FromLimbs(limbs: seq<Limb>, neg: bool) returns (r: Integer)
    requires limbs != []
    ensures Canonical(r) && ToInt(r) == Signed(neg, Mag(limbs))
  {
    var len := |limbs|;
    assert limbs[..len] == limbs;
    while len > 1 && limbs[len - 1] == 0
      invariant 0 < len <= |limbs| && Mag(limbs[..len]) == Mag(limbs)
    {
      ValuePrefix(limbs, len - 1, BASE);
      len := len - 1;
    }
    if len == 1 && limbs[0] == 0 {
      ValueShort(limbs[..1], BASE);
      return Fixnum(0);
    }
    r := NormalizeBignum(neg, limbs[..len]);
  }

  /** bignum_from_uint32. */
  method FromUint32(val: Word32, neg: bool) returns (r: Integer)
    ensures Canonical(r) && ToInt(r) == Signed(neg, val)
  {
    if val == 0 { return Fixnum(0); }
    if !neg && val <= FIXNUM_MAX { return Fixnum(val); }
    if neg && val <= 0x4000_0000 { return Fixnum(0 - val); }
    ValueShort([val % BASE, val / BASE], BASE);
    r := NormalizeBignum(neg, [val % BASE, val / BASE]);
  }

  /** to_limbs: the limbs of the magnitude; zero is the single limb 0. */
  function LimbsOf(x: Integer): seq<Limb> {
    match x
    case Fixnum(v) =>
      var u := Abs(v);
      if u / BASE % BASE != 0 then [u % BASE, u / BASE % BASE] else [u % BASE]
    case Bignum(_, limbs) => limbs
  }

  /** The sign `to_limbs` reports. */
  predicate Negative(x: Integer) {
    match x
    case Fixnum(v) => v < 0
    case Bignum(neg, _) => neg
  }

  lemma LimbsOfValue(x: Integer)
    requires Proper(x)
    ensures Stripped(LimbsOf(x)) && Mag(LimbsOf(x)) == Abs(ToInt(x))
    ensures Negative(x) <==> ToInt(x) < 0
    ensures x.Bignum? ==> ToInt(x) != 0
  {
    ValueShort(LimbsOf(x), BASE);
    if x.Bignum? {
      ValueTop(x.limbs, BASE);
      PowPositive(BASE, |x.limbs| - 1);
    }
  }

  // ---- comparison ----

  /** cl_arith_compare; the first clause is for the magnitudes ABS gives, canonical or not. */
  method Compare(a: Integer, b: Integer) returns (c: int)
    requires (a.Fixnum? ==> FitsFixnum(a.v)) && (b.Fixnum? ==> FitsFixnum(b.v))
    ensures !Negative(a) && !Negative(b) ==> c == LimbOrder(LimbsOf(a), LimbsOf(b))
    ensures Canonical(a) && Canonical(b) ==> c == Sign(ToInt(a) - ToInt(b))
  {
    var al, bl := LimbsOf(a), LimbsOf(b);
    ValueShort(al, BASE);
    ValueShort(bl, BASE);
    if Canonical(a) { LimbsOfValue(a); }
    if Canonical(b) { LimbsOfValue(b); }
    if a.Fixnum? && b.Fixnum? {
      LongerIsLarger(al, bl);
      LongerIsLarger(bl, al);
      return if a.v < b.v then -1 else if a.v > b.v then 1 else 0;
    }
    if Negative(a) != Negative(b) {
      if al == [0] && bl == [0] { return 0; }
      return if Negative(a) then -1 else 1;
    }
    c := CompareMag(al, bl);
    if Negative(a) { c := -c; }
  }

  /** cl_bignum_equal: sign, length and limbs. On canonical objects that is numeric equality. */
  method BignumEqual(a: Integer, b: Integer) returns (same: bool)
    requires Canonical(a) && Canonical(b)
    ensures same <==> a.Bignum? && b.Bignum? && ToInt(a) == ToInt(b)
  {
    if !a.Bignum? || !b.Bignum? { return false; }
    ghost var equal := ToInt(a) == ToInt(b);
    if equal { CanonicalUnique(a, b); }
    if a.neg != b.neg { return false; }
    if |a.limbs| != |b.limbs| { return false; }
    for i := 0 to |a.limbs|
      invariant forall k :: 0 <= k < i ==> a.limbs[k] == b.limbs[k]
    {
      if a.limbs[i] != b.limbs[i] { return false; }
    }
    assert a.limbs == b.limbs;
    same := true;
  }

  predicate Zerop(x: Integer) { x.Fixnum? && x.v == 0 }

  predicate Minusp(x: Integer) { if x.Fixnum? then x.v < 0 else x.neg }

  predicate Evenp(x: Integer)
    requires x.Bignum? ==> x.limbs != []
  {
    if x.Fixnum? then x.v % 2 == 0 else x.limbs[0] % 2 == 0
  }

  lemma PredicateMeaning(x: Integer)
    requires Proper(x)
    ensures Zerop(x) <==> ToInt(x) == 0
    ensures Minusp(x) <==> ToInt(x) < 0
    ensures Evenp(x) <==> ToInt(x) % 2 == 0
  {
    if x.Bignum? {
      LimbsOfValue(x);
      Parity(x.limbs);
    }
  }

  lemma Parity(limbs: seq<Limb>)
    requires limbs != []
    ensures Mag(limbs) % 2 == limbs[0] % 2
  {
    ValueCons(limbs, BASE);
    hide Value;
    var rest := Value(limbs[1..], BASE);
    assert Mag(limbs) == limbs[0] + 2 * (0x8000 * rest);
  }

  // ---- addition and subtraction ----

  /** The path of operands or results beyond fixnums: subtraction is addition with the second
      sign flipped. */
  method AddSub(a: Integer, b: Integer, subtract: bool) returns (r: Integer)
    requires Canonical(a) && Canonical(b)
    ensures Canonical(r)
    ensures ToInt(r) == if subtract then ToInt(a) - ToInt(b) else ToInt(a) + ToInt(b)
  {
    LimbsOfValue(a);
    LimbsOfValue(b);
    var al, bl := LimbsOf(a), LimbsOf(b);
    var aNeg, bNeg := Negative(a), Negative(b);
    if subtract { bNeg := !bNeg; }
    var result := new Limb[Max(|al|, |bl|) + 1];
    var len: nat;
    if aNeg == bNeg {
      len := AddMag(al, bl, result);
      r := FromLimbs(result[..len], aNeg);
    } else {
      var cmp := CompareMag(al, bl);
      if cmp == 0 { return Fixnum(0); }
      LongerIsLarger(al, bl);
      LongerIsLarger(bl, al);
      if cmp > 0 {
        len := SubMag(al, bl, result);
        r := FromLimbs(result[..len], aNeg);
      } else {
        len := SubMag(bl, al, result);
        r := FromLimbs(result[..len], bNeg);
      }
    }
  }

  method Add(a: Integer, b: Integer) returns (r: Integer)
    requires Canonical(a) && Canonical(b)
    ensures Canonical(r) && ToInt(r) == ToInt(a) + ToInt(b)
  {
    if a.Fixnum? && b.Fixnum? {
      var sum: Int32 := a.v + b.v;
      if FIXNUM_MIN <= sum <= FIXNUM_MAX { return MakeFixnum(sum); }
    }
    r := AddSub(a, b, false);
  }

  method Sub(a: Integer, b: Integer) returns (r: Integer)
    requires Canonical(a) && Canonical(b)
    ensures Canonical(r) && ToInt(r) == ToInt(a) - ToInt(b)
  {
    if a.Fixnum? && b.Fixnum? {
      var diff: Int32 := a.v - b.v;
      if FIXNUM_MIN <= diff <= FIXNUM_MAX { return MakeFixnum(diff); }
    }
    r := AddSub(a, b, true);
  }
}
