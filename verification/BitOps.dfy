/** The bitwise operations on Lisp integers (src/core/bignum.c): two's complement limb buffers
    seen as infinite bit strings. */
module BitOps {
  import opened Digits
  import opened Magnitude
  import opened Integers
  import opened Arithmetic
  import opened Bits

  datatype BitOp = And | Ior | Xor

  predicate Apply(op: BitOp, p: bool, q: bool) {
    match op
    case And => p && q
    case Ior => p || q
    case Xor => p != q
  }

  /** `r` is the bitwise combination of `x` and `y`, at every one of infinitely many indices. */
  ghost predicate Combines(op: BitOp, x: int, y: int, r: int) {
    forall i: nat :: Bit(r, i) == Apply(op, Bit(x, i), Bit(y, i))
  }

  /** The C operators & | ^ on n-bit words, extended by the sign bit for negative operands. */
  function WordOp(op: BitOp, x: int, y: int, n: nat): int
    decreases n
  {
    if n == 0 then
      if Apply(op, x < 0, y < 0) then -1 else 0
    else
      (if Apply(op, x % 2 == 1, y % 2 == 1) then 1 else 0) + 2 * WordOp(op, x / 2, y / 2, n - 1)
  }

  lemma {:induction false} WordOpRange(op: BitOp, x: int, y: int, n: nat)
    ensures -Pow(2, n) <= WordOp(op, x, y, n) < Pow(2, n)
    ensures x >= 0 && y >= 0 ==> WordOp(op, x, y, n) >= 0
    decreases n
  {
    if n > 0 { WordOpRange(op, x / 2, y / 2, n - 1); }
  }

  lemma {:induction false} WordOpBit(op: BitOp, x: int, y: int, n: nat, i: nat)
    requires -Pow(2, n) <= x < Pow(2, n) && -Pow(2, n) <= y < Pow(2, n)
    ensures Bit(WordOp(op, x, y, n), i) == Apply(op, Bit(x, i), Bit(y, i))
    decreases n
  {
    if n == 0 {
      BitHigh(x, 0, i);
      BitHigh(y, 0, i);
      BitHigh(WordOp(op, x, y, 0), 0, i);
    } else {
      var r := WordOp(op, x / 2, y / 2, n - 1);
      var low := if Apply(op, x % 2 == 1, y % 2 == 1) then 1 else 0;
      assert (low + 2 * r) / 2 == r && (low + 2 * r) % 2 == low;
      if i == 0 {
        BitZero(x);
        BitZero(y);
        BitZero(low + 2 * r);
      } else {
        BitSucc(x, i - 1);
        BitSucc(y, i - 1);
        BitSucc(low + 2 * r, i - 1);
        WordOpBit(op, x / 2, y / 2, n - 1, i - 1);
      }
    }
  }

  // ---- limb buffers as two's complement ----

  /** The integer a limb buffer denotes when its top bit is the sign. */
  ghost function TwosValue(s: seq<Limb>): int
    requires s != []
  {
    if s[|s| - 1] >= 0x8000 then Mag(s) - Pow(BASE, |s|) else Mag(s)
  }

  lemma LimbBit(s: seq<Limb>, k: nat, j: nat)
    requires k < |s| && j < 16
    ensures Bit(Mag(s), 16 * k + j) == Bit(s[k], j)
  {
    hide Value, Pow, Bit;
    ValueSplit(s, k, BASE);
    ValueCons(s[k..], BASE);
    ValueBound(s[..k], BASE);
    PowBase(k);
    TwoToSixteen();
    BitSplit(Mag(s), Value(s[..k], BASE), Value(s[k..], BASE), Pow(BASE, k), 16 * k, 16 * k + j);
    BitSplit(Value(s[k..], BASE), s[k], Value(s[k..][1..], BASE), BASE, 16, j);
  }

  lemma TwoToSixteen()
    ensures Pow(2, 15) == 0x8000 && Pow(2, 16) == BASE
  {
    PowBase(1);
    PowStep(BASE, 0);
    PowStep(2, 15);
  }

  lemma TwosBit(s: seq<Limb>, i: nat)
    requires s != []
    ensures i < 16 * |s| ==> Bit(TwosValue(s), i) == Bit(s[i / 16], i % 16)
    ensures i >= 16 * |s| ==> Bit(TwosValue(s), i) == (s[|s| - 1] >= 0x8000)
    ensures (s[|s| - 1] >= 0x8000) == Bit(s[|s| - 1], 15)
  {
    hide Value, Pow, Bit;
    PowBase(|s|);
    if i < 16 * |s| {
      LowTwosBit(s, i);
    } else {
      HighTwosBit(s, i);
    }
    TopBit(s[|s| - 1]);
  }

  lemma LowTwosBit(s: seq<Limb>, i: nat)
    requires i < 16 * |s|
    ensures Bit(TwosValue(s), i) == Bit(s[i / 16], i % 16)
  {
    hide Value, Pow, Bit;
    PowBase(|s|);
    LimbBit(s, i / 16, i % 16);
    if s[|s| - 1] >= 0x8000 {
      BitSplit(TwosValue(s), Mag(s), -1, Pow(BASE, |s|), 16 * |s|, i);
    }
  }

  lemma HighTwosBit(s: seq<Limb>, i: nat)
    requires s != [] && i >= 16 * |s|
    ensures Bit(TwosValue(s), i) == (s[|s| - 1] >= 0x8000)
  {
    PowBase(|s|);
    BitHigh(TwosValue(s), 16 * |s|, i);
  }

  lemma TopBit(x: Limb)
    ensures Bit(x, 15) == (x >= 0x8000)
  {
    TwoToSixteen();
    assert x / 0x8000 == if x >= 0x8000 then 1 else 0;
  }

  // ---- invert and add one ----

  ghost predicate Inverted(s: seq<Limb>, i: nat, done: seq<Limb>, carry: int) {
    i <= |s| && |done| == i && Value(done, BASE) + carry * Pow(BASE, i) == Pow(BASE, i) - Value(s[..i], BASE)
  }

  lemma InvertStep(s: seq<Limb>, i: nat, done: seq<Limb>, carry: int, val: int)
    requires Inverted(s, i, done, carry) && i < |s| && val == 0xFFFF - s[i] + carry
    ensures Inverted(s, i + 1, done + [val % BASE], val / BASE)
  {
    PowStep(BASE, i);
    ValueSnoc(done, val % BASE, BASE);
    ValuePrefix(s, i, BASE);
    CarryStep(0xFFFF - s[i], 0, carry, val % BASE, val / BASE, BASE, Pow(BASE, i), Pow(BASE, i + 1));
    MulDistribute(Pow(BASE, i), 0xFFFF, s[i]);
  }

  /** Two's complement negation of a limb buffer: `(buf[i] ^ 0xFFFF) + carry`. */
  method InvertAddOne(s: seq<Limb>) returns (r: seq<Limb>)
    requires Mag(s) > 0
    ensures |r| == |s| && Mag(r) == Pow(BASE, |s|) - Mag(s)
  {
    var buf := new Limb[|s|];
    var carry: Word32, i := 1, 0;
    ghost var done: seq<Limb> := [];
    assert s[..0] == [] && Inverted(s, 0, done, 1);
    hide Inverted, Value, Pow, Mag;
    while i < |s|
      invariant 0 <= i <= |s| && carry <= 1 && done == buf[..i]
      invariant Inverted(s, i, done, carry)
    {
      var val: Word32 := 0xFFFF - s[i] + carry;
      InvertStep(s, i, done, carry, val);
      buf[i] := val % BASE;
      carry := val / BASE;
      done := done + [val % BASE];
      i := i + 1;
    }
    InvertEnd(s, done, carry);
    r := buf[..];
    assert r == done;
  }

  lemma InvertEnd(s: seq<Limb>, done: seq<Limb>, carry: Word32)
    requires Inverted(s, |s|, done, carry) && carry <= 1 && Mag(s) > 0
    ensures Mag(done) == Pow(BASE, |s|) - Mag(s)
  {
    assert s[..|s|] == s;
    ValueBound(done, BASE);
  }

  /** to_twos_complement: one limb more than the magnitude, for the sign. */
  method ToTwosComplement(x: Integer) returns (buf: seq<Limb>)
    requires Canonical(x)
    ensures |buf| == |LimbsOf(x)| + 1 && TwosValue(buf) == ToInt(x)
    ensures (buf[|buf| - 1] >= 0x8000) == Negative(x)
  {
    LimbsOfValue(x);
    var limbs := LimbsOf(x);
    buf := limbs + [0];
    ValueSnoc(limbs, 0, BASE);
    if Negative(x) {
      buf := InvertAddOne(buf);
      NegativeTop(limbs, buf);
    }
  }

  lemma NegativeTop(limbs: seq<Limb>, buf: seq<Limb>)
    requires |buf| == |limbs| + 1 && Mag(buf) == Pow(BASE, |buf|) - Mag(limbs)
    ensures buf[|limbs|] >= 0x8000
  {
    var n := |limbs|;
    PowStep(BASE, n);
    ValuePrefix(buf, n, BASE);
    assert buf[..n + 1] == buf;
    ValueBound(buf[..n], BASE);
    ValueBound(limbs, BASE);
    hide Value, Pow;
    if buf[n] < 0x8000 { MulMonotone(buf[n], 0x7FFF, Pow(BASE, n)); }
  }

  /** from_twos_complement. */
  method FromTwosComplement(buf: seq<Limb>) returns (r: Integer)
    requires buf != []
    ensures Canonical(r) && ToInt(r) == TwosValue(buf)
  {
    if buf[|buf| - 1] < 0x8000 {
      r := FromLimbs(buf, false);
    } else {
      ValueTop(buf, BASE);
      PowPositive(BASE, |buf| - 1);
      var tmp := InvertAddOne(buf);
      r := FromLimbs(tmp, true);
    }
  }

  // ---- LOGAND, LOGIOR, LOGXOR ----

  /** The limb of a buffer at position `i`, sign-extended past its end. */
  function Extended(s: seq<Limb>, neg: bool, i: nat): Limb {
    if i < |s| then s[i] else if neg then 0xFFFF else 0
  }

  /** A sign-extended limb shows the integer's own bits. */
  lemma ExtendedBit(s: seq<Limb>, i: nat, j: nat)
    requires s != [] && j < 16
    ensures Bit(Extended(s, s[|s| - 1] >= 0x8000, i), j) == Bit(TwosValue(s), 16 * i + j)
  {
    hide Bit, TwosValue;
    var k := 16 * i + j;
    TwosBit(s, k);
    if i >= |s| {
      AllOnes(j);
      BitOfZero(j);
    }
  }

  lemma AllOnes(j: nat)
    requires j < 16
    ensures Bit(0xFFFF, j)
  {
    TwoToSixteen();
    BitConcat(0xFFFF, -1, 16, j);
    BitHigh(-1, 0, j);
  }

  method LogBuffers(op: BitOp, ba: seq<Limb>, bb: seq<Limb>, aNeg: bool, bNeg: bool) returns (r: seq<Limb>)
    requires ba != [] && bb != []
    requires aNeg == (ba[|ba| - 1] >= 0x8000) && bNeg == (bb[|bb| - 1] >= 0x8000)
    ensures r != [] && Combines(op, TwosValue(ba), TwosValue(bb), TwosValue(r))
  {
    hide Combines, TwosValue, WordOp;
    var n := Max(|ba|, |bb|);
    var result := new Limb[n];
    var i := 0;
    while i < n
      invariant 0 <= i <= n
      invariant forall k :: 0 <= k < i ==> result[k] == WordOp(op, Extended(ba, aNeg, k), Extended(bb, bNeg, k), 16)
    {
      var av, bv := Extended(ba, aNeg, i), Extended(bb, bNeg, i);
      LimbOp(op, av, bv, 0);
      result[i] := WordOp(op, av, bv, 16);
      i := i + 1;
    }
    r := result[..];
    ResultBits(op, ba, bb, r);
  }

  lemma ResultBits(op: BitOp, ba: seq<Limb>, bb: seq<Limb>, r: seq<Limb>)
    requires ba != [] && bb != [] && |r| == Max(|ba|, |bb|)
    requires forall k :: 0 <= k < |r| ==>
      r[k] == WordOp(op, Extended(ba, ba[|ba| - 1] >= 0x8000, k), Extended(bb, bb[|bb| - 1] >= 0x8000, k), 16)
    ensures Combines(op, TwosValue(ba), TwosValue(bb), TwosValue(r))
  {
    forall i: nat ensures Bit(TwosValue(r), i) == Apply(op, Bit(TwosValue(ba), i), Bit(TwosValue(bb), i)) {
      ResultBit(op, ba, bb, r, i);
    }
  }

  lemma LimbOp(op: BitOp, x: Limb, y: Limb, j: nat)
    ensures 0 <= WordOp(op, x, y, 16) < BASE
    ensures Bit(WordOp(op, x, y, 16), j) == Apply(op, Bit(x, j), Bit(y, j))
  {
    TwoToSixteen();
    WordOpRange(op, x, y, 16);
    WordOpBit(op, x, y, 16, j);
  }

  lemma ResultBit(op: BitOp, ba: seq<Limb>, bb: seq<Limb>, r: seq<Limb>, i: nat)
    requires ba != [] && bb != [] && |r| == Max(|ba|, |bb|)
    requires forall k :: 0 <= k < |r| ==>
      r[k] == WordOp(op, Extended(ba, ba[|ba| - 1] >= 0x8000, k), Extended(bb, bb[|bb| - 1] >= 0x8000, k), 16)
    ensures Bit(TwosValue(r), i) == Apply(op, Bit(TwosValue(ba), i), Bit(TwosValue(bb), i))
  {
    hide WordOp, Bit, TwosValue, Extended;
    var k := if i < 16 * |r| then i / 16 else |r| - 1;
    var j := if i < 16 * |r| then i % 16 else 15;
    TwosBit(r, i);
    TwosBit(r, 16 * k + j);
    LimbOp(op, Extended(ba, ba[|ba| - 1] >= 0x8000, k), Extended(bb, bb[|bb| - 1] >= 0x8000, k), j);
    ExtendedBit(ba, k, j);
    ExtendedBit(bb, k, j);
    SignRepeats(ba, i, 16 * k + j);
    SignRepeats(bb, i, 16 * k + j);
  }

  /** From the top bit of a buffer on, all bits are the sign. */
  lemma SignRepeats(s: seq<Limb>, i: nat, k: nat)
    requires s != [] && (i == k || (k <= i && 16 * |s| - 1 <= k))
    ensures Bit(TwosValue(s), i) == Bit(TwosValue(s), k)
  {
    TwosBit(s, i);
    TwosBit(s, k);
  }

  method LogOp(op: BitOp, a: Integer, b: Integer) returns (r: Integer)
    requires Canonical(a) && Canonical(b)
    ensures Canonical(r) && Combines(op, ToInt(a), ToInt(b), ToInt(r))
  {
    hide Combines, TwosValue, WordOp;
    if a.Fixnum? && b.Fixnum? {
      FixnumOp(op, a.v, b.v);
      return MakeFixnum(WordOp(op, a.v, b.v, 31));
    }
    var ba := ToTwosComplement(a);
    var bb := ToTwosComplement(b);
    var buf := LogBuffers(op, ba, bb, Negative(a), Negative(b));
    r := FromTwosComplement(buf);
  }

  /** Bits 30 and 31 of a fixnum's word agree, so they agree in the result: it is a fixnum. */
  lemma FixnumOp(op: BitOp, x: int, y: int)
    requires FitsFixnum(x) && FitsFixnum(y)
    ensures FitsFixnum(WordOp(op, x, y, 31)) && Combines(op, x, y, WordOp(op, x, y, 31))
  {
    TwoToThirty();
    forall i: nat
      ensures Bit(WordOp(op, x, y, 31), i) == Apply(op, Bit(x, i), Bit(y, i))
      ensures Bit(WordOp(op, x, y, 31), i) == Bit(WordOp(op, x, y, 30), i)
    {
      WordOpBit(op, x, y, 31, i);
      WordOpBit(op, x, y, 30, i);
    }
    SameBits(WordOp(op, x, y, 31), WordOp(op, x, y, 30));
    WordOpRange(op, x, y, 30);
  }

  lemma TwoToThirty()
    ensures Pow(2, 30) == 0x4000_0000 && Pow(2, 31) == 0x8000_0000
  {
    TwoToSixteen();
    PowAdd(2, 15, 15);
    PowStep(2, 30);
  }

  /** The bits fix the result: it is the one integer whose bits are combined this way. */
  lemma LogOpUnique(op: BitOp, a: Integer, b: Integer, r: Integer, s: Integer)
    requires Canonical(r) && Canonical(s)
    requires Combines(op, ToInt(a), ToInt(b), ToInt(r))
    requires Combines(op, ToInt(a), ToInt(b), ToInt(s))
    ensures r == s
  {
    SameBits(ToInt(r), ToInt(s));
    CanonicalUnique(r, s);
  }

  method LogNot(a: Integer) returns (r: Integer)
    requires Canonical(a)
    ensures Canonical(r) && ToInt(r) == -1 - ToInt(a)
    ensures forall i: nat :: Bit(ToInt(r), i) == !Bit(ToInt(a), i)
  {
    r := Sub(Fixnum(-1), a);
    forall i: nat ensures Bit(ToInt(r), i) == !Bit(ToInt(a), i) {
      BitComplement(ToInt(a), i);
    }
  }

  // ---- hashing ----

  /** h = ((h << 5) | (h >> 27)) ^ limb, on 32 bits. */
  function HashStep(h: int, limb: int): int {
    WordOp(Xor, h * 32 % BASE32 + h / 0x800_0000, limb, 32)
  }

  function HashLimbs(h: int, limbs: seq<Limb>): int {
    if limbs == [] then h else HashStep(HashLimbs(h, limbs[..|limbs| - 1]), limbs[|limbs| - 1])
  }

  /** cl_bignum_hash. */
  method BignumHash(x: Integer) returns (h: int)
    requires x.Bignum?
    ensures h == HashLimbs(HashStep(0, if x.neg then 1 else 0), x.limbs)
  {
    hide HashStep;
    h := HashStep(0, if x.neg then 1 else 0);
    ghost var start := h;
    for i := 0 to |x.limbs|
      invariant h == HashLimbs(start, x.limbs[..i])
    {
      assert x.limbs[..i + 1][..i] == x.limbs[..i];
      h := HashStep(h, x.limbs[i]);
    }
    assert x.limbs[..|x.limbs|] == x.limbs;
  }

  /** Equal values hash equally. */
  lemma EqualHash(x: Integer, y: Integer)
    requires Canonical(x) && Canonical(y) && x.Bignum? && y.Bignum? && ToInt(x) == ToInt(y)
    ensures HashLimbs(HashStep(0, if x.neg then 1 else 0), x.limbs)
         == HashLimbs(HashStep(0, if y.neg then 1 else 0), y.limbs)
  {
    hide HashLimbs, HashStep;
    CanonicalUnique(x, y);
  }
}
