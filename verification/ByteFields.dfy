/** LDB, DPB, MASK-FIELD, DEPOSIT-FIELD, BOOLE and the LOG* folds
    (src/core/builtins_arith.c). */
module ByteFields {
  import opened Digits
  import opened Integers
  import opened Arithmetic
  import opened Bits
  import opened BitOps
  import opened BitCounts
  import opened Shift

  // ---- bits of shifts and masks ----

  lemma BitOfLeftShift(n: int, k: nat, i: nat)
    ensures Bit(n * Pow(2, k), i) == (i >= k && Bit(n, i - k))
  {
    PowPositive(2, k);
    BitConcat(0, n, k, i);
    if i < k { BitOfZero(i); }
  }

  lemma BitOfRightShift(n: int, k: nat, i: nat)
    ensures Pow(2, k) > 0 && Bit(n / Pow(2, k), i) == Bit(n, i + k)
  {
    PowPositive(2, k);
    PowPositive(2, i);
    PowAdd(2, k, i);
    DivDiv(n, Pow(2, k), Pow(2, i));
  }

  lemma BitOfMask(k: nat, i: nat)
    ensures Bit(Pow(2, k) - 1, i) == (i < k)
  {
    PowPositive(2, k);
    BitComplement(-Pow(2, k), i);
    BitOfLeftShift(-1, k, i);
    if i >= k { BitHigh(-1, 0, i - k); }
  }

  // ---- what the four operations mean, bit by bit ----

  /** The field of `size` bits at `pos`. */
  predicate InField(size: nat, pos: nat, i: nat) { pos <= i < pos + size }

  /** LDB: the field, moved down. */
  ghost predicate IsByte(n: int, size: nat, pos: nat, r: int) {
    forall i: nat :: Bit(r, i) == (i < size && Bit(n, i + pos))
  }

  /** MASK-FIELD: the field, in place. */
  ghost predicate IsMasked(n: int, size: nat, pos: nat, r: int) {
    forall i: nat :: Bit(r, i) == (InField(size, pos, i) && Bit(n, i))
  }

  /** DPB: the low bits of `newbyte` put into the field, everything else kept. */
  ghost predicate IsDeposit(newbyte: int, n: int, size: nat, pos: nat, r: int) {
    forall i: nat :: Bit(r, i) == if InField(size, pos, i) then Bit(newbyte, i - pos) else Bit(n, i)
  }

  /** DEPOSIT-FIELD: the same field of `newbyte` put into the field. */
  ghost predicate IsFieldDeposit(newbyte: int, n: int, size: nat, pos: nat, r: int) {
    forall i: nat :: Bit(r, i) == if InField(size, pos, i) then Bit(newbyte, i) else Bit(n, i)
  }

  // ---- the laws ----

  /** LDB in arithmetic. */
  lemma ByteValue(n: int, size: nat, pos: nat, r: int)
    requires IsByte(n, size, pos, r)
    ensures Pow(2, size) > 0 && Pow(2, pos) > 0 && r == (n / Pow(2, pos)) % Pow(2, size)
  {
    hide Bit, Pow;
    PowPositive(2, size);
    PowPositive(2, pos);
    var low := (n / Pow(2, pos)) % Pow(2, size);
    forall i: nat ensures Bit(low, i) == Bit(r, i) {
      LowBits(n / Pow(2, pos), size, i);
      BitOfRightShift(n, pos, i);
    }
    SameBits(low, r);
  }

  lemma LowBits(m: int, size: nat, i: nat)
    ensures Pow(2, size) > 0 && Bit(m % Pow(2, size), i) == (i < size && Bit(m, i))
  {
    hide Bit, Pow;
    PowPositive(2, size);
    var q, low := m / Pow(2, size), m % Pow(2, size);
    BitSplit(m, low, q, Pow(2, size), size, i);
    if i >= size { BitHigh(low, size, i); }
  }

  /** LDB of a DPB gives the new byte modulo the field size. */
  lemma LdbOfDpb(newbyte: int, n: int, size: nat, pos: nat, d: int, r: int)
    requires IsDeposit(newbyte, n, size, pos, d) && IsByte(d, size, pos, r)
    ensures Pow(2, size) > 0 && r == newbyte % Pow(2, size)
  {
    hide Bit, Pow;
    forall i: nat ensures Bit(r, i) == (i < size && Bit(newbyte, i + 0)) {
      if i < size { assert InField(size, pos, i + pos); }
    }
    LowByte(newbyte, size, r);
  }

  lemma LowByte(n: int, size: nat, r: int)
    requires IsByte(n, size, 0, r)
    ensures Pow(2, size) > 0 && r == n % Pow(2, size)
  {
    ByteValue(n, size, 0, r);
    assert Pow(2, 0) == 1;
    hide Pow, IsByte;
    DivModUnique(n, 1, n, 0);
  }

  /** Depositing a field's own byte changes nothing. */
  lemma DpbOfLdb(n: int, size: nat, pos: nat, b: int, r: int)
    requires IsByte(n, size, pos, b) && IsDeposit(b, n, size, pos, r)
    ensures r == n
  {
    forall i: nat ensures Bit(r, i) == Bit(n, i) {
      if InField(size, pos, i) { assert Bit(b, i - pos) == Bit(n, i - pos + pos); }
    }
    SameBits(r, n);
  }

  /** The last of two deposits into one field wins. */
  lemma DpbOfDpb(x: int, y: int, n: int, size: nat, pos: nat, d: int, r: int, s: int)
    requires IsDeposit(x, n, size, pos, d) && IsDeposit(y, d, size, pos, r) && IsDeposit(y, n, size, pos, s)
    ensures r == s
  {
    SameBits(r, s);
  }

  /** MASK-FIELD is LDB put back in place. */
  lemma MaskFieldIsShiftedLdb(n: int, size: nat, pos: nat, b: int, r: int)
    requires IsByte(n, size, pos, b) && IsMasked(n, size, pos, r)
    ensures r == b * Pow(2, pos)
  {
    hide Bit, Pow;
    forall i: nat ensures Bit(r, i) == Bit(b * Pow(2, pos), i) {
      BitOfLeftShift(b, pos, i);
      if i >= pos { assert Bit(b, i - pos) == (i - pos < size && Bit(n, i - pos + pos)); }
    }
    SameBits(r, b * Pow(2, pos));
  }

  /** DEPOSIT-FIELD is DPB of the byte found at the same place. */
  lemma DepositFieldIsDpb(newbyte: int, n: int, size: nat, pos: nat, b: int, r: int, s: int)
    requires IsByte(newbyte, size, pos, b)
    requires IsDeposit(b, n, size, pos, r) && IsFieldDeposit(newbyte, n, size, pos, s)
    ensures r == s
  {
    forall i: nat ensures Bit(r, i) == Bit(s, i) {
      if InField(size, pos, i) { assert Bit(b, i - pos) == Bit(newbyte, i - pos + pos); }
    }
    SameBits(r, s);
  }

  /** DEPOSIT-FIELD and MASK-FIELD together split an integer. */
  lemma FieldsOfDepositField(newbyte: int, n: int, size: nat, pos: nat, r: int, m: int)
    requires IsFieldDeposit(newbyte, n, size, pos, r) && IsMasked(r, size, pos, m)
    ensures IsMasked(newbyte, size, pos, m)
  {
    forall i: nat ensures Bit(m, i) == (InField(size, pos, i) && Bit(newbyte, i)) {
      assert Bit(m, i) == (InField(size, pos, i) && Bit(r, i));
    }
  }

  // ---- the builtins ----

  /** A byte specifier is a cons of two integers. */
  datatype ByteSpec = ByteSpec(size: Integer, pos: Integer)

  /** The specifiers the language defines, short of bignum widths and positions. */
  ghost predicate Usual(spec: ByteSpec) {
    spec.size.Fixnum? && spec.size.v >= 0 && spec.pos.Fixnum? && spec.pos.v >= 0
    && Canonical(spec.size) && Canonical(spec.pos)
  }

  /** `(1 << size) - 1`. */
  method Mask(size: Integer) returns (r: Outcome<Integer>)
    requires Canonical(size)
    ensures size.Fixnum? && size.v >= 0 ==> r.Ok? && Canonical(r.value) && ToInt(r.value) == Pow(2, size.v) - 1
    ensures size.Bignum? && ToInt(size) > 0 ==> r == Signal(TypeError)
    ensures r.Ok? ==> Canonical(r.value)
  {
    var one := Ash(Fixnum(1), size);
    if one.Signal? { return Signal(TypeError); }
    var m := Sub(one.value, Fixnum(1));
    r := Ok(m);
  }

  /** The position LDB looks at: of a longer one NEGATE keeps what it can count. When it keeps no limb
      at all the count passes for a negative bignum, which shifts everything away. */
  function LdbPosition(pos: nat): nat {
    if LimbCount(pos) % BASE == 0 then pos else Kept(pos)
  }

  lemma LdbPositionExact(pos: nat)
    ensures LdbPosition(pos) == pos <==> LimbCount(pos) < BASE || LimbCount(pos) % BASE == 0
  {
    KeptExact(pos);
  }

  /** A bignum position lies beyond every number that can be stored. */
  ghost predicate Reachable(pos: Integer, n: Integer) { pos.Bignum? ==> IntLength(ToInt(n)) <= FIXNUM_MAX }

  method Ldb(spec: ByteSpec, n: Integer) returns (r: Outcome<Integer>)
    requires Canonical(n) && Canonical(spec.size) && Canonical(spec.pos)
    ensures spec.size.Fixnum? && spec.size.v >= 0 && ToInt(spec.pos) >= 0 && Reachable(spec.pos, n) ==>
      r.Ok? && Canonical(r.value) && IsByte(ToInt(n), spec.size.v, LdbPosition(ToInt(spec.pos)), ToInt(r.value))
    ensures spec.size.Bignum? && ToInt(spec.size) > 0 ==> r.Signal?
  {
    hide LimbCount, Kept, IntLength;
    var neg := Negate(spec.pos);
    PositionKept(spec.pos, neg);
    var shifted := Ash(n, neg);
    if shifted.Signal? { return Signal(TypeError); }
    var mask := Mask(spec.size);
    if mask.Signal? { return Signal(TypeError); }
    var b := LogOp(And, shifted.value, mask.value);
    if spec.size.Fixnum? && spec.size.v >= 0 && ToInt(spec.pos) >= 0 {
      var p := LdbPosition(ToInt(spec.pos));
      if neg.Fixnum? {
        LdbBits(ToInt(n), spec.size.v, p, ToInt(b));
      } else if IntLength(ToInt(n)) <= p {
        FarByte(ToInt(n), spec.size.v, p, ToInt(b));
      }
    }
    r := Ok(b);
  }

  lemma PositionKept(pos: Integer, neg: Integer)
    requires Canonical(pos) && ToInt(neg) == KeptNegate(ToInt(pos))
    requires if LimbCount(Abs(ToInt(pos))) % BASE == 0 then neg == Bignum(ToInt(pos) > 0, []) else Canonical(neg)
    ensures pos.Fixnum? ==> neg.Fixnum? || pos.v < 0
    ensures ToInt(pos) >= 0 ==>
      && (neg.Fixnum? ==> neg.v == 0 - LdbPosition(ToInt(pos)))
      && (neg.Bignum? ==> neg.neg && LdbPosition(ToInt(pos)) > FIXNUM_MAX)
  {
    KeptExact(Abs(ToInt(pos)));
    hide Kept;
    if pos.Fixnum? { LimbsOfValue(pos); LimbCountOf(LimbsOf(pos)); }
    if pos.Bignum? { LimbsOfValue(pos); }
    if neg.Bignum? && neg.limbs != [] { LimbsOfValue(neg); }
  }

  /** Beyond the length of a number there is only its sign. */
  lemma FarByte(n: int, size: nat, pos: nat, r: int)
    requires IntLength(n) <= pos && Combines(And, if n < 0 then -1 else 0, Pow(2, size) - 1, r)
    ensures IsByte(n, size, pos, r)
  {
    IntLengthLeast(n, IntLength(n));
    hide Bit, Pow, IntLength;
    forall i: nat ensures Bit(r, i) == (i < size && Bit(n, i + pos)) {
      BitOfMask(size, i);
      BitHigh(n, IntLength(n), i + pos);
      BitOfSign(n, i);
      assert Bit(r, i) == Apply(And, Bit(if n < 0 then -1 else 0, i), Bit(Pow(2, size) - 1, i));
    }
  }

  lemma BitOfSign(n: int, i: nat)
    ensures Bit(if n < 0 then -1 else 0, i) == (n < 0)
  {
    if n < 0 { BitComplement(0, i); }
    BitOfZero(i);
  }

  lemma LdbBits(n: int, size: nat, pos: nat, r: int)
    requires Combines(And, Shifted(n, 0 - pos), Pow(2, size) - 1, r)
    ensures IsByte(n, size, pos, r)
  {
    RightShiftMeaning(n, pos);
    hide Bit, Pow, Shifted;
    forall i: nat ensures Bit(r, i) == (i < size && Bit(n, i + pos)) {
      BitOfMask(size, i);
      BitOfRightShift(n, pos, i);
      assert Bit(r, i) == Apply(And, Bit(Shifted(n, 0 - pos), i), Bit(Pow(2, size) - 1, i));
    }
  }

  lemma RightShiftMeaning(n: int, pos: nat)
    ensures Pow(2, pos) > 0 && Shifted(n, 0 - pos) == n / Pow(2, pos)
  {
    PowPositive(2, pos);
  }

  /** The mask at the field and its complement. */
  lemma FieldMaskBit(size: nat, pos: nat, i: nat)
    ensures Bit((Pow(2, size) - 1) * Pow(2, pos), i) == InField(size, pos, i)
  {
    BitOfLeftShift(Pow(2, size) - 1, pos, i);
    if i >= pos { BitOfMask(size, i - pos); }
  }

  method Dpb(newbyte: Integer, spec: ByteSpec, n: Integer) returns (r: Outcome<Integer>)
    requires Canonical(newbyte) && Canonical(n) && Canonical(spec.size) && Canonical(spec.pos)
    ensures Usual(spec) ==>
      r.Ok? && Canonical(r.value) && IsDeposit(ToInt(newbyte), ToInt(n), spec.size.v, spec.pos.v, ToInt(r.value))
    ensures spec.size.Bignum? && ToInt(spec.size) > 0 ==> r.Signal?
  {
    var mask := Mask(spec.size);
    if mask.Signal? { return Signal(TypeError); }
    var shiftedMask := Ash(mask.value, spec.pos);
    if shiftedMask.Signal? { return Signal(TypeError); }
    var notMask := LogNot(shiftedMask.value);
    var cleared := LogOp(And, n, notMask);
    var low := LogOp(And, newbyte, mask.value);
    var newBits := Ash(low, spec.pos);
    if newBits.Signal? { return Signal(TypeError); }
    var d := LogOp(Ior, cleared, newBits.value);
    if spec.size.Fixnum? && spec.size.v >= 0 && spec.pos.Fixnum? && spec.pos.v >= 0 {
      DpbBits(ToInt(newbyte), ToInt(n), spec.size.v, spec.pos.v, ToInt(notMask), ToInt(cleared), ToInt(low), ToInt(d));
    }
    r := Ok(d);
  }

  lemma DpbBits(newbyte: int, n: int, size: nat, pos: nat, notMask: int, cleared: int, low: int, r: int)
    requires notMask == -1 - (Pow(2, size) - 1) * Pow(2, pos)
    requires Combines(And, n, notMask, cleared) && Combines(And, newbyte, Pow(2, size) - 1, low)
    requires Combines(Ior, cleared, low * Pow(2, pos), r)
    ensures IsDeposit(newbyte, n, size, pos, r)
  {
    hide Bit, Pow;
    forall i: nat ensures Bit(r, i) == if InField(size, pos, i) then Bit(newbyte, i - pos) else Bit(n, i) {
      BitComplement((Pow(2, size) - 1) * Pow(2, pos), i);
      FieldMaskBit(size, pos, i);
      BitOfLeftShift(low, pos, i);
      if i >= pos {
        assert Bit(low, i - pos) == Apply(And, Bit(newbyte, i - pos), Bit(Pow(2, size) - 1, i - pos));
        BitOfMask(size, i - pos);
      }
      assert Bit(cleared, i) == Apply(And, Bit(n, i), Bit(notMask, i));
      assert Bit(r, i) == Apply(Ior, Bit(cleared, i), Bit(low * Pow(2, pos), i));
    }
  }

  method MaskField(spec: ByteSpec, n: Integer) returns (r: Outcome<Integer>)
    requires Canonical(n) && Canonical(spec.size) && Canonical(spec.pos)
    ensures Usual(spec) ==> r.Ok? && Canonical(r.value) && IsMasked(ToInt(n), spec.size.v, spec.pos.v, ToInt(r.value))
    ensures spec.size.Bignum? && ToInt(spec.size) > 0 ==> r.Signal?
  {
    var mask := Mask(spec.size);
    if mask.Signal? { return Signal(TypeError); }
    var shiftedMask := Ash(mask.value, spec.pos);
    if shiftedMask.Signal? { return Signal(TypeError); }
    var m := LogOp(And, n, shiftedMask.value);
    if spec.size.Fixnum? && spec.size.v >= 0 && spec.pos.Fixnum? && spec.pos.v >= 0 {
      MaskBits(ToInt(n), spec.size.v, spec.pos.v, ToInt(m));
    }
    r := Ok(m);
  }

  lemma MaskBits(n: int, size: nat, pos: nat, r: int)
    requires Combines(And, n, (Pow(2, size) - 1) * Pow(2, pos), r)
    ensures IsMasked(n, size, pos, r)
  {
    hide Bit, Pow;
    forall i: nat ensures Bit(r, i) == (InField(size, pos, i) && Bit(n, i)) {
      FieldMaskBit(size, pos, i);
      assert Bit(r, i) == Apply(And, Bit(n, i), Bit((Pow(2, size) - 1) * Pow(2, pos), i));
    }
  }

  method DepositField(newbyte: Integer, spec: ByteSpec, n: Integer) returns (r: Outcome<Integer>)
    requires Canonical(newbyte) && Canonical(n) && Canonical(spec.size) && Canonical(spec.pos)
    ensures Usual(spec) ==>
      r.Ok? && Canonical(r.value) && IsFieldDeposit(ToInt(newbyte), ToInt(n), spec.size.v, spec.pos.v, ToInt(r.value))
    ensures spec.size.Bignum? && ToInt(spec.size) > 0 ==> r.Signal?
  {
    var mask := Mask(spec.size);
    if mask.Signal? { return Signal(TypeError); }
    var shiftedMask := Ash(mask.value, spec.pos);
    if shiftedMask.Signal? { return Signal(TypeError); }
    var notMask := LogNot(shiftedMask.value);
    var cleared := LogOp(And, n, notMask);
    var newBits := LogOp(And, newbyte, shiftedMask.value);
    var d := LogOp(Ior, cleared, newBits);
    if spec.size.Fixnum? && spec.size.v >= 0 && spec.pos.Fixnum? && spec.pos.v >= 0 {
      DepositBits(ToInt(newbyte), ToInt(n), spec.size.v, spec.pos.v, ToInt(notMask), ToInt(cleared), ToInt(newBits),
        ToInt(d));
    }
    r := Ok(d);
  }

  lemma DepositBits(newbyte: int, n: int, size: nat, pos: nat, notMask: int, cleared: int, newBits: int, r: int)
    requires notMask == -1 - (Pow(2, size) - 1) * Pow(2, pos)
    requires Combines(And, n, notMask, cleared) && Combines(And, newbyte, (Pow(2, size) - 1) * Pow(2, pos), newBits)
    requires Combines(Ior, cleared, newBits, r)
    ensures IsFieldDeposit(newbyte, n, size, pos, r)
  {
    hide Bit, Pow;
    forall i: nat ensures Bit(r, i) == if InField(size, pos, i) then Bit(newbyte, i) else Bit(n, i) {
      BitComplement((Pow(2, size) - 1) * Pow(2, pos), i);
      FieldMaskBit(size, pos, i);
      assert Bit(newBits, i) == Apply(And, Bit(newbyte, i), Bit((Pow(2, size) - 1) * Pow(2, pos), i));
      assert Bit(cleared, i) == Apply(And, Bit(n, i), Bit(notMask, i));
      assert Bit(r, i) == Apply(Ior, Bit(cleared, i), Bit(newBits, i));
    }
  }

  // ---- BOOLE ----

  /** The sixteen operations of section 12.2 of the Common Lisp HyperSpec, by number. */
  predicate BooleBit(op: int, p: bool, q: bool)
    requires 0 <= op <= 15
  {
    match op
    case 0 => false
    case 1 => true
    case 2 => p
    case 3 => q
    case 4 => !p
    case 5 => !q
    case 6 => p && q
    case 7 => p || q
    case 8 => p != q
    case 9 => p == q
    case 10 => !(p && q)
    case 11 => !(p || q)
    case 12 => !p && q
    case 13 => p && !q
    case 14 => !p || q
    case _ => p || !q
  }

  method Boole(op: Integer, a: Integer, b: Integer) returns (r: Outcome<Integer>)
    requires Canonical(op) && Canonical(a) && Canonical(b)
    ensures r.Ok? <==> 0 <= ToInt(op) <= 15
    ensures r.Ok? ==> Canonical(r.value)
    ensures r.Ok? ==> forall i: nat :: Bit(ToInt(r.value), i) == BooleBit(ToInt(op), Bit(ToInt(a), i), Bit(ToInt(b), i))
  {
    if op.Bignum? { return Signal(TypeError); }
    if !(0 <= op.v <= 15) { return Signal(TypeError); }
    var v := BooleOp(op.v, a, b);
    r := Ok(v);
  }

  method BooleOp(op: int, a: Integer, b: Integer) returns (r: Integer)
    requires Canonical(a) && Canonical(b) && 0 <= op <= 15
    ensures Canonical(r)
    ensures forall i: nat :: Bit(ToInt(r), i) == BooleBit(op, Bit(ToInt(a), i), Bit(ToInt(b), i))
  {
    match op {
      case 0 => r := Fixnum(0); forall i: nat ensures !Bit(0, i) { BitOfZero(i); }
      case 1 => r := Fixnum(-1); forall i: nat ensures Bit(-1, i) { BitHigh(-1, 0, i); }
      case 2 => r := a;
      case 3 => r := b;
      case 4 => r := LogNot(a);
      case 5 => r := LogNot(b);
      case 6 => r := LogOp(And, a, b);
      case 7 => r := LogOp(Ior, a, b);
      case 8 => r := LogOp(Xor, a, b);
      case 9 => var t := LogOp(Xor, a, b); r := LogNot(t);
      case 10 => var t := LogOp(And, a, b); r := LogNot(t);
      case 11 => var t := LogOp(Ior, a, b); r := LogNot(t);
      case 12 => var t := LogNot(a); r := LogOp(And, t, b);
      case 13 => var t := LogNot(b); r := LogOp(And, a, t);
      case 14 => var t := LogNot(a); r := LogOp(Ior, t, b);
      case _ => var t := LogNot(b); r := LogOp(Ior, a, t);
    }
  }

  // ---- the folds ----

  /** A bit of (LOGAND ...), (LOGIOR ...) and (LOGXOR ...): all, some, or an odd number set. */
  ghost predicate FoldBit(op: BitOp, args: seq<Integer>, i: nat) {
    match op
    case And => forall k :: 0 <= k < |args| ==> Bit(ToInt(args[k]), i)
    case Ior => exists k :: 0 <= k < |args| && Bit(ToInt(args[k]), i)
    case Xor => SetCount(args, i) % 2 == 1
  }

  ghost function SetCount(args: seq<Integer>, i: nat): nat {
    if args == [] then 0
    else SetCount(args[..|args| - 1], i) + (if Bit(ToInt(args[|args| - 1]), i) then 1 else 0)
  }

  lemma FoldStep(op: BitOp, args: seq<Integer>, x: Integer, i: nat)
    ensures FoldBit(op, args + [x], i) == Apply(op, FoldBit(op, args, i), Bit(ToInt(x), i))
  {
    var all := args + [x];
    assert all[|all| - 1] == x && all[..|all| - 1] == args;
    assert forall k :: 0 <= k < |args| ==> all[k] == args[k];
  }

  method LogFold(op: BitOp, args: seq<Integer>) returns (r: Integer)
    requires forall k :: 0 <= k < |args| ==> Canonical(args[k])
    ensures Canonical(r)
    ensures forall i: nat :: Bit(ToInt(r), i) == FoldBit(op, args, i)
  {
    r := if op.And? then Fixnum(-1) else Fixnum(0);
    forall i: nat ensures Bit(ToInt(r), i) == FoldBit(op, args[..0], i) {
      if op.And? { BitHigh(-1, 0, i); } else { BitOfZero(i); }
    }
    hide FoldBit, Bit;
    for k := 0 to |args|
      invariant Canonical(r)
      invariant forall i: nat :: Bit(ToInt(r), i) == FoldBit(op, args[..k], i)
    {
      ghost var before := r;
      r := LogOp(op, r, args[k]);
      assert args[..k + 1] == args[..k] + [args[k]];
      forall i: nat ensures Bit(ToInt(r), i) == FoldBit(op, args[..k + 1], i) {
        FoldStep(op, args[..k], args[k], i);
        assert Bit(ToInt(r), i) == Apply(op, Bit(ToInt(before), i), Bit(ToInt(args[k]), i));
      }
    }
    assert args[..|args|] == args;
  }
}
