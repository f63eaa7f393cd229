/** Packed bit vectors (src/core/types.h, src/core/builtins_bitvector.c, src/core/builtins_array.c,
    src/core/builtins.c): 32-bit words, least significant bit first, and nothing set past the
    length. That last fact is what lets whole words be compared. */
module BitVectors {
  import opened Digits
  import opened Integers
  import opened Bits
  import opened BitOps

  const NO_FILL: int := 0xFFFF_FFFF

  datatype Operation =
    BitAnd | BitIor | BitXor | BitEqv | BitNand | BitNor | BitAndC1 | BitAndC2 | BitOrC1 | BitOrC2

  /** The truth table of each operation. */
  predicate Truth(op: Operation, p: bool, q: bool) {
    match op
    case BitAnd => p && q
    case BitIor => p || q
    case BitXor => p != q
    case BitEqv => p == q
    case BitNand => !(p && q)
    case BitNor => !(p || q)
    case BitAndC1 => !p && q
    case BitAndC2 => p && !q
    case BitOrC1 => !p || q
    case BitOrC2 => p || !q
  }

  // ---- 32-bit words ----

  lemma TwoTo32()
    ensures Pow(2, 32) == 0x1_0000_0000
  {
    PowAdd(2, 16, 16);
    TwoToSixteen();
  }

  /** ~x. */
  function Complement(x: Word32): Word32 { 0xFFFF_FFFF - x }

  /** x & y, x | y, x ^ y. */
  function Both(op: BitOp, x: Word32, y: Word32): Word32 {
    WordOpRange(op, x, y, 32);
    TwoTo32();
    WordOp(op, x, y, 32)
  }

  function WordResult(op: Operation, x: Word32, y: Word32): Word32 {
    match op
    case BitAnd => Both(And, x, y)
    case BitIor => Both(Ior, x, y)
    case BitXor => Both(Xor, x, y)
    case BitEqv => Complement(Both(Xor, x, y))
    case BitNand => Complement(Both(And, x, y))
    case BitNor => Complement(Both(Ior, x, y))
    case BitAndC1 => Both(And, Complement(x), y)
    case BitAndC2 => Both(And, x, Complement(y))
    case BitOrC1 => Both(Ior, Complement(x), y)
    case BitOrC2 => Both(Ior, x, Complement(y))
  }

  lemma BothBit(op: BitOp, x: Word32, y: Word32, i: nat)
    ensures Bit(Both(op, x, y), i) == Apply(op, Bit(x, i), Bit(y, i))
  {
    hide Pow, Bit, WordOp;
    TwoTo32();
    WordOpBit(op, x, y, 32, i);
  }

  lemma MaskBit(k: nat, i: nat)
    ensures Bit(Pow(2, k) - 1, i) <==> i < k
  {
    hide Pow, Bit;
    PowPositive(2, k);
    BitComplement(Pow(2, k) - 1, i);
    BitConcat(0, -1, k, i);
    if i < k { BitOfZero(i); } else { BitComplement(0, i - k); BitOfZero(i - k); }
  }

  lemma ComplementBit(x: Word32, i: nat)
    requires i < 32
    ensures Bit(Complement(x), i) == !Bit(x, i)
  {
    hide Pow, Bit;
    TwoTo32();
    BitComplement(x, i);
    var low: int := Complement(x);
    BitConcat(low, -1, 32, i);
    assert low + -1 * Pow(2, 32) == -1 - x;
  }

  lemma WordResultBit(op: Operation, x: Word32, y: Word32, i: nat)
    requires i < 32
    ensures Bit(WordResult(op, x, y), i) == Truth(op, Bit(x, i), Bit(y, i))
  {
    hide Bit, Both, Complement;
    ComplementBit(x, i);
    ComplementBit(y, i);
    BothBit(And, x, y, i);
    BothBit(Ior, x, y, i);
    BothBit(Xor, x, y, i);
    BothBit(And, Complement(x), y, i);
    BothBit(And, x, Complement(y), i);
    BothBit(Ior, Complement(x), y, i);
    BothBit(Ior, x, Complement(y), i);
    ComplementBit(Both(Xor, x, y), i);
    ComplementBit(Both(And, x, y), i);
    ComplementBit(Both(Ior, x, y), i);
  }

  /** 32 bits determine a word. */
  lemma WordFromBits(x: Word32, y: Word32)
    requires forall i :: 0 <= i < 32 ==> Bit(x, i) == Bit(y, i)
    ensures x == y
  {
    hide Pow, Bit;
    TwoTo32();
    forall i: nat ensures Bit(x, i) == Bit(y, i) {
      if i >= 32 { BitHigh(x, 32, i); BitHigh(y, 32, i); }
    }
    SameBits(x, y);
  }

  /** The words of `n` bits. */
  function WordCount(n: nat): nat { (n + 31) / 32 }

  ghost predicate BitAt(words: seq<Word32>, i: nat)
    requires i < 32 * |words|
  {
    Bit(words[i / 32], i % 32)
  }

  /** The elements that `length` bits of the words spell. */
  ghost function Spelled(words: seq<Word32>, length: nat): (s: seq<bool>)
    requires |words| == WordCount(length)
    ensures |s| == length
  {
    seq(length, i requires 0 <= i < length => BitAt(words, i))
  }

  /** No bit is set past the length. */
  ghost predicate TailClear(words: seq<Word32>, length: nat)
    requires |words| == WordCount(length)
  {
    forall i :: length <= i < 32 * |words| ==> !BitAt(words, i)
  }

  /** Equal elements and clear tails make equal words. */
  lemma WordsDecide(a: seq<Word32>, b: seq<Word32>, length: nat)
    requires |a| == WordCount(length) && |b| == WordCount(length)
    requires TailClear(a, length) && TailClear(b, length)
    ensures a == b <==> Spelled(a, length) == Spelled(b, length)
  {
    hide Bit;
    if Spelled(a, length) == Spelled(b, length) {
      forall k | 0 <= k < |a| ensures a[k] == b[k] {
        forall j | 0 <= j < 32 ensures Bit(a[k], j) == Bit(b[k], j) {
          var i := 32 * k + j;
          assert i / 32 == k && i % 32 == j;
          assert BitAt(a, i) == Bit(a[k], j) && BitAt(b, i) == Bit(b[k], j);
          if i < length { assert Spelled(a, length)[i] == Spelled(b, length)[i]; }
        }
        WordFromBits(a[k], b[k]);
      }
    }
  }

  /** Words that differ at one bit only. */
  lemma OneBitChanged(words: seq<Word32>, words': seq<Word32>, length: nat, i: nat, v: bool)
    requires |words| == |words'| == WordCount(length) && i < length
    requires forall k :: 0 <= k < |words| && k != i / 32 ==> words'[k] == words[k]
    requires forall j :: 0 <= j < 32 ==> Bit(words'[i / 32], j) == if j == i % 32 then v else Bit(words[i / 32], j)
    ensures Spelled(words', length) == Spelled(words, length)[i := v]
    ensures TailClear(words, length) ==> TailClear(words', length)
  {
    hide Bit;
    forall m | 0 <= m < 32 * |words| ensures BitAt(words', m) == if m == i then v else BitAt(words, m) {
      assert m == 32 * (m / 32) + m % 32 && i == 32 * (i / 32) + i % 32;
    }
  }

  /** `1u << k` and its complement, combined with a word. */
  lemma SetBitWord(x: Word32, k: nat, j: nat)
    requires k < 32 && j < 32 && 0 <= Pow(2, k) < 0x1_0000_0000
    ensures Bit(Both(Ior, x, Pow(2, k)), j) == (j == k || Bit(x, j))
    ensures Bit(Both(And, x, Complement(Pow(2, k))), j) == (j != k && Bit(x, j))
  {
    hide Bit, Both, Complement, Pow;
    BothBit(Ior, x, Pow(2, k), j);
    BothBit(And, x, Complement(Pow(2, k)), j);
    ComplementBit(Pow(2, k), j);
    PowerBit(k, j);
  }

  lemma PowerBit(k: nat, j: nat)
    ensures Bit(Pow(2, k), j) <==> j == k
  {
    hide Pow, Bit;
    PowPositive(2, k);
    BitConcat(0, 1, k, j);
    if j < k {
      BitOfZero(j);
    } else if j == k {
      BitZero(1);
    } else {
      BitSucc(1, j - k - 1);
      BitOfZero(j - k - 1);
    }
  }

  lemma PowerFits(k: nat)
    requires k < 32
    ensures 0 < Pow(2, k) < 0x1_0000_0000
  {
    PowPositive(2, k);
    PowMonotone(2, k, 31);
    TwoTo32();
    assert Pow(2, 32) == 2 * Pow(2, 31);
  }

  /** The optional result argument of the BIT-* functions. */
  datatype ResultArg = NilArg | TrueArg | Into(bv: BitVector) | OtherArg

  class BitVector {
    const length: nat
    const words: array<Word32>
    /** MAKE-ARRAY stores an integer :fill-pointer without comparing it with the length. */
    var fill: Word32

    ghost predicate Valid()
      reads this
    {
      words.Length == WordCount(length)
    }

    ghost predicate Clean()
      reads this, words
      requires Valid()
    {
      TailClear(words[..], length)
    }

    ghost function Elements(): (s: seq<bool>)
      reads this, words
      requires Valid()
      ensures |s| == length
    {
      Spelled(words[..], length)
    }

    /** cl_make_bit_vector: all zero. */
    constructor (n: nat)
      ensures Valid() && length == n && fill == NO_FILL && fresh(words) && Clean()
      ensures forall i :: 0 <= i < n ==> !Elements()[i]
    {
      length := n;
      words := new Word32[WordCount(n)](_ => 0);
      fill := NO_FILL;
      new;
      forall i | 0 <= i < 32 * words.Length ensures !BitAt(words[..], i) { BitOfZero(i % 32); }
    }

    /** cl_bv_get_bit, which looks at the words only. */
    method GetBit(i: nat) returns (v: bool)
      requires Valid() && i < 32 * words.Length
      ensures v == BitAt(words[..], i)
      ensures i < length ==> v == Elements()[i]
    {
      hide Bit;
      PowPositive(2, i % 32);
      v := words[i / 32] / Pow(2, i % 32) % 2 == 1;
      BitMeans(words[i / 32], i % 32);
      assert BitAt(words[..], i) == Bit(words[i / 32], i % 32);
    }

    /** cl_bv_set_bit. */
    method SetBit(i: nat, v: bool)
      requires Valid() && i < length
      modifies words
      ensures Elements() == old(Elements())[i := v]
      ensures old(Clean()) ==> Clean()
    {
      hide Bit, Both, Complement;
      ghost var before := words[..];
      var k := i / 32;
      PowerFits(i % 32);
      var x := words[k];
      var bit: Word32 := Pow(2, i % 32);
      words[k] := if v then Both(Ior, x, bit) else Both(And, x, Complement(bit));
      forall j | 0 <= j < 32
        ensures Bit(words[k], j) == if j == i % 32 then v else Bit(x, j)
      {
        SetBitWord(x, i % 32, j);
      }
      OneBitChanged(before, words[..], length, i, v);
    }

    /** bv_mask_trailing. */
    method MaskTrailing()
      requires Valid()
      modifies words
      ensures Clean() && Elements() == old(Elements())
    {
      hide Bit, Both, Pow;
      ghost var before := words[..];
      var tail := length % 32;
      if tail != 0 && length > 0 {
        var last := WordCount(length) - 1;
        PowerFits(tail);
        words[last] := Both(And, words[last], Pow(2, tail) - 1);
        forall j | 0 <= j < 32
          ensures Bit(words[last], j) == (j < tail && Bit(before[last], j))
        {
          BothBit(And, before[last], Pow(2, tail) - 1, j);
          MaskBit(tail, j);
        }
        Masked(before, words[..], length, last);
      }
    }
  }

  lemma BitMeans(x: int, i: nat)
    ensures Pow(2, i) > 0 && (Bit(x, i) <==> x / Pow(2, i) % 2 == 1)
  {
    PowPositive(2, i);
  }

  lemma Masked(words: seq<Word32>, words': seq<Word32>, length: nat, last: nat)
    requires |words| == |words'| == WordCount(length) == last + 1 && length % 32 != 0
    requires forall k :: 0 <= k < last ==> words'[k] == words[k]
    requires forall j :: 0 <= j < 32 ==> Bit(words'[last], j) == (j < length % 32 && Bit(words[last], j))
    ensures TailClear(words', length) && Spelled(words', length) == Spelled(words, length)
  {
    hide Bit;
    forall m | 0 <= m < 32 * |words| ensures BitAt(words', m) == (m < length && BitAt(words, m)) {
      assert m == 32 * (m / 32) + m % 32 && length == 32 * last + length % 32;
      if m / 32 == last { assert Bit(words'[last], m % 32) == (m % 32 < length % 32 && Bit(words[last], m % 32)); }
    }
  }

  /** Element by element. */
  ghost function Combined(op: Operation, a: seq<bool>, b: seq<bool>): seq<bool>
    requires |a| == |b|
  {
    seq(|a|, i requires 0 <= i < |a| => Truth(op, a[i], b[i]))
  }

  ghost function Negated(a: seq<bool>): seq<bool> { seq(|a|, i requires 0 <= i < |a| => !a[i]) }

  ghost function ResultWords(opt: ResultArg, first: BitVector): set<object> {
    if opt.TrueArg? then {first.words} else if opt.Into? then {opt.bv.words} else {}
  }

  /** resolve_result. */
  method ResolveResult(opt: ResultArg, first: BitVector, len: nat) returns (r: Outcome<BitVector>)
    requires first.Valid() && first.length == len && (opt.Into? ==> opt.bv.Valid())
    ensures opt.OtherArg? ==> r == Signal(TypeError)
    ensures opt.Into? && opt.bv.length != len ==> r == Signal(ArgsError)
    ensures r.Signal? ==> opt.OtherArg? || (opt.Into? && opt.bv.length != len)
    ensures r.Ok? ==> r.value.Valid() && r.value.length == len
    ensures r.Ok? && opt.NilArg? ==> fresh(r.value) && fresh(r.value.words)
    ensures r.Ok? && opt.TrueArg? ==> r.value == first
    ensures r.Ok? && opt.Into? ==> r.value == opt.bv
  {
    match opt
    case NilArg =>
      var bv := new BitVector(len);
      r := Ok(bv);
    case TrueArg => r := Ok(first);
    case Into(bv) => r := if bv.length != len then Signal(ArgsError) else Ok(bv);
    case OtherArg => r := Signal(TypeError);
  }

  /** bitvec_binop. The result may be either argument. */
  method BinaryOp(op: Operation, first: BitVector, second: BitVector, opt: ResultArg) returns (r: Outcome<BitVector>)
    requires first.Valid() && second.Valid() && (opt.Into? ==> opt.bv.Valid())
    modifies ResultWords(opt, first)
    ensures first.length != second.length || (opt.Into? && opt.bv.length != first.length) ==> r == Signal(ArgsError)
    ensures first.length == second.length && opt.OtherArg? ==> r == Signal(TypeError)
    ensures r.Signal? ==> first.length != second.length || opt.OtherArg? || (opt.Into? && opt.bv.length != first.length)
    ensures r.Ok? ==>
      && r.value.Valid() && r.value.Clean()
      && r.value.Elements() == Combined(op, old(first.Elements()), old(second.Elements()))
      && (opt.NilArg? ==> fresh(r.value)) && (opt.TrueArg? ==> r.value == first) && (opt.Into? ==> r.value == opt.bv)
  {
    hide Bit, WordResult, Truth;
    if first.length != second.length { return Signal(ArgsError); }
    ghost var w1, w2 := first.words[..], second.words[..];
    r := ResolveResult(opt, first, first.length);
    if r.Signal? { return; }
    var result := r.value;
    var n := WordCount(first.length);
    var i := 0;
    while i < n
      invariant 0 <= i <= n
      invariant forall k :: 0 <= k < i ==> result.words[k] == WordResult(op, w1[k], w2[k])
      invariant forall k :: i <= k < n ==> first.words[k] == w1[k] && second.words[k] == w2[k]
      modifies result.words
    {
      result.words[i] := WordResult(op, first.words[i], second.words[i]);
      i := i + 1;
    }
    CombinedWords(op, w1, w2, result.words[..], first.length);
    result.MaskTrailing();
  }

  lemma CombinedWords(op: Operation, a: seq<Word32>, b: seq<Word32>, r: seq<Word32>, length: nat)
    requires |a| == |b| == |r| == WordCount(length)
    requires forall k :: 0 <= k < |r| ==> r[k] == WordResult(op, a[k], b[k])
    ensures Spelled(r, length) == Combined(op, Spelled(a, length), Spelled(b, length))
  {
    hide Bit, WordResult, Truth;
    forall i | 0 <= i < length
      ensures BitAt(r, i) == Truth(op, BitAt(a, i), BitAt(b, i))
    {
      WordResultBit(op, a[i / 32], b[i / 32], i % 32);
    }
  }

  /** BIT-NOT. */
  method UnaryNot(bv: BitVector, opt: ResultArg) returns (r: Outcome<BitVector>)
    requires bv.Valid() && (opt.Into? ==> opt.bv.Valid())
    modifies ResultWords(opt, bv)
    ensures opt.Into? && opt.bv.length != bv.length ==> r == Signal(ArgsError)
    ensures opt.OtherArg? ==> r == Signal(TypeError)
    ensures r.Signal? ==> opt.OtherArg? || (opt.Into? && opt.bv.length != bv.length)
    ensures r.Ok? ==>
      && r.value.Valid() && r.value.Clean()
      && r.value.Elements() == Negated(old(bv.Elements()))
      && (opt.NilArg? ==> fresh(r.value)) && (opt.TrueArg? ==> r.value == bv) && (opt.Into? ==> r.value == opt.bv)
  {
    hide Bit, Complement;
    ghost var w := bv.words[..];
    r := ResolveResult(opt, bv, bv.length);
    if r.Signal? { return; }
    var result := r.value;
    var n := WordCount(bv.length);
    var i := 0;
    while i < n
      invariant 0 <= i <= n
      invariant forall k :: 0 <= k < i ==> result.words[k] == Complement(w[k])
      invariant forall k :: i <= k < n ==> bv.words[k] == w[k]
      modifies result.words
    {
      result.words[i] := Complement(bv.words[i]);
      i := i + 1;
    }
    NegatedWords(w, result.words[..], bv.length);
    result.MaskTrailing();
  }

  lemma NegatedWords(a: seq<Word32>, r: seq<Word32>, length: nat)
    requires |a| == |r| == WordCount(length)
    requires forall k :: 0 <= k < |r| ==> r[k] == Complement(a[k])
    ensures Spelled(r, length) == Negated(Spelled(a, length))
  {
    hide Bit, Complement;
    forall i | 0 <= i < length ensures BitAt(r, i) == !BitAt(a, i) {
      ComplementBit(a[i / 32], i % 32);
    }
  }

  // ---- construction ----

  /** MAKE-ARRAY of bits with :initial-element 1. */
  method MakeOnes(n: nat) returns (bv: BitVector)
    ensures fresh(bv) && fresh(bv.words) && bv.Valid() && bv.length == n && bv.Clean()
    ensures forall i :: 0 <= i < n ==> bv.Elements()[i]
  {
    hide Bit, Pow, BitAt;
    bv := new BitVector(n);
    var i := 0;
    while i < WordCount(n)
      invariant 0 <= i <= WordCount(n)
      invariant forall k :: 0 <= k < i ==> bv.words[k] == 0xFFFF_FFFF
      modifies bv.words
    {
      bv.words[i] := 0xFFFF_FFFF;
      i := i + 1;
    }
    forall j | 0 <= j < n ensures BitAt(bv.words[..], j) { OnesBit(bv.words[..], j); }
    bv.MaskTrailing();
  }

  lemma OnesBit(words: seq<Word32>, i: nat)
    requires i < 32 * |words| && words[i / 32] == 0xFFFF_FFFF
    ensures BitAt(words, i)
  {
    hide Bit, Pow;
    TwoTo32();
    MaskBit(32, i % 32);
  }

  /** MAKE-ARRAY of bits with :initial-contents, at most `n` of them. */
  method MakeFromContents(n: nat, contents: seq<bool>) returns (bv: BitVector)
    ensures fresh(bv) && bv.Valid() && bv.length == n && bv.Clean()
    ensures forall i :: 0 <= i < n ==> bv.Elements()[i] == (i < |contents| && contents[i])
  {
    hide TailClear, Spelled;
    bv := new BitVector(n);
    var len := if |contents| > n then n else |contents|;
    var j := 0;
    while j < len
      invariant 0 <= j <= len && bv.Valid() && bv.Clean()
      invariant forall i :: 0 <= i < n ==> bv.Elements()[i] == (i < j && contents[i])
      modifies bv.words
    {
      if contents[j] { bv.SetBit(j, true); }
      j := j + 1;
    }
  }

  /** MAKE-ARRAY with :displaced-to a bit vector: the window is copied. Offset and bounds are computed in
      32 bits, so that a negative offset can pass the test; the copy then reads outside the source. */
  method CopyWindow(src: BitVector, offset: int, n: nat) returns (r: Outcome<BitVector>)
    requires src.Valid() && FitsFixnum(offset) && n <= FIXNUM_MAX && src.length <= FIXNUM_MAX
    ensures r == Signal(ArgsError) <==> offset + n > src.length || offset + n < 0
    ensures r == Signal(Stuck) <==> offset < 0 && 0 <= offset + n <= src.length
    ensures r.Ok? <==> 0 <= offset && offset + n <= src.length
    ensures r.Ok? ==> fresh(r.value) && r.value.Valid() && r.value.length == n && r.value.Clean()
    ensures r.Ok? ==> r.value.Elements() == src.Elements()[offset..offset + n]
  {
    hide TailClear, Spelled, Unsigned, BitAt;
    WindowBounds(offset, n, src.length);
    if Unsigned(Unsigned(offset) + n) > src.length { return Signal(ArgsError); }
    var bv := new BitVector(n);
    var j := 0;
    while j < n
      invariant 0 <= j <= n && bv.Valid() && bv.Clean() && (j > 0 ==> offset >= 0)
      invariant src.Elements() == old(src.Elements())
      invariant forall i :: 0 <= i < n ==> bv.Elements()[i] == (i < j && src.Elements()[offset + i])
      modifies bv.words
    {
      var at := Unsigned(Unsigned(offset) + j);
      WindowIndex(offset, j, src.length);
      if at / 32 >= src.words.Length { return Signal(Stuck); }
      var bit := src.GetBit(at);
      if bit { bv.SetBit(j, true); }
      j := j + 1;
    }
    r := Ok(bv);
  }

  lemma WindowBounds(offset: int, n: nat, length: nat)
    requires FitsFixnum(offset) && n <= FIXNUM_MAX && length <= FIXNUM_MAX
    ensures Unsigned(Unsigned(offset) + n) > length <==> offset + n > length || offset + n < 0
  {
    WrapSum(offset, n);
  }

  lemma WrapSum(i: int, k: nat)
    requires FitsFixnum(i) && k <= FIXNUM_MAX
    ensures Unsigned(Unsigned(i) + k) == if i + k < 0 then i + k + 0x1_0000_0000 else i + k
  {}

  lemma WindowIndex(offset: int, j: nat, length: nat)
    requires FitsFixnum(offset) && j <= FIXNUM_MAX && length <= FIXNUM_MAX && (j > 0 ==> offset >= 0)
    requires offset >= 0 ==> offset + j < length
    ensures var at := Unsigned(Unsigned(offset) + j);
      if offset >= 0 then at == offset + j && at / 32 < WordCount(length) else at / 32 >= WordCount(length)
  {
    WrapSum(offset, j);
  }

  // ---- equality ----

  /** EQUAL on bit vectors: lengths, then whole words. */
  method Equal(a: BitVector, b: BitVector) returns (same: bool)
    requires a.Valid() && b.Valid() && a.Clean() && b.Clean()
    ensures same <==> a.Elements() == b.Elements()
  {
    hide TailClear, Spelled;
    if a.length != b.length { return false; }
    WordsDecide(a.words[..], b.words[..], a.length);
    same := CompareWords(a, b);
  }

  /** memcmp on the data words. */
  method CompareWords(a: BitVector, b: BitVector) returns (same: bool)
    requires a.words.Length == b.words.Length
    ensures same <==> a.words[..] == b.words[..]
  {
    for i := 0 to a.words.Length
      invariant a.words[..i] == b.words[..i]
    {
      if a.words[i] != b.words[i] {
        assert a.words[..][i] != b.words[..][i];
        return false;
      }
    }
    assert a.words[..] == a.words[..a.words.Length] && b.words[..] == b.words[..a.words.Length];
    same := true;
  }

  /** The length EQUALP goes by. */
  function ActiveLength(bv: BitVector): nat
    reads bv
  {
    if bv.fill != NO_FILL then bv.fill else bv.length
  }

  /** There are words for all the bits before the fill pointer. */
  ghost predicate InWords(bv: BitVector)
    reads bv
  {
    ActiveLength(bv) <= 32 * bv.words.Length
  }

  /** The bits before the fill pointer; between the length and the end of the last word they are 0. */
  ghost function ActiveBits(bv: BitVector): (s: seq<bool>)
    reads bv, bv.words
    requires bv.Valid() && InWords(bv)
    ensures |s| == ActiveLength(bv)
  {
    BitsBefore(bv.words[..], ActiveLength(bv))
  }

  ghost function BitsBefore(words: seq<Word32>, n: nat): (s: seq<bool>)
    requires n <= 32 * |words|
    ensures |s| == n && forall i :: 0 <= i < n ==> s[i] == BitAt(words, i)
  {
    seq(n, i requires 0 <= i < n => BitAt(words, i))
  }

  /** With a fill pointer within the length they are elements. */
  lemma ActiveElements(bv: BitVector)
    requires bv.Valid() && (bv.fill == NO_FILL || bv.fill <= bv.length)
    ensures InWords(bv)
    ensures ActiveBits(bv) == if bv.fill == NO_FILL then bv.Elements() else bv.Elements()[..bv.fill]
  {
    hide Bit, TailClear;
    assert bv.length <= 32 * WordCount(bv.length);
    var n := ActiveLength(bv);
    SpelledBits(bv.words[..], bv.length, n);
  }

  lemma SpelledBits(words: seq<Word32>, length: nat, n: nat)
    requires |words| == WordCount(length) && n <= length <= 32 * |words|
    ensures BitsBefore(words, n) == Spelled(words, length)[..n] &&
      Spelled(words, length)[..length] == Spelled(words, length)
  {
    hide BitAt;
  }

  /** EQUALP on bit vectors: whole words without fill pointers, else bit by bit. A fill pointer past the
      words makes it read outside them, unless a difference is met before. */
  method Equalp(a: BitVector, b: BitVector) returns (r: Outcome<bool>)
    requires a.Valid() && b.Valid() && a.Clean() && b.Clean()
    ensures InWords(a) && InWords(b) ==> r.Ok? && (r.value <==> ActiveBits(a) == ActiveBits(b))
    ensures r.Signal? ==> r == Signal(Stuck) && !(InWords(a) && InWords(b))
    ensures !(InWords(a) && InWords(b)) ==> r != Ok(true)
  {
    hide TailClear, Spelled, BitAt;
    var na := ActiveLength(a);
    var nb := ActiveLength(b);
    if na != nb {
      assert InWords(a) && InWords(b) ==> |ActiveBits(a)| != |ActiveBits(b)|;
      return Ok(false);
    }
    if a.fill == NO_FILL && b.fill == NO_FILL {
      ActiveElements(a);
      ActiveElements(b);
      WordsDecide(a.words[..], b.words[..], a.length);
      var same := CompareWords(a, b);
      return Ok(same);
    }
    var i := 0;
    while i < na
      invariant 0 <= i <= na && i <= 32 * a.words.Length && i <= 32 * b.words.Length
      invariant forall k :: 0 <= k < i ==> BitAt(a.words[..], k) == BitAt(b.words[..], k)
    {
      if i / 32 >= a.words.Length || i / 32 >= b.words.Length { return Signal(Stuck); }
      var x := a.GetBit(i);
      var y := b.GetBit(i);
      if x != y {
        assert InWords(a) && InWords(b) ==> ActiveBits(a)[i] != ActiveBits(b)[i];
        return Ok(false);
      }
      i := i + 1;
    }
    assert BitsBefore(a.words[..], na) == BitsBefore(b.words[..], na);
    r := Ok(true);
  }
}
