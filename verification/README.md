# A model of the amilisp runtime core

This project models the parts of the amilisp Common Lisp runtime whose correctness is hardest to see
from the C code, and proves what its comments and the language promise of them.

**Exact integers** (`src/core/bignum.c`, `src/core/builtins_arith.c`). An integer is a 31-bit fixnum or a
sign and an array of 16-bit limbs. `Digits` gives limb arrays their value; every magnitude routine is a
method over arrays with a value invariant (`Magnitude`, `Multiplication`, `Division`), machine words are
subset types so that each assignment shows that it does not overflow, and the Lisp-level operations
(`Integers`, `Arithmetic`, `BitOps`, `BitCounts`, `Shift`, `ByteFields`, `NumberTheory`, `GcdFolds`, `Decimal`,
`Ratios`, `Rounding`, `Remainders`) are tied to `int` and `real`; `Ratios` is `src/core/ratio.c`.

**Demand-interned binding tables** (`src/core/bindtab.c`, `src/core/package.c`). `TableFormat` is the byte
layout and the validator, `TablePacker` and `TableLayout` the packer with its round trip, `TableProbe` the
binary search against a scan from the front. `LazyPackages` is the materialiser on values, `PackageObjects`
the same on an object updated in place; `Definitions` says what either puts into a symbol, cell by cell, and
`Variants` follows a name from the rows written to the symbol found, through the platform and version guards.
`LazyWorlds` proves that no run of lookups, interns, updates and enumerations over packages that use one
another can tell a lazy package from an eager one, and says what each of them answers; `LazinessExact` says
for which tables that is so, and `LazinessWitnesses` exhibits tables for which it is not. `Interning` is the
protocol of threads that allocate outside the lock and link under it, beside threads that flip the package;
`InterningRefines` ties it to registration before and to the sequential flip after.

**Tables and vectors changed in place.** `Vectors` and `VectorHeap` are growth by displacement
(`src/core/builtins_array.c`, `src/core/mem.c`), `BitVectors` the packed bit vectors
(`src/core/builtins_bitvector.c`), `Registry` the open-addressed builtin table (`src/core/builtins.c`).

Where the code departs from what is promised, the model follows the code and the exact condition is proved:

- `(truncate most-negative-fixnum -1)` gives most-negative-fixnum (src/core/bignum.c:1070).
- NEGATE, and ABS of a negative number, hold the limb count in 16 bits (src/core/bignum.c:1220, 1301): they copy
  as many limbs as the count is modulo 65536, and are exact exactly below 65536.
- On integers the four roundings break their promise exactly when they come down to the pair above and, for
  ROUND, when the absolute values it compares (src/core/builtins_arith.c:202-206) are misjudged by the limbs kept.
  That takes a divisor, or twice a first remainder, that is a negative number of 65536 limbs or more, as in
  `(round 1 (- (expt 2 1048576)))`.
- Ratios are reduced by a common divisor for which ABS is taken (src/core/ratio.c:62); for a negative numerator of
  65536 limbs or more the value is kept exactly when what is found divides it. Where 4 times the sum of the
  cross products, times both denominators, has fewer than 65536 limbs, all of that is exact.
- GCD and LCM work on what ABS keeps; LDB on the position that NEGATE leaves.
- Reading a decimal numeral keeps its value modulo 2^4096 (src/core/bignum.c:1429).
- The validator accepts names of up to 65535 bytes, the materialiser copies them into 256
  (src/core/bindtab.c:971); what is proved of materialisation is for tables whose names fit. The packer's do.
- Laziness then cannot be observed exactly when, for every writable field, its guard passes if and only if no
  entry is called `%SET-` and its name (src/core/bindtab.c:872-912). The validator accepts tables that break this,
  with a guarded field for example; the packer gives no field a guard, so for its tables only the names count,
  and it packs a field F beside an entry `%SET-F`.
- The DEFSETF pair of a field is registered after the lock is released (src/core/bindtab.c:1105), so another
  thread can see the field before its SETF updater; the definition itself is always there.
- A queried name of 256 characters or more gets no answer from the dropped-table fallback
  (src/core/bindtab.c:984).
- An integer `:fill-pointer` is not compared with the length (src/core/builtins_array.c:355-357, 2222-2224); EQUALP
  of bit vectors goes by it as long as there are words.
- A negative `:displaced-index-offset` passes the 32-bit bounds test exactly when the end of the view lies within
  the target (src/core/builtins_array.c:399, 490, 546).

## Model

| member | source | states |
|---|---|---|
| Digits.ValueInjective | src/core/bignum.c:580-594 | limb arrays of one length with equal values are equal limb by limb, so limbs decide |
| Magnitude.CompareMag | src/core/bignum.c:27-40 | by length, then by limbs: on numbers without leading zeros the sign of the difference of the values |
| Magnitude.LongerIsLarger | src/core/bignum.c:27-40 | without leading zeros the longer array is the larger number, which is why lengths may be compared first |
| Magnitude.AddMag | src/core/bignum.c:42-71 | the stored limbs stand for the sum, every carry in range; without leading zeros if the operands have none |
| Magnitude.SubMag | src/core/bignum.c:74-96 | the stored limbs stand for the difference; the 32-bit wrap-around serves as the borrow |
| Multiplication.MulMag | src/core/bignum.c:99-122 | 16-bit schoolbook multiplication gives the product |
| Multiplication.MulMag32 | src/core/bignum.c:247-269 | the 32-bit form gives the product, each step fitting 64 bits |
| Multiplication.Pack | src/core/bignum.c:220-230 | two limbs to a word, the value kept |
| Multiplication.Unpack | src/core/bignum.c:232-243 | a word to two limbs, the value kept |
| Multiplication.MulSmallWide | src/core/bignum.c:136-170 | the one-pass small multiplier of 64-bit hosts, with and without a 128-bit product, gives the product |
| Multiplication.MulSmallSplit | src/core/bignum.c:171-196 | the 68020 form with its carry in halves gives the same product and its carry stays below 2^31 |
| Division.DivSingle | src/core/bignum.c:275-288 | quotient and remainder by one limb, quotient and dividend possibly the same array |
| Division.EstimateDigit | src/core/bignum.c:365-379 | the refined estimate is the quotient digit or one more, every product within 32 bits |
| Division.AtMostOneTooLarge | src/core/bignum.c:372-379 | once the three-digit test is met, the estimate is at most one too large |
| Division.WindowStep | src/core/bignum.c:361-416 | one iteration finds the true digit, with at most one add-back, and leaves the window below the divisor |
| Division.DivideDigits | src/core/bignum.c:359-417 | the main loop divides: dividend = divisor x quotient + what is left, which is below the divisor |
| Division.Unshifted | src/core/bignum.c:419-429 | undoing the normalising shift restores the true remainder of the true operands |
| Division.DivMod | src/core/bignum.c:294-440 | for every dividend at least as long and divisor with a nonzero top limb, a = b q + r with r < b |
| Integers.CanonicalUnique | src/core/bignum.c:474-514 | canonical objects of equal value are the same object value |
| Integers.NormalizeBignum | src/core/bignum.c:474-514 | the result has the value given and is canonical: a fixnum exactly when it fits |
| Integers.FromLimbs | src/core/bignum.c:556-572 | canonical, of the given sign and magnitude |
| Integers.FromUint32 | src/core/bignum.c:522-540 | canonical, of the given sign and 32-bit magnitude |
| Integers.Compare | src/core/bignum.c:1315-1358 | the order of the integers; of magnitudes with leading zeros the order of their lengths |
| Integers.BignumEqual | src/core/bignum.c:580-594 | sign, length and limbs agree exactly when two bignums are equal numbers |
| Integers.PredicateMeaning | src/core/bignum.c:1393-1420 | ZEROP, MINUSP and EVENP decided on the object mean what they say of the number |
| Integers.AddSub | src/core/bignum.c:684-730 | sum or difference, canonical, by sign cases |
| Integers.Add | src/core/bignum.c:732-768 | the sum, canonical, over both paths |
| Integers.Sub | src/core/bignum.c:771-802 | the difference, canonical, over both paths |
| Arithmetic.SmallProduct | src/core/bignum.c:857-884 | the partial products give the product, or bail out only when it does not fit 32 bits |
| Arithmetic.MulByFixnum | src/core/bignum.c:898-925 | bignum times fixnum on every kind of host; the sized result holds the product |
| Arithmetic.ProductSize | src/core/bignum.c:913-916 | the length computed from the bit lengths always has room for the product |
| Arithmetic.MulGeneral | src/core/bignum.c:927-1004 | the product, whichever of the two schoolbook forms is chosen |
| Arithmetic.Mul | src/core/bignum.c:807-1004 | the product of any two integers, canonical |
| Arithmetic.Truncate | src/core/bignum.c:1061-1110 | the quotient rounded towards zero, but most-negative-fixnum for that number over -1; division by zero signalled |
| Arithmetic.QuotRem | src/core/bignum.c:1061-1110 | quotient and remainder rebuild the dividend; the remainder has its sign and is below the divisor |
| Arithmetic.Mod | src/core/bignum.c:1112-1189 | the remainder of FLOOR, canonical, on both paths |
| Arithmetic.ModuloUnique | src/core/bignum.c:1112-1189 | it is the only number congruent to the dividend with the divisor's sign and a smaller magnitude |
| Arithmetic.Negate | src/core/bignum.c:1191-1232 | minus what the limbs counted in 16 bits are worth: the negation if and only if there are fewer than 65536 |
| Arithmetic.AbsoluteValue | src/core/bignum.c:1234-1312 | value and length of the limbs kept: the magnitude unless the number is a negative bignum of 65536 limbs or more |
| Arithmetic.KeptExact | src/core/bignum.c:1218-1230 | a magnitude survives the 16-bit limb count if and only if it has fewer than 65536 limbs |
| Arithmetic.CompareAbsolute | src/core/bignum.c:1315-1358 | the comparison of two absolute values goes by the limbs ABS has kept, and is right when it has kept all |
| Bits.SameBits | src/core/bignum.c:1919-2083 | integers with the same infinite two's complement are equal |
| BitOps.ToTwosComplement | src/core/bignum.c:1923-1953 | the buffer, read with its top bit as sign, is the integer |
| BitOps.FromTwosComplement | src/core/bignum.c:1955-1988 | the canonical integer a buffer denotes |
| BitOps.LogBuffers | src/core/bignum.c:1996-2047 | limb-wise operation on sign-extended buffers combines all their bits |
| BitOps.LogOp | src/core/bignum.c:1996-2073 | LOGAND, LOGIOR and LOGXOR agree with infinite two's complement at every index, fixnum path included |
| BitOps.LogOpUnique | src/core/bignum.c:1996-2073 | the bits fix the object: any two results are the same |
| BitOps.LogNot | src/core/bignum.c:2075-2083 | -1 - x, every bit flipped |
| BitOps.EqualHash | src/core/bignum.c:598-612 | bignums of equal value hash equally, being the same limbs |
| BitCounts.LogCount | src/core/bignum.c:2088-2127 | the number of ones of x, or of -1 - x when x is negative |
| BitCounts.LogCountMeaning | src/core/bignum.c:2095-2127 | that is the number of bits that differ from the sign, however many are looked at |
| BitCounts.LogBitp | src/core/bignum.c:2129-2170 | the bit of infinite two's complement at any index |
| BitCounts.IntegerLength | src/core/bignum.c:1712-1764 | the length with its correction for negative powers of two |
| BitCounts.IntLengthLeast | src/core/bignum.c:1712-1764 | that length is the least n with -2^n <= x < 2^n |
| Shift.Ash | src/core/bignum.c:1766-1917 | x times 2^count, or the floor of x over 2^-count, for every fixnum count and every negative bignum count; other bignum counts signalled |
| Shift.ShiftLimbsLeft | src/core/bignum.c:1812-1852 | words and bits shifted left multiply the value |
| Shift.ShiftRightObject | src/core/bignum.c:1853-1916 | the floor, the dropped bits of a negative number rounding it down |
| ByteFields.Ldb | src/core/builtins_arith.c:842-864 | the bits of the byte moved to the bottom, all others clear, at the position NEGATE leaves of the one given |
| ByteFields.LdbPositionExact | src/core/bignum.c:1218-1230 | that position is the one given if and only if it has fewer than 65536 limbs, or a multiple of 65536 |
| ByteFields.Dpb | src/core/builtins_arith.c:866-897 | the new byte's low bits inside the field, the old bits everywhere else |
| ByteFields.MaskField | src/core/builtins_arith.c:906-922 | the bits of the field in place, all others clear |
| ByteFields.DepositField | src/core/builtins_arith.c:924-950 | the new number's bits inside the field, the old bits everywhere else |
| ByteFields.ByteValue | src/core/builtins_arith.c:842-864 | what LDB returns is floor(n / 2^pos) mod 2^size |
| ByteFields.LdbOfDpb | src/core/builtins_arith.c:842-897 | LDB of a DPB returns the new byte mod 2^size |
| ByteFields.DpbOfLdb | src/core/builtins_arith.c:842-897 | depositing what was loaded changes nothing |
| ByteFields.DpbOfDpb | src/core/builtins_arith.c:866-897 | the last of two deposits in one field counts |
| ByteFields.MaskFieldIsShiftedLdb | src/core/builtins_arith.c:906-922 | MASK-FIELD is LDB shifted back into place |
| ByteFields.DepositFieldIsDpb | src/core/builtins_arith.c:924-950 | DEPOSIT-FIELD is DPB of the loaded byte |
| ByteFields.FieldsOfDepositField | src/core/builtins_arith.c:906-950 | MASK-FIELD of a DEPOSIT-FIELD is MASK-FIELD of the new number |
| ByteFields.Boole | src/core/builtins_arith.c:953-990 | each of the sixteen operations by its truth table at every bit; other codes signalled |
| ByteFields.LogFold | src/core/builtins_arith.c:754-770 | LOGAND, LOGIOR and LOGXOR of any number of integers, bit by bit |
| NumberTheory.GcdLoop | src/core/bignum.c:1546-1605 | Euclid's loop ends with the greatest common divisor, mixing fixnum and bignum steps, even from a dividend with leading zeros |
| NumberTheory.Gcd | src/core/bignum.c:1546-1605 | the greatest common divisor of the magnitudes ABS hands on: of the two numbers themselves unless one is a negative bignum of 65536 limbs or more |
| NumberTheory.GcdMissed | src/core/bignum.c:1556-1557 | with k a multiple of 65536, GCD of -(65536^k + 3) and 3 gives 3, which does not divide the former |
| NumberTheory.GcdUnique | src/core/bignum.c:1546-1605 | there is only one |
| NumberTheory.Expt | src/core/bignum.c:1607-1648 | base^exp for every exponent >= 0; the truncated reciprocal otherwise |
| NumberTheory.NewtonAbove | src/core/bignum.c:1680-1689 | a Newton step never falls below the root |
| NumberTheory.NewtonDecreases | src/core/bignum.c:1680-1689 | above the root a step decreases |
| NumberTheory.StartAbove | src/core/bignum.c:1660-1673 | 2^ceil(length/2) is above the root |
| NumberTheory.NewtonLoop | src/core/bignum.c:1680-1689 | the loop stays at or above the root, cap of 1000 steps included |
| NumberTheory.CorrectDown | src/core/bignum.c:1691-1696 | from anywhere above, the final correction ends at the root |
| NumberTheory.RootUnique | src/core/bignum.c:1650-1700 | a number has one integer square root |
| NumberTheory.Isqrt | src/core/bignum.c:1650-1700 | x with x^2 <= n < (x+1)^2; negative arguments signalled |
| GcdFolds.GcdFold | src/core/builtins_arith.c:679-693 | GCD of any number of integers, or of what ABS keeps of them: a common divisor that every common divisor divides |
| GcdFolds.LcmFold | src/core/builtins_arith.c:695-719 | LCM of any number of integers, or of what ABS keeps of them: a common multiple that divides every common multiple, 0 exactly through a zero |
| GcdFolds.LcmOfTwo | src/core/builtins_arith.c:708-716 | (a / gcd) b divides every common multiple of a and b |
| Decimal.ReadDecimal | src/core/bignum.c:1426-1466 | the value of the digits modulo 2^4096, canonical, non-digits skipped |
| Decimal.ReadExact | src/core/bignum.c:1426-1466 | reading is exact if and only if the magnitude is below 2^4096 |
| Decimal.Print | src/core/bignum.c:1473-1540 | in every base 2 to 36 a numeral of the right value without leading zero, within the digit buffer; its text, read back with 0 to 9 and A to Z, is worth the magnitude |
| Decimal.SpelledReads | src/core/bignum.c:1475-1535 | the text of a digit sequence has its value in every base, each character being that of its digit |
| Decimal.ReadOfPrint | src/core/bignum.c:1426-1540 | reading a printed bignum below 2^4096 gives it back |
| Decimal.PrintOfRead | src/core/bignum.c:1426-1540 | printing a bignum read from a numeral gives the numeral back |
| Ratios.ReductionExact | src/core/ratio.c:32-85 | reduction keeps the value if and only if what was found as common divisor divides the numerator; always, and to lowest terms, unless the numerator is a negative number of 65536 limbs or more |
| Ratios.LongReductionFails | src/core/ratio.c:60-63 | with k a multiple of 65536, -(65536^k + 3) over 3 is reduced to an integer that is not its value |
| Ratios.PlusExact | src/core/ratio.c:88-115 | the sum of rationals, exact and with no larger parts, where ABS copies its numerator |
| Ratios.MinusExact | src/core/ratio.c:117-142 | the difference likewise |
| Ratios.TimesExact | src/core/ratio.c:144-166 | an integer multiple likewise |
| Ratios.CompareAbsExact | src/core/ratio.c:211-250 | the order of the absolute values, where ABS copies both numerators |
| Rounding.DoRounding | src/core/builtins_arith.c:161-227 | for integers, and for ratios small enough: number = quotient x divisor + remainder; side and size of the remainder, and ties to even, if and only if the operands do not come down to most-negative-fixnum over -1 and, for ROUND of integers, the comparison is not misjudged |
| Rounding.MisjudgedIsLong | src/core/builtins_arith.c:198-206 | ROUND misjudges only when the divisor or twice the first remainder is a negative number of 65536 limbs or more |
| Rounding.RoundMisjudges | src/core/builtins_arith.c:198-215 | with k a multiple of 65536, ROUND of 1 by -65536^k is misjudged: the quotient -1 breaks the promise |
| Rounding.AdjustmentKeeps | src/core/builtins_arith.c:186-217 | from a truncated quotient the adjustment leads to the promise, for ROUND if and only if the comparison said what it should |
| Rounding.FirstSteps | src/core/builtins_arith.c:177-184 | for integers, and for ratios small enough, product, first remainder and everything the adjustment needs are exact |
| Rounding.PromiseUnique | src/core/builtins_arith.c:161-227 | the mode's promise fixes quotient and remainder |
| Remainders.RoundOne | src/core/builtins_arith.c:90-134 | the quotient keeps the promise if and only if ROUND does not misjudge numerator over denominator; the remainder is exact if and only if its reduction is; both always when twice the denominator has fewer than 65536 limbs |
| Remainders.RemRational | src/core/builtins_arith.c:388-424 | REM with a ratio is a remainder of TRUNCATE, where the numerators leave room |
| Remainders.ModRational | src/core/builtins_arith.c:438-486 | MOD with a ratio is a remainder of FLOOR, where the numerators leave room |
| Remainders.IntegersAgree | src/core/bignum.c:1061-1189 | TRUNCATE's and MOD's integer results keep the promises stated for rationals |
| Names.CompareTransitive | src/core/bindtab.c:116-122 | name_cmp is transitive, strictly so where one step is strict |
| Names.CompareZero | src/core/bindtab.c:116-122 | it is 0 exactly on equal names |
| Names.CompareSwap | src/core/bindtab.c:116-122 | swapping the names flips the sign |
| Names.PrecedesExactly | src/core/bindtab.c:114-122 | a name comes first exactly when the two agree up to where it ends or has the smaller byte |
| TableFormat.ReadWrite32 | src/core/bindtab.c:45-58 | a big-endian word reads back |
| TableFormat.Validate | src/core/bindtab.c:253-327 | no complaint if and only if the bytes are a well-formed table |
| TableFormat.WideToInteger | src/core/bindtab.c:158-180 | the limbs built from a big-endian magnitude give its integer, canonical |
| TableFormat.WordToInteger | src/core/builtins_ffi.c:53-84 | a 32-bit value, signed or not, becomes its canonical integer |
| TablePacker.NibbleIsDigit | src/core/bindtab.c:299-307 | register nibbles are base-16 digits of the register word |
| TablePacker.RegSpecReads | src/core/bindtab.c:645-684 | registers and result kind are read back from the packed word |
| TablePacker.FixnumBytes | src/core/bindtab.c:493-502 | the big-endian bytes of a fixnum's magnitude |
| TablePacker.LimbBytes | src/core/bindtab.c:503-515 | the big-endian bytes of a bignum's magnitude |
| TablePacker.Build.EncodeValue | src/core/bindtab.c:466-542 | accepted values read back as themselves from entry or payload; the rest refused |
| TablePacker.Build.AddCall | src/core/bindtab.c:627-690 | a call row is accepted on exactly the stated conditions and its record means that row |
| TablePacker.VersionMeans | src/core/bindtab.c:662-673 | the last version option of a call row counts |
| TablePacker.UsableRow | src/core/bindtab.c:848-870 | a call can be used exactly when its platform options suit *FEATURES* and its version is 0 or at most the fixnum in the version variable; any other row always, unless a table not made by the packer guards it |
| TablePacker.Build.AddField | src/core/bindtab.c:545-598 | a field row likewise, offset and count sharing the word of an array field, and the stride being the bytes of the element type |
| TablePacker.Build.ParseRow | src/core/bindtab.c:607-742 | a row is accepted or refused as documented, and adds exactly its expansion |
| TablePacker.DerivedNames | src/core/bindtab.c:703-725 | the size variable, the accessors and the setters of a structure are spelled *NAME-SIZE*, NAME-FIELD and %SET-FIELD |
| TableLayout.OrderedPermutationUnique | src/core/bindtab.c:744-766 | an ordered permutation of the records is unique, so any sorting algorithm gives this one |
| TableLayout.SortSorted | src/core/bindtab.c:744-766 | the sort orders by name, then source position |
| TableLayout.SortStable | src/core/bindtab.c:744-766 | rows of one name keep their order |
| TableLayout.SortMultiset | src/core/bindtab.c:744-766 | no row is lost or added by the sort |
| TableLayout.Layout | src/core/bindtab.c:778-818 | the two passes over the byte buffer leave header, entries, names and payloads in their places |
| TableLayout.LaidOutDecodes | src/core/bindtab.c:253-327 | such a buffer passes the validator and decodes to what its records mean |
| TableLayout.Pack | src/core/bindtab.c:752-821 | refused exactly when a row is bad or a name repeats beyond calls; else the table is valid, decodes to the name-sorted, stable expansion of the rows (strides, guards and versions included), guards calls only, and has names that fit the materialiser |
| TableProbe.LowerBound | src/core/bindtab.c:828-841 | everything before is smaller, everything from it on is not |
| TableProbe.Probe | src/core/bindtab.c:872-912 | on every valid table the binary search gives what a scan from the front gives; what a guard means is TablePacker.UsableRow, which variant that is Variants.PackedVariant |
| TableProbe.ProbeMeaning | src/core/bindtab.c:872-912 | a hit exactly when an entry has the name, or it is %SET- and a writable field; first entry, first variant that its guard (TablePacker.UsableRow) makes usable |
| TableProbe.ValidTableOrdered | src/core/bindtab.c:253-327 | validation gives the whole order, and repetition of library calls only |
| Variants.FirstAmongVariants | src/core/bindtab.c:886-892 | the first usable row of a name is the first usable one among the rows of that name |
| Variants.PackedVariant | src/core/bindtab.c:872-912 | in a packed table the probe names exactly the names written, and chooses the first usable row of the name in the order the rows were written; none when none is usable |
| Variants.PackedLookup | src/core/bindtab.c:966-1111 | from the rows written to the symbol found: a first lookup builds what the first usable row of the name says, cell by cell |
| Variants.NewerKeeps | src/core/bindtab.c:858-868 | raising the library version loses no name, and chooses the same variant or an earlier one |
| Variants.UnknownVersion | src/core/bindtab.c:858-868 | without a fixnum version exactly the unversioned variants are left |
| LazyPackages.FindKeepsSettled | src/core/bindtab.c:966-1111 | a lookup, of a field or of its setter, never changes what the package finally is |
| LazyPackages.FlipSettles | src/core/bindtab.c:1114-1166 | the eager flip builds exactly that final package |
| LazyPackages.UnguardedName | src/core/bindtab.h:62-65 | a name whose every guard fails ends exported and unbound |
| LazyPackages.RegistrationCoherent | src/core/bindtab.c:1213-1250 | registration leaves any package coherent, in whatever order the present symbols are visited |
| LazyPackages.RegistrationDefines | src/core/bindtab.c:1213-1250 | every present symbol the table defines gets its definition, every present setter can be called, every present field has its SETF updater |
| Definitions.InstallMeans | src/core/bindtab.c:934-964 | what each kind of row puts into a symbol, every other cell kept: constants constant, variables special, calls and fields their stubs |
| Definitions.MaterialisedMeans | src/core/bindtab.c:1000-1111 | one materialisation, cell by cell: a symbol built, completed or left, the setter with a POKE stub, indexed for arrays only, the pair, the export, and nothing else |
| Definitions.FindMeans | src/core/bindtab.c:966-1111 | a lookup of an absent name builds the entry that defines it, or the field whose setter it is, or finds nothing |
| Definitions.FlippedSymbol | src/core/bindtab.c:1114-1166 | every symbol after the flip: present ones kept, table names with the definition of their first usable variant, setters beside their fields, nothing else |
| Definitions.GuardedName | src/core/bindtab.c:966-1111 | a name ends exported with exactly the cells its first usable variant describes, and a writable field with its setter and updater |
| Definitions.RegistrationRedefines | src/core/bindtab.c:1213-1250 | after registration every present table name has this table's definition whatever it held before, every setter of a field writes that field, every other symbol is as it was |
| Definitions.ArrayElements | src/core/builtins_ffi.c:986-996 | reader and writer of a packed array field reach element i at the offset plus i element sizes, and elements share no byte |
| LazinessExact.LazinessExactlyWhen | src/core/bindtab.c:872-1166 | for tables whose names fit the materialiser's buffers, first lookups leave the flipped package unchanged if and only if the table is separated |
| LazinessExact.CollisionShows | src/core/bindtab.c:1088-1100 | an entry named like a live field's setter ends exported or not depending on the first lookup |
| LazinessExact.DeadFieldShows | src/core/bindtab.c:898-910 | looking up the setter of a field whose guard fails defines the field, which the flip does not |
| LazinessExact.PackedSeparated | src/core/bindtab.c:579-598 | for a table from the packer the condition is one of names alone |
| LazinessWitnesses.PackedClash | src/core/bindtab.c:1088-1100 | a packed table with a field F and an entry %SET-F, on which two first lookups end differently |
| LazinessWitnesses.GuardedFieldShows | src/core/bindtab.c:898-910 | a valid table with one guarded field, on which the lookup of its setter shows |
| LazinessWitnesses.LongNameIsValid | src/core/bindtab.c:274-279 | the validator accepts names of any length up to 65535, the buffers of the materialiser hold 256 |
| LazyWorlds.StepCommutes | src/core/package.c:328-440 | each operation shows the same lazily and eagerly, and leaves worlds that differ by laziness only |
| LazyWorlds.LazinessUnobservable | src/core/bindtab.h:11-19 | every run of lookups, interns, updates and enumerations shows what it shows over eager packages, and ends in the same world |
| LazyWorlds.LookupCommutes | src/core/package.c:328-382 | own symbols, own table, then each used package: the lazy funnel finds what the ordinary one finds, with the same status |
| LazyWorlds.LookupAnswer | src/core/package.c:328-415 | what FIND-SYMBOL answers, told from the flipped packages alone: own external or internal, else the first package in the use list that exports the name, else none, with the owner's symbol |
| LazyWorlds.ExternalAnswer | src/core/package.c:387-431 | the same for the lookup of externals only |
| LazyWorlds.StepPerforms | src/core/package.c:328-440 | what each operation shows and changes: lookups change nothing, INTERN adds a blank internal symbol exactly when there is no answer, an update writes the symbol found |
| LazyWorlds.RegistrationSound | src/core/bindtab.c:1213-1250 | registration leaves packages the theorem applies to |
| PackageObjects.PackageObject.Materialise | src/core/bindtab.c:966-1111 | the new state is the sequential materialisation of the old one, each cell as the row says, the names copied within their buffers |
| PackageObjects.PackageObject.MaterialiseAll | src/core/bindtab.c:1114-1166 | the loop over the entries is the flip |
| PackageObjects.PackageObject.Register | src/core/bindtab.c:1172-1252 | a bad table is refused and nothing changes; a good one is attached and every present symbol it names is redefined, cell by cell |
| PackageObjects.PackageObject.ShedTable | src/core/bindtab.c:1259-1287 | the blob goes, the marker stays, the size is returned; afterwards lookups find what is present and nothing else, and flips do nothing |
| Interning.NextInv | src/core/bindtab.c:966-1166 | every step of every thread keeps the invariant and takes nothing back |
| Interning.OneSymbolPerName | src/core/bindtab.c:984-1111 | all answers for one name, at any two moments of any run, are one symbol; only a name the table cannot serve is reported missing |
| Interning.LinkShape | src/core/bindtab.c:1071-1102 | the critical section links complete fresh symbols under absent names, or changes nothing |
| Interning.VisibleIsDefined | src/core/bindtab.c:1066-1102 | a visible table name is exported and defined, a visible live field has a callable setter |
| Interning.ServedPresent | src/core/bindtab.c:985-998 | once the table is dropped everything it could serve is present |
| Interning.LookupFinishes | src/core/bindtab.c:966-1111 | a started lookup has its answer after at most four steps of its own, whatever the others do |
| Interning.FlipFinishes | src/core/bindtab.c:1114-1166 | a started flip has dropped the table after at most six steps of its own per entry and six more |
| InterningRefines.ConcurrentFlipIsSequential | src/core/bindtab.c:966-1166 | when a flip has dropped the table, names, definitions and exports are those of a sequential flip, whatever the interleaving |
| InterningRefines.LinkBuilds | src/core/bindtab.c:1071-1102 | the critical section does what the sequential materialiser does |
| InterningRefines.MadeMeans | src/core/bindtab.c:1001-1068 | what a thread has made before it takes the lock is what its row describes, and the setter beside it |
| InterningRefines.RegisteredIsSound | src/core/bindtab.c:1172-1252 | registration leaves a state from which the runs start, with every DEFSETF pair in place |
| InterningRefines.EmptyIsRegistered | src/core/bindtab.c:1172-1212 | so does registering over a package with nothing in it |
| InterningRefines.RunPairs | src/core/bindtab.c:1104-1109 | in every run from a registered package a present field's SETF updater is registered, or its builder is on its way |
| InterningRefines.FieldSeenBeforePair | src/core/bindtab.c:1104-1109 | from any package at rest that lacks a live field, four steps lead to a thread that has the field without an updater |
| InterningRefines.FallbackAnswers | src/core/bindtab.c:982-998 | the dropped-table fallback answers a servable query if and only if it is shorter than 256 |
| InterningRefines.FallbackReached | src/core/bindtab.c:985-998 | from any package at rest that lacks an entry, a run leads to that fallback; the entry is found if and only if its name is shorter than 256 |
| Vectors.GrownRead | src/core/builtins_array.c:2096-2123 | after growth a chain through the vector ends in its new store, every other chain reads as before |
| Vectors.StoredRead | src/core/builtins_array.c:1995-2000 | a store is seen exactly through the indices that mean its slot |
| Vectors.NewCapacity | src/core/builtins_array.c:2059-2088 | the least capacity that is 4, twice the old one and the extension at least, or ARRAY-DIMENSION-LIMIT |
| Vectors.PushExtendMeans | src/core/builtins_array.c:2012-2127 | fails exactly on a full vector that cannot grow; else the element is in its slot, every other one stays, the slots gained hold NIL |
| Vectors.PushPopMeans | src/core/builtins_array.c:1971-2153 | VECTOR-PUSH gives NIL exactly on a full vector, VECTOR-POP signals exactly on an empty one |
| Vectors.PopUndoesPush | src/core/builtins_array.c:2012-2153 | VECTOR-PUSH-EXTEND appends to the active elements and VECTOR-POP takes it off again |
| Vectors.AdjustKeepsActive | src/core/builtins_array.c:2262-2312 | ADJUST-ARRAY keeps every element that fits, fills the new ones with :initial-element or NIL, and keeps the active elements active |
| Vectors.AdjustedFillProper | src/core/builtins_array.c:2216-2226 | an integer :fill-pointer leaves a proper vector if and only if it lies within the length, or is -1 |
| VectorHeap.ObjectHeap.DataOf | src/core/mem.c:1097-1112 | following the links gives the slot every index means |
| VectorHeap.ObjectHeap.VectorPush | src/core/builtins_array.c:1971-2001 | the plain sequence gets the element, or NIL is returned; every array over that slot sees it |
| VectorHeap.ObjectHeap.VectorPushExtend | src/core/builtins_array.c:2012-2127 | the plain sequence grows as stated, errors included; arrays over the preserved prefix read the same |
| VectorHeap.ObjectHeap.VectorPop | src/core/builtins_array.c:2129-2153 | the last active element, the fill pointer one less, nothing else changed |
| VectorHeap.ObjectHeap.AdjustArray | src/core/builtins_array.c:2162-2336 | element by element kept or filled with :initial-element, else NIL; fill pointer as asked for, else kept, never invented; same identity exactly for adjustable vectors; arrays over the kept prefix read the same |
| VectorHeap.ObjectHeap.MakeDisplaced | src/core/builtins_array.c:461-505 | a view reads its target from its offset on and changes nothing for the others; refused, or begun before its target, on exactly the stated bounds |
| VectorHeap.ObjectHeap.Run | src/core/builtins_array.c:1971-2336 | any run on an adjustable vector with a fill pointer follows the plain sequence and its answers |
| BitVectors.WordResultBit | src/core/builtins_bitvector.c:185-194 | each of the ten word operations has its truth table at every bit |
| BitVectors.BinaryOp | src/core/builtins_bitvector.c:134-183 | element-wise result with a clear tail, the result vector possibly an argument; each error as its own kind |
| BitVectors.UnaryNot | src/core/builtins_bitvector.c:208-228 | element-wise complement with a clear tail; each error as its own kind |
| BitVectors.BitVector.MaskTrailing | src/core/builtins_bitvector.c:119-127 | clears the tail and no element |
| BitVectors.BitVector.SetBit | src/core/types.h:756-761 | one element changed, the tail kept clear |
| BitVectors.MakeOnes | src/core/builtins_array.c:595-618 | all elements 1 and a clear tail |
| BitVectors.MakeFromContents | src/core/builtins_array.c:619-630 | the contents, padded with 0, and a clear tail |
| BitVectors.CopyWindow | src/core/builtins_array.c:533-563 | the window's elements and a clear tail; the bounds error, and the negative offsets that pass the test, exactly |
| BitVectors.WordsDecide | src/core/builtins.c:786-794 | with clear tails, equal words are equal elements |
| BitVectors.Equal | src/core/builtins.c:786-794 | EQUAL's whole-word comparison is element-wise equality |
| BitVectors.Equalp | src/core/builtins.c:941-956 | EQUALP compares the active bits, on the whole-word path and bit by bit, for every fill pointer within the words |
| BitVectors.ActiveElements | src/core/types.h:762-764 | with a fill pointer within the length the active bits are the active elements |
| Registry.GapMeansAbsent | src/core/builtins.c:94-112 | an empty slot at the end of a probe means that the key is absent |
| Registry.ProbeEnds | src/core/builtins.c:94-112 | probing stops: an empty slot always lies ahead |
| Registry.BuiltinRegistry.InternPackage | src/core/builtins.c:51-70 | one place per package name, sixteen at most |
| Registry.BuiltinRegistry.Insert | src/core/builtins.c:80-113 | the table becomes the map with that registration, within both capacities |
| Registry.BuiltinRegistry.InsertAll | src/core/builtins.c:80-113 | any sequence of registrations leaves the map it describes |
| Registry.BuiltinRegistry.Lookup | src/core/builtins.c:115-132 | the function registered for the key, or NULL |
| Registry.WithinCapacity | src/core/builtins.c:35-132 | within 16 packages and 2047 keys the map holds every key's last registration |

## Left out

- Floats and complex numbers: only integers and exact rationals are modelled.
- Garbage collection, compaction and rooting: objects are values, or instances that do not move.
- Allocation failure, the storage limits on bignum and vector sizes, and stack or heap scratch space.
- Rounding.DoRounding: of ratios too long for the bound stated nothing is promised but the error for a zero divisor; Ratios.ReductionExact says when each step is right.
- Remainders.RemRational: the same bound.
- Remainders.ModRational: the same bound.
- NumberTheory.Gcd: is not called where its first division would be by limbs with a leading 0, on which the C loop does not end or reads outside the limbs.
- GcdFolds.GcdFold: takes no negative bignum of which ABS keeps a leading limb 0 or no limb, for that reason.
- GcdFolds.LcmFold: the same bound on its arguments.
- NumberTheory.Isqrt: takes numbers whose bit length fits a C int.
- ByteFields.Ldb: says nothing, like the other byte operations, of negative sizes and positions or of bignum sizes beyond the errors it states; for a bignum position it supposes a number of at most 2^30 bits.
- LOGTEST, LDB-TEST, LOGCOUNT's and LOGBITP's argument checks, MAX and MIN: they follow from the operations above.
- Interning.OneSymbolPerName: no thread sheds the table, registers another one or uninterns a symbol during the run, and features and versions stay fixed.
- LazyWorlds.LazinessUnobservable: symbols imported from other packages, packages re-registered during a run, the order of the export list and changes of *FEATURES* or of the version variable are not modelled.
- PackageObjects.PackageObject.Materialise: takes tables whose names fit its buffers, and so do MaterialiseAll and Register.
- TableLayout.Pack: tables whose byte size does not fit 32 bits are set apart as TooLarge; keyword lists are taken as already recognised.
- Symbol tables are maps or lists: hash buckets of packages are not modelled.
- VectorHeap.ObjectHeap.MakeDisplaced: a view that begins before its target is told apart but not put into the heap.
- VectorHeap.ObjectHeap.Run: an integer :fill-pointer has to lie within the length it comes with.
- Multidimensional arrays, strings and byte vectors as displacement targets, EQUAL and EQUALP on other types.
- Registry.BuiltinRegistry.Insert: names hold no zero byte; the pool's memory is not modelled.
- Printing of fixnums, the reader around the digits, and the LCM and GCD type checks.
