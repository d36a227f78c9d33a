# ByConity numeric and text cores in Dafny

This project models the parts of ByConity that do exact arithmetic or exact text work, and proves what
they compute. Eight components are covered, each in a group of files named after it:

- **BigUnsigned, BigInteger and their algorithms** (`Blocks`, `BlockLoops`, `BigUnsigned`, `BigInteger`,
  `BigIntegerAlgorithms`, `BigUnsignedInABase`): numbers of any size in a heap array of N-bit blocks,
  updated in place, with every aliasing of receiver and operands that the library allows. N is a symbolic
  constant, so the results hold for every block type. The abstract value of an object is `Value()`;
  `Valid()` says that it is in canonical form (no leading zero block; sign zero exactly for zero).
- **wide::integer** (`WideItems`, `WideMultiply`, `WideInteger`, `WideDivide`, `WideText`): numbers of a
  fixed count of items, modulo 2^Bits, signed or not. `Val` is the unsigned value, `Value` the value with
  its sign, `Mod(x, k)` the reduction to k items.
- **PCG generators** (`Pcg`, `PcgOutput`): jumping ahead and back, distances, the exact periods, and the
  inversion of the RXS-M-XS output function. `Steps` is the reference: `bump` applied n times.
- **itoa** (`Itoa`): division by multiplication, and the two ways of writing decimal digits into a buffer.
  `Decimal` and `Numeral` (`Numerals`) are the reference texts of all printers of the project.
- **DecomposedFloat** (`DecomposedFloat`): comparing a float with an integer exactly. `Scaled` is the exact
  value of a float in units of its smallest subnormal number, `Unit` is the number one in these units.
- **Consistent hashing** (`ConsistentHashing`, `ConsistentShares`): bucket stability, and the shares of the
  buckets counted over every hash, exactly for powers of two and with an error bound for every other number.
- **BorrowedObjectPool** (`BorrowedObjectPool`): a class with one method per critical section, and a state
  machine in which any number of threads enter, sleep, are woken by a notification, spuriously or by a
  timeout, run again, and return objects, in any order.
- **JSON** (`JsonText`, `JsonReader`, `JsonGrammar`, `JsonMethods`): skipping, reading and counting over a
  text without building a tree, against a printer of JSON trees and, for arbitrary texts, a grammar of what
  is skipped.

`Powers` and `Bits` hold the arithmetic all of them share: powers, division, shifts and bitwise operations
on natural numbers.

Machine integers are modelled as natural numbers with the wrap-around written out. Errors that the
original throws are results: a Boolean `ok`, `Result`, `Division` or `Failure`.

## Where the code departs from what it promises

Each of these is stated with a witness and with the exact condition under which the promise holds.

- Shifting a zero BigUnsigned left by a whole block or more leaves zero blocks behind, so it is not
  canonical. It is canonical exactly when the operand is nonzero or the shift is less than a block
  (`BlockLoops.ShiftLeftResult`; witness `BigUnsigneds.ZeroShiftedByABlock`).
- `modexp` gives 1 instead of 0 for modulus 1 and exponent 0, and is right in every other case
  (`BigIntegerAlgorithms.ModPowerExact`; witness `BigIntegerAlgorithms.UnreducedPower`).
- A float infinity of either sign compares with integers as if it were 2^(bias + 1) of that sign, although
  infinities are documented to compare correctly. It lies beyond an integer exactly while the integer is
  nearer than that power (`DecomposedFloats.InfinityCompared`; witness
  `DecomposedFloats.InfinityEqualsAnInteger`, one integer for each sign). A NaN compares as the number its
  bits would stand for in the same way (`DecomposedFloats.FullExponentCompared`).
- `skipNumber` stops before a plus sign in an exponent, which section 6 of RFC 8259 allows. So a well-formed
  tree is skipped to its end exactly if it fits the level budget and no number in it has such a sign
  (`JsonReader.NumberSkipped`, `JsonReader.ElementSkipped`; witness `JsonReader.PlusExponentNotSkipped`).
- `JSON::operator[](n)` with n equal to the size gives the end iterator instead of an error
  (`JsonReader.IndexedElement`; witness `JsonReader.EmptyArrayIndexed`).
- Signed division of the minimum by minus one wraps, and no other pair does (`WideDivide.OperatorSlash`;
  witness `WideDivide.MinimumOverMinusOne`).
- A narrower negative right operand of a wide::integer is read without sign extension. So `>` is always true
  and `<` always false (`WideIntegers.Greater`, `WideIntegers.Less`), `==` is wrong for two left operands
  (`WideIntegers.NarrowNegativeEquality`), and `|` and `&` are right exactly where the left operand alone
  decides the missing items (`WideIntegers.NarrowNegativeBits`). The witnesses are
  `WideIntegers.NarrowNegativeWitness` and `WideIntegers.NarrowBitsWitness`.
- Consistent hashing is documented to make all buckets equally likely. Over all hashes that holds exactly
  when their number is a power of two (`ConsistentHashing.EqualShares`; witness
  `ConsistentHashing.ThreeBuckets`). For every other number each bucket is off by at most a stated
  deviation (`ConsistentShares.NearlyEqualShares`), which is small for few buckets
  (`ConsistentShares.FairUpTo1024`) and not for many: where the unused bits of the hash run out, a bucket
  is reached only as often as with the next power of two (`ConsistentShares.StarvedBuckets`; witness
  `ConsistentShares.HalfAShare`).
- It is also documented to move the share (n2 - n1) / n2 of the hashes from n1 to n2 buckets. That holds for
  every n1 together, and for n1 = n2 - 1 alone, exactly when n2 is a power of two
  (`ConsistentHashing.MinimalMoves`, `ConsistentHashing.OneMoreMoves`; witness
  `ConsistentHashing.ThreeBucketsMove`). For one pair it holds if n2 is a power of two or n1 = n2, and only
  if n2 divides n1 times the number of hashes (`ConsistentHashing.ExactMovesDivide`), and it is always met up
  to the deviation (`ConsistentShares.NearlyMinimalMoves`).

## Model

| member | source | states |
|---|---|---|
| `BlockLoops.AddColumns` | base/libbiginteger/BigUnsigned.cc:167-181 | the column loop of add: the written blocks and the carry out are exactly the sum of the two prefixes |
| `BlockLoops.SubtractBlocks` | base/libbiginteger/BigUnsigned.cc:217-246 | the block subtraction gives the exact difference, and fails exactly when the minuend is smaller |
| `BlockLoops.RollCarry` | base/libbiginteger/BigUnsigned.cc:374-379 | the carry loop without a bound check stops inside the buffer because the sum fits in it, leaving exactly the sum |
| `BlockLoops.MultiplyBlocks` | base/libbiginteger/BigUnsigned.cc:335-381 | shift-and-add over all bits leaves exactly the product in a buffer of the two lengths together |
| `BlockLoops.ProductTop` | base/libbiginteger/BigUnsigned.cc:382-384 | at most the one top block of a product of canonical numbers is zero |
| `BlockLoops.TrySubtractShifted` | base/libbiginteger/BigUnsigned.cc:502-543 | one trial subtraction of the shifted divisor changes the remainder exactly when it fits, through the spare buffer, and leaves the extra top block zero |
| `BlockLoops.DivideBlocks` | base/libbiginteger/BigUnsigned.cc:488-545 | the loop over all quotient bits ends with a = q*b + r and r < b, the extra block zero again, all accesses inside the extended buffer |
| `BlockLoops.QuotientTop` | base/libbiginteger/BigUnsigned.cc:546-548 | the quotient of canonical numbers has at most one leading zero block, so one zap makes it canonical |
| `BlockLoops.ShiftLeftResult` | base/libbiginteger/BigUnsigned.cc:623-647 | the shifted blocks are worth a * 2^b, and one zap is enough for canonical form if and only if a is nonzero or less than a block is shifted |
| `BlockLoops.ShiftRightResult` | base/libbiginteger/BigUnsigned.cc:649-683 | the blocks shifted right are worth a / 2^b rounded down, canonical after one zap |
| `Blocks.CanonicalUnique` | base/libbiginteger/BigUnsigned.hh:34-38 | two canonical block sequences of the same value are the same, so comparing lengths and blocks compares numbers |
| `BigUnsigneds.BigUnsigned.AllocateAndCopy` | base/libbiginteger/NumberlikeArray.hh:113-127 | growing the buffer keeps every block of the number |
| `BigUnsigneds.BigUnsigned.Assign` | base/libbiginteger/NumberlikeArray.hh:142-155 | assignment copies the value and shares nothing, also for self-assignment |
| `BigUnsigneds.BigUnsigned.ZapLeadingZeros` | base/libbiginteger/BigUnsigned.hh:35-38 | dropping leading zero blocks keeps the value and reaches canonical form |
| `BigUnsigneds.BigUnsigned.Add` | base/libbiginteger/BigUnsigned.cc:140-198 | the receiver becomes a + b in canonical form for every operand pair and every aliasing |
| `BigUnsigneds.BigUnsigned.Subtract` | base/libbiginteger/BigUnsigned.cc:200-249 | the receiver becomes a - b in canonical form for every aliasing; throws exactly when a < b, and then changes nothing or becomes zero as the path taken decides |
| `BigUnsigneds.BigUnsigned.Multiply` | base/libbiginteger/BigUnsigned.cc:316-385 | the receiver becomes exactly a * b in canonical form for every operand pair and every aliasing |
| `BigUnsigneds.BigUnsigned.DivideWithRemainder` | base/libbiginteger/BigUnsigned.cc:398-554 | for every b != 0: old receiver = q*b + r with r < b, both canonical, r in the receiver; by zero the quotient is zero and the receiver unchanged; throws exactly when q is the receiver |
| `BigUnsigneds.BigUnsigned.Increment` | base/libbiginteger/BigUnsigned.cc:687-700 | adds one, growing by a block when every block overflows, canonical |
| `BigUnsigneds.BigUnsigned.Decrement` | base/libbiginteger/BigUnsigned.cc:708-720 | subtracts one in canonical form; throws exactly for zero |
| `BigUnsigneds.BigUnsigned.CompareTo` | base/libbiginteger/BigUnsigned.cc:85-105 | the order of the values |
| `BigUnsigneds.BigUnsigned.Equals` | base/libbiginteger/NumberlikeArray.hh:169-182 | equal blocks if and only if equal values |
| `BigUnsigneds.BigUnsigned.BitLength` | base/libbiginteger/BigUnsigned.cc:63-75 | the n with 2^(n-1) <= value < 2^n, zero for zero |
| `BigUnsigneds.BigUnsigned.GetBit` | base/libbiginteger/BigUnsigned.hh:132-136 | the bit of the value at any position, false beyond the blocks |
| `BigUnsigneds.BigUnsigned.BitShiftLeft` | base/libbiginteger/BigUnsigned.cc:623-647 | the receiver becomes a * 2^b, or a / 2^-b for negative b, for every aliasing, canonical except for zero shifted by a block or more; throws exactly for the least int |
| `BigUnsigneds.ZeroShiftedByABlock` | base/libbiginteger/BigUnsigned.cc:623-647 | zero shifted by one block is worth zero and is not canonical |
| `BigUnsigneds.BigUnsigned.BitShiftRight` | base/libbiginteger/BigUnsigned.cc:649-683 | the receiver becomes a / 2^b rounded down, or a * 2^-b for negative b |
| `BigIntegers.BigInteger.FromMagnitude` | base/libbiginteger/BigInteger.cc:44-61 | a magnitude with a sign that does not contradict it gives that value, and zero magnitude gives sign zero |
| `BigIntegers.BigInteger.MagnitudeAndSign` | base/libbiginteger/BigInteger.cc:44-61 | throws exactly for sign zero with a nonzero magnitude; otherwise the signed value, its sign zero exactly for zero |
| `BigIntegers.BigInteger.CompareTo` | base/libbiginteger/BigInteger.cc:143-163 | the order of the signed values |
| `BigIntegers.BigInteger.Add` | base/libbiginteger/BigInteger.cc:175-207 | the receiver becomes a + b for every sign combination and aliasing, zero always with sign zero |
| `BigIntegers.BigInteger.Subtract` | base/libbiginteger/BigInteger.cc:209-247 | the receiver becomes a - b for every sign combination and aliasing |
| `BigIntegers.BigInteger.Multiply` | base/libbiginteger/BigInteger.cc:249-265 | the receiver becomes a * b for every sign combination and aliasing |
| `BigIntegers.BigInteger.DivideWithRemainder` | base/libbiginteger/BigInteger.cc:286-365 | floored division for all sign combinations: a = q*b + r, r zero or with the sign of b, abs(r) < abs(b); by zero q is zero and the receiver unchanged; throws exactly when q is the receiver, and then changes nothing |
| `BigIntegers.BigInteger.BitShiftLeft` | base/libbiginteger/BigInteger.cc:468-490 | a * 2^b, or the floor of a / 2^-b for negative b; throws exactly for the least int, and then changes nothing |
| `BigIntegers.BigInteger.BitShiftRight` | base/libbiginteger/BigInteger.cc:492-539 | the floor of a / 2^b for negative numbers as well; throws exactly for the least int, and then changes nothing |
| `BigIntegers.OnesLost` | base/libbiginteger/BigInteger.cc:517-533 | the scan of the shifted-out bits is true exactly when the division by 2^b leaves a remainder |
| `BigIntegerAlgorithms.Gcd` | base/libbiginteger/BigIntegerAlgorithms.cc:18-29 | terminates for all inputs with the greatest common divisor, which every common divisor divides |
| `BigIntegerAlgorithms.ExtendedEuclidean` | base/libbiginteger/BigIntegerAlgorithms.cc:31-56 | terminates for all signed inputs with r*m + s*n = g, g a greatest common divisor up to sign and positive for n > 0; throws exactly for aliased outputs |
| `BigIntegerAlgorithms.ModInv` | base/libbiginteger/BigIntegerAlgorithms.cc:58-66 | succeeds exactly when n > 0 and x, n are coprime, with the inverse of x in [0, n) |
| `BigIntegerAlgorithms.ModExp` | base/libbiginteger/BigIntegerAlgorithms.cc:68-85 | left-to-right square-and-multiply computes `ModPower` for every signed base, exponent and modulus, and fails exactly for modulus zero |
| `BigIntegerAlgorithms.ModPowerExact` | base/libbiginteger/BigIntegerAlgorithms.cc:68-85 | `ModPower` is base^exponent mod modulus if and only if not both modulus = 1 and exponent = 0 |
| `BigIntegerAlgorithms.UnreducedPower` | base/libbiginteger/BigIntegerAlgorithms.cc:68-85 | for every base, exponent 0 and modulus 1 give 1, which is not the power modulo 1 |
| `BigUnsignedsInABase.CapacitySuffices` | base/libbiginteger/BigUnsignedInABase.cc:47-58 | the digit capacity computed from bit lengths is never exceeded while digits are produced |
| `BigUnsignedsInABase.FromUnsigned` | base/libbiginteger/BigUnsignedInABase.cc:47-75 | the digits of any number in any base from 2 on stand for that number, without a leading zero; refuses smaller bases |
| `BigUnsignedsInABase.ToUnsigned` | base/libbiginteger/BigUnsignedInABase.cc:77-86 | the number that the digits stand for |
| `BigUnsignedsInABase.FromText` | base/libbiginteger/BigUnsignedInABase.cc:88-122 | accepts exactly the nonempty texts of digits of the base, either case, and gives their value; the symbols are those of `Numerals.SymbolDigitIs` |
| `BigUnsignedsInABase.ToText` | base/libbiginteger/BigUnsignedInABase.cc:126-146 | the shortest text of the number in bases 2 to 36, refused above; in the bases 0 and 1 that the text constructor lets through, the number is zero and so is the text |
| `BigUnsignedsInABase.BigIntegerToString` | base/libbiginteger/BigIntegerUtils.cc:24-28 | the decimal text with a minus sign for negative numbers |
| `Numerals.SignedDecimalIs` | base/libbiginteger/BigIntegerUtils.cc:24-28 | the text starts with a minus sign if and only if the number is negative, zero included, and is the shortest text of the magnitude otherwise |
| `BigUnsignedsInABase.StringToBigInteger` | base/libbiginteger/BigIntegerUtils.cc:39-57 | accepts exactly an optional sign and decimal digits, and gives the signed value |
| `BigUnsignedsInABase.SignedTexts` | base/libbiginteger/BigIntegerUtils.cc:39-57 | a nonempty decimal text is accepted alone, after a plus and after a minus sign, and means that number with that sign |
| `BigUnsignedsInABase.SignedTextParts` | base/libbiginteger/BigIntegerUtils.cc:39-57 | and nothing else is accepted |
| `Numerals.SymbolIs` | base/libbiginteger/BigUnsignedInABase.cc:126-146 | the symbol of a digit is the character at that place of 0-9, A-Z |
| `Numerals.SymbolDigitIs` | base/libbiginteger/BigUnsignedInABase.cc:105-118 | a character has the value d if and only if it is the character at place d of 0-9, A-Z, or of the same list in lower case |
| `Numerals.LoweredSymbol` | base/libbiginteger/BigUnsignedInABase.cc:105-118 | the lower case of the character at each place of the one list is the character at that place of the other |
| `Numerals.LoweredValue` | base/libbiginteger/BigUnsignedInABase.cc:105-118 | the text of a number in lower case is a text of the same number |
| `Numerals.TextSplit` | base/libbiginteger/BigUnsignedInABase.cc:77-86 | the value of a text is that of its front times a power of the base, plus that of its back |
| `BigUnsignedsInABase.SignedRoundTrip` | base/libbiginteger/BigIntegerUtils.cc:24-57 | every integer printed in decimal is read back as itself |
| `BigUnsignedsInABase.RoundTrip` | base/libbiginteger/BigUnsignedInABase.cc:47-146 | number, digits, text, digits, number is the identity for every value and every base from 2 to 36 |
| `Numerals.NumeralValue` | base/libbiginteger/BigUnsignedInABase.cc:77-146 | reading the shortest text of a number gives the number, in every base |
| `Numerals.NumeralOfText` | base/libbiginteger/BigUnsignedInABase.cc:88-146 | printing the value of a text without leading zero gives the text back |
| `Pcg.Advance` | base/pcg-random/pcg_random.hpp:631-660 | the doubling loop gives the state after exactly delta bumps, modulo 2^w, for every delta, multiplier and increment |
| `Pcg.StepsAffine` | base/pcg-random/pcg_random.hpp:405-408 | n bumps are one affine map, the reference for the loops of advance and distance |
| `Pcg.WholePeriod` | base/pcg-random/pcg_random.hpp:454-457 | 2^w bumps of any odd-multiplier generator are the identity |
| `Pcg.BackstepUndoes` | base/pcg-random/pcg_random.hpp:449-457 | advancing by -delta modulo 2^w undoes advancing by delta, for every odd multiplier |
| `Pcg.FullPeriod` | base/pcg-random/pcg_random.hpp:310-335 | with multiplier 1 mod 4 and odd increment, n bumps return to the start if and only if 2^w divides n |
| `Pcg.McgPeriod` | base/pcg-random/pcg_random.hpp:386-389 | without increment, for every odd state and multiplier 5 mod 8, n bumps return to the start if and only if 2^(w-2) divides n |
| `Pcg.StepsInjective` | base/pcg-random/pcg_random.hpp:662-683 | the states within one period, 2^w or 2^(w-2) for an MCG, are all different, so every state reaches every other of its orbit |
| `Pcg.StepsLow` | base/pcg-random/pcg_random.hpp:405-408 | the low k bits of the state run the same generator at width k, whatever the other bits |
| `Pcg.DistanceExact` | base/pcg-random/pcg_random.hpp:662-683 | the step counts that lead to the same low k bits are exactly those congruent modulo the period at width k, for both kinds of generator |
| `Pcg.Distance` | base/pcg-random/pcg_random.hpp:662-683 | ends within as many iterations as the mask has bits (two fewer for an MCG with its two fixed bits), its in-loop assertion holds in each, and advancing by the result reaches the target under the mask; for a mask of low ones exactly the step counts congruent to the result do |
| `Pcg.DefaultConstants` | base/pcg-random/pcg_random.hpp:155-170 | the published multipliers and increments of all five widths meet the conditions of these theorems |
| `Pcg.FirstStates` | base/pcg-random/pcg_random.hpp:155-170 | the states after 0 and 1 with the default constants, as numbers, for all five widths |
| `Pcg.Engine.constructor` | base/pcg-random/pcg_random.hpp:474-480 | seeding gives a state within the word, with both fixed bits set for an MCG |
| `Pcg.Engine.SetStream` | base/pcg-random/pcg_random.hpp:324-330 | the increment is odd for every stream, and differs for streams that differ below the top bit |
| `Pcg.Engine.BaseGenerate` | base/pcg-random/pcg_random.hpp:405-413 | one step forward, the invariant of the engine kept |
| `Pcg.Engine.AdvanceBy` | base/pcg-random/pcg_random.hpp:449-452 | delta steps forward, the invariant of the engine kept |
| `Pcg.Engine.Backstep` | base/pcg-random/pcg_random.hpp:454-457 | a state from which delta steps forward give the old one |
| `Pcg.Engine.DistanceTo` | base/pcg-random/pcg_random.hpp:443-446 | a step count to the target below the period, for a full or a partial mask; with a mask of ones exactly the step counts congruent to it lead there, for LCG and MCG alike |
| `PcgOutput.UnxorshiftInverts` | base/pcg-random/pcg_extras.hpp:261-279 | unxorshift(x ^ (x >> s), bits, s) = x for every width and every shift s >= 1 |
| `PcgOutput.UnxorshiftIsRightInverse` | base/pcg-random/pcg_extras.hpp:261-279 | the xorshift of unxorshift(x) is x, for every word x and every shift s >= 1 |
| `PcgOutput.UnoutputInverts` | base/pcg-random/pcg_random.hpp:918-958 | unoutput(output(state)) = state for any pair of multipliers inverse modulo 2^w |
| `PcgOutput.OutputInverts` | base/pcg-random/pcg_random.hpp:918-958 | output(unoutput(x)) = x for every word x and any pair of multipliers inverse modulo 2^w |
| `PcgOutput.MultipliersInverse` | base/pcg-random/pcg_random.hpp:899-914 | the published multiplier pairs are inverse modulo 2^w for all five widths |
| `PcgOutput.RxsMXsInverts` | base/pcg-random/pcg_random.hpp:899-958 | for every published width output is a bijection of the words, with unoutput as its inverse on both sides |
| `PcgOutput.OpBitsIs` | base/pcg-random/pcg_random.hpp:923-928 | the number of bits that choose the shift is the logarithm of the width, less one |
| `PcgOutput.OutputBits` | base/pcg-random/pcg_random.hpp:918-937 | output by its bits: the state xored with itself shifted by o more than the number in its top o bits, where 2^(o+1) is the width; the product with the multiplier modulo 2^w; that xored with itself shifted by a third of the width, rounded up |
| `PcgOutput.OutputOfOne` | base/pcg-random/pcg_random.hpp:899-937 | the output of state 1 is the first multiplier of the pair, mixed by the last step |
| `PcgOutput.KnownOutputs` | base/pcg-random/pcg_random.hpp:899-937 | the outputs of the state 2^(w-1), as numbers, for all five widths |
| `WideItems.Plus` | base/common/wide_integer_impl.h:474-505 | the two-pass addition is the sum modulo 2^Bits, for an operand of any width |
| `WideItems.PropagateOverflows` | base/common/wide_integer_impl.h:492-502 | the second pass turns item sums and overflow flags into the sum and its carry out; no item overflows twice |
| `WideItems.Minus` | base/common/wide_integer_impl.h:441-472 | the two-pass subtraction is the difference modulo 2^Bits |
| `WideItems.ShiftLeft` | base/common/wide_integer_impl.h:351-376 | multiplication by 2^n modulo 2^Bits, for every n < Bits |
| `WideItems.ShiftRight` | base/common/wide_integer_impl.h:378-419 | the floor of the division by 2^n, with sign extension for negative numbers |
| `WideItems.ValueMod` | base/common/wide_integer_impl.h:191-204 | items and signed value determine each other modulo 2^Bits, and the value is in the range of the type |
| `WideMultiply.HalfProduct` | base/common/wide_integer_impl.h:511-556 | the 256-bit product from 128-bit halves, with its two recovered carries, is the product modulo 2^Bits |
| `WideMultiply.WindowProduct` | base/common/wide_integer_impl.h:569-607 | shift-and-add by windows of one, two and three bits is the product modulo 2^Bits |
| `WideMultiply.Multiply` | base/common/wide_integer_impl.h:507-607 | all three multiplications give the product modulo 2^Bits |
| `WideIntegers.Tilde` | base/common/wide_integer_impl.h:610-617 | the complement to 2^Bits - 1 |
| `WideIntegers.UnaryMinus` | base/common/wide_integer_impl.h:619-623 | the opposite modulo 2^Bits |
| `WideIntegers.MakePositive` | base/common/wide_integer_impl.h:215-219 | the absolute value as an unsigned number, the minimum included |
| `WideIntegers.OperatorPlus` | base/common/wide_integer_impl.h:625-641 | the sum of the signed values modulo 2^Bits of the wider operand, for any two widths |
| `WideIntegers.OperatorMinus` | base/common/wide_integer_impl.h:643-659 | the difference of the signed values modulo 2^Bits of the wider operand, for any two widths |
| `WideIntegers.OperatorStar` | base/common/wide_integer_impl.h:661-688 | the product of the signed values modulo 2^Bits of the wider operand, for any two widths |
| `WideIntegers.Greater` | base/common/wide_integer_impl.h:690-713 | the order of the signed values for any two widths, unless the right operand is narrower and negative: then always true |
| `WideIntegers.Less` | base/common/wide_integer_impl.h:715-738 | the order of the signed values for any two widths, unless the right operand is narrower and negative: then always false |
| `WideIntegers.Eq` | base/common/wide_integer_impl.h:740-760 | equality of the signed values for any two widths, unless the right operand is narrower and negative: then equality of the unsigned values |
| `WideIntegers.NarrowNegativeEquality` | base/common/wide_integer_impl.h:740-760 | against a narrower negative operand the answer is wrong for exactly two left operands: its items followed by zeros, and its own value |
| `WideIntegers.Pipe` | base/common/wide_integer_impl.h:762-778 | the or of the right items with the two's complement of the left operand, for any two widths |
| `WideIntegers.Amp` | base/common/wide_integer_impl.h:780-796 | the and of the right items with the two's complement of the left operand, for any two widths |
| `WideIntegers.NarrowNegativeBits` | base/common/wide_integer_impl.h:762-796 | a narrower negative right operand gives the or of the values exactly when the left items above it are all ones, and the and exactly when they are all zero |
| `WideIntegers.NarrowNegativeWitness` | base/common/wide_integer_impl.h:690-760 | -1 is not equal to a narrower -1 and greater than it, -2 is not less than it, and a positive number is equal to it |
| `WideIntegers.NarrowBitsWitness` | base/common/wide_integer_impl.h:762-796 | zero or a narrower -1, and -1 and a narrower -1, are not the bits of -1 |
| `WideDivide.ScaleUp` | base/common/wide_integer_impl.h:841-848 | doubling the denominator past the numerator loses no bit |
| `WideDivide.Divide` | base/common/wide_integer_impl.h:813-862 | for every unsigned pair with den != 0: num = q*den + r and r < den; division by zero is refused |
| `WideDivide.OperatorSlash` | base/common/wide_integer_impl.h:864-883 | truncated division modulo 2^Bits for any two widths, and exactly the truncated quotient except for the minimum over minus one |
| `WideDivide.MinimumOverMinusOne` | base/common/wide_integer_impl.h:864-883 | the minimum over minus one is the minimum, not its opposite |
| `WideDivide.OperatorPercent` | base/common/wide_integer_impl.h:885-903 | the remainder of truncated division, always exact, for any two widths |
| `WideDivide.Truncated` | base/common/wide_integer_impl.h:864-903 | the quotient and remainder used above are truncated division: a = q*b + r, abs(r) < abs(b), r with the sign of a |
| `WideIntegers.Convert` | base/common/wide_integer_impl.h:318-343 | widening keeps the signed value, narrowing keeps it modulo 2^Bits |
| `WideText.ToString` | base/common/wide_integer_to_string.h:14-36 | the shortest decimal text of the signed value, the minimum included |
| `WideText.FromStr` | base/common/wide_integer_impl.h:925-978 | accepts exactly a sign (if signed) and decimal digits, or 0x and hexadecimal ones, and gives the value modulo 2^Bits |
| `WideText.ParsedDecimal` | base/common/wide_integer_impl.h:925-978 | the decimal text of every integer parses as that integer |
| `WideText.ParsedIs` | base/common/wide_integer_impl.h:925-978 | the value of every text, by what it starts with: 0x or 0X and hexadecimal digits, a minus sign if signed, or decimal digits |
| `WideText.ParsedHexadecimal` | base/common/wide_integer_impl.h:941-957 | 0x or 0X and the hexadecimal text of a number, in either case, parse as that number |
| `WideText.RoundTrip` | base/common/wide_integer_to_string.h:14-36 | from_str(to_string(n)) = n for every width, sign and value |
| `Itoa.ReciprocalAbove` | base/common/itoa.h:45-59 | multiplying by a constant just above 2^s / d and shifting is exact division, as long as the accumulated error stays below 2^s |
| `Itoa.ReciprocalBelow` | base/common/itoa.h:45-59 | the same with a constant just below 2^s / d and one added to the value |
| `Itoa.SplitIsExact` | base/common/itoa.h:89-128 | the split is exact quotient and remainder by 10^N over the whole 16, 32 and 64-bit range, with no overflow on the way |
| `Itoa.TableEntry` | base/common/itoa.h:142-158 | the two-character table holds the two digits of every number below 100 |
| `Itoa.Tail` | base/common/itoa.h:203-217 | all 2N digits with leading zeros, nothing else written |
| `Itoa.Head` | base/common/itoa.h:172-196 | the shortest decimal text of every number below 10^2N, nothing else written |
| `Itoa.Large` | base/common/itoa.h:224-232 | the shortest text of a number of more than 2N digits, in three parts |
| `Itoa.Uitoa` | base/common/itoa.h:239-265 | the shortest decimal text of every value of every width, nothing else written |
| `Itoa.BranchlessAbsIsAbs` | base/common/itoa.h:289-301 | the branchless expression is the absolute value, the minimum included |
| `Itoa.ItoaSigned` | base/common/itoa.h:279-312 | the signed decimal text; the unconditional minus sign is overwritten for nonnegative numbers |
| `Itoa.Digits10IsLength` | base/common/itoa.h:315-347 | the digit count is the length of the shortest text, for naturals of any size |
| `Itoa.WriteUIntText` | base/common/itoa.h:349-368 | the same text as `Uitoa`, written backwards, for naturals of any size |
| `Itoa.Min128IsMinimum` | base/common/itoa.h:386-391 | the literal of the least 128-bit integer is its decimal text |
| `Itoa.Min256IsMinimum` | base/common/itoa.h:392-397 | the literal of the least 256-bit integer is its decimal text |
| `Itoa.WriteSIntText` | base/common/itoa.h:376-406 | the signed decimal text of every 128 and 256-bit value |
| `Numerals.DecimalSplit` | base/common/itoa.h:170-232 | the text of q * 10^w + r is the text of q followed by the w digits of r |
| `DecomposedFloats.CompareIsExact` | base/common/DecomposedFloat.h:98-177 | the result is the sign of the exact difference, for every bit pattern (subnormals and both zeros included) and every signed or unsigned integer of any width |
| `DecomposedFloats.FloatsCompared` | base/common/DecomposedFloat.h:11-30 | float and double of every bit pattern against every integer: the sign of the exact difference |
| `DecomposedFloats.FieldsAre` | base/common/DecomposedFloat.h:43-71 | the sign, the exponent and the mantissa of every pattern, by division and remainder |
| `DecomposedFloats.IntegerRange` | base/common/DecomposedFloat.h:98-177 | the integers compared with: all of two's complement, or all naturals, of the given width |
| `DecomposedFloats.PowersCompared` | base/common/DecomposedFloat.h:98-177 | the pattern with exponent bias + k and mantissa zero equals 2^k or -2^k, in both formats and every integer type that holds it |
| `DecomposedFloats.KnownPatterns` | base/common/DecomposedFloat.h:11-30 | the patterns of 1 and -2 as a float and of 1 as a double, as numbers |
| `DecomposedFloats.Monotone` | base/common/DecomposedFloat.h:98-177 | larger integers, even of other types, never compare smaller, and at most one integer compares equal |
| `DecomposedFloats.RepresentableIntegers` | base/common/DecomposedFloat.h:82-90 | true exactly for plus zero and the whole numbers of at most mantissa_bits + 1 bits |
| `DecomposedFloats.FullExponentCompared` | base/common/DecomposedFloat.h:93-97 | every pattern with a full exponent, infinity or NaN of either sign, lies beyond an integer if and only if that integer is nearer than (1 + mantissa / 2^mantissa_bits) * 2^(bias + 1) |
| `DecomposedFloats.InfinityCompared` | base/common/DecomposedFloat.h:93-97 | plus infinity is above an integer if and only if that integer is below 2^(bias + 1), and minus infinity below it if and only if it is above -2^(bias + 1) |
| `DecomposedFloats.NaNLikeInfinity` | base/common/DecomposedFloat.h:93-97 | a NaN compares like the infinity of its sign with every integer nearer than 2^(bias + 1) |
| `DecomposedFloats.InfinityEqualsAnInteger` | base/common/DecomposedFloat.h:93-97 | the single-precision infinities compare equal to the 256-bit integers 2^128 and -2^128 |
| `ConsistentHashing.PowerBuckets` | contrib/consistent-hashing/consistent_hashing.cpp:41-68 | among 2^k buckets the low k bits of c choose the group, and the low bits of a, if the number of ones in the c-block is even, or of b, if it is odd, the place in it |
| `ConsistentHashing.PopCountIsOneBits` | contrib/consistent-hashing/consistent_hashing.cpp:41-53 | the bit count is the number of one bits |
| `ConsistentHashing.AsteriskBits` | contrib/consistent-hashing/consistent_hashing.cpp:70-81 | the unused bits of the four words are packed side by side, nothing lost for 16-bit words, wrapped at 32 and 64 bits for 32-bit words |
| `ConsistentHashing.InRange` | contrib/consistent-hashing/consistent_hashing.cpp:83-114 | the bucket is below n |
| `ConsistentHashing.GrowByOne` | contrib/consistent-hashing/consistent_hashing.cpp:83-114 | from n to n + 1 buckets a value stays or moves to the new bucket, also across powers of two |
| `ConsistentHashing.Consistent` | contrib/consistent-hashing/consistent_hashing.cpp:83-114 | for n1 < n2 the bucket is unchanged or at least n1 |
| `ConsistentHashing.HashContract` | contrib/consistent-hashing/consistent_hashing.h:8-20 | both public functions: in range, consistent over their whole documented range of n, and an error for n = 0 |
| `ConsistentHashing.WordsMakeWhole` | contrib/consistent-hashing/consistent_hashing.cpp:118-122 | every bit of the hash is in exactly one of the four words, a lowest, for 64 and 128 bits |
| `ConsistentHashing.EqualShares` | contrib/consistent-hashing/consistent_hashing.h:8-20 | over all hashes, every bucket is reached equally often if and only if the number of buckets is a power of two |
| `ConsistentHashing.PowerShare` | contrib/consistent-hashing/consistent_hashing.h:8-20 | among 2^k buckets exactly 2^(64-k) of the 64-bit hashes, and 2^(128-k) of the 128-bit ones, reach each bucket |
| `ConsistentHashing.ThreeBuckets` | contrib/consistent-hashing/consistent_hashing.h:8-20 | over all 64-bit hashes three buckets are not reached equally often |
| `ConsistentHashing.MovesIntoNew` | contrib/consistent-hashing/consistent_hashing.h:8-20 | a hash changes its bucket between n1 and n2 if and only if it goes to one of the n2 - n1 new ones |
| `ConsistentHashing.MinimalMoves` | contrib/consistent-hashing/consistent_hashing.h:8-20 | growing to n2 buckets moves the fraction (n2 - n1) / n2 of all hashes, from every n1, if and only if n2 is a power of two |
| `ConsistentHashing.OneMoreMoves` | contrib/consistent-hashing/consistent_hashing.h:8-20 | from n - 1 to n buckets exactly one hash in n moves if and only if n is a power of two |
| `ConsistentHashing.ExactMovesDivide` | contrib/consistent-hashing/consistent_hashing.h:8-20 | for every pair n1 <= n2: the moving share is (n2 - n1) / n2 if n2 is a power of two or equals n1, and only if n2 divides n1 times the number of hashes |
| `ConsistentHashing.ThreeBucketsMove` | contrib/consistent-hashing/consistent_hashing.h:8-20 | from one bucket to three the moving share of the 64-bit hashes is not two thirds |
| `ConsistentHashing.Hash64Place` | contrib/consistent-hashing/consistent_hashing.cpp:118-122 | the 64-bit function places every hash where these counts say |
| `ConsistentHashing.Hash128Place` | contrib/consistent-hashing/consistent_hashing.cpp:123-125 | the 128-bit function places every hash where these counts say |
| `ConsistentHashing.AtPower` | contrib/consistent-hashing/consistent_hashing.cpp:94-101 | with 2^k buckets, one included, the result is the one whose shares are equal |
| `ConsistentShares.KeptBits` | contrib/consistent-hashing/consistent_hashing.cpp:70-81 | the bits that reach the modulus are the low bits of all the unused bits of the four words, for every width up to 32 |
| `ConsistentShares.AsteriskBit` | contrib/consistent-hashing/consistent_hashing.cpp:70-81 | which bit of which word each bit of the modulus word is, for 64-bit and 128-bit hashes |
| `ConsistentShares.Independent` | contrib/consistent-hashing/consistent_hashing.cpp:8-39 | over all four words, the bits that choose the large and the small value are independent of all the others |
| `ConsistentShares.BothTriples` | contrib/consistent-hashing/consistent_hashing.cpp:8-39 | the same low bits choose the value among 2^k and the one among 2^(k-1) independently, because the parity of the c-block flips and with it the word |
| `ConsistentShares.PlaceIs` | contrib/consistent-hashing/consistent_hashing.cpp:83-114 | between two powers of two a hash goes to its large value if that is a bucket, else to 2^(k-1) + h for the h that the modulus word chooses by its remainder, or to its small value |
| `ConsistentShares.KnownBuckets` | tests/queries/4_cnch_stateless/00580_consistent_hashing_functions.sql:2 | the buckets of 0xDEADBEEFDEADBEEF among 1, 2, 3, 4, 173 and 255, and among 120 |
| `ConsistentShares.ResidueSumBound` | contrib/consistent-hashing/consistent_hashing.cpp:103-110 | the counts of remainders by h * (h + 1), summed over h, telescope to the difference of two reciprocals, up to one block for each h |
| `ConsistentShares.NearlyEqualShares` | contrib/consistent-hashing/consistent_hashing.h:8-20 | for every number of buckets n and every bucket, n times its count of hashes differs from the number of all hashes by at most n times the deviation, which is zero for powers of two |
| `ConsistentShares.DeviationBound` | contrib/consistent-hashing/consistent_hashing.h:8-20 | the deviation as a power of two: n times it is at most 2^(5k-3) for the 64-bit function, 2^k being the next power of two |
| `ConsistentShares.FairUpTo1024` | contrib/consistent-hashing/consistent_hashing.h:8-20 | up to 1024 buckets every bucket of the 64-bit function gets its share of the hashes to one part in 2^17 |
| `ConsistentShares.NearlyMinimalMoves` | contrib/consistent-hashing/consistent_hashing.h:8-20 | for every pair n1 <= n2 the number of hashes that move differs from the least possible by at most the deviation of every new bucket |
| `ConsistentShares.StarvedBuckets` | contrib/consistent-hashing/consistent_hashing.cpp:103-110 | a bucket too far above 2^(k-1) for the number of unused bits gets exactly the share it has with 2^k buckets |
| `ConsistentShares.HalfAShare` | contrib/consistent-hashing/consistent_hashing.cpp:103-110 | with 16449 buckets the last one gets less than 13/25 of an equal share of the 64-bit hashes |
| `BorrowedObjectPools.BorrowedObjectPool.EnterBorrow` | base/common/BorrowedObjectPool.h:36-53 | a borrower waits exactly when clients hold all max_size objects; otherwise it gets the last idle object, or a new one only when none is idle, and the counters stay sound |
| `BorrowedObjectPools.BorrowedObjectPool.ResumeBorrow` | base/common/BorrowedObjectPool.h:55-57 | after a wait a borrower gets the last idle object exactly when there is one, makes none, and otherwise changes nothing |
| `BorrowedObjectPools.BorrowedObjectPool.ReturnObject` | base/common/BorrowedObjectPool.h:88-97 | the object becomes the last idle one, the pool is no longer exhausted, one client fewer is counted |
| `BorrowedObjectPools.BorrowedObjectPool.ReturnThenBorrow` | base/common/BorrowedObjectPool.h:36-97 | borrowing right after returning hands out the returned object and restores the pool |
| `BorrowedObjectPools.InvariantIsSound` | base/common/BorrowedObjectPool.h:129-147 | in every reachable state the counters are those the methods demand and keep, and the pool is exhausted exactly when the clients hold max_size objects |
| `BorrowedObjectPools.StepKeepsCounts` | base/common/BorrowedObjectPool.h:129-147 | every step keeps allocated = borrowed + idle, with borrowed the number of holders |
| `BorrowedObjectPools.StepKeepsLimit` | base/common/BorrowedObjectPool.h:47-55 | every step keeps allocated <= max_size when limited, and threads wait only for a full pool |
| `BorrowedObjectPools.StepKeepsExclusive` | base/common/BorrowedObjectPool.h:129-147 | no step puts an object in two places |
| `BorrowedObjectPools.StepKeepsWakeups` | base/common/BorrowedObjectPool.h:55-97 | while any thread sleeps, the woken threads number at least the idle objects: no lost wakeup |
| `BorrowedObjectPools.RunKeepsInvariant` | base/common/BorrowedObjectPool.h:36-97 | the whole invariant holds after every step of every run of any number of borrowers, timed borrowers and returners |
| `BorrowedObjectPools.OthersStay` | base/common/BorrowedObjectPool.h:36-97 | a step moves no thread but its own and the one that a return notifies |
| `BorrowedObjectPools.StepsPossible` | base/common/BorrowedObjectPool.h:36-97 | which step is possible, if and only if the thread is away, asleep, awake or a holder |
| `BorrowedObjectPools.ThreadMoves` | base/common/BorrowedObjectPool.h:36-97 | where every step takes its thread: a borrower to the last idle object, a new object or sleep; a sleeper awake with its own limit; a woken thread to the last idle object, away if its time is over, and otherwise back to sleep |
| `BorrowedObjectPools.IdleMoves` | base/common/BorrowedObjectPool.h:88-147 | which object every step takes from the idle ones or adds to them |
| `BorrowedObjectPools.WaitEnds` | base/common/BorrowedObjectPool.h:55-86 | a waiting thread stops waiting only with an object, or without one if its wait is timed, its time is over and none is idle |
| `BorrowedObjectPools.ExpiredWaitEnds` | base/common/BorrowedObjectPool.h:77-86 | and in that case it does stop |
| `BorrowedObjectPools.UntimedBorrowersAreServed` | base/common/BorrowedObjectPool.h:34-57 | in every run, a borrower without a limit goes on waiting until it holds an object |
| `BorrowedObjectPools.TimedBorrowersGiveUp` | base/common/BorrowedObjectPool.h:62-86 | in every run, a timed borrower that stops waiting without an object has been timed out and finds none idle |
| `BorrowedObjectPools.SleepersWaitForClients` | base/common/BorrowedObjectPool.h:34-57 | a thread sleeps with none woken only while clients hold all max_size objects |
| `BorrowedObjectPools.WokenThreadsTakeIdleObjects` | base/common/BorrowedObjectPool.h:55-97 | while a thread sleeps, the woken threads alone can take every idle object |
| `JsonReader.StringSkipped` | base/common/JSON.cpp:223-260 | the fast path and the slow path both stop right after the closing quote of every well-formed string |
| `JsonReader.NumberSkipped` | base/common/JSON.cpp:263-287 | the number is skipped exactly if and only if its exponent has no plus sign, and otherwise up to that sign |
| `JsonReader.PlusExponentNotSkipped` | base/common/JSON.cpp:263-287 | the number 1e+5 is skipped only up to its plus sign |
| `JsonReader.ElementSkipped` | base/common/JSON.cpp:316-421 | skipping a well-formed printed tree stops exactly at its end if and only if it fits the level budget (arrays cost one, objects two) and no exponent in it has a plus sign; otherwise it reports too deep, stops at the plus sign of a bare number, or fails |
| `JsonReader.ChildrenCounted` | base/common/JSON.cpp:423-431 | size() is the number of children of every printed array or object within the budget |
| `JsonReader.IndexedElement` | base/common/JSON.cpp:440-463 | an index below the size reaches that element, one above is refused, the size itself gives the end |
| `JsonReader.EmptyArrayIndexed` | base/common/JSON.cpp:440-463 | element 0 of the empty array is the end iterator, not an error |
| `JsonReader.PiecesRead` | base/common/JSON.cpp:568-658 | the contents of a well-formed string are its pieces decoded one by one |
| `JsonReader.StringRead` | base/common/JSON.cpp:568-658 | getString undoes the simple escapes of every text |
| `JsonGrammar.TypeIs` | base/common/JSON.cpp:175-213 | the kind of an element if and only if its first character and the colon after a string say so; every other character is refused |
| `JsonGrammar.StringIs` | base/common/JSON.cpp:223-260 | on every text, a string is skipped to e if and only if e is after the first quote, or, where a backslash stands before that, after the quote that the escapes lead to |
| `JsonGrammar.NumberIs` | base/common/JSON.cpp:263-287 | on every text, the end of the longest sign, digits, point, digits, letter, minus and digits in a row, and no other end |
| `JsonGrammar.ElementIs` | base/common/JSON.cpp:316-421 | on every text, an element is skipped to e if and only if the text up to e is a word, number or string, a string, a colon and an element one level down, or brackets around elements (pairs in braces) one level down with a comma between any two, at most 100 levels deep |
| `JsonGrammar.SizeIs` | base/common/JSON.cpp:423-431 | on every text, size() is n if and only if a bracket opens n such elements with a comma between any two, and something else after the last |
| `JsonGrammar.BeginIs` | base/common/JSON.cpp:743-757 | begin() succeeds if and only if a bracket of either kind opens at an allowed level, and is the end at once for a closing bracket of either kind |
| `JsonGrammar.IndexIs` | base/common/JSON.cpp:440-463 | on every text, operator[](n) gives a cursor if and only if n such elements lead to it |
| `JsonGrammar.SimpleIs` | base/common/JSON.cpp:568-658 | the five letters that escapes replace, as character codes; every other character stands for itself |
| `JsonGrammar.ContentsIs` | base/common/JSON.cpp:568-658 | on every text, getString gives r if and only if the parts up to a closing quote stand for r |
| `JsonMethods.SkipString` | base/common/JSON.cpp:223-260 | the two loops compute `StringEnd` for every text, well-formed or not |
| `JsonMethods.SkipNumber` | base/common/JSON.cpp:263-287 | the digit loops compute `NumberEnd` |
| `JsonMethods.SkipElement` | base/common/JSON.cpp:396-421 | the mutually recursive skips terminate on every text and compute `ElementEnd`, which `JsonGrammar.ElementIs` characterises |
| `JsonMethods.SkipNameValuePair` | base/common/JSON.cpp:316-329 | a name, a colon and a value one level down, or the error the original throws |
| `JsonMethods.SkipArray` | base/common/JSON.cpp:332-361 | the loop over the elements of an array |
| `JsonMethods.SkipObject` | base/common/JSON.cpp:364-393 | the loop over the pairs of an object |
| `JsonMethods.GetString` | base/common/JSON.cpp:568-658 | the copying loop computes `StringContents` for every text and every decoder of \u escapes |
| `JsonMethods.Iterator.Increment` | base/common/JSON.cpp:765-780 | moves past the element and its comma, or to the end |
| `JsonMethods.Size` | base/common/JSON.cpp:423-431 | the iteration terminates on every text and computes `ChildCount` |

## Left out

- base/daemon, base/loggers, base/metrics2, the line readers, the query engine under src and everything else that is I/O, configuration or plumbing.
- BigUnsigned bitAnd, bitOr, bitXor, bitNeg, setBit and setBlock, the BigInteger bitXor, negate, ++ and --, and conversions to machine integers.
- BigIntegers.BigInteger.BitShiftLeft: requires 64-bit blocks, because the scan of the lost bits in bitShiftRight is written for 64-bit blocks.
- BigIntegers.BigInteger.BitShiftRight: requires 64-bit blocks for the same reason.
- BigIntegerAlgorithms.EuclidLoop: the original updates its six locals in place; the model replaces each by a new object per half step, so reuse of their buffers is not captured. The outputs g, r and s are assigned in place.
- BigUnsignedsInABase.FromUnsigned: the bit length of the number is a natural number, while the original keeps it in an int.
- wide::integer values are passed and returned as item sequences; the loops work on item arrays inside each operation. The numerator that divide overwrites is a second result.
- wide::integer conversions to and from floating point, common_type selection, operator ^, shifts by Bits or more, and operands of mixed signedness.
- WideMultiply.HalfProduct: a right operand of three items counts as four with a zero on top; the original has no such case, as it reads a fourth item.
- WideText.FromStr: like the other operations on texts it asks for items of at least five bits, so that ten and sixteen are items; the original has 64.
- WideDivide.Divide: 128-bit division by zero is undefined in the original and excluded by the precondition.
- PCG extended generators, stream input and output, seed sequences, and outputs narrower than the state.
- BorrowedObjectPool: exceptions of the factory function, overflow of the counters, and fairness of the scheduler. A client that holds several objects counts as several threads.
- BorrowedObjectPool.isFull and the other counters read under the lock: their values are covered by the invariant.
- JSON searchField, has and lookup by name, number-to-double conversion, and pointers past the end of a truncated literal. The decoding of \u escapes is a parameter of `GetString`.
- find_symbols.h, StringRef.h, and the shuffling and bounded sampling of pcg_extras.hpp.
