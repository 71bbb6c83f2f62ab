# Proofs about cmump and the parallel mergesort

The project models two parts of the repository and proves what they compute.

**cmump** (`benchmarks/cmump`) is a multi-precision integer package. A `MINT` is a signed length and an
array of base-2^15 digits. Module `Mint` has it as a class with those two fields, a predicate
`Canonical` (every digit in range, top digit nonzero, length 0 exactly for zero) and a function `Value`.
Every routine is a method over the same arrays, updated in place, that is proved to store the exact
integer result in canonical form. Digit loops stand in methods of their own (`AddDigits`,
`MultiplyDigits`, `ShiftUp`, `DivideDigits`, ...), which work on arrays; the routine around them works on
`MINT` objects. Local variables of type `int` are `Int32`, a subset type, so every assignment to one is
also a proof that it fits 32 bits; array elements are `Short`; the accumulator of `mmult` is an unsigned
32-bit word. `& 077777` is `% 32768`, `>> 15` is floor division, and both are used on negative partial
results as the code does. Storage that the code frees or moves is simply no longer owned; what a method may
alias is in its `requires` and what it allocates is `fresh` in its `ensures`.

**The parallel mergesort** (`demo/mergesort.c`) forks four sorts, then two merges that fork again at a
split found by binary search. Module `Cpj` gives `cobegin` its meaning: a process takes single reads and
writes on one shared memory and its coroutines interleave in any order. The theorem there is about every
process whose coroutines keep to separate footprints; `Merging` and `MergeSort` show that merge and mergesort
do, at every depth, and that what the sequential run leaves is sorted. The same code is there a second time
as methods over an array, and each method is proved to leave exactly the memory that the process leaves.

Where to start reading:

- `Mdiv.Divide` with `Guess`, `MultiplySubtract` and `DivideStep`: Knuth's Algorithm D (The Art of Computer
  Programming, Volume 2, section 4.3.1) with its quotient estimate, add-back and live window.
- `Mmult.Multiply`: three-phase column multiplication with a split 31-bit accumulator and carry.
- `Mlegendre.Legendre` and `Mjacobi.Jacobi`: the binary Jacobi symbol, for any function `J` with the laws in
  `JacobiLaws`. `JacobiSymbol.SymbolObeysLaws` constructs such a function and proves quadratic reciprocity
  for it, `Residues.LawsDetermine` shows that it is the only one, and `Residues.LawsTellSquares` says
  what its values mean: modulo an odd prime, 1 for the squares and -1 for the rest.
- `Msqrt.Sqrt`, `Mgcd.Gcd` and `Mgcd.Invert`, `Mpow.PowMod`.
- `Mtextio.Print` and `Mtextio.Read`: `Numerals.IsTextOf` and `Grammar.IsReading` say which text a number has and
  which number a text, of the characters alone; `TextUnique` and `ReadingExact` show that this leaves no choice.
- `Cpj.Determinism` and `MergeSort.MergesortDeterminism`, with `AnySortFirst`, `AnyMergeFirst` and
  `Merging.AnyHalfFirst`: at every cobegin each coroutine can move first.

Seven places where the code does not do what one would expect. Each is modelled as the code has it, with the
condition on the input under which the result is the expected one, and with an input for which it is not:

- `mshiftl` on a negative number that stays in its storage leaves the magnitude shifted and the sign
  flipped (`Mfloat.ShiftLeft`: the value is the shifted one if and only if not `LosesSign`; `DoubleMinusOne`:
  -1 shifted by 1 gives 2).
- `sdiv` and `smod` negate the remainder when the divisor alone is negative, so that a = q * n + r holds if
  and only if n > 0 or n divides a (`Mout.SmallQuotientExact`; `OneByMinusTwo`: 1 by -2 gives 0 and -1).
- `m_in_b` takes the letter of value b for a digit when b is above 10, since `alphatop` is one too high. Its
  result is that of a reader that knows the digits of base b only if and only if that reader does not come
  to such a letter (`Text.StrictExact`; `LetterG`: in base 16, "1g" is read as 32).
- `m_in_b` applies the sign only when it stops before the end of the file, so that a text without a final
  newline gives back the number if and only if it is not negative (`Text.RoundTripAtEnd`; `MinusOneAtEnd`).
- `m_out` writes no blanks, although the manual (`cmump.3`) says that all output but that of `m_out_b` has them
  between blocks of ten digits. The text is the promised one if and only if the magnitude is below b^10
  (`Text.BlanksMatter`, `Mtextio.Out`); `ElevenDigits`: 10000000000 is written without its blank.
- `mpow` stores 1, not reduced, for the exponent 0, which is the remainder of the power by c if and only if c is
  above 1 in magnitude (`Mpow.PowModExact`; `PowerModuloOne`). The remainder of a negative power is negative: it
  is the residue in the range of c if and only if a is not negative, b is even, or c divides the power
  (`Mpow.PowModInRange`; `MinusTwo`).
- `minvert` overwrites b before it takes the cofactor from it when c is b, which leaves 0 after an even number
  of rounds of Euclid's algorithm; and for a negative a and an odd number of rounds the last divisor is -1,
  which it does not take for a unit. If a has an inverse modulo b > 1, the result is one if and only if the
  rounds are even and c is not b, or they are odd and a is not negative or congruent to 1 (`Mgcd.InvertExact`;
  `InvertInPlace`: 2 modulo 3; `InvertNegative`: -1 modulo 3).

## Model

| member | source | states |
|---|---|---|
| Digits.ValInjective | benchmarks/cmump/cmump.h:23-26 | digit arrays of one length with one value are equal |
| Digits.CanonicalUnique | benchmarks/cmump/cmump.h:23-26 | a value has only one canonical digit array |
| Digits.TopNonzero | benchmarks/cmump/Mdiv.c:145 | a value that reaches the weight of its top digit has a nonzero top digit |
| Mint.MINT.constructor | benchmarks/cmump/cmump.h:30 | a new MINT has length 0 |
| Mint.MINT.Set | benchmarks/cmump/cmump.h:31-33 | the short is stored in canonical form |
| Mint.MINT.MoveTo | benchmarks/cmump/cmump.h:34-43 | the target takes the source's length, digits, value and canonical form, and the source becomes 0 |
| Mint.MINT.Negate | benchmarks/cmump/cmump.h:45 | the value is negated in canonical form |
| Mint.SameValueSameDigits | benchmarks/cmump/cmump.h:23-26 | equal values of canonical numbers mean equal lengths and digits |
| Mutil.Copy | benchmarks/cmump/Mutil.c:4-18 | the copy has the same length and digits in storage of its own |
| Mutil.Compare | benchmarks/cmump/Mutil.c:24-45 | the sign of the result is that of the comparison of the values |
| Mutil.LengthsDecide | benchmarks/cmump/Mutil.c:28-30 | different signed lengths order the values as they are ordered themselves |
| Madd.AddDigits | benchmarks/cmump/Madd.c:8-40 | the digits of the sum, canonical, zero included |
| Madd.AddMagnitudes | benchmarks/cmump/Madd.c:8-40 | the sum of two numbers that are not negative |
| Madd.SubDigits | benchmarks/cmump/Madd.c:92-120 | the digits of the difference, canonical; no borrow is left over |
| Madd.SubMagnitudes | benchmarks/cmump/Madd.c:92-120 | the difference, for a minuend that is at least the subtrahend |
| Madd.Add | benchmarks/cmump/Madd.c:42-86 | the exact sum for all signs and aliasings |
| Madd.Sub | benchmarks/cmump/Madd.c:122-163 | the exact difference for all signs and aliasings; every call of m_sub has minuend >= subtrahend |
| Mmult.TableIsProduct | benchmarks/cmump/Mmult.c:61-86 | the columns summed at their weights are the product |
| Mmult.AccumulateProduct | benchmarks/cmump/Mmult.c:4-8 | carry * 2^31 + x grows by exactly the product, without a wrap of the 32-bit word |
| Mmult.ColumnDown | benchmarks/cmump/Mmult.c:67-76 | in the first two phases carry * 2^31 + x is the carried word plus the exact column |
| Mmult.ColumnUp | benchmarks/cmump/Mmult.c:83-84 | so it is in the third phase, whose last column is empty |
| Mmult.FinishColumn | benchmarks/cmump/Mmult.c:10-13 | the digit and the carried word are remainder and quotient of the column by 2^15 |
| Mmult.MultiplyDigits | benchmarks/cmump/Mmult.c:61-86 | the digits written are those of the product |
| Mmult.MultiplyByDigit | benchmarks/cmump/Mmult.c:45-58 | the same for a one-digit factor |
| Mmult.ProductLength | benchmarks/cmump/Mmult.c:59-87 | dropping at most one zero digit makes the product canonical |
| Mmult.WordSuffices | benchmarks/cmump/Mmult.c:4-13 | the word carried into a column and a product fit 32 bits for all factors if and only if the shorter has at most 98309 digits |
| Mmult.Multiply | benchmarks/cmump/Mmult.c:15-96 | the exact product in canonical form for all signs and aliasings |
| Mfloat.ShiftUp | benchmarks/cmump/Mfloat.c:104-114 | the in-place or copying loop leaves the magnitude times 2^(15*words+bits) |
| Mfloat.ShiftLeftDigits | benchmarks/cmump/Mfloat.c:83-114 | when new storage is taken, how long the result is, and that it is exact |
| Mfloat.ShiftLeft | benchmarks/cmump/Mfloat.c:66-118 | the magnitude is shifted exactly, in canonical form; the value is a * 2^b if and only if the sign is not lost |
| Mfloat.DoubleMinusOne | benchmarks/cmump/Mfloat.c:116-117 | -1 shifted left by one bit is stored as 2 |
| Mfloat.ShiftDown | benchmarks/cmump/Mfloat.c:143-155 | the overlapping right shift of the digits before its last one |
| Mfloat.ShiftRightDigits | benchmarks/cmump/Mfloat.c:143-159 | the digits left are those of floor(magnitude / 2^k), canonical |
| Mfloat.ShiftRight | benchmarks/cmump/Mfloat.c:120-163 | the magnitude is floor(magnitude / 2^b) in canonical form, in the same storage |
| Mfloat.ShiftRoundTrip | benchmarks/cmump/Mfloat.c:66-163 | a right shift undoes a left shift |
| Mfloat.Log | benchmarks/cmump/Mfloat.c:48-64 | the number of bits of the magnitude |
| Mfloat.BitLengthOfShift | benchmarks/cmump/Mfloat.c:48-118 | a left shift by k of a nonzero value adds exactly k bits |
| Mout.SmallDivideDigits | benchmarks/cmump/Mout.c:145-156 | quotient and remainder by a short, canonical, within 32 bits |
| Mout.QuotientLength | benchmarks/cmump/Mout.c:154 | dropping at most one zero digit makes the quotient canonical |
| Mout.SmallDivide | benchmarks/cmump/Mout.c:133-161 | what sdiv stores for every sign of dividend and divisor, in place or not |
| Mout.SmallQuotientExact | benchmarks/cmump/Mout.c:143-158 | the stored pair satisfies a = q * n + r if and only if n > 0 or n divides a |
| Mout.OneByMinusTwo | benchmarks/cmump/Mout.c:143-158 | for 1 by -2 the pair 0, -1 is stored |
| Mdiv.SubtractProduct | benchmarks/cmump/Mdiv.c:12-23 | the window less q times the divisor, as digits and a last borrow in [-(2^15-1), 0], all within 32 bits |
| Mdiv.AddBack | benchmarks/cmump/Mdiv.c:26-35 | adding back gives the digits of the true remainder; the carry is never propagated |
| Mdiv.MultiplySubtract | benchmarks/cmump/Mdiv.c:6-37 | returns 1 exactly if the guess was one too large; the window then holds the exact remainder, and its top digit 077777 |
| Mdiv.TopDigitBound | benchmarks/cmump/Mdiv.c:108-111 | the top digit of the live window never exceeds that of the divisor |
| Mdiv.FirstGuess | benchmarks/cmump/Mdiv.c:108-111 | the first guess is a digit and not below the true one |
| Mdiv.ExposedGuess | benchmarks/cmump/Mdiv.c:115-117 | a guess exposed by three digits is too large |
| Mdiv.UnexposedGuess | benchmarks/cmump/Mdiv.c:115-117 | one that is not exposed is at most one too large |
| Mdiv.CorrectedGuess | benchmarks/cmump/Mdiv.c:116-120 | after at most two decrements the guess is the true digit or one more |
| Mdiv.RemainderRange | benchmarks/cmump/Mdiv.c:111-116 | the partial remainder stays below 2^16 - 1, also when the top digits are equal |
| Mdiv.Guess | benchmarks/cmump/Mdiv.c:107-120 | the estimate, every intermediate within signed 32 bits, is the true digit or one more |
| Mdiv.WindowBound | benchmarks/cmump/Mdiv.c:106-127 | before each step the live window is below v * 2^15 |
| Mdiv.DividedStep | benchmarks/cmump/Mdiv.c:106-127 | storing the exact digit keeps dividend = quotient so far * v + what is left |
| Mdiv.DivideStep | benchmarks/cmump/Mdiv.c:106-127 | one step of the loop stores the exact quotient digit and leaves the low digits below v * 2^(15*i) |
| Mdiv.DivideDigits | benchmarks/cmump/Mdiv.c:103-127 | the loop leaves quotient digits and remainder of the shifted dividend |
| Mdiv.TopShift | benchmarks/cmump/Mdiv.c:92-95 | the shift that brings the top digit to at least 2^14 |
| Mdiv.Normalize | benchmarks/cmump/Mdiv.c:80-102 | both operands shifted alike, the divisor in its own storage, and the first window in bound |
| Mdiv.Unnormalize | benchmarks/cmump/Mdiv.c:128-140 | the remainder shifted back, canonical |
| Mdiv.Restore | benchmarks/cmump/Mdiv.c:138 | the digits of the divisor are exactly what they were |
| Mdiv.LongQuotientLength | benchmarks/cmump/Mdiv.c:145 | dropping at most one zero digit makes the quotient canonical |
| Mdiv.LongDivide | benchmarks/cmump/Mdiv.c:79-148 | the multi-digit path: quotient and remainder of the magnitudes, divisor restored digit by digit |
| Mdiv.Divide | benchmarks/cmump/Mdiv.c:44-156 | a = q * b + r, abs(r) < abs(b), r zero or signed like a, canonical, on all three paths and aliasings; operands that are not outputs keep their values |
| Mdiv.TruncatedUnique | benchmarks/cmump/Mdiv.c:44-156 | that determines quotient and remainder |
| Mmod.SmallModDigits | benchmarks/cmump/Mmod.c:119-126 | the remainder of the digits by a short |
| Mmod.SmallMod | benchmarks/cmump/Mmod.c:107-129 | smod returns the remainder that sdiv stores, for all signs |
| Mmod.ModDigits | benchmarks/cmump/Mmod.c:65-82 | the loop without the quotient leaves the remainder |
| Mmod.LongMod | benchmarks/cmump/Mmod.c:39-96 | the remainder of the magnitudes, divisor restored digit by digit |
| Mmod.Mod | benchmarks/cmump/Mmod.c:10-104 | the remainder of division, canonical, for all signs; both operands keep their digits unless they are the output |
| Mmod.SameRemainder | benchmarks/cmump/Mmod.c:10-104 | it is the remainder that mdiv stores |
| Numbers.EuclidStep | benchmarks/cmump/Mgcd.c:12-15 | a division step keeps the common divisors |
| Numbers.GcdUnique | benchmarks/cmump/Mgcd.c:4-25 | there is only one greatest common divisor |
| Mgcd.Round | benchmarks/cmump/Mgcd.c:13-15 | one round of the loop: divide and move |
| Mgcd.GcdStep | benchmarks/cmump/Mgcd.c:12-15 | a round keeps the common divisors, counts, and keeps the signs that the remainders take in turn from a and b |
| Mgcd.Gcd | benchmarks/cmump/Mgcd.c:4-25 | the greatest common divisor for all signs, with the sign of a after an even number of rounds and of b after an odd one |
| Mgcd.GcdOfMinusFour | benchmarks/cmump/Mgcd.c:12-20 | -4 and 6 give 2 |
| Mgcd.CofactorsStep | benchmarks/cmump/Mgcd.c:49-63 | the round keeps both congruences of the cofactors and their sizes |
| Mgcd.SignedStep | benchmarks/cmump/Mgcd.c:49-63 | so it does for a negative a, where the signs alternate; quotient times cofactor is at most b |
| Mgcd.InverseFound | benchmarks/cmump/Mgcd.c:64-69 | at the end the cofactor, or b less it, is the inverse |
| Mgcd.InvertRound | benchmarks/cmump/Mgcd.c:55-61 | one round on the numbers: division, product, sum and moves |
| Mgcd.InvertLoop | benchmarks/cmump/Mgcd.c:54-63 | the loop ends with the cofactor invariant at remainder 0, after the rounds of Euclid's algorithm |
| Mgcd.Invert | benchmarks/cmump/Mgcd.c:29-77 | for an a of either sign: the inverse of a modulo b, in the range of b or for a negative a one b higher; 1 if there is none or the last divisor is -1; 0 after an even number of rounds when c is b |
| Mgcd.InvertUnique | benchmarks/cmump/Mgcd.c:29-77 | that is one number for every input |
| Mgcd.InvertExact | benchmarks/cmump/Mgcd.c:64-69 | when an inverse exists, exactly for which a, b and number of rounds one is stored |
| Mgcd.InvertInPlace | benchmarks/cmump/Mgcd.c:67-68 | 2 inverted modulo 3 into the modulus gives 0 |
| Mgcd.InvertNegative | benchmarks/cmump/Mgcd.c:64-65 | -1 inverted modulo 3 gives 1 |
| Msqrt.StartSquare | benchmarks/cmump/Msqrt.c:17-22 | the square of the starting value is at least 2^(15*len), for odd and even lengths |
| Msqrt.Start | benchmarks/cmump/Msqrt.c:17-22 | the starting value, above the root |
| Msqrt.NewtonStep | benchmarks/cmump/Msqrt.c:25-28 | an iterate never falls below the floor root, and when it does not decrease the floor root is found |
| Msqrt.Improve | benchmarks/cmump/Msqrt.c:25-28 | the same of the numbers in storage |
| Msqrt.RestRange | benchmarks/cmump/Msqrt.c:33 | the rest is between 0 and twice the root |
| Msqrt.Sqrt | benchmarks/cmump/Msqrt.c:3-38 | b is floor(sqrt(a)), r is a - b * b |
| Mpow.ResidueSquare | benchmarks/cmump/Mpow.c:16-17 | squaring doubles the exponent of the residue, whose sign is that of the power |
| Mpow.ResidueTimes | benchmarks/cmump/Mpow.c:18-21 | multiplying by a adds one to it |
| Mpow.ResidueIsRemainder | benchmarks/cmump/Mpow.c:17-20 | below c, such a number is the remainder of the power by c |
| Mpow.PowBit | benchmarks/cmump/Mpow.c:16-21 | one bit of the exponent |
| Mpow.PowDigit | benchmarks/cmump/Mpow.c:14-22 | the fifteen bits of a digit: the accumulator is a to the prefix read so far, across digits |
| Mpow.PowMod | benchmarks/cmump/Mpow.c:5-27 | for b > 0 the remainder of a^b by c, for all signs of a and c; 1 for an exponent that is not positive; modulus and base keep their values |
| Mpow.PowModExact | benchmarks/cmump/Mpow.c:11-26 | the result is the remainder of the power if and only if b > 0 or c is above 1 in magnitude |
| Mpow.PowModInRange | benchmarks/cmump/Mpow.c:11-26 | exactly when it is the residue in the range of c |
| Mpow.MinusTwoSquared | benchmarks/cmump/Mpow.c:13-22 | -2 to the power 2 modulo 5 is stored as 4 |
| Mpow.MinusTwo | benchmarks/cmump/Mpow.c:13-22 | -2 to the power 1 modulo 5 is stored as -2 |
| Mpow.PowerModuloOne | benchmarks/cmump/Mpow.c:11-26 | any number to the power 0 modulo 1 is stored as 1 |
| Mpow.PowerHalf | benchmarks/cmump/Mpow.c:38-42 | a round keeps result * temp^n |
| Mpow.NextTop | benchmarks/cmump/Mpow.c:38-42 | while bits are left, temp is at most a to the largest power of two up to n |
| Mpow.IntPow | benchmarks/cmump/Mpow.c:31-46 | b is a^n, whenever the largest square that the code forms is one of mmult's range |
| Mjacobi_util.LowestBit | benchmarks/cmump/Mjacobi_util.c:17-20 | the lowest nonzero digit decides how often 2 divides the number |
| Mjacobi_util.LowZeros | benchmarks/cmump/Mjacobi_util.c:8-22 | 2 divides the magnitude exactly so often |
| Mjacobi_util.LowZerosLessOne | benchmarks/cmump/Mjacobi_util.c:25-49 | 2 divides an odd magnitude less one exactly so often, over several digits too; 15 for 1 |
| Mlegendre.CastOutTwos | benchmarks/cmump/Mlegendre.c:71-106 | taking out the twos flips the sign exactly if they are odd in number and q is 3 or 5 modulo 8 |
| Mlegendre.ValuationTest | benchmarks/cmump/Mlegendre.c:119-129 | the two valuations sum to at most 2 exactly if both numbers are 3 modulo 4 |
| Mlegendre.ReciprocityStep | benchmarks/cmump/Mlegendre.c:116-131 | swapping flips the sign exactly then |
| Mlegendre.CastOut | benchmarks/cmump/Mlegendre.c:82-106 | the shift and the test of the low bits keep sign * J(p, q) |
| Mlegendre.TailRecurse | benchmarks/cmump/Mlegendre.c:44-111 | the jumps back with q unchanged keep it, and p decreases |
| Mlegendre.BothThreeModFour | benchmarks/cmump/Mlegendre.c:119-129 | the test of the code is the law's condition |
| Mlegendre.Exchange | benchmarks/cmump/Mlegendre.c:44-131 | up to the swap sign * J(p, q) is kept, and the new q is smaller |
| Mlegendre.Legendre | benchmarks/cmump/Mlegendre.c:10-140 | the goto machine ends with J(p, q), which is 1 or -1; for an even q it is that of the odd part |
| Mjacobi.Jacobi | benchmarks/cmump/Mjacobi.c:10-23 | J(p, q) for odd q; 0 exactly if p and q have a common factor; for an odd prime q, 1 exactly for squares |
| JacobiSymbol.SymbolMultiplicative | benchmarks/cmump/Mlegendre.c:67-70 | the symbol defined by counting is multiplicative |
| JacobiSymbol.SymbolOfTwo | benchmarks/cmump/Mlegendre.c:72-81 | its value at 2 is the second supplementary law |
| JacobiSymbol.SymbolReciprocity | benchmarks/cmump/Mlegendre.c:116-118 | it satisfies quadratic reciprocity |
| JacobiSymbol.SymbolObeysLaws | benchmarks/cmump/Mlegendre.c:38-118 | there is a function with all the laws that the routine uses |
| Residues.LawsDetermine | benchmarks/cmump/Mlegendre.c:38-118 | there is only one |
| Residues.EulerCriterion | benchmarks/cmump/Mlegendre.c:10-11 | modulo an odd prime the symbol is a^((q-1)/2) |
| Residues.SymbolTellsSquares | benchmarks/cmump/Mlegendre.c:10-11 | modulo an odd prime the symbol is 1 for squares and -1 for other residues |
| Residues.LawsTellSquares | benchmarks/cmump/Mjacobi.c:10-23 | a square has symbol 1 for every odd modulus; for a prime one, nothing else has |
| Text.DigitRoundTrip | benchmarks/cmump/Mout.c:46-54 | every digit that is written is read back, and is no sign, blank or escape |
| Text.ReadDigits | benchmarks/cmump/Mout.c:28-64 | reading the digits of x, blanks and all, leaves x in the accumulator |
| Text.RoundTrip | benchmarks/cmump/Mout.c:28-127 | for every integer and base 2 to 36 the reader gives back what was written with a newline after it, with blanks if the reader skips them |
| Text.RoundTripAtEnd | benchmarks/cmump/Mout.c:36-66 | without a newline it gives the absolute value, which is the number if and only if that is not negative |
| Text.TextInjective | benchmarks/cmump/Mout.c:83-130 | different numbers have different texts |
| Text.MinusOneAtEnd | benchmarks/cmump/Mout.c:36-66 | "-1" without a newline is read as 1 |
| Text.ExcessExact | benchmarks/cmump/Mout.c:25-58 | the characters accepted are the digits of base b and, for b above 10, the letter of value b |
| Text.StrictExact | benchmarks/cmump/Mout.c:25-64 | the text is read as by a reader of the digits of base b only, if and only if that one does not come to the letter of value b |
| Text.LetterG | benchmarks/cmump/Mout.c:25-58 | in base 16, "1g" is read as 32 |
| Text.BlanksMatter | benchmarks/cmump/Mout.c:115-122 | the texts with and without blanks are the same if and only if the magnitude is below b^10 |
| Text.ElevenDigits | benchmarks/cmump/Mout.c:115-122 | 10000000000 has a blank in it, which the text without blanks lacks |
| Numerals.WritesTheNumber | benchmarks/cmump/Mout.c:94-127 | the text has a minus exactly for a negative number, then digits 0-9A-Z below b without a leading zero, of the value of the magnitude, with blanks exactly before positive multiples of ten digits |
| Numerals.NumeralUnique | benchmarks/cmump/Mout.c:115-120 | a value has one row of digits without leading zeros |
| Numerals.TextUnique | benchmarks/cmump/Mout.c:94-127 | no other text fits that description |
| Grammar.TakenDigits | benchmarks/cmump/Mout.c:25-58 | a character from 0-9, A-Z or a-z on is a digit of its worth exactly if that is below b, or b itself above base 10 |
| Grammar.SmallDigits | benchmarks/cmump/Mout.c:46-54 | small letters are worth 10 to 35 |
| Grammar.CapitalDigits | benchmarks/cmump/Mout.c:46-54 | so are capital ones |
| Grammar.ReadsNumber | benchmarks/cmump/Mout.c:28-63 | white space, minus signs, digits in either case, backslash pairs and skipped blanks, up to a character that ends them: the base-b value of the digits, negated for every minus, and no end of file |
| Grammar.ReadsToEnd | benchmarks/cmump/Mout.c:28-66 | up to the end of the file: the value without its sign, and the end of file |
| Grammar.EveryText | benchmarks/cmump/Mout.c:28-66 | every text is of one of these forms |
| Grammar.ReadingExact | benchmarks/cmump/Mout.c:12-67 | so a text is read as one number, and as no other |
| Grammar.HexadecimalFf | benchmarks/cmump/Mout.c:46-54 | "ff" and "FF" are read as 255 in base 16 |
| Mtextio.Slog | benchmarks/cmump/Mout.c:71-76 | 2^i <= n < 2^(i+1) |
| Mtextio.RoomLeft | benchmarks/cmump/Mout.c:100-102 | while digits remain, fewer than the computed number have been written |
| Mtextio.RoomSuffices | benchmarks/cmump/Mout.c:100-106 | the computed number of digits is enough for every value of that length |
| Mtextio.PrintGroup | benchmarks/cmump/Mout.c:116-120 | ten digits, written backwards inside the region |
| Mtextio.PrintDigit | benchmarks/cmump/Mout.c:117-119 | one digit, written to its place |
| Mtextio.PrintDigits | benchmarks/cmump/Mout.c:112-122 | every write, blanks included, stays inside the region, and the text is that of the number |
| Mtextio.PrintRegion | benchmarks/cmump/Mout.c:100-128 | the region, filled from its end, holds sign and digits |
| Mtextio.Print | benchmarks/cmump/Mout.c:83-130 | the one text of the number, in a region that always suffices for sign, blanks and terminator |
| Mtextio.Out | benchmarks/cmump/Mout.c:78-81 | m_out writes the text without blanks, which is the one with blanks if and only if the magnitude is below b^10 |
| Mtextio.In | benchmarks/cmump/Mout.c:7-10 | m_in reads with blanks skipped |
| Mtextio.AppendDigit | benchmarks/cmump/Mout.c:49-57 | the accumulator times the base plus the digit |
| Mtextio.Read | benchmarks/cmump/Mout.c:12-67 | the loop, with its two digit bounds, stores canonically the one number that the grammar gives for the text, letter of value b included, and its end-of-file result |
| Sorting.SortUnique | demo/mergesort.c:29-31 | sorting has one result |
| Sorting.MergeIsSort | demo/mergesort.c:69-88 | merging two sorted runs sorts them |
| Sorting.SplitMerge | demo/mergesort.c:95-101 | merging the parts below and from the split, side by side, sorts the whole |
| Cpj.BothMove | lib/cpj.h:12-18 | every step of either coroutine is a step of the cobegin, however far the other one is |
| Cpj.EachMoves | lib/cpj.h:12-18 | in a safe cobegin each coroutine that is not done can move |
| Cpj.AnyCanBeFirst | lib/cpj.h:12-18 | of four coroutines, each can take the next step |
| Cpj.StepPreserves | lib/cpj.h:12-18 | every step of every coroutine keeps the footprints and the sequential outcome and uses up the bound |
| Cpj.StepElsewhere | lib/cpj.h:12-18 | a step depends on its own footprint only |
| Cpj.Progress | lib/cpj.h:12-18 | a process that is not done can move: no access outside the memory, no join that waits for ever |
| Cpj.ExecReads | lib/cpj.h:12-18 | the sequential run depends only on what it may access |
| Cpj.ExecWrites | lib/cpj.h:12-18 | and changes only what it may write |
| Cpj.Determinism | lib/cpj.h:12-18 | every interleaving ends within the bound, in the memory of the sequential run |
| Cpj.NoRaces | lib/cpj.h:12-18 | no interleaving reaches a state in which one coroutine is about to write what another is about to access |
| Cpj.PendingWrite | lib/cpj.h:12-18 | the pending writes are exactly the cells that a next step can change |
| Cpj.PendingStep | lib/cpj.h:12-18 | a next step depends on the memory at the pending accesses only |
| Cpj.Diamond | lib/cpj.h:12-18 | without a race, steps of two coroutines commute |
| Cpj.RaceHasTwoEnds | lib/cpj.h:12-18 | two coroutines that write 1 and 2 to one cell race, and have complete runs that end with either |
| Cpj.RunInOrder | lib/cpj.h:12-18 | the coroutines run in order, in place |
| Merging.SafeSeqMerge | demo/mergesort.c:69-88 | seq_merge reads its runs and writes its output only, in 4 * (lena + lenb) steps at most |
| Merging.SeqMergeIsMerged | demo/mergesort.c:69-88 | its output is the merge, on any inputs |
| Merging.SeqMerge | demo/mergesort.c:69-88 | the loops leave the memory of the process |
| Merging.SplitIsFirst | demo/mergesort.c:105-119 | on a sorted run the search finds the first index whose element is not below v |
| Merging.FindSplit | demo/mergesort.c:105-119 | the loop returns it |
| Merging.SafeMerge | demo/mergesort.c:90-103 | the coroutines of merge keep apart at every depth, whatever the runs hold, and the step bound is 4 * (lena + lenb) + lena * (lena + lenb) |
| Merging.MergeRunsToFork | demo/mergesort.c:90-103 | above 50 elements merge runs to its cobegin, at the index that the search finds |
| Merging.AnyHalfFirst | demo/mergesort.c:98-101 | there either half can take the first step |
| Merging.MergeSorts | demo/mergesort.c:90-103 | the parallel merge of two sorted runs is a sorted permutation of both |
| Merging.Merge | demo/mergesort.c:90-103 | the method leaves the memory of the process, sorted runs merged and the rest untouched |
| MergeSort.SafeMergesort | demo/mergesort.c:43-67 | the coroutines of mergesort keep apart at every depth, within its two arrays |
| MergeSort.AnySortFirst | demo/mergesort.c:54-59 | above 2048 elements each of the four sorts can take the first step |
| MergeSort.AnyMergeFirst | demo/mergesort.c:61-64 | so can each of the two merges after them |
| MergeSort.MergesortSorts | demo/mergesort.c:43-67 | the first array ends as a sorted permutation of itself, for every length |
| MergeSort.Mergesort | demo/mergesort.c:43-67 | the method leaves the memory of the process: sorted, and nothing touched outside the two arrays |
| SomeSorter.SorterExists | demo/mergesort.c:15-17 | a sort such as mergesort is given exists, so what is proved for all of them is proved for one |
| MergeSort.MergesortDeterminism | demo/mergesort.c:43-67 | every interleaving is free of races, stops, never gets stuck, and ends in the one memory of the sequential run, with the array sorted |

## Left out

- Mmult.Multiply: requires one factor of at most 98309 digits. For every larger size there are factors for which the accumulator wraps (`Mmult.WordSuffices`); what it then stores is not modelled.
- Mgcd.Invert: requires a modulus of at least 1 and of at most twice 98309 digits, from mmult. The code passes the address of the pointer `one` where the number 1 is meant (lines 64-65); the model compares with and copies 1.
- Msqrt.Sqrt: requires an argument of at most twice 98309 digits, so that mmult can square the root, and different outputs; a negative argument is a fatal error of the code and a precondition here.
- Mpow.PowMod: requires a modulus of at most 98309 digits, so that mmult can square every residue.
- Mpow.IntPow: requires that a to the largest power of two up to n has at most 98309 digits, since the code squares it.
- Mdiv.Divide: requires different outputs q and r, and operands that are one number or do not share digits. Division by zero is a fatal error of the code and a precondition here.
- Mmod.Mod: requires a nonzero divisor and operands that are one number or do not share digits, as above.
- Mlegendre.Legendre: requires p and q without a common factor, as a comment in the routine says of its callers; with one the routine would divide by zero. Storage that its early return does not free is not modelled.
- Mtextio.Print: requires a base of at most 32768: the remainder of sdiv, which the manual gives a short divisor, is a short. The description of the text (`IsTextOf`) is for bases 2 to 36, for which there are digits; for bases above 73 a digit is a wider character here than a C char.
- Mtextio.Read: requires a base that a short can hold. Input and output are sequences of characters; the character that ungetc returns is not modelled.
- MergeSort.Mergesort: requires the sort of short arrays as a parameter, a process that sorts its range in place and touches nothing else (`IsSorter`), since the code links an external one; its own code is not modelled.
- Lengths are unbounded integers; that arrays are too short for an `int` length to overflow is not stated.
- `x |= carry` and `big |= digit` are additions, since their operands have no bit in common.
- Allocation failures, freeing, `PollPtr` hooks and debugging output. A freed number is one that is not used again.
- `mtod` and everything in floating point.
- Mnetout.c (network packing), MExpo.c (monomial orders), Mstrtoul.c and the copy `Sm_out_b` of `m_out_b`.
- The compile-time variants `Q_MINUS_1`, `FAST_MACHINE_MULT` and `OLD_EQUIV_CODE` of mlegendre.
- `initialize`, `check_sorted` and `main` of the mergesort, the `foreach` and `atomic` constructs of cpj.h, and the other demos.
- The macros of cpj.h:12-18 literally give a loop in which a coroutine may be left out or repeated, an encoding for CSolve. The model takes the intended meaning: every coroutine of a block once, in parallel, and then the join.
- Each read and write of a shared element is atomic, and the memory is sequentially consistent; the element type is the unbounded integer.
