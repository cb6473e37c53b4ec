# BigInteger: 384-bit integers and reduction modulo the P-192 prime

This project models the `BigInteger` class of a small C++ library for elliptic-curve
arithmetic. A `BigInteger` is a fixed-width unsigned integer of twelve 32-bit words,
`value[0]` the least significant, so every value lies in [0, 2^384). The model covers:

- the three constructors: zero, one native word, and hexadecimal text;
- `addc`: ripple-carry addition modulo 2^384;
- `compare`: word-wise equality;
- `shiftLeft`: a word shift and then a bit shift, modulo 2^384;
- the hexadecimal rendering that `operator<<` writes;
- `modp192c`: reduction modulo the NIST P-192 prime p = 2^192 - 2^64 - 1, the fast
  reduction of FIPS 186-4, Appendix D.2.1, written over 32-bit words;
- the constants `BIG0` and `BIG1`.

The class is `BigIntegers.BigInteger`. Its field `value` is an `array<Word>` of length 12
that every operation changes in place. Each method is proved against a function on word
sequences:

- `Arithmetic.Sum` for `addc`;
- `Arithmetic.ShiftedLeft` for `shiftLeft`;
- `Hex.Parse` for the string constructor;
- `P192.ModP192AsWritten` for `modp192c` as the code carries it out;
- `P192.Reduce` for the reduction with exact carries.

The properties of those functions are proved as lemmas. `Words.Val` reads twelve words as
the number sum of `value[i] * 2^(32 i)`.

Files:

- `words.dfy` (module `Words`): words, `Val`, and the C word operators `<<`, `>>` and `|`,
  written arithmetically.
- `arithmetic.dfy` (module `Arithmetic`): addition and left shift modulo 2^384.
- `hex.dfy` (module `Hex`): the string constructor's scan and the rendering.
- `p192.dfy` (module `P192`): the fold schedule, the FIPS sum, the exact reduction, and
  `modp192c` as written.
- `p192_findings.dfy` (module `P192Findings`): inputs on which `modp192c` loses the residue.
- `big_integer.dfy` (module `BigIntegers`): the class and its methods.
- `test_vectors.dfy` (module `TestVectors`): the test driver's addition cases, carried out
  on the class, with the result proved.

The string constructor has no error path: every character that is positive as a signed
char is mapped through `& 0x0F` (plus 9 above 0x40), and reading stops at the first
character that is not positive. The model follows the code (`Hex.Nibble`, `Hex.Continues`, `Hex.ParseNonHexDigit`).

## Model

| member | source | states |
|---|---|---|
| Words.ValBound | BigInteger.h:23-25 | n words spell a number below 2^(32 n); twelve words stay below 2^384 |
| Words.ValEqualIff | BigInteger.h:23-25 | two equally long word sequences are equal exactly when they spell the same number |
| Words.WordOfVal | BigInteger.h:22-24 | word k is digit k of the number in base 2^32, word 0 the least significant |
| Words.OrDisjoint | BigInteger.cpp:516 | or-ing a value whose low k bits are zero with a value below 2^k is their sum |
| Arithmetic.Sum | BigInteger.cpp:92-104 | the twelve words of the sum spell (a + b) mod 2^384 |
| Arithmetic.SumCommutes | BigInteger.cpp:92-104 | addition modulo 2^384 is commutative |
| Arithmetic.SumAssociates | BigInteger.cpp:92-104 | addition modulo 2^384 is associative |
| Arithmetic.SumZero | BigInteger.h:43 | adding BIG0 changes nothing |
| Arithmetic.SumWraps | BigInteger.cpp:95-102 | the carry out of word 11 is dropped: a sum of 2^384 or more loses exactly 2^384 |
| Arithmetic.ShiftedLeft | BigInteger.cpp:499-521 | the twelve words of a shift by n spell value * 2^n mod 2^384 |
| Arithmetic.ShiftByZero | BigInteger.cpp:510-511 | a shift by 0 changes nothing |
| Arithmetic.ShiftComposes | BigInteger.cpp:499-521 | shifting by a and then by b is shifting by a + b |
| Arithmetic.ShiftPastWidth | BigInteger.cpp:503-504 | a shift by 384 or more bits gives all zeros |
| Arithmetic.ShiftByWords | BigInteger.cpp:505-508 | a shift by k whole words moves word i to word i + k and zeroes words 0..k-1 |
| Arithmetic.ShiftClearsLowWords | BigInteger.cpp:507-508 | after a shift by n, every word below n / 32 is zero |
| Hex.NibbleOfHexDigit | BigInteger.cpp:54-55 | for 0-9, A-F and a-f the nibble `c & 0x0F`, plus 9 above 0x40, is the digit's value |
| Hex.TextIsPrefixUpToStop | BigInteger.cpp:53 | the characters read are exactly the prefix before the first character that is not positive |
| Hex.ScanInvariant | BigInteger.cpp:53-66 | after each character, word holds the unfinished word's nibbles, i is one more than their count, and the array holds the finished words mod 2^384 |
| Hex.FinishValue | BigInteger.cpp:67-69 | the final shift by the unfinished word's nibbles and the or into word 0 complete the value mod 2^384 |
| Hex.ParseValue | BigInteger.cpp:44-70 | the constructor's words spell the nibble value of the text read, mod 2^384 |
| Hex.ParseHex | BigInteger.cpp:44-70 | for hexadecimal digits, the words spell the string's hexadecimal value mod 2^384 |
| Hex.ParseEmpty | BigInteger.cpp:44-70 | the empty string gives all zeros |
| Hex.ParseLeadingZero | BigInteger.cpp:44-70 | a leading '0' changes nothing |
| Hex.ParseKeepsLast96 | BigInteger.cpp:57-60 | of a longer hexadecimal string only the last 96 digits count |
| Hex.ParseStops | BigInteger.cpp:53 | everything from the first character that is not positive on is ignored |
| Hex.ParseNonHexDigit | BigInteger.cpp:54-55 | 'G' is not rejected: it becomes the nibble 16 and reads as "10" does |
| Hex.ParseTestString | Assignment1.cpp:21 | "000123456789abcDEF" spells 0x123456789ABCDEF |
| Hex.RenderAt | BigInteger.cpp:532-535 | digit j of word i is HexDigits[(value[i] >> 4j) & 0xF], word 11 first and the high nibble first |
| Hex.RenderIsHex | BigInteger.cpp:530-538 | the rendering is exactly 96 upper-case hexadecimal digits |
| Hex.RenderValue | BigInteger.cpp:530-538 | the rendered digits spell the number the words spell |
| Hex.ParseRender | BigInteger.cpp:530-538 | the string constructor reading the rendering gives back the same twelve words |
| P192.ScheduleColumns | BigInteger.cpp:162-198 | the first loop folds {6,10} into 0, {7,11} into 1, {8,6,10} into 2, {9,7,11} into 3, {10,8} into 4 and {11,9} into 5, and y ends at 14 |
| P192.ColumnTotalsAre | BigInteger.cpp:165-198 | each column total is word x plus the words folded into it |
| P192.ColumnsAreFips | BigInteger.cpp:162 | the column totals spell T + S1 + S2 + S3 of FIPS 186-4, D.2.1 |
| P192.FipsCongruent | BigInteger.cpp:157 | T + S1 + S2 + S3 is congruent to the input modulo p |
| P192.AddFold | BigInteger.cpp:215-219 | adding t at words 0 and 2 adds t (2^64 + 1) to the value |
| P192.ReduceCorrect | BigInteger.cpp:156-249 | with exact carries, the result is congruent to the input modulo p, below 2^192, and zero in words 6..11 |
| P192.AsWrittenValue | BigInteger.cpp:156-249 | whatever the carries do, the result of modp192c is the value of the six low words its passes leave (words 6..11 are cleared), so it is below 2^192 and so below 2p |
| P192.Pass1Counts | BigInteger.cpp:165-198 | each column of the first loop counts at most as many carries as it has folds, in its own counter only |
| P192.TempBounds | BigInteger.cpp:165-198 | temp[x] is at most 2, and at most 3 for x = 2 and 3 |
| P192.Pass2KeepsTemp | BigInteger.cpp:209-232 | the second loop leaves temp[] unchanged |
| P192.Pass1Value | BigInteger.cpp:165-206 | when the first loop counts each carry exactly, its words plus temp[5] 2^192 are the FIPS sum |
| P192.Pass2Value | BigInteger.cpp:209-232 | when the second loop counts each carry exactly, it keeps words plus temp2[5] 2^192 equal to the first loop's words plus temp[5] (2^64 + 1) |
| P192.CorrectionValue | BigInteger.cpp:234-238 | when the correction does not overflow, it adds temp2[5] (2^64 + 1) |
| P192.AsWrittenCongruentWhenExact | BigInteger.cpp:156-249 | when no carry is lost or invented, modp192c keeps the residue modulo p |
| P192.ExactForSmallWords | BigInteger.cpp:156-249 | for every input whose words are below 2^30, entered with carry 0, no addition of modp192c wraps: no carry is lost or invented, the second loop is skipped, and the result keeps the residue modulo p |
| P192Findings.UninitialisedCarry | BigInteger.cpp:159-170 | modp192c on zero with carry holding 5 on entry leaves [2,2,4,3,3,2,0,...] |
| P192Findings.UninitialisedCarryDiffers | BigInteger.cpp:159-170 | that result is not congruent to the input modulo p |
| P192Findings.PhantomCarry | BigInteger.cpp:176-182 | on [0x80000000,0,0,0,0,0,0x80000000,0,...] the second fold of column 0 counts a carry that did not happen |
| P192Findings.PhantomCarryDiffers | BigInteger.cpp:176-182 | that result is not congruent to the input modulo p |
| P192Findings.UncheckedCarryAdd | BigInteger.cpp:201-204 | on [F,F,0,0,0,0,2,0,...] the addition of temp[0] into word 1 wraps with no carry counted |
| P192Findings.UncheckedCarryAddDiffers | BigInteger.cpp:201-204 | that result is not congruent to the input modulo p |
| P192Findings.UncheckedCorrection | BigInteger.cpp:234-238 | on [F,F,F,F,F,F,0,0,0,0,F,F] the correction wraps word 0 and loses the carry |
| P192Findings.UncheckedCorrectionDiffers | BigInteger.cpp:234-238 | that result is not congruent to the input modulo p |
| BigIntegers.Constants | BigInteger.h:43 | BIG0 spells 0 and BIG1 spells 1 |
| BigIntegers.BigInteger.constructor | BigInteger.cpp:16-20 | all twelve words are zero (BIG0), value 0 |
| BigIntegers.BigInteger.FromWord | BigInteger.cpp:27-32 | val in word 0, words 1..11 zero, value val |
| BigIntegers.BigInteger.FromString | BigInteger.cpp:44-70 | the words are those of Hex.Parse; for hexadecimal digits the value is the string's value mod 2^384 |
| BigIntegers.BigInteger.InsertWord | BigInteger.cpp:57-60 | every word moves up one place, word 11 is lost, and the new word becomes word 0 |
| BigIntegers.BigInteger.Compare | BigInteger.cpp:142-150 | true exactly when all twelve words agree, that is when the values are equal |
| BigIntegers.BigInteger.AddC | BigInteger.cpp:92-104 | the new words are the sum modulo 2^384 of the old ones and the addend's; the addend is unchanged unless it shares the receiver's array |
| BigIntegers.AddWordCarries | BigInteger.cpp:97-101 | the two overflow tests count the carry out of a + b + carry exactly |
| BigIntegers.BigInteger.ShiftLeft | BigInteger.cpp:499-521 | the new words are the old value times 2^val modulo 2^384 |
| BigIntegers.BigInteger.ShiftWords | BigInteger.cpp:503-508 | the word phase shifts by 32 k bits, k clamped at 12 |
| BigIntegers.BigInteger.ShiftBits | BigInteger.cpp:510-519 | the bit phase shifts by val % 32 bits |
| BigIntegers.WordShiftSplit | BigInteger.cpp:515-516 | a word times 2^b is the word shifted left by b plus 2^32 times the bits moved to the next word |
| BigIntegers.ShiftTotal | BigInteger.cpp:503-510 | the clamped word shift followed by the bit shift is the shift by val |
| BigIntegers.BigInteger.ModP192C | BigInteger.cpp:156-249 | the new words are those of P192.ModP192AsWritten, carry0 being what the unassigned carry holds |
| BigIntegers.BigInteger.FoldColumn | BigInteger.cpp:167-204 | one iteration of the first loop is P192.Column |
| BigIntegers.BigInteger.Fold | BigInteger.cpp:167-173 | one fold adds the source word and counts the carry as P192.FoldIn does |
| BigIntegers.BigInteger.SecondPass | BigInteger.cpp:209-238 | the second loop and the correction compute P192.Correct of P192.Pass2 |
| BigIntegers.BigInteger.CarryIn | BigInteger.cpp:211-232 | one iteration of the second loop is P192.Step2 |
| BigIntegers.BigInteger.ClearHighWords | BigInteger.cpp:243-246 | words 6..11 become zero and words 0..5 are unchanged |
| BigIntegers.BigInteger.ModP192 | BigInteger.cpp:156-249 | the reduction with exact carries: the new words are P192.Reduce of the old ones, congruent modulo p and below 2^192 |
| BigIntegers.BigInteger.RipplePass | BigInteger.cpp:165-206 | one exact ripple-carry pass over words 0..5, leaving words 6..11 alone |
| TestVectors.AddOne | Assignment1.cpp:35-36 | 0x12345678 + BIG1 leaves 0x12345679 in word 0 and zeros above |
| TestVectors.AddSelf | Assignment1.cpp:38-39 | 0x80000000 added to itself gives 2^32: word 0 zero, word 1 one |
| TestVectors.AddStrings | Assignment1.cpp:45-47 | A5F05A0FA5F05A0F + 5A0FA5F05A0FA5F1 read from strings gives 2^64: word 2 one, all others zero |
| TestVectors.CarriesToWord2 | Assignment1.cpp:47 | any twelve words spelling those two numbers add up to the words of 2^64 |
| TestVectors.ParseFirstString | Assignment1.cpp:45 | "A5F05A0FA5F05A0F" spells 0xA5F05A0FA5F05A0F |
| TestVectors.ParseSecondString | Assignment1.cpp:46 | "5A0FA5F05A0FA5F1" spells 0x5A0FA5F05A0FA5F1 |

## Left out

- `adda` and `modp192a` (BigInteger.cpp:118-135 and 253-486) are x86 inline assembly that duplicate `addc` and `modp192c`; register and flag semantics are not modelled.
- The debug print of `temp[x]` inside `modp192c` (BigInteger.cpp:205) is output only and does not change the result.
- The `ostream` plumbing of `operator<<` is not modelled; the rendering is the pure function `Hex.Render` from twelve words to 96 characters.
- `bigIntType` is `unsigned long`; words are fixed at 32 bits, as the header's comment and the 32-bit x86 code assume. The behaviour with a 64-bit `long`, where the overflow tests and shifts break, is not modelled.
- BigIntegers.BigInteger.ModP192C: `carry` is read before it is ever assigned (BigInteger.cpp:159, 170); the indeterminate value is the parameter `carry0`, and any value is allowed.
- BigIntegers.BigInteger.ModP192C: the counters `temp[]` and `temp2[]` are `int` in the code; they are modelled as unbounded naturals, which is exact because they never exceed 3.
- BigIntegers.BigInteger.ShiftLeft: `val` is an `unsigned int`; it is modelled as an unbounded natural, which agrees with the code for every 32-bit value.
- BigIntegers.BigInteger.FromString: the C string is a `seq<char>` read up to its end or the first character that is not positive as a signed char (code 0, or 128 and above); the NUL terminator is not modelled separately.
- P192.AsWrittenCongruentWhenExact: the congruence of `modp192c` is proved only when no carry is lost or invented; `P192Findings` gives inputs outside that condition on which it fails. `P192.ExactForSmallWords` shows that every input with words below 2^30 and carry 0 meets the condition.
- The destructor (BigInteger.cpp:75) does nothing and is not modelled.

## Findings

| source | as written | input that shows it | evidently intended | confidence | as-written member | corrected member |
|---|---|---|---|---|---|---|
| BigInteger.cpp:159-170 | `carry` is read in `value[x] < carry` before it is ever assigned | zero input with `carry` holding 5 on entry: the result is [2,2,4,3,3,2,0,...], not 0 mod p | `carry` starts at 0 and each fold counts only its own overflow | not executed | P192Findings.UninitialisedCarryDiffers | P192.ReduceCorrect |
| BigInteger.cpp:176-182 | `carry = carry_next \|\| (value[x] < carry)` counts a carry again when the next fold adds 0 | [0x80000000,0,0,0,0,0,0x80000000,0,...] with carry 0: the result is not congruent to the input | each fold counts a carry only when its own addition overflows | not executed | P192Findings.PhantomCarryDiffers | P192.ReduceCorrect |
| BigInteger.cpp:203 | `value[x] = value[x] + temp[x-1]` has no overflow check | [F,F,0,0,0,0,2,0,...] (F = 0xFFFFFFFF) with carry 0: word 1 wraps and the carry is lost | the carry of that addition is counted in temp[x] | not executed | P192Findings.UncheckedCarryAddDiffers | P192.ReduceCorrect |
| BigInteger.cpp:236-237 | the correction adds temp2[5] to words 0 and 2 with no overflow check | [F,F,F,F,F,F,0,0,0,0,F,F] with carry 0: word 0 wraps and the carry is lost | the carry of the correction ripples on | not executed | P192Findings.UncheckedCorrectionDiffers | P192.ReduceCorrect |
