# Packed Galois-field arithmetic and a GF(8) Reed-Solomon codec

A Dafny model of the core of the ReedSolomon C library. The model covers three source files:

- `gf8.c` covers GF(8) elements and GF(8) polynomials packed three bits per term into a 32-bit word.
- `gf16.c` does the same for GF(16), with four bits per term in a 64-bit word.
- `rs_gf8.c` is a systematic BCH-view Reed-Solomon code over GF(8). Its block has 7 symbols, with up to 6 check symbols and first consecutive root 2. It provides encoding, syndromes, an erasure locator, Berlekamp-Massey, a root search, Forney magnitudes and the full decoder `rs8_decode`.

Modules:

- `GF8`, `GF16` (`gf8.dfy`, `gf16.dfy`): the exp/log tables, multiplication, division, powers and inverse.
  - They are proved against a table-free field product: a carry-less product reduced by the prime polynomial.
  - They are also proved against each other: commutativity, associativity, distributivity, the division round trips, the inverse and the power laws.
  - Division returns `Quotient`: either `Quot(v)`, or `DivByZero`, which stands for the `-1` that `gf*_div` returns.
- `Poly8`, `Poly16` (`poly8.dfy`, `poly16.dfy`): reference polynomials. These are coefficient sequences with sum, scaling, product (convolution), evaluation, formal derivative and order.
- `GF8Poly`, `GF16Poly` (`gf8_poly.dfy`, `gf16_poly.dfy`): the packed-word operations.
  - The pure operations are functions on `bv32`/`bv64`, each proved equal to its `Poly8`/`Poly16` counterpart through `Coeffs`.
  - The loops of `gf*_poly_mod`, `gf*_poly_eval`, `gf*_poly_get_order` and `gf*_poly_get_size` are methods with loop invariants.
- `RS8` (`rs8.dfy`): the generator table, `rs8_encode`, `rs8_get_syndromes` and `rs8_get_erasure_locator`.
- `BerlekampMassey` (`berlekamp_massey.dfy`): the recursion that `rs8_get_error_locator` runs, on sequences, with its invariant.
- `RS8Decode`, `RS8Magnitude` (`rs8_decode.dfy`, `rs8_magnitude.dfy`): the decoder's helper routines on packed words.
- `RS8Decoder` (`rs8_decoder.dfy`): `rs8_decode` as a method. It is proved against `DecodeOutcome`, a specification over coefficient sequences. `IntendedOutcome` is the same specification with the error search that the comment above `rs8_get_error_locator` describes.
- `RS8ErasureCase` (`rs8_erasure_case.dfy`): one received word worked through both specifications, the input of the decoder finding below.
- `RS8TestVectors` (`rs8_test_vectors.dfy`): the worked decodes of `src/test_math.c` followed through `DecodeOutcome`. These are the codeword itself, two errors, and two erasures with one error. All three come back as 01230013.

Conventions:

- Position `p` of a block is coefficient `p` of the word. Its locator is `2^p`.
- A position byte has bit `p` for position `p`.
- `gf8_log[0]` is the byte `0xFF`. As an `int8_t` it reads as `-1`, and the model's log tables hold `-1` there.

In two places the code does something other than its names and comments suggest; the model follows the code:

- `gf*_poly_mod` returns the remainder of `p * x^(deg q)` divided by `q`, not the remainder of `p` itself. The loop begins by shifting `p` up by `q_sz - SYM_SZ` bits. `GF8Poly.Mod` and `GF16Poly.Mod` state that remainder: `p * x^(deg q) = Q * q + m` for some quotient `Q` (the division identity), `m` agrees with `p * x^(deg q)` at every root of `q`, and it has no term from degree `deg q` up when `q` is monic. `RemainderUnique` shows that a monic divisor admits only one such remainder. `rs8_encode` depends on exactly this shift.
- `rs8_decode` gives `rs8_get_error_locator` all `chk_syms` Forney syndromes, not the `chk_syms - erasures` that the comment above that function describes. `RS8Decoder.ErrorPlan` runs Berlekamp-Massey over all `k` of them. With erasures present this can reject a word that the erasures alone would repair (see Findings).

## Model

| member | source | states |
|---|---|---|
| GF8.Mul2NoLut | ReedSolomon/src/gf8.c:20-27 | doubling maps 0, and only 0, to 0 |
| GF8.ExpIsOrbit | ReedSolomon/src/gf8.c:12-14 | the exp table starts at 1 and each entry is `gf8_mul2_noLUT` of the one before |
| GF8.ExpOfLog | ReedSolomon/src/gf8.c:16-17 | for non-zero v the log lies in 0..6 and exp of log v is v |
| GF8.LogOfExp | ReedSolomon/src/gf8.c:12-17 | entries of exp are non-zero, their log is the index mod 7, and the table repeats with period 7 |
| GF8.Mul | ReedSolomon/src/gf8.c:39-45 | a product is 0 exactly when a factor is 0 |
| GF8.MulIsFieldMul | ReedSolomon/src/gf8.c:39-45 | the table product equals the carry-less product reduced by x^3 + x + 1 |
| GF8.FieldMulAssociates | ReedSolomon/src/gf8.c:3 | the reduced carry-less product is associative |
| GF8.FieldMulDistributes | ReedSolomon/src/gf8.c:3 | the reduced carry-less product distributes over XOR |
| GF8.MulCommutes | ReedSolomon/src/gf8.c:39-45 | gf8_mul is commutative |
| GF8.MulAssociates | ReedSolomon/src/gf8.c:39-45 | gf8_mul is associative |
| GF8.MulDistributes | ReedSolomon/src/gf8.c:39-45 | gf8_mul distributes over XOR (field addition) |
| GF8.MulOne | ReedSolomon/src/gf8.c:39-45 | 1 is the identity on both sides |
| GF8.MulByTwo | ReedSolomon/src/gf8.c:20-45 | multiplying by 2 is gf8_mul2_noLUT |
| GF8.Div | ReedSolomon/src/gf8.c:29-37 | the result is the -1 sentinel exactly when the divisor is 0; otherwise the quotient is 0 exactly when the dividend is 0 |
| GF8.DivMulRoundTrip | ReedSolomon/src/gf8.c:29-45 | (a / b) * b == a for b != 0 |
| GF8.MulDivRoundTrip | ReedSolomon/src/gf8.c:29-45 | (a * b) / b == a for b != 0 |
| GF8.Inverse | ReedSolomon/src/gf8.c:59-62 | the inverse of a non-zero element is non-zero; 0 maps to exp[8] = 2 |
| GF8.InverseIsInverse | ReedSolomon/src/gf8.c:59-62 | x * inverse(x) == 1 for x != 0 |
| GF8.Pow | ReedSolomon/src/gf8.c:47-50 | the power of a non-zero element is non-zero |
| GF8.PowStep | ReedSolomon/src/gf8.c:47-50 | x^n == x^(n-1) * x |
| GF8.PowIsPower | ReedSolomon/src/gf8.c:47-50 | gf8_pow (with the exponent reduced mod 14) equals repeated multiplication |
| GF8.PowAsWritten | ReedSolomon/src/gf8.c:47-50 | as the macro expands, the result is always 1 |
| GF8.PowAsWrittenCounterexample | ReedSolomon/inc/gf8.h:17 | pow(2, 1) as written is 1, while 2^1 is 2 |
| GF8.TwoPow | ReedSolomon/src/gf8.c:54-57 | 2^i is non-zero |
| GF8.TwoPowIsPower | ReedSolomon/src/gf8.c:54-57 | gf8_2pow(i) is 2 multiplied by itself i times, for i in 0..13 |
| GF8.TwoPowStep | ReedSolomon/src/gf8.c:54-57 | consecutive entries differ by a factor 2 |
| GF16.Mul2NoLut | ReedSolomon/src/gf16.c:22-29 | doubling maps 0, and only 0, to 0 |
| GF16.ExpIsOrbit | ReedSolomon/src/gf16.c:14-16 | the exp table starts at 1 and each entry is `gf16_mul2_noLUT` of the one before |
| GF16.ExpOfLog | ReedSolomon/src/gf16.c:18-19 | for non-zero v the log lies in 0..14 and exp of log v is v |
| GF16.LogOfExp | ReedSolomon/src/gf16.c:14-19 | entries of exp are non-zero and their log is the index mod 15 |
| GF16.Mul | ReedSolomon/src/gf16.c:41-47 | a product is 0 exactly when a factor is 0 |
| GF16.MulIsFieldMul | ReedSolomon/src/gf16.c:3 | the table product equals the carry-less product reduced by the prime polynomial 0b10011 |
| GF16.MulIsDoubled | ReedSolomon/src/gf16.c:22-47 | a * b is a doubled log(b) times |
| GF16.MulCommutes | ReedSolomon/src/gf16.c:41-47 | gf16_mul is commutative |
| GF16.MulAssociates | ReedSolomon/src/gf16.c:41-47 | gf16_mul is associative |
| GF16.MulDistributes | ReedSolomon/src/gf16.c:41-47 | gf16_mul distributes over XOR |
| GF16.MulByTwo | ReedSolomon/src/gf16.c:22-47 | multiplying by 2 is gf16_mul2_noLUT |
| GF16.Div | ReedSolomon/src/gf16.c:31-39 | the sentinel exactly for divisor 0; otherwise the quotient is 0 exactly for dividend 0 |
| GF16.DivMulRoundTrip | ReedSolomon/src/gf16.c:31-47 | (a / b) * b == a for b != 0 |
| GF16.MulDivRoundTrip | ReedSolomon/src/gf16.c:31-47 | (a * b) / b == a for b != 0 |
| GF16.InverseOfZero | ReedSolomon/src/gf16.c:61-64 | the inverse of 0 reads exp[16] = 2 |
| GF16.InverseIsInverse | ReedSolomon/src/gf16.c:61-64 | x * inverse(x) == 1 for x != 0 |
| GF16.Pow | ReedSolomon/src/gf16.c:49-52 | the power of a non-zero element is non-zero |
| GF16.PowIsPower | ReedSolomon/src/gf16.c:49-52 | gf16_pow (with the exponent reduced mod 30) equals repeated multiplication |
| GF16.PowAsWritten | ReedSolomon/src/gf16.c:49-52 | as the macro expands, the result is always 1 |
| GF16.PowAsWrittenCounterexample | ReedSolomon/include/gf16.h:17 | pow(2, 1) as written is 1, while 2^1 is 2 |
| GF16.TwoPow | ReedSolomon/src/gf16.c:56-59 | 2^i is non-zero |
| GF16.TwoPowIsPower | ReedSolomon/src/gf16.c:56-59 | gf16_2pow(i) is 2 multiplied by itself i times, for i in 0..29 |
| Poly8.ProductIsConvolution | ReedSolomon/src/gf8.c:88-123 | coefficient k of the reference product is the convolution sum of the factors |
| Poly8.DivisionUnique | ReedSolomon/src/gf8.c:131-149 | for monic q of degree d, a * q + m == b * q + n with m, n below degree d forces a == b and m == n |
| Poly8.HornerIsEval | ReedSolomon/src/gf8.c:153-166 | Horner's rule from the top coefficient down gives the sum of c_i x^i |
| Poly8.EvalAdd | ReedSolomon/src/gf8.c:153-166 | evaluation is additive |
| Poly8.EvalScaleBy | ReedSolomon/src/gf8.c:73-86 | evaluating a scaled polynomial scales the value |
| Poly8.DerivativeKeepsOdd | ReedSolomon/src/gf8.c:168-172 | in characteristic 2 the derivative keeps the odd-degree terms, moved down one degree |
| Poly8.OrderOf | ReedSolomon/src/gf8.c:174-181 | the order is the degree of the highest non-zero coefficient, or -1 for zero |
| Poly16.ProductIsConvolution | ReedSolomon/src/gf16.c:92-135 | coefficient k of the reference product is the convolution sum |
| Poly16.DivisionUnique | ReedSolomon/src/gf16.c:143-161 | for monic q of degree d, a * q + m == b * q + n with m, n below degree d forces a == b and m == n |
| Poly16.HornerIsEval | ReedSolomon/src/gf16.c:165-178 | Horner's rule gives the sum of c_i x^i |
| Poly16.DerivativeKeepsOdd | ReedSolomon/src/gf16.c:180-184 | the derivative keeps the odd-degree terms, moved down one degree |
| Poly16.OrderOf | ReedSolomon/src/gf16.c:186-193 | the order is the degree of the highest non-zero coefficient, or -1 |
| GF8Poly.ScaleIsScaleBy | ReedSolomon/src/gf8.c:64-86 | gf8_poly_scale multiplies every one of the ten coefficients by x, for every 32-bit word |
| GF8Poly.MulIsProduct | ReedSolomon/src/gf8.c:88-123 | gf8_poly_mul is the product of p with the first five terms of q, truncated to ten terms |
| GF8Poly.MulQ0MonicIsProduct | ReedSolomon/src/gf8.c:125-129 | when term 0 of q is 1, the result is the product with the first six terms of q |
| GF8Poly.FormalDerivativeIsDerivative | ReedSolomon/src/gf8.c:168-172 | the masked shift is the formal derivative of the coefficients |
| GF8Poly.Eval | ReedSolomon/src/gf8.c:151-166 | the loop returns p(x) over the p_sz bits of p |
| GF8Poly.Mod | ReedSolomon/src/gf8.c:131-149 | the result fits the word; p * x^(deg q) = Q * q + m for some quotient Q; at every root of q it equals p * x^(deg q); for monic q it has no terms from deg q up |
| GF8Poly.RemainderUnique | ReedSolomon/src/gf8.c:131-149 | for monic q, two words that satisfy the division identity and have no terms from deg q up are equal, so Mod's result is the remainder |
| GF8Poly.GetOrder | ReedSolomon/src/gf8.c:174-181 | the degree of the highest non-zero term, -1 for 0 and for negative words |
| GF8Poly.GetSize | ReedSolomon/src/gf8.c:183-189 | 3 * (order + 1) bits, the fewest in which p fits; 0 for negative words |
| GF8Poly.ScaleSignedCounterexample | ReedSolomon/inc/gf8.h:21 | on the signed word, scale(4 x^9, 4) has coefficient 9 equal to 2; the unsigned model gives 4 * 4 = 6 |
| GF8Poly.MulSignedCounterexample | ReedSolomon/src/gf8.c:88-123 | on the signed word, mul(4 x^9, 4) has coefficient 9 equal to 2; the unsigned model gives 4 * 4 = 6 |
| GF16Poly.ScaleIsScaleBy | ReedSolomon/src/gf16.c:66-90 | gf16_poly_scale multiplies every one of the fifteen coefficients by x |
| GF16Poly.MulIsProduct | ReedSolomon/src/gf16.c:92-135 | gf16_poly_mul is the product of p with the first six terms of q, truncated to fifteen terms |
| GF16Poly.MulQ0MonicIsProduct | ReedSolomon/src/gf16.c:137-141 | when term 0 of q is 1, the result is the product with the first seven terms of q |
| GF16Poly.FormalDerivativeIsDerivative | ReedSolomon/src/gf16.c:180-184 | for words with the sixteenth slot clear, the masked shift is the formal derivative |
| GF16Poly.Eval | ReedSolomon/src/gf16.c:163-178 | the loop returns p(x) over the p_sz bits of p |
| GF16Poly.Mod | ReedSolomon/src/gf16.c:143-161 | the result fits the word; p * x^(deg q) = Q * q + m for some quotient Q; at every root of q it equals p * x^(deg q); for monic q it has no terms from deg q up |
| GF16Poly.RemainderUnique | ReedSolomon/src/gf16.c:143-161 | for monic q, two words that satisfy the division identity and have no terms from deg q up are equal |
| GF16Poly.GetOrder | ReedSolomon/src/gf16.c:186-193 | the degree of the highest non-zero term, -1 for 0 and for negative words |
| GF16Poly.GetSize | ReedSolomon/src/gf16.c:195-201 | 4 * (order + 1) bits, the fewest in which p fits; 0 for negative words |
| RS8.GPolysAreGenerators | ReedSolomon/src/rs_gf8.c:6-14 | entry k of the table is the product of (x - 2^i) for i = 1..k |
| RS8.GeneratorRoots | ReedSolomon/src/rs_gf8.c:6-14 | the roots of generator k are exactly 2^1 .. 2^k |
| RS8.Encode | ReedSolomon/src/rs_gf8.c:16-29 | the result is a codeword (zero at 2^1..2^k); it carries the message in terms k and up; it fits in the 7-symbol block |
| RS8.CheckedRoots | ReedSolomon/src/rs_gf8.c:26-28 | message shifted up plus the mod remainder vanishes at every root of the generator |
| RS8.CheckedWord | ReedSolomon/src/rs_gf8.c:27-28 | OR of the shifted message and the check word is their sum, and keeps the message terms |
| RS8.GetSyndromes | ReedSolomon/src/rs_gf8.c:31-41 | term i - 1 of the result is p(2^i) for i = 1..nsyms, and all other terms are 0 |
| RS8.SyndromesZeroIffCodeword | ReedSolomon/src/rs_gf8.c:31-41 | all syndromes are 0 exactly when the word is a codeword |
| RS8.LocatorShape | ReedSolomon/src/rs_gf8.c:47-62 | the erasure locator has constant term 1 and degree exactly the erasure count: that coefficient is non-zero and all above it are 0 |
| RS8.LocatorRoots | ReedSolomon/src/rs_gf8.c:47-62 | the locator vanishes at r exactly when r is the inverse of 2^p for an erased p |
| RS8.GetErasureLocator | ReedSolomon/src/rs_gf8.c:47-62 | the loop returns the product of (1 + 2^p x) over the marked positions |
| BerlekampMassey.StepInv | ReedSolomon/src/rs_gf8.c:124-149 | each pass of the outer loop keeps the recursion's invariant |
| BerlekampMassey.RunInv | ReedSolomon/src/rs_gf8.c:109-152 | the invariant holds after every number of passes |
| BerlekampMassey.RunGenerates | ReedSolomon/src/rs_gf8.c:109-152 | the locator has constant 1 and degree at most L <= N, and it zeroes every discrepancy from L to N - 1 |
| RS8Decode.ErrataEvaluator | ReedSolomon/src/rs_gf8.c:64-71 | the syndromes times the locator, truncated to chk_sz / 3 terms; it fits in chk_sz bits |
| RS8Decode.ErrorLocator | ReedSolomon/src/rs_gf8.c:108-152 | the bit-packed loop returns the locator that the Berlekamp-Massey recursion builds from the first s_sz / 3 syndromes |
| RS8Decode.Discrepancy | ReedSolomon/src/rs_gf8.c:126-130 | the inner loop sums C[i] S[n - i] over i = 0..L |
| RS8Decode.Correct | ReedSolomon/src/rs_gf8.c:132-148 | the correction and the length change take the packed state from step t to step t + 1 |
| RS8Decode.LocatorStep | ReedSolomon/src/rs_gf8.c:132-148 | the three branches of a pass match one step of the recursion |
| RS8Decode.ErrorPositions | ReedSolomon/src/rs_gf8.c:154-169 | bit p is set exactly when p < 7, p is in mask_pos and 2^(7 - p) is a root of the locator |
| RS8Decode.Probe | ReedSolomon/src/rs_gf8.c:165 | the negated evaluation is true exactly at a root |
| RS8Decode.VerdictsBits | ReedSolomon/src/rs_gf8.c:160-168 | after seven shifts, bit p holds the verdict of step 7 - p and bit 7 is clear |
| RS8Magnitude.Forney | ReedSolomon/src/rs_gf8.c:73-101 | the sentinel exactly when the derivative vanishes at the root; otherwise the value times D(root) is Omega(root) |
| RS8Magnitude.ForneyAt | ReedSolomon/src/rs_gf8.c:98-101 | both evaluations and the division at 2^i give Forney's quotient |
| RS8Magnitude.MagnitudeLoop | ReedSolomon/src/rs_gf8.c:90-105 | the loop packs the Forney values by position, or sets the sign bit when a division by zero happened |
| RS8Magnitude.ErrataMagnitude | ReedSolomon/src/rs_gf8.c:74-106 | the result fits in the 7 block terms, and term p solves e * Lambda'(X^-1) == Omega(X^-1) at each marked p (0 elsewhere); a vanishing derivative makes the word negative |
| RS8Magnitude.PackedDone | ReedSolomon/src/rs_gf8.c:91-105 | seven passes without a zero divisor leave each correction at its position |
| RS8Decoder.Popcount | ReedSolomon/src/rs_gf8.c:174 | the count is at most 7 exactly when bit 7 is clear, and then it is the number of marked positions |
| RS8Decoder.Decode | ReedSolomon/src/rs_gf8.c:172-213 | the result is DecodeOutcome: -1 beyond the Singleton bound, recv when all syndromes are 0, otherwise the plan's failure (-2, -3) or the Forney repair added to recv |
| RS8Decoder.CorrectErrata | ReedSolomon/src/rs_gf8.c:183-212 | the part after a non-zero syndrome carries out the decode plan |
| RS8Decoder.ErasureStage | ReedSolomon/src/rs_gf8.c:183-190 | the erasure locator, and the Forney syndromes (or the syndromes when nothing is erased) |
| RS8Decoder.ErrorStage | ReedSolomon/src/rs_gf8.c:192-206 | the degree check (-2), the root count check (-3), or the merged errata |
| RS8Decoder.RootStage | ReedSolomon/src/rs_gf8.c:198-206 | the root search and the count check, then the merge |
| RS8Decoder.MergeErrata | ReedSolomon/src/rs_gf8.c:203-206 | the merged positions, the locator E * C and the evaluator T * C mod x^k |
| RS8Decoder.ApplyErrata | ReedSolomon/src/rs_gf8.c:209-212 | Forney's values added to recv carry out a repair plan |
| RS8Decoder.CodewordUnchanged | ReedSolomon/src/rs_gf8.c:178-181 | a codeword with erasures within the bound comes back unchanged |
| RS8Decoder.BeyondBoundIff | ReedSolomon/src/rs_gf8.c:174-176 | -1 comes back exactly when there are more erasures than check symbols |
| RS8Decoder.PlanFailures | ReedSolomon/src/rs_gf8.c:192-201 | after a non-zero syndrome the only failures are -2 and -3 |
| RS8Decoder.OnlyErrataChange | ReedSolomon/src/rs_gf8.c:203-212 | a non-negative result differs from recv only in block symbols at errata positions |
| RS8Decoder.RepairWithinBound | ReedSolomon/src/rs_gf8.c:192-204 | every repair keeps the erasures, and erasures + 2 * errors <= k |
| RS8ErasureCase.SentIsCodeword | ReedSolomon/src/rs_gf8.c:16-29 | 0046112 (0x4C4A) vanishes at 2, 4 and 3, so it is a codeword for three check symbols |
| RS8ErasureCase.AsWrittenFails | ReedSolomon/src/rs_gf8.c:192-197 | as written, the decoder returns -2 for 0071112 with three check symbols and positions 3 and 4 erased, and nothing else |
| RS8ErasureCase.IntendedRepairs | ReedSolomon/src/rs_gf8.c:108-109 | with Berlekamp-Massey over the chk_syms - erasures remaining syndromes, the same call returns 0046112, and nothing else |
| RS8ErasureCase.MagnitudeIff | ReedSolomon/src/rs_gf8.c:73-106 | for the evaluator and derivative of that case, the magnitude word is exactly 0x3E00: 7 at position 3 and 3 at position 4, which turn 0071112 into 0046112 |
| RS8TestVectors.CodewordVanishes | ReedSolomon/src/test_math.c:74-76 | 01230013 (0x5300B), the encoding of 0123 with four check symbols, vanishes at 2, 4, 3 and 6 |
| RS8TestVectors.CodewordDecodesToItself | ReedSolomon/src/test_math.c:98-100 | decoding 01230013 with four check symbols and nothing erased returns 01230013, and nothing else |
| RS8TestVectors.TwoErrorsSyndromes | ReedSolomon/src/rs_gf8.c:31-41 | the four syndromes of 030013 are 0, 1, 2, 2 |
| RS8TestVectors.TwoErrorsLocator | ReedSolomon/src/rs_gf8.c:109-152 | Berlekamp-Massey over 0, 1, 2, 2 ends with the locator 1 + 2x + 6x^2 |
| RS8TestVectors.TwoErrorsFound | ReedSolomon/src/rs_gf8.c:156-169 | the root search of 1 + 2x + 6x^2 over all seven positions finds exactly positions 5 and 6 |
| RS8TestVectors.TwoErrorsPlan | ReedSolomon/src/rs_gf8.c:178-206 | for 030013 with nothing erased the decoder plans to repair positions 5 and 6 with the evaluator x and the locator 1 + 2x + 6x^2 |
| RS8TestVectors.TwoErrorsMagnitudeIff | ReedSolomon/src/rs_gf8.c:74-106 | for the evaluator x and the derivative 2 the magnitude word for positions 5 and 6 is exactly 0x50000: 2 at position 5 and 1 at position 6 |
| RS8TestVectors.TwoErrorsRepairedIff | ReedSolomon/src/rs_gf8.c:209-212 | adding those magnitudes to 030013 gives 01230013, and nothing else |
| RS8TestVectors.TwoErrorsRepaired | ReedSolomon/src/test_math.c:78-80 | rs8_decode(030013, 21, 4, 0, 0x7F) returns 01230013, and nothing else |
| RS8TestVectors.ThreeWrongSyndromes | ReedSolomon/src/rs_gf8.c:31-41 | the four syndromes of 00013 are 1, 7, 0, 5 |
| RS8TestVectors.LastTwoLocator | ReedSolomon/src/rs_gf8.c:47-62 | the erasure locator of positions 5 and 6 is 1 + 2x + 6x^2 |
| RS8TestVectors.ErasuresAndErrorForney | ReedSolomon/src/rs_gf8.c:192-194 | the Forney syndromes of 00013 with positions 5 and 6 erased are 1, 5, 3, 1 |
| RS8TestVectors.ErasuresAndErrorLocator | ReedSolomon/src/rs_gf8.c:109-152 | Berlekamp-Massey over all four Forney syndromes 1, 5, 3, 1 ends with 1 + 6x, the locator of position 4 |
| RS8TestVectors.FourthFound | ReedSolomon/src/rs_gf8.c:156-169 | the root search of 1 + 6x over the positions not erased finds exactly position 4 |
| RS8TestVectors.ErasuresAndErrorSearch | ReedSolomon/src/rs_gf8.c:194-206 | the error search passes the Singleton and root-count checks and plans to repair positions 4, 5 and 6 with the evaluator 1 + 3x and the errata locator 1 + 4x + x^2 + 2x^3 |
| RS8TestVectors.ErasuresAndErrorPlan | ReedSolomon/src/rs_gf8.c:178-206 | for 00013 with positions 5 and 6 erased the decoder plans that repair |
| RS8TestVectors.ThreeWrongMagnitudeIff | ReedSolomon/src/rs_gf8.c:74-106 | for the evaluator 1 + 3x and the derivative 4 + 2x^2 the magnitude word for positions 4, 5 and 6 is exactly 0x53000: 3, 2 and 1 there |
| RS8TestVectors.ErasuresAndErrorRepaired | ReedSolomon/src/test_math.c:94-96 | rs8_decode(00013, 21, 4, 0b1100000, 0x7F) returns 01230013, and nothing else |

## Left out

- The C types are signed (`gf8_poly` is `int32_t`, `gf16_poly` is `int64_t`, elements and indices are `int8_t`). Words are modelled as unsigned `bv32`/`bv64`, with logical shifts and products that wrap.
  - In GF(8), sign extension changes a result only when a row of `gf8_poly_scale` or `gf8_poly_mul` carries coefficient 9 into bit 31. Those two are also modelled as written, as a finding (`GF8Poly.ScaleAsWritten`, `GF8Poly.MulAsWritten`). `gf8_poly_mod` inherits the effect through `gf8_poly_scale` (see `GF8Poly.Mod` below). `gf8_poly_mul_q0_monic` is not affected: its final `<< 3` drops the bits that differ.
  - In GF(16), the overflow masks `GF16_R*_OF` never select bit 63, so the arithmetic shifts of `gf16_poly_reduce` never see the sign bit.
  - `gf*_poly_get_order`/`get_size` follow the signed comparison (see below).
- GF8Poly.GetOrder, GF8Poly.GetSize: require `p < 2^30` or a negative word. For `p` in [2^30, 2^31) the C loop never ends, because `i <<= 3` never exceeds `p`. The same holds for GF16Poly.GetOrder and GF16Poly.GetSize with [2^60, 2^63).
- GF8Poly.Mod: states the unsigned result. With a divisor that is not monic and `p_sz + q_sz` of 33 bits, a scaled row of the divisor can reach bit 31 and the signed reduction changes coefficient 9. For example, the remainder of `4x^4` (15 bits) by `4x^5 + 1` (18 bits) has coefficient 9 equal to 2 here and 6 in the signed C. No signed version of the loop is modelled. The codec only divides by its monic generators, which fill at most 21 bits.
- GF8Poly.MulIsProduct: states the unsigned product. When a row reaches bit 31, the signed C differs, as `GF8Poly.MulSignedCounterexample` shows.
- GF16Poly.FormalDerivativeIsDerivative: requires the sixteenth slot to be clear (`p < 2^60`). `GF16_ODD` also selects that slot, so for larger words its content moves into coefficient 14.
- GF8Poly.Eval, GF16Poly.Eval: require `x != 0`. For `x == 0` the C code adds `gf*_log[0] = -1` to a log and can index `gf*_exp[-1]`, which lies outside the table.
- GF8Poly.Mod, GF16Poly.Mod: require sizes that are positive multiples of the symbol width, with `p_sz + q_sz` at most one word plus one symbol. Larger sizes shift terms out of the word. Other sizes read bits between symbols.
- GF8.Pow, GF16.Pow: require a non-negative `int8_t` exponent, and `x != 0` unless the exponent is 0. Otherwise the index is negative and `gf*_exp` is read out of bounds. The model reduces by the full table length, `% (2 * MAX)`, which is the intended reading (see Findings).
- GF8.Div, GF16.Div: return `DivByZero` where C returns `-1`. `RS8Magnitude.QuotientWord` widens it to a word of all ones, as the `|=` in `rs8_get_errata_magnitude` does.
- RS8.Encode: requires a non-zero message after masking. For message 0, `gf8_poly_get_size` returns 0 and `gf8_poly_mod` shifts by a negative count, which C leaves undefined.
- RS8Magnitude.ErrataMagnitude: states the correction values only when the derivative vanishes at no marked root. Otherwise it says only that the word is negative, not which low bits it also holds.
- RS8Decoder.Decode: states what the decoder computes, not that the result is the transmitted codeword. Neither the uniqueness of decoding within the Singleton bound nor the minimality of the Berlekamp-Massey locator is proved.
- The error locator is computed from all `chk_syms` Forney syndromes (ReedSolomon/src/rs_gf8.c:194), while the comment at line 108 asks for `chk_syms - erasures` of them. `RS8Decoder.Decode` follows the code; the consequence is a row under Findings. Neither specification is proved to correct every mix of erasures and errors within capacity.
- The other decodes in `src/test_math.c` are not worked through. These are 030013 with two erasures, 00013 with three and 01013 with four, and the commented-out GF(8) helper calls. `RS8.Encode` is proved to return a codeword; that it returns exactly 01230013 for 0123 is not shown, only that 01230013 is a codeword (`RS8TestVectors.CodewordVanishes`).
- `rs_gf16.c`/`rs_gf16.h` are not part of this model: the GF(16) codec is an unfinished draft. The same goes for the benchmark driver (`apps/benchmark.c`), the table generators (`genRS_LUT.c`, `gen_LUTs.c`) and the stale copy of the header in `src/gf8.h`.
- Timing, I/O and the preprocessor's build configuration are not modelled.

## Findings

| source | as written | input that shows it | evidently intended | confidence | as-written member | corrected member |
|---|---|---|---|---|---|---|
| ReedSolomon/src/gf8.c:47-50 with ReedSolomon/inc/gf8.h:17 | `GF8_EXP_ENTRIES` expands to `2 * GF8_MAX` without parentheses, so `% GF8_EXP_ENTRIES` is `% 2 * 7` and the index is 0 or 7 | gf8_pow(2, 1) returns 1 | 2^1 = 2: reduce the exponent modulo 14 | not executed | GF8.PowAsWritten, GF8.PowAsWrittenCounterexample | GF8.Pow, GF8.PowIsPower |
| ReedSolomon/src/gf16.c:49-52 with ReedSolomon/include/gf16.h:17 | the same macro: `% 2 * 15` gives index 0 or 15 | gf16_pow(2, 1) returns 1 | 2^1 = 2: reduce modulo 30 | not executed | GF16.PowAsWritten, GF16.PowAsWrittenCounterexample | GF16.Pow, GF16.PowIsPower |
| ReedSolomon/src/gf8.c:66-123 with ReedSolomon/inc/gf8.h:21 | `gf8_poly` is `int32_t`. In `gf8_poly_scale` and `gf8_poly_mul` an overflow bit of the top term reaches bit 31, and the right shifts of `gf8_poly_reduce` then copy the sign into bits 29-31 | gf8_poly_scale(0x20000000, 4) and gf8_poly_mul(0x20000000, 4), that is 4 x^9 times 4: coefficient 9 comes out 2 | coefficient 9 is 4 * 4 = 6, as with an unsigned word | not executed | GF8Poly.ScaleAsWritten, GF8Poly.ScaleSignedCounterexample, GF8Poly.MulAsWritten, GF8Poly.MulSignedCounterexample | GF8Poly.Scale, GF8Poly.ScaleIsScaleBy, GF8Poly.Mul, GF8Poly.MulIsProduct |
| ReedSolomon/src/rs_gf8.c:194-197 with ReedSolomon/src/rs_gf8.c:108 | `rs8_decode` passes all `chk_syms` Forney syndromes to `rs8_get_error_locator`. The erasure part of them raises the error locator's degree, and the Singleton check then rejects a word that the erasures alone repair | recv 0071112 (0x724A), chk_syms 3, e_pos 0b11000, tx_pos 0x7F: returns -2 | Berlekamp-Massey over the `chk_syms - erasures` remaining Forney syndromes finds no error, and the erasure repair returns 0046112 (0x4C4A) | not executed | RS8ErasureCase.AsWrittenFails, RS8Decoder.ErrorPlan | RS8Decoder.IntendedErrorPlan, RS8ErasureCase.IntendedRepairs |
