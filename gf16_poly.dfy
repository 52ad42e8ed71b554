/**
  * The packed polynomials of ReedSolomon/src/gf16.c.
  *
  * A gf16_poly holds fifteen 4-bit coefficients in one 64-bit word, the
  * constant term in the least significant bits; the sixteenth slot, bits 60
  * to 63, only ever receives the overflow of the fifteenth during a product.
  * `Coeffs` reads a word as a Poly16.Poly of length 15, and every operation
  * here is proved to act on those coefficients as the matching Poly16
  * operation does.  The C type is a signed int64; the model uses 64 unsigned
  * bits, so shifts are logical and products wrap modulo 2^64.  The overflow
  * masks never select bit 63, so the right shifts of gf16_poly_reduce see a
  * non-negative value and agree with the logical ones.
  */
module GF16Poly {
  import GF16
  import Poly16

  const Terms: nat := 15                        // coefficients in a packed word
  const Limit: bv64 := 0x1000_0000_0000_0000    // words with bits 60 to 63 clear hold exactly fifteen coefficients

  const R1Overflow: bv64 := 0x1111_1111_1111_1111  // GF16_R1_OF
  const R2Overflow: bv64 := 0x3333_3333_3333_3333  // GF16_R2_OF
  const R3Overflow: bv64 := 0x7777_7777_7777_7777  // GF16_R3_OF
  const R1Keep: bv64 := 0xeeee_eeee_eeee_eeee      // GF16_R1_R0 = ~GF16_R1_OF
  const R2Keep: bv64 := 0xcccc_cccc_cccc_cccc      // GF16_R2_R0 = ~GF16_R2_OF
  const R3Keep: bv64 := 0x8888_8888_8888_8888      // GF16_R3_R0 = ~GF16_R3_OF
  const OddTerms: bv64 := 0xf0f0_f0f0_f0f0_f0f0    // GF16_ODD

  /** Coefficient-wise addition of packed words: XOR. */
  function Add(a: bv64, b: bv64): bv64
  {
    a ^ b
  }

  /** a & b: the bits set in both words. */
  function Common(a: bv64, b: bv64): bv64
  {
    a & b
  }

  /** p << GF16_SYM_SZ: multiplication by x. */
  function ShiftUp(p: bv64): bv64
  {
    p << 4
  }

  /** p >> GF16_SYM_SZ: division by x, dropping the constant term. */
  function ShiftDown(p: bv64): bv64
  {
    p >> 4
  }

  /** The low coefficient, p & GF16_MAX. */
  function Digit(p: bv64): GF16.Elem
  {
    (p & 15) as bv8
  }

  /** Coefficient k (0 <= k < 15) of a packed polynomial: bits 4k..4k+3, that is (p >> 4k) & GF16_MAX. */
  function Coeff(p: bv64, k: nat): GF16.Elem
    requires k < Terms
  {
    if k == 0 then Digit(p)
      else if k == 1 then Digit(p >> 4)
      else if k == 2 then Digit(p >> 8)
      else if k == 3 then Digit(p >> 12)
      else if k == 4 then Digit(p >> 16)
      else if k == 5 then Digit(p >> 20)
      else if k == 6 then Digit(p >> 24)
      else if k == 7 then Digit(p >> 28)
      else if k == 8 then Digit(p >> 32)
      else if k == 9 then Digit(p >> 36)
      else if k == 10 then Digit(p >> 40)
      else if k == 11 then Digit(p >> 44)
      else if k == 12 then Digit(p >> 48)
      else if k == 13 then Digit(p >> 52)
      else Digit(p >> 56)
  }

  /** The fifteen coefficients of a packed word, lowest degree first. */
  function Coeffs(p: bv64): (r: Poly16.Poly)
    ensures |r| == Terms
  {
    seq(Terms, k requires 0 <= k < Terms => Coeff(p, k))
  }

  // ---------------------------------------------------------------------
  // gf16_poly_reduce, gf16_poly_scale, gf16_poly_mul
  // ---------------------------------------------------------------------

  /** gf16_poly_reduce: folds the overflow bits back with x^4 = x + 1, x^5 = x^2 + x and x^6 = x^3 + x^2. */
  function Reduce(p: bv64, overflow: bv64): bv64
  {
    p ^ (overflow >> 3) ^ (overflow >> 4)
  }

  /**
    * The common tail of gf16_poly_scale and gf16_poly_mul: the rows r1, r2 and
    * r3 (partial products by x, x^2 and x^3 of each coefficient) are split by
    * the masks into the part that stays in its 4-bit slot and the overflow
    * into the low bits of the next slot, which Reduce folds back.
    */
  function Combine(r0: bv64, r1: bv64, r2: bv64, r3: bv64): bv64
  {
    Reduce(r0 ^ ((r1 & R1Keep) ^ (r2 & R2Keep) ^ (r3 & R3Keep)), (r1 & R1Overflow) ^ (r2 & R2Overflow) ^ (r3 & R3Overflow))
  }

  function ScaleRow0(p: bv64, x: GF16.Elem): bv64
  {
    if x & 1 != 0 then p else 0
  }

  function ScaleRow1(p: bv64, x: GF16.Elem): bv64
  {
    if x & 2 != 0 then p << 1 else 0
  }

  function ScaleRow2(p: bv64, x: GF16.Elem): bv64
  {
    if x & 4 != 0 then p << 2 else 0
  }

  function ScaleRow3(p: bv64, x: GF16.Elem): bv64
  {
    if x & 8 != 0 then p << 3 else 0
  }

  /** gf16_poly_scale: every coefficient of p multiplied by the element x. */
  function Scale(p: bv64, x: GF16.Elem): bv64
  {
    Combine(ScaleRow0(p, x), ScaleRow1(p, x), ScaleRow2(p, x), ScaleRow3(p, x))
  }

  /** The bits of the four rows that land in one 4-bit slot before reduction: a value of degree at most 6. */
  function Window(r0: bv64, r1: bv64, r2: bv64, r3: bv64): (w: bv8)
    ensures w < 128
  {
    ((r0 & 0xF) ^ (r1 & 0x1E) ^ (r2 & 0x3C) ^ (r3 & 0x78)) as bv8
  }

  /** The row-0 partial product of the constant term of q: (q & 1) ? p : 0. */
  function Select(p: bv64, q: bv64): bv64
  {
    if q & 1 != 0 then p else 0
  }

  /** One partial product (q & bit) * p of gf16_poly_mul: p shifted to the position of a set bit of q, or 0. */
  function Partial(p: bv64, q: bv64, bit: bv64): bv64
  {
    (q & bit) * p
  }

  // The four rows of gf16_poly_mul, accumulated over the six low coefficients of q in the order of the source.
  function MulRow0(p: bv64, q: bv64): bv64
  {
    Add(Add(Add(Add(Add(Select(p, q), Partial(p, q, 0x10)), Partial(p, q, 0x100)), Partial(p, q, 0x1000)), Partial(p, q, 0x10000)), Partial(p, q, 0x100000))
  }

  function MulRow1(p: bv64, q: bv64): bv64
  {
    Add(Add(Add(Add(Add(Partial(p, q, 0x2), Partial(p, q, 0x20)), Partial(p, q, 0x200)), Partial(p, q, 0x2000)), Partial(p, q, 0x20000)), Partial(p, q, 0x200000))
  }

  function MulRow2(p: bv64, q: bv64): bv64
  {
    Add(Add(Add(Add(Add(Partial(p, q, 0x4), Partial(p, q, 0x40)), Partial(p, q, 0x400)), Partial(p, q, 0x4000)), Partial(p, q, 0x40000)), Partial(p, q, 0x400000))
  }

  function MulRow3(p: bv64, q: bv64): bv64
  {
    Add(Add(Add(Add(Add(Partial(p, q, 0x8), Partial(p, q, 0x80)), Partial(p, q, 0x800)), Partial(p, q, 0x8000)), Partial(p, q, 0x80000)), Partial(p, q, 0x800000))
  }

  /** gf16_poly_mul: the product of p by the six low coefficients of q, truncated to fifteen coefficients. */
  function Mul(p: bv64, q: bv64): bv64
  {
    Combine(MulRow0(p, q), MulRow1(p, q), MulRow2(p, q), MulRow3(p, q))
  }

  /** gf16_poly_mul_q0_monic: the product of p by the seven low coefficients of q when the constant term of q is 1. */
  function MulQ0Monic(p: bv64, q: bv64): bv64
  {
    Add(p, ShiftUp(Mul(p, ShiftDown(q))))
  }

  /** gf16_poly_formal_derivative: the odd-degree coefficients moved down one place. */
  function FormalDerivative(p: bv64): bv64
  {
    ShiftDown(p & OddTerms)
  }

  // ---------------------------------------------------------------------
  // Word-level facts
  // ---------------------------------------------------------------------

  lemma AddZero(a: bv64)
    ensures Add(a, 0) == a
  {
  }

  lemma AddAssociates(a: bv64, b: bv64, c: bv64)
    ensures Add(Add(a, b), c) == Add(a, Add(b, c))
  {
  }

  lemma ShiftUpAdd(a: bv64, b: bv64)
    ensures ShiftUp(Add(a, b)) == Add(ShiftUp(a), ShiftUp(b))
  {
  }

  /**
    * A partial product with its gate written without a branch: p << n where
    * bit n of q is set, and 0 elsewhere.
    */
  function Gated(p: bv64, q: bv64, n: bv64): bv64
    requires n < 64
  {
    (p << n) & (0 - ((q >> n) & 1))
  }

  function GatedRow0(p: bv64, q: bv64): bv64
  {
    Add(Gated(p, q, 0), Add(Gated(p, q, 4), Add(Gated(p, q, 8), Add(Gated(p, q, 12), Add(Gated(p, q, 16), Gated(p, q, 20))))))
  }

  function GatedRow1(p: bv64, q: bv64): bv64
  {
    Add(Gated(p, q, 1), Add(Gated(p, q, 5), Add(Gated(p, q, 9), Add(Gated(p, q, 13), Add(Gated(p, q, 17), Gated(p, q, 21))))))
  }

  function GatedRow2(p: bv64, q: bv64): bv64
  {
    Add(Gated(p, q, 2), Add(Gated(p, q, 6), Add(Gated(p, q, 10), Add(Gated(p, q, 14), Add(Gated(p, q, 18), Gated(p, q, 22))))))
  }

  function GatedRow3(p: bv64, q: bv64): bv64
  {
    Add(Gated(p, q, 3), Add(Gated(p, q, 7), Add(Gated(p, q, 11), Add(Gated(p, q, 15), Add(Gated(p, q, 19), Gated(p, q, 23))))))
  }

  lemma GatedRowsStep(p: bv64, q: bv64)
    requires q < 0x100_0000
    ensures GatedRow0(p, q) == Add(ScaleRow0(p, Digit(q)), ShiftUp(GatedRow0(p, ShiftDown(q))))
    ensures GatedRow1(p, q) == Add(ScaleRow1(p, Digit(q)), ShiftUp(GatedRow1(p, ShiftDown(q))))
    ensures GatedRow2(p, q) == Add(ScaleRow2(p, Digit(q)), ShiftUp(GatedRow2(p, ShiftDown(q))))
    ensures GatedRow3(p, q) == Add(ScaleRow3(p, Digit(q)), ShiftUp(GatedRow3(p, ShiftDown(q))))
  {
    GatedRow0Step(p, q);
    GatedRow1Step(p, q);
    GatedRow2Step(p, q);
    GatedRow3Step(p, q);
  }

  /** gf16_poly_mul with its partial products written as gated shifts. */
  function GatedMul(p: bv64, q: bv64): bv64
  {
    Combine(GatedRow0(p, q), GatedRow1(p, q), GatedRow2(p, q), GatedRow3(p, q))
  }

  /** The rows read bits 0..23 of q only. */
  lemma GatedRowsLowDigits(p: bv64, q: bv64)
    ensures GatedRow0(p, q) == GatedRow0(p, q & 0xff_ffff)
    ensures GatedRow1(p, q) == GatedRow1(p, q & 0xff_ffff)
    ensures GatedRow2(p, q) == GatedRow2(p, q & 0xff_ffff)
    ensures GatedRow3(p, q) == GatedRow3(p, q & 0xff_ffff)
  {
    GatedLowDigitsAt0(p, q);
    GatedLowDigitsAt1(p, q);
    GatedLowDigitsAt2(p, q);
    GatedLowDigitsAt3(p, q);
    GatedLowDigitsAt4(p, q);
    GatedLowDigitsAt5(p, q);
    GatedLowDigitsAt6(p, q);
    GatedLowDigitsAt7(p, q);
    GatedLowDigitsAt8(p, q);
    GatedLowDigitsAt9(p, q);
    GatedLowDigitsAt10(p, q);
    GatedLowDigitsAt11(p, q);
    GatedLowDigitsAt12(p, q);
    GatedLowDigitsAt13(p, q);
    GatedLowDigitsAt14(p, q);
    GatedLowDigitsAt15(p, q);
    GatedLowDigitsAt16(p, q);
    GatedLowDigitsAt17(p, q);
    GatedLowDigitsAt18(p, q);
    GatedLowDigitsAt19(p, q);
    GatedLowDigitsAt20(p, q);
    GatedLowDigitsAt21(p, q);
    GatedLowDigitsAt22(p, q);
    GatedLowDigitsAt23(p, q);
  }

  lemma GatedMulOfZero(p: bv64)
    ensures GatedMul(p, 0) == 0
  {
  }

  /** 16^n: the words below Bound(n) are those whose coefficients from n up are all 0. */
  function Bound(n: nat): bv64
  {
    if n == 0 then 0x1
    else if n == 1 then 0x10
    else if n == 2 then 0x100
    else if n == 3 then 0x1000
    else if n == 4 then 0x10000
    else if n == 5 then 0x100000
    else if n == 6 then 0x1000000
    else if n == 7 then 0x10000000
    else if n == 8 then 0x100000000
    else if n == 9 then 0x1000000000
    else if n == 10 then 0x10000000000
    else if n == 11 then 0x100000000000
    else if n == 12 then 0x1000000000000
    else if n == 13 then 0x10000000000000
    else if n == 14 then 0x100000000000000
    else 0x1000000000000000
  }

  lemma BoundShift(q: bv64, n: nat)
    requires 0 < n <= 6 && q < Bound(n)
    ensures q < 0x100_0000 && ShiftDown(q) < Bound(n - 1)
  {
  }

  /** Rows built by a step have clear low bits in rows 1, 2 and 3. */
  lemma StepLowBits(p: bv64, d: GF16.Elem, r1: bv64, r2: bv64, r3: bv64, s1: bv64, s2: bv64, s3: bv64)
    requires r1 == Add(ScaleRow1(p, d), ShiftUp(s1))
    requires r2 == Add(ScaleRow2(p, d), ShiftUp(s2))
    requires r3 == Add(ScaleRow3(p, d), ShiftUp(s3))
    ensures r1 & 1 == 0 && r2 & 3 == 0 && r3 & 7 == 0
  {
  }

  /** The sum of two windows; by linearity its reduction is the sum of their reductions. */
  function WindowSum(a: bv8, b: bv8): bv8
  {
    a ^ b
  }

  lemma ReduceWindowSum(a: bv8, b: bv8)
    requires a < 128 && b < 128
    ensures WindowSum(a, b) < 128
    ensures GF16.ReduceModPrime(WindowSum(a, b)) == GF16.Add(GF16.ReduceModPrime(a), GF16.ReduceModPrime(b))
  {
    GF16.ReduceModPrimeLinear(a, b);
  }

  /** The last step of a coefficient of a product: the window of the new digit plus the window of the rest. */
  lemma WindowStepReduces(lhs: GF16.Elem, rest: GF16.Elem, a: GF16.Elem, d: GF16.Elem, w0: bv8)
    requires w0 < 128
    requires lhs == GF16.ReduceModPrime(WindowSum(GF16.CarrylessMul(a, d), w0))
    requires rest == GF16.ReduceModPrime(w0)
    ensures lhs == GF16.Add(GF16.FieldMul(a, d), rest)
  {
    ReduceWindowSum(GF16.CarrylessMul(a, d), w0);
  }

  // Coefficient-wise facts, one lemma per coefficient index.

  lemma CoeffAddAt0(a: bv64, b: bv64)
    ensures Coeff(Add(a, b), 0) == GF16.Add(Coeff(a, 0), Coeff(b, 0))
  {
  }

  lemma CoeffAddAt1(a: bv64, b: bv64)
    ensures Coeff(Add(a, b), 1) == GF16.Add(Coeff(a, 1), Coeff(b, 1))
  {
  }

  lemma CoeffAddAt2(a: bv64, b: bv64)
    ensures Coeff(Add(a, b), 2) == GF16.Add(Coeff(a, 2), Coeff(b, 2))
  {
  }

  lemma CoeffAddAt3(a: bv64, b: bv64)
    ensures Coeff(Add(a, b), 3) == GF16.Add(Coeff(a, 3), Coeff(b, 3))
  {
  }

  lemma CoeffAddAt4(a: bv64, b: bv64)
    ensures Coeff(Add(a, b), 4) == GF16.Add(Coeff(a, 4), Coeff(b, 4))
  {
  }

  lemma CoeffAddAt5(a: bv64, b: bv64)
    ensures Coeff(Add(a, b), 5) == GF16.Add(Coeff(a, 5), Coeff(b, 5))
  {
  }

  lemma CoeffAddAt6(a: bv64, b: bv64)
    ensures Coeff(Add(a, b), 6) == GF16.Add(Coeff(a, 6), Coeff(b, 6))
  {
  }

  lemma CoeffAddAt7(a: bv64, b: bv64)
    ensures Coeff(Add(a, b), 7) == GF16.Add(Coeff(a, 7), Coeff(b, 7))
  {
  }

  lemma CoeffAddAt8(a: bv64, b: bv64)
    ensures Coeff(Add(a, b), 8) == GF16.Add(Coeff(a, 8), Coeff(b, 8))
  {
  }

  lemma CoeffAddAt9(a: bv64, b: bv64)
    ensures Coeff(Add(a, b), 9) == GF16.Add(Coeff(a, 9), Coeff(b, 9))
  {
  }

  lemma CoeffAddAt10(a: bv64, b: bv64)
    ensures Coeff(Add(a, b), 10) == GF16.Add(Coeff(a, 10), Coeff(b, 10))
  {
  }

  lemma CoeffAddAt11(a: bv64, b: bv64)
    ensures Coeff(Add(a, b), 11) == GF16.Add(Coeff(a, 11), Coeff(b, 11))
  {
  }

  lemma CoeffAddAt12(a: bv64, b: bv64)
    ensures Coeff(Add(a, b), 12) == GF16.Add(Coeff(a, 12), Coeff(b, 12))
  {
  }

  lemma CoeffAddAt13(a: bv64, b: bv64)
    ensures Coeff(Add(a, b), 13) == GF16.Add(Coeff(a, 13), Coeff(b, 13))
  {
  }

  lemma CoeffAddAt14(a: bv64, b: bv64)
    ensures Coeff(Add(a, b), 14) == GF16.Add(Coeff(a, 14), Coeff(b, 14))
  {
  }

  lemma CoeffAndAt0(a: bv64, b: bv64, k: nat)
    requires k == 0
    ensures Coeff(Common(a, b), k) == Coeff(a, k) & Coeff(b, k)
  {
  }

  lemma CoeffAndAt1(a: bv64, b: bv64, k: nat)
    requires k == 1
    ensures Coeff(Common(a, b), k) == Coeff(a, k) & Coeff(b, k)
  {
  }

  lemma CoeffAndAt2(a: bv64, b: bv64, k: nat)
    requires k == 2
    ensures Coeff(Common(a, b), k) == Coeff(a, k) & Coeff(b, k)
  {
  }

  lemma CoeffAndAt3(a: bv64, b: bv64, k: nat)
    requires k == 3
    ensures Coeff(Common(a, b), k) == Coeff(a, k) & Coeff(b, k)
  {
  }

  lemma CoeffAndAt4(a: bv64, b: bv64, k: nat)
    requires k == 4
    ensures Coeff(Common(a, b), k) == Coeff(a, k) & Coeff(b, k)
  {
  }

  lemma CoeffAndAt5(a: bv64, b: bv64, k: nat)
    requires k == 5
    ensures Coeff(Common(a, b), k) == Coeff(a, k) & Coeff(b, k)
  {
  }

  lemma CoeffAndAt6(a: bv64, b: bv64, k: nat)
    requires k == 6
    ensures Coeff(Common(a, b), k) == Coeff(a, k) & Coeff(b, k)
  {
  }

  lemma CoeffAndAt7(a: bv64, b: bv64, k: nat)
    requires k == 7
    ensures Coeff(Common(a, b), k) == Coeff(a, k) & Coeff(b, k)
  {
  }

  lemma CoeffAndAt8(a: bv64, b: bv64, k: nat)
    requires k == 8
    ensures Coeff(Common(a, b), k) == Coeff(a, k) & Coeff(b, k)
  {
  }

  lemma CoeffAndAt9(a: bv64, b: bv64, k: nat)
    requires k == 9
    ensures Coeff(Common(a, b), k) == Coeff(a, k) & Coeff(b, k)
  {
  }

  lemma CoeffAndAt10(a: bv64, b: bv64, k: nat)
    requires k == 10
    ensures Coeff(Common(a, b), k) == Coeff(a, k) & Coeff(b, k)
  {
  }

  lemma CoeffAndAt11(a: bv64, b: bv64, k: nat)
    requires k == 11
    ensures Coeff(Common(a, b), k) == Coeff(a, k) & Coeff(b, k)
  {
  }

  lemma CoeffAndAt12(a: bv64, b: bv64, k: nat)
    requires k == 12
    ensures Coeff(Common(a, b), k) == Coeff(a, k) & Coeff(b, k)
  {
  }

  lemma CoeffAndAt13(a: bv64, b: bv64, k: nat)
    requires k == 13
    ensures Coeff(Common(a, b), k) == Coeff(a, k) & Coeff(b, k)
  {
  }

  lemma CoeffAndAt14(a: bv64, b: bv64, k: nat)
    requires k == 14
    ensures Coeff(Common(a, b), k) == Coeff(a, k) & Coeff(b, k)
  {
  }

  lemma CoeffShiftUpAt0(p: bv64)
    ensures Coeff(ShiftUp(p), 0) == 0
  {
  }

  lemma CoeffShiftUpAt1(p: bv64)
    ensures Coeff(ShiftUp(p), 1) == Coeff(p, 0)
  {
  }

  lemma CoeffShiftUpAt2(p: bv64)
    ensures Coeff(ShiftUp(p), 2) == Coeff(p, 1)
  {
  }

  lemma CoeffShiftUpAt3(p: bv64)
    ensures Coeff(ShiftUp(p), 3) == Coeff(p, 2)
  {
  }

  lemma CoeffShiftUpAt4(p: bv64)
    ensures Coeff(ShiftUp(p), 4) == Coeff(p, 3)
  {
  }

  lemma CoeffShiftUpAt5(p: bv64)
    ensures Coeff(ShiftUp(p), 5) == Coeff(p, 4)
  {
  }

  lemma CoeffShiftUpAt6(p: bv64)
    ensures Coeff(ShiftUp(p), 6) == Coeff(p, 5)
  {
  }

  lemma CoeffShiftUpAt7(p: bv64)
    ensures Coeff(ShiftUp(p), 7) == Coeff(p, 6)
  {
  }

  lemma CoeffShiftUpAt8(p: bv64)
    ensures Coeff(ShiftUp(p), 8) == Coeff(p, 7)
  {
  }

  lemma CoeffShiftUpAt9(p: bv64)
    ensures Coeff(ShiftUp(p), 9) == Coeff(p, 8)
  {
  }

  lemma CoeffShiftUpAt10(p: bv64)
    ensures Coeff(ShiftUp(p), 10) == Coeff(p, 9)
  {
  }

  lemma CoeffShiftUpAt11(p: bv64)
    ensures Coeff(ShiftUp(p), 11) == Coeff(p, 10)
  {
  }

  lemma CoeffShiftUpAt12(p: bv64)
    ensures Coeff(ShiftUp(p), 12) == Coeff(p, 11)
  {
  }

  lemma CoeffShiftUpAt13(p: bv64)
    ensures Coeff(ShiftUp(p), 13) == Coeff(p, 12)
  {
  }

  lemma CoeffShiftUpAt14(p: bv64)
    ensures Coeff(ShiftUp(p), 14) == Coeff(p, 13)
  {
  }

  lemma CoeffShiftDownAt0(p: bv64)
    ensures Coeff(ShiftDown(p), 0) == Coeff(p, 1)
  {
  }

  lemma CoeffShiftDownAt1(p: bv64)
    ensures Coeff(ShiftDown(p), 1) == Coeff(p, 2)
  {
  }

  lemma CoeffShiftDownAt2(p: bv64)
    ensures Coeff(ShiftDown(p), 2) == Coeff(p, 3)
  {
  }

  lemma CoeffShiftDownAt3(p: bv64)
    ensures Coeff(ShiftDown(p), 3) == Coeff(p, 4)
  {
  }

  lemma CoeffShiftDownAt4(p: bv64)
    ensures Coeff(ShiftDown(p), 4) == Coeff(p, 5)
  {
  }

  lemma CoeffShiftDownAt5(p: bv64)
    ensures Coeff(ShiftDown(p), 5) == Coeff(p, 6)
  {
  }

  lemma CoeffShiftDownAt6(p: bv64)
    ensures Coeff(ShiftDown(p), 6) == Coeff(p, 7)
  {
  }

  lemma CoeffShiftDownAt7(p: bv64)
    ensures Coeff(ShiftDown(p), 7) == Coeff(p, 8)
  {
  }

  lemma CoeffShiftDownAt8(p: bv64)
    ensures Coeff(ShiftDown(p), 8) == Coeff(p, 9)
  {
  }

  lemma CoeffShiftDownAt9(p: bv64)
    ensures Coeff(ShiftDown(p), 9) == Coeff(p, 10)
  {
  }

  lemma CoeffShiftDownAt10(p: bv64)
    ensures Coeff(ShiftDown(p), 10) == Coeff(p, 11)
  {
  }

  lemma CoeffShiftDownAt11(p: bv64)
    ensures Coeff(ShiftDown(p), 11) == Coeff(p, 12)
  {
  }

  lemma CoeffShiftDownAt12(p: bv64)
    ensures Coeff(ShiftDown(p), 12) == Coeff(p, 13)
  {
  }

  lemma CoeffShiftDownAt13(p: bv64)
    ensures Coeff(ShiftDown(p), 13) == Coeff(p, 14)
  {
  }

  lemma CoeffShiftDownAt14(p: bv64)
    requires p < Limit
    ensures Coeff(ShiftDown(p), 14) == 0
  {
  }

  lemma CombineCoeffAt0(r0: bv64, r1: bv64, r2: bv64, r3: bv64)
    ensures Coeff(Combine(r0, r1, r2, r3), 0) == GF16.ReduceModPrime(Window(r0, r1, r2, r3))
  {
  }

  lemma CombineCoeffAt1(r0: bv64, r1: bv64, r2: bv64, r3: bv64)
    ensures Coeff(Combine(r0, r1, r2, r3), 1) == GF16.ReduceModPrime(Window(r0 >> 4, r1 >> 4, r2 >> 4, r3 >> 4))
  {
  }

  lemma CombineCoeffAt2(r0: bv64, r1: bv64, r2: bv64, r3: bv64)
    ensures Coeff(Combine(r0, r1, r2, r3), 2) == GF16.ReduceModPrime(Window(r0 >> 8, r1 >> 8, r2 >> 8, r3 >> 8))
  {
  }

  lemma CombineCoeffAt3(r0: bv64, r1: bv64, r2: bv64, r3: bv64)
    ensures Coeff(Combine(r0, r1, r2, r3), 3) == GF16.ReduceModPrime(Window(r0 >> 12, r1 >> 12, r2 >> 12, r3 >> 12))
  {
  }

  lemma CombineCoeffAt4(r0: bv64, r1: bv64, r2: bv64, r3: bv64)
    ensures Coeff(Combine(r0, r1, r2, r3), 4) == GF16.ReduceModPrime(Window(r0 >> 16, r1 >> 16, r2 >> 16, r3 >> 16))
  {
  }

  lemma CombineCoeffAt5(r0: bv64, r1: bv64, r2: bv64, r3: bv64)
    ensures Coeff(Combine(r0, r1, r2, r3), 5) == GF16.ReduceModPrime(Window(r0 >> 20, r1 >> 20, r2 >> 20, r3 >> 20))
  {
  }

  lemma CombineCoeffAt6(r0: bv64, r1: bv64, r2: bv64, r3: bv64)
    ensures Coeff(Combine(r0, r1, r2, r3), 6) == GF16.ReduceModPrime(Window(r0 >> 24, r1 >> 24, r2 >> 24, r3 >> 24))
  {
  }

  lemma CombineCoeffAt7(r0: bv64, r1: bv64, r2: bv64, r3: bv64)
    ensures Coeff(Combine(r0, r1, r2, r3), 7) == GF16.ReduceModPrime(Window(r0 >> 28, r1 >> 28, r2 >> 28, r3 >> 28))
  {
  }

  lemma CombineCoeffAt8(r0: bv64, r1: bv64, r2: bv64, r3: bv64)
    ensures Coeff(Combine(r0, r1, r2, r3), 8) == GF16.ReduceModPrime(Window(r0 >> 32, r1 >> 32, r2 >> 32, r3 >> 32))
  {
  }

  lemma CombineCoeffAt9(r0: bv64, r1: bv64, r2: bv64, r3: bv64)
    ensures Coeff(Combine(r0, r1, r2, r3), 9) == GF16.ReduceModPrime(Window(r0 >> 36, r1 >> 36, r2 >> 36, r3 >> 36))
  {
  }

  lemma CombineCoeffAt10(r0: bv64, r1: bv64, r2: bv64, r3: bv64)
    ensures Coeff(Combine(r0, r1, r2, r3), 10) == GF16.ReduceModPrime(Window(r0 >> 40, r1 >> 40, r2 >> 40, r3 >> 40))
  {
  }

  lemma CombineCoeffAt11(r0: bv64, r1: bv64, r2: bv64, r3: bv64)
    ensures Coeff(Combine(r0, r1, r2, r3), 11) == GF16.ReduceModPrime(Window(r0 >> 44, r1 >> 44, r2 >> 44, r3 >> 44))
  {
  }

  lemma CombineCoeffAt12(r0: bv64, r1: bv64, r2: bv64, r3: bv64)
    ensures Coeff(Combine(r0, r1, r2, r3), 12) == GF16.ReduceModPrime(Window(r0 >> 48, r1 >> 48, r2 >> 48, r3 >> 48))
  {
  }

  lemma CombineCoeffAt13(r0: bv64, r1: bv64, r2: bv64, r3: bv64)
    ensures Coeff(Combine(r0, r1, r2, r3), 13) == GF16.ReduceModPrime(Window(r0 >> 52, r1 >> 52, r2 >> 52, r3 >> 52))
  {
  }

  lemma CombineCoeffAt14(r0: bv64, r1: bv64, r2: bv64, r3: bv64)
    ensures Coeff(Combine(r0, r1, r2, r3), 14) == GF16.ReduceModPrime(Window(r0 >> 56, r1 >> 56, r2 >> 56, r3 >> 56))
  {
  }

  lemma WindowStepAt0(a0: bv64, a1: bv64, a2: bv64, a3: bv64, b0: bv64, b1: bv64, b2: bv64, b3: bv64)
    requires b1 & 1 == 0 && b2 & 3 == 0 && b3 & 7 == 0
    ensures Window(Add(a0, ShiftUp(b0)), Add(a1, ShiftUp(b1)), Add(a2, ShiftUp(b2)), Add(a3, ShiftUp(b3))) == Window(a0, a1, a2, a3)
  {
  }

  lemma WindowStepAt1(a0: bv64, a1: bv64, a2: bv64, a3: bv64, b0: bv64, b1: bv64, b2: bv64, b3: bv64)
    ensures Window(Add(a0, ShiftUp(b0)) >> 4, Add(a1, ShiftUp(b1)) >> 4, Add(a2, ShiftUp(b2)) >> 4, Add(a3, ShiftUp(b3)) >> 4)
         == WindowSum(Window(a0 >> 4, a1 >> 4, a2 >> 4, a3 >> 4), Window(b0, b1, b2, b3))
  {
  }

  lemma WindowStepAt2(a0: bv64, a1: bv64, a2: bv64, a3: bv64, b0: bv64, b1: bv64, b2: bv64, b3: bv64)
    ensures Window(Add(a0, ShiftUp(b0)) >> 8, Add(a1, ShiftUp(b1)) >> 8, Add(a2, ShiftUp(b2)) >> 8, Add(a3, ShiftUp(b3)) >> 8)
         == WindowSum(Window(a0 >> 8, a1 >> 8, a2 >> 8, a3 >> 8), Window(b0 >> 4, b1 >> 4, b2 >> 4, b3 >> 4))
  {
  }

  lemma WindowStepAt3(a0: bv64, a1: bv64, a2: bv64, a3: bv64, b0: bv64, b1: bv64, b2: bv64, b3: bv64)
    ensures Window(Add(a0, ShiftUp(b0)) >> 12, Add(a1, ShiftUp(b1)) >> 12, Add(a2, ShiftUp(b2)) >> 12, Add(a3, ShiftUp(b3)) >> 12)
         == WindowSum(Window(a0 >> 12, a1 >> 12, a2 >> 12, a3 >> 12), Window(b0 >> 8, b1 >> 8, b2 >> 8, b3 >> 8))
  {
  }

  lemma WindowStepAt4(a0: bv64, a1: bv64, a2: bv64, a3: bv64, b0: bv64, b1: bv64, b2: bv64, b3: bv64)
    ensures Window(Add(a0, ShiftUp(b0)) >> 16, Add(a1, ShiftUp(b1)) >> 16, Add(a2, ShiftUp(b2)) >> 16, Add(a3, ShiftUp(b3)) >> 16)
         == WindowSum(Window(a0 >> 16, a1 >> 16, a2 >> 16, a3 >> 16), Window(b0 >> 12, b1 >> 12, b2 >> 12, b3 >> 12))
  {
  }

  lemma WindowStepAt5(a0: bv64, a1: bv64, a2: bv64, a3: bv64, b0: bv64, b1: bv64, b2: bv64, b3: bv64)
    ensures Window(Add(a0, ShiftUp(b0)) >> 20, Add(a1, ShiftUp(b1)) >> 20, Add(a2, ShiftUp(b2)) >> 20, Add(a3, ShiftUp(b3)) >> 20)
         == WindowSum(Window(a0 >> 20, a1 >> 20, a2 >> 20, a3 >> 20), Window(b0 >> 16, b1 >> 16, b2 >> 16, b3 >> 16))
  {
  }

  lemma WindowStepAt6(a0: bv64, a1: bv64, a2: bv64, a3: bv64, b0: bv64, b1: bv64, b2: bv64, b3: bv64)
    ensures Window(Add(a0, ShiftUp(b0)) >> 24, Add(a1, ShiftUp(b1)) >> 24, Add(a2, ShiftUp(b2)) >> 24, Add(a3, ShiftUp(b3)) >> 24)
         == WindowSum(Window(a0 >> 24, a1 >> 24, a2 >> 24, a3 >> 24), Window(b0 >> 20, b1 >> 20, b2 >> 20, b3 >> 20))
  {
  }

  lemma WindowStepAt7(a0: bv64, a1: bv64, a2: bv64, a3: bv64, b0: bv64, b1: bv64, b2: bv64, b3: bv64)
    ensures Window(Add(a0, ShiftUp(b0)) >> 28, Add(a1, ShiftUp(b1)) >> 28, Add(a2, ShiftUp(b2)) >> 28, Add(a3, ShiftUp(b3)) >> 28)
         == WindowSum(Window(a0 >> 28, a1 >> 28, a2 >> 28, a3 >> 28), Window(b0 >> 24, b1 >> 24, b2 >> 24, b3 >> 24))
  {
  }

  lemma WindowStepAt8(a0: bv64, a1: bv64, a2: bv64, a3: bv64, b0: bv64, b1: bv64, b2: bv64, b3: bv64)
    ensures Window(Add(a0, ShiftUp(b0)) >> 32, Add(a1, ShiftUp(b1)) >> 32, Add(a2, ShiftUp(b2)) >> 32, Add(a3, ShiftUp(b3)) >> 32)
         == WindowSum(Window(a0 >> 32, a1 >> 32, a2 >> 32, a3 >> 32), Window(b0 >> 28, b1 >> 28, b2 >> 28, b3 >> 28))
  {
  }

  lemma WindowStepAt9(a0: bv64, a1: bv64, a2: bv64, a3: bv64, b0: bv64, b1: bv64, b2: bv64, b3: bv64)
    ensures Window(Add(a0, ShiftUp(b0)) >> 36, Add(a1, ShiftUp(b1)) >> 36, Add(a2, ShiftUp(b2)) >> 36, Add(a3, ShiftUp(b3)) >> 36)
         == WindowSum(Window(a0 >> 36, a1 >> 36, a2 >> 36, a3 >> 36), Window(b0 >> 32, b1 >> 32, b2 >> 32, b3 >> 32))
  {
  }

  lemma WindowStepAt10(a0: bv64, a1: bv64, a2: bv64, a3: bv64, b0: bv64, b1: bv64, b2: bv64, b3: bv64)
    ensures Window(Add(a0, ShiftUp(b0)) >> 40, Add(a1, ShiftUp(b1)) >> 40, Add(a2, ShiftUp(b2)) >> 40, Add(a3, ShiftUp(b3)) >> 40)
         == WindowSum(Window(a0 >> 40, a1 >> 40, a2 >> 40, a3 >> 40), Window(b0 >> 36, b1 >> 36, b2 >> 36, b3 >> 36))
  {
  }

  lemma WindowStepAt11(a0: bv64, a1: bv64, a2: bv64, a3: bv64, b0: bv64, b1: bv64, b2: bv64, b3: bv64)
    ensures Window(Add(a0, ShiftUp(b0)) >> 44, Add(a1, ShiftUp(b1)) >> 44, Add(a2, ShiftUp(b2)) >> 44, Add(a3, ShiftUp(b3)) >> 44)
         == WindowSum(Window(a0 >> 44, a1 >> 44, a2 >> 44, a3 >> 44), Window(b0 >> 40, b1 >> 40, b2 >> 40, b3 >> 40))
  {
  }

  lemma WindowStepAt12(a0: bv64, a1: bv64, a2: bv64, a3: bv64, b0: bv64, b1: bv64, b2: bv64, b3: bv64)
    ensures Window(Add(a0, ShiftUp(b0)) >> 48, Add(a1, ShiftUp(b1)) >> 48, Add(a2, ShiftUp(b2)) >> 48, Add(a3, ShiftUp(b3)) >> 48)
         == WindowSum(Window(a0 >> 48, a1 >> 48, a2 >> 48, a3 >> 48), Window(b0 >> 44, b1 >> 44, b2 >> 44, b3 >> 44))
  {
  }

  lemma WindowStepAt13(a0: bv64, a1: bv64, a2: bv64, a3: bv64, b0: bv64, b1: bv64, b2: bv64, b3: bv64)
    ensures Window(Add(a0, ShiftUp(b0)) >> 52, Add(a1, ShiftUp(b1)) >> 52, Add(a2, ShiftUp(b2)) >> 52, Add(a3, ShiftUp(b3)) >> 52)
         == WindowSum(Window(a0 >> 52, a1 >> 52, a2 >> 52, a3 >> 52), Window(b0 >> 48, b1 >> 48, b2 >> 48, b3 >> 48))
  {
  }

  lemma WindowStepAt14(a0: bv64, a1: bv64, a2: bv64, a3: bv64, b0: bv64, b1: bv64, b2: bv64, b3: bv64)
    ensures Window(Add(a0, ShiftUp(b0)) >> 56, Add(a1, ShiftUp(b1)) >> 56, Add(a2, ShiftUp(b2)) >> 56, Add(a3, ShiftUp(b3)) >> 56)
         == WindowSum(Window(a0 >> 56, a1 >> 56, a2 >> 56, a3 >> 56), Window(b0 >> 52, b1 >> 52, b2 >> 52, b3 >> 52))
  {
  }

  lemma ScaleWindowAt0(p: bv64, x: GF16.Elem)
    ensures Window(ScaleRow0(p, x), ScaleRow1(p, x), ScaleRow2(p, x), ScaleRow3(p, x)) == GF16.CarrylessMul(Coeff(p, 0), x)
  {
  }

  lemma ScaleWindowAt1(p: bv64, x: GF16.Elem)
    ensures Window(ScaleRow0(p, x) >> 4, ScaleRow1(p, x) >> 4, ScaleRow2(p, x) >> 4, ScaleRow3(p, x) >> 4) == GF16.CarrylessMul(Coeff(p, 1), x)
  {
  }

  lemma ScaleWindowAt2(p: bv64, x: GF16.Elem)
    ensures Window(ScaleRow0(p, x) >> 8, ScaleRow1(p, x) >> 8, ScaleRow2(p, x) >> 8, ScaleRow3(p, x) >> 8) == GF16.CarrylessMul(Coeff(p, 2), x)
  {
  }

  lemma ScaleWindowAt3(p: bv64, x: GF16.Elem)
    ensures Window(ScaleRow0(p, x) >> 12, ScaleRow1(p, x) >> 12, ScaleRow2(p, x) >> 12, ScaleRow3(p, x) >> 12) == GF16.CarrylessMul(Coeff(p, 3), x)
  {
  }

  lemma ScaleWindowAt4(p: bv64, x: GF16.Elem)
    ensures Window(ScaleRow0(p, x) >> 16, ScaleRow1(p, x) >> 16, ScaleRow2(p, x) >> 16, ScaleRow3(p, x) >> 16) == GF16.CarrylessMul(Coeff(p, 4), x)
  {
  }

  lemma ScaleWindowAt5(p: bv64, x: GF16.Elem)
    ensures Window(ScaleRow0(p, x) >> 20, ScaleRow1(p, x) >> 20, ScaleRow2(p, x) >> 20, ScaleRow3(p, x) >> 20) == GF16.CarrylessMul(Coeff(p, 5), x)
  {
  }

  lemma ScaleWindowAt6(p: bv64, x: GF16.Elem)
    ensures Window(ScaleRow0(p, x) >> 24, ScaleRow1(p, x) >> 24, ScaleRow2(p, x) >> 24, ScaleRow3(p, x) >> 24) == GF16.CarrylessMul(Coeff(p, 6), x)
  {
  }

  lemma ScaleWindowAt7(p: bv64, x: GF16.Elem)
    ensures Window(ScaleRow0(p, x) >> 28, ScaleRow1(p, x) >> 28, ScaleRow2(p, x) >> 28, ScaleRow3(p, x) >> 28) == GF16.CarrylessMul(Coeff(p, 7), x)
  {
  }

  lemma ScaleWindowAt8(p: bv64, x: GF16.Elem)
    ensures Window(ScaleRow0(p, x) >> 32, ScaleRow1(p, x) >> 32, ScaleRow2(p, x) >> 32, ScaleRow3(p, x) >> 32) == GF16.CarrylessMul(Coeff(p, 8), x)
  {
  }

  lemma ScaleWindowAt9(p: bv64, x: GF16.Elem)
    ensures Window(ScaleRow0(p, x) >> 36, ScaleRow1(p, x) >> 36, ScaleRow2(p, x) >> 36, ScaleRow3(p, x) >> 36) == GF16.CarrylessMul(Coeff(p, 9), x)
  {
  }

  lemma ScaleWindowAt10(p: bv64, x: GF16.Elem)
    ensures Window(ScaleRow0(p, x) >> 40, ScaleRow1(p, x) >> 40, ScaleRow2(p, x) >> 40, ScaleRow3(p, x) >> 40) == GF16.CarrylessMul(Coeff(p, 10), x)
  {
  }

  lemma ScaleWindowAt11(p: bv64, x: GF16.Elem)
    ensures Window(ScaleRow0(p, x) >> 44, ScaleRow1(p, x) >> 44, ScaleRow2(p, x) >> 44, ScaleRow3(p, x) >> 44) == GF16.CarrylessMul(Coeff(p, 11), x)
  {
  }

  lemma ScaleWindowAt12(p: bv64, x: GF16.Elem)
    ensures Window(ScaleRow0(p, x) >> 48, ScaleRow1(p, x) >> 48, ScaleRow2(p, x) >> 48, ScaleRow3(p, x) >> 48) == GF16.CarrylessMul(Coeff(p, 12), x)
  {
  }

  lemma ScaleWindowAt13(p: bv64, x: GF16.Elem)
    ensures Window(ScaleRow0(p, x) >> 52, ScaleRow1(p, x) >> 52, ScaleRow2(p, x) >> 52, ScaleRow3(p, x) >> 52) == GF16.CarrylessMul(Coeff(p, 13), x)
  {
  }

  lemma ScaleWindowAt14(p: bv64, x: GF16.Elem)
    ensures Window(ScaleRow0(p, x) >> 56, ScaleRow1(p, x) >> 56, ScaleRow2(p, x) >> 56, ScaleRow3(p, x) >> 56) == GF16.CarrylessMul(Coeff(p, 14), x)
  {
  }

  lemma ScaleCoeffAt0(p: bv64, x: GF16.Elem)
    ensures Coeff(Scale(p, x), 0) == GF16.FieldMul(Coeff(p, 0), x)
  {
    CombineCoeffAt0(ScaleRow0(p, x), ScaleRow1(p, x), ScaleRow2(p, x), ScaleRow3(p, x));
    ScaleWindowAt0(p, x);
  }

  lemma ScaleCoeffAt1(p: bv64, x: GF16.Elem)
    ensures Coeff(Scale(p, x), 1) == GF16.FieldMul(Coeff(p, 1), x)
  {
    CombineCoeffAt1(ScaleRow0(p, x), ScaleRow1(p, x), ScaleRow2(p, x), ScaleRow3(p, x));
    ScaleWindowAt1(p, x);
  }

  lemma ScaleCoeffAt2(p: bv64, x: GF16.Elem)
    ensures Coeff(Scale(p, x), 2) == GF16.FieldMul(Coeff(p, 2), x)
  {
    CombineCoeffAt2(ScaleRow0(p, x), ScaleRow1(p, x), ScaleRow2(p, x), ScaleRow3(p, x));
    ScaleWindowAt2(p, x);
  }

  lemma ScaleCoeffAt3(p: bv64, x: GF16.Elem)
    ensures Coeff(Scale(p, x), 3) == GF16.FieldMul(Coeff(p, 3), x)
  {
    CombineCoeffAt3(ScaleRow0(p, x), ScaleRow1(p, x), ScaleRow2(p, x), ScaleRow3(p, x));
    ScaleWindowAt3(p, x);
  }

  lemma ScaleCoeffAt4(p: bv64, x: GF16.Elem)
    ensures Coeff(Scale(p, x), 4) == GF16.FieldMul(Coeff(p, 4), x)
  {
    CombineCoeffAt4(ScaleRow0(p, x), ScaleRow1(p, x), ScaleRow2(p, x), ScaleRow3(p, x));
    ScaleWindowAt4(p, x);
  }

  lemma ScaleCoeffAt5(p: bv64, x: GF16.Elem)
    ensures Coeff(Scale(p, x), 5) == GF16.FieldMul(Coeff(p, 5), x)
  {
    CombineCoeffAt5(ScaleRow0(p, x), ScaleRow1(p, x), ScaleRow2(p, x), ScaleRow3(p, x));
    ScaleWindowAt5(p, x);
  }

  lemma ScaleCoeffAt6(p: bv64, x: GF16.Elem)
    ensures Coeff(Scale(p, x), 6) == GF16.FieldMul(Coeff(p, 6), x)
  {
    CombineCoeffAt6(ScaleRow0(p, x), ScaleRow1(p, x), ScaleRow2(p, x), ScaleRow3(p, x));
    ScaleWindowAt6(p, x);
  }

  lemma ScaleCoeffAt7(p: bv64, x: GF16.Elem)
    ensures Coeff(Scale(p, x), 7) == GF16.FieldMul(Coeff(p, 7), x)
  {
    CombineCoeffAt7(ScaleRow0(p, x), ScaleRow1(p, x), ScaleRow2(p, x), ScaleRow3(p, x));
    ScaleWindowAt7(p, x);
  }

  lemma ScaleCoeffAt8(p: bv64, x: GF16.Elem)
    ensures Coeff(Scale(p, x), 8) == GF16.FieldMul(Coeff(p, 8), x)
  {
    CombineCoeffAt8(ScaleRow0(p, x), ScaleRow1(p, x), ScaleRow2(p, x), ScaleRow3(p, x));
    ScaleWindowAt8(p, x);
  }

  lemma ScaleCoeffAt9(p: bv64, x: GF16.Elem)
    ensures Coeff(Scale(p, x), 9) == GF16.FieldMul(Coeff(p, 9), x)
  {
    CombineCoeffAt9(ScaleRow0(p, x), ScaleRow1(p, x), ScaleRow2(p, x), ScaleRow3(p, x));
    ScaleWindowAt9(p, x);
  }

  lemma ScaleCoeffAt10(p: bv64, x: GF16.Elem)
    ensures Coeff(Scale(p, x), 10) == GF16.FieldMul(Coeff(p, 10), x)
  {
    CombineCoeffAt10(ScaleRow0(p, x), ScaleRow1(p, x), ScaleRow2(p, x), ScaleRow3(p, x));
    ScaleWindowAt10(p, x);
  }

  lemma ScaleCoeffAt11(p: bv64, x: GF16.Elem)
    ensures Coeff(Scale(p, x), 11) == GF16.FieldMul(Coeff(p, 11), x)
  {
    CombineCoeffAt11(ScaleRow0(p, x), ScaleRow1(p, x), ScaleRow2(p, x), ScaleRow3(p, x));
    ScaleWindowAt11(p, x);
  }

  lemma ScaleCoeffAt12(p: bv64, x: GF16.Elem)
    ensures Coeff(Scale(p, x), 12) == GF16.FieldMul(Coeff(p, 12), x)
  {
    CombineCoeffAt12(ScaleRow0(p, x), ScaleRow1(p, x), ScaleRow2(p, x), ScaleRow3(p, x));
    ScaleWindowAt12(p, x);
  }

  lemma ScaleCoeffAt13(p: bv64, x: GF16.Elem)
    ensures Coeff(Scale(p, x), 13) == GF16.FieldMul(Coeff(p, 13), x)
  {
    CombineCoeffAt13(ScaleRow0(p, x), ScaleRow1(p, x), ScaleRow2(p, x), ScaleRow3(p, x));
    ScaleWindowAt13(p, x);
  }

  lemma ScaleCoeffAt14(p: bv64, x: GF16.Elem)
    ensures Coeff(Scale(p, x), 14) == GF16.FieldMul(Coeff(p, 14), x)
  {
    CombineCoeffAt14(ScaleRow0(p, x), ScaleRow1(p, x), ScaleRow2(p, x), ScaleRow3(p, x));
    ScaleWindowAt14(p, x);
  }

  lemma SelectIsGated(p: bv64, q: bv64)
    ensures Select(p, q) == Gated(p, q, 0)
  {
  }

  lemma PartialIsGatedAt1(p: bv64, q: bv64)
    ensures Partial(p, q, 0x2) == Gated(p, q, 1)
  {
  }

  lemma PartialIsGatedAt2(p: bv64, q: bv64)
    ensures Partial(p, q, 0x4) == Gated(p, q, 2)
  {
  }

  lemma PartialIsGatedAt3(p: bv64, q: bv64)
    ensures Partial(p, q, 0x8) == Gated(p, q, 3)
  {
  }

  lemma PartialIsGatedAt4(p: bv64, q: bv64)
    ensures Partial(p, q, 0x10) == Gated(p, q, 4)
  {
  }

  lemma PartialIsGatedAt5(p: bv64, q: bv64)
    ensures Partial(p, q, 0x20) == Gated(p, q, 5)
  {
  }

  lemma PartialIsGatedAt6(p: bv64, q: bv64)
    ensures Partial(p, q, 0x40) == Gated(p, q, 6)
  {
  }

  lemma PartialIsGatedAt7(p: bv64, q: bv64)
    ensures Partial(p, q, 0x80) == Gated(p, q, 7)
  {
  }

  lemma PartialIsGatedAt8(p: bv64, q: bv64)
    ensures Partial(p, q, 0x100) == Gated(p, q, 8)
  {
  }

  lemma PartialIsGatedAt9(p: bv64, q: bv64)
    ensures Partial(p, q, 0x200) == Gated(p, q, 9)
  {
  }

  lemma PartialIsGatedAt10(p: bv64, q: bv64)
    ensures Partial(p, q, 0x400) == Gated(p, q, 10)
  {
  }

  lemma PartialIsGatedAt11(p: bv64, q: bv64)
    ensures Partial(p, q, 0x800) == Gated(p, q, 11)
  {
  }

  lemma PartialIsGatedAt12(p: bv64, q: bv64)
    ensures Partial(p, q, 0x1000) == Gated(p, q, 12)
  {
  }

  lemma PartialIsGatedAt13(p: bv64, q: bv64)
    ensures Partial(p, q, 0x2000) == Gated(p, q, 13)
  {
  }

  lemma PartialIsGatedAt14(p: bv64, q: bv64)
    ensures Partial(p, q, 0x4000) == Gated(p, q, 14)
  {
  }

  lemma PartialIsGatedAt15(p: bv64, q: bv64)
    ensures Partial(p, q, 0x8000) == Gated(p, q, 15)
  {
  }

  lemma PartialIsGatedAt16(p: bv64, q: bv64)
    ensures Partial(p, q, 0x10000) == Gated(p, q, 16)
  {
  }

  lemma PartialIsGatedAt17(p: bv64, q: bv64)
    ensures Partial(p, q, 0x20000) == Gated(p, q, 17)
  {
  }

  lemma PartialIsGatedAt18(p: bv64, q: bv64)
    ensures Partial(p, q, 0x40000) == Gated(p, q, 18)
  {
  }

  lemma PartialIsGatedAt19(p: bv64, q: bv64)
    ensures Partial(p, q, 0x80000) == Gated(p, q, 19)
  {
  }

  lemma PartialIsGatedAt20(p: bv64, q: bv64)
    ensures Partial(p, q, 0x100000) == Gated(p, q, 20)
  {
  }

  lemma PartialIsGatedAt21(p: bv64, q: bv64)
    ensures Partial(p, q, 0x200000) == Gated(p, q, 21)
  {
  }

  lemma PartialIsGatedAt22(p: bv64, q: bv64)
    ensures Partial(p, q, 0x400000) == Gated(p, q, 22)
  {
  }

  lemma PartialIsGatedAt23(p: bv64, q: bv64)
    ensures Partial(p, q, 0x800000) == Gated(p, q, 23)
  {
  }

  lemma GatedShiftAt0(p: bv64, q: bv64)
    ensures Gated(p, q, 4) == ShiftUp(Gated(p, ShiftDown(q), 0))
  {
  }

  lemma GatedShiftAt1(p: bv64, q: bv64)
    ensures Gated(p, q, 5) == ShiftUp(Gated(p, ShiftDown(q), 1))
  {
  }

  lemma GatedShiftAt2(p: bv64, q: bv64)
    ensures Gated(p, q, 6) == ShiftUp(Gated(p, ShiftDown(q), 2))
  {
  }

  lemma GatedShiftAt3(p: bv64, q: bv64)
    ensures Gated(p, q, 7) == ShiftUp(Gated(p, ShiftDown(q), 3))
  {
  }

  lemma GatedShiftAt4(p: bv64, q: bv64)
    ensures Gated(p, q, 8) == ShiftUp(Gated(p, ShiftDown(q), 4))
  {
  }

  lemma GatedShiftAt5(p: bv64, q: bv64)
    ensures Gated(p, q, 9) == ShiftUp(Gated(p, ShiftDown(q), 5))
  {
  }

  lemma GatedShiftAt6(p: bv64, q: bv64)
    ensures Gated(p, q, 10) == ShiftUp(Gated(p, ShiftDown(q), 6))
  {
  }

  lemma GatedShiftAt7(p: bv64, q: bv64)
    ensures Gated(p, q, 11) == ShiftUp(Gated(p, ShiftDown(q), 7))
  {
  }

  lemma GatedShiftAt8(p: bv64, q: bv64)
    ensures Gated(p, q, 12) == ShiftUp(Gated(p, ShiftDown(q), 8))
  {
  }

  lemma GatedShiftAt9(p: bv64, q: bv64)
    ensures Gated(p, q, 13) == ShiftUp(Gated(p, ShiftDown(q), 9))
  {
  }

  lemma GatedShiftAt10(p: bv64, q: bv64)
    ensures Gated(p, q, 14) == ShiftUp(Gated(p, ShiftDown(q), 10))
  {
  }

  lemma GatedShiftAt11(p: bv64, q: bv64)
    ensures Gated(p, q, 15) == ShiftUp(Gated(p, ShiftDown(q), 11))
  {
  }

  lemma GatedShiftAt12(p: bv64, q: bv64)
    ensures Gated(p, q, 16) == ShiftUp(Gated(p, ShiftDown(q), 12))
  {
  }

  lemma GatedShiftAt13(p: bv64, q: bv64)
    ensures Gated(p, q, 17) == ShiftUp(Gated(p, ShiftDown(q), 13))
  {
  }

  lemma GatedShiftAt14(p: bv64, q: bv64)
    ensures Gated(p, q, 18) == ShiftUp(Gated(p, ShiftDown(q), 14))
  {
  }

  lemma GatedShiftAt15(p: bv64, q: bv64)
    ensures Gated(p, q, 19) == ShiftUp(Gated(p, ShiftDown(q), 15))
  {
  }

  lemma GatedShiftAt16(p: bv64, q: bv64)
    ensures Gated(p, q, 20) == ShiftUp(Gated(p, ShiftDown(q), 16))
  {
  }

  lemma GatedShiftAt17(p: bv64, q: bv64)
    ensures Gated(p, q, 21) == ShiftUp(Gated(p, ShiftDown(q), 17))
  {
  }

  lemma GatedShiftAt18(p: bv64, q: bv64)
    ensures Gated(p, q, 22) == ShiftUp(Gated(p, ShiftDown(q), 18))
  {
  }

  lemma GatedShiftAt19(p: bv64, q: bv64)
    ensures Gated(p, q, 23) == ShiftUp(Gated(p, ShiftDown(q), 19))
  {
  }

  lemma GatedTopAt20(p: bv64, q: bv64)
    requires q < 0x100_0000
    ensures ShiftUp(Gated(p, ShiftDown(q), 20)) == 0
  {
  }

  lemma GatedTopAt21(p: bv64, q: bv64)
    requires q < 0x100_0000
    ensures ShiftUp(Gated(p, ShiftDown(q), 21)) == 0
  {
  }

  lemma GatedTopAt22(p: bv64, q: bv64)
    requires q < 0x100_0000
    ensures ShiftUp(Gated(p, ShiftDown(q), 22)) == 0
  {
  }

  lemma GatedTopAt23(p: bv64, q: bv64)
    requires q < 0x100_0000
    ensures ShiftUp(Gated(p, ShiftDown(q), 23)) == 0
  {
  }

  lemma ScaleRow0IsGated(p: bv64, q: bv64)
    ensures ScaleRow0(p, Digit(q)) == Gated(p, q, 0)
  {
  }

  lemma ScaleRow1IsGated(p: bv64, q: bv64)
    ensures ScaleRow1(p, Digit(q)) == Gated(p, q, 1)
  {
  }

  lemma ScaleRow2IsGated(p: bv64, q: bv64)
    ensures ScaleRow2(p, Digit(q)) == Gated(p, q, 2)
  {
  }

  lemma ScaleRow3IsGated(p: bv64, q: bv64)
    ensures ScaleRow3(p, Digit(q)) == Gated(p, q, 3)
  {
  }

  lemma GatedRow0Shift(p: bv64, q: bv64)
    requires q < 0x100_0000
    ensures ShiftUp(GatedRow0(p, ShiftDown(q))) == Add(Gated(p, q, 4), Add(Gated(p, q, 8), Add(Gated(p, q, 12), Add(Gated(p, q, 16), Gated(p, q, 20)))))
  {
    ShiftUpAdd(Gated(p, ShiftDown(q), 0), Add(Gated(p, ShiftDown(q), 4), Add(Gated(p, ShiftDown(q), 8), Add(Gated(p, ShiftDown(q), 12), Add(Gated(p, ShiftDown(q), 16), Gated(p, ShiftDown(q), 20))))));
    ShiftUpAdd(Gated(p, ShiftDown(q), 4), Add(Gated(p, ShiftDown(q), 8), Add(Gated(p, ShiftDown(q), 12), Add(Gated(p, ShiftDown(q), 16), Gated(p, ShiftDown(q), 20)))));
    ShiftUpAdd(Gated(p, ShiftDown(q), 8), Add(Gated(p, ShiftDown(q), 12), Add(Gated(p, ShiftDown(q), 16), Gated(p, ShiftDown(q), 20))));
    ShiftUpAdd(Gated(p, ShiftDown(q), 12), Add(Gated(p, ShiftDown(q), 16), Gated(p, ShiftDown(q), 20)));
    ShiftUpAdd(Gated(p, ShiftDown(q), 16), Gated(p, ShiftDown(q), 20));
    GatedShiftAt0(p, q);
    GatedShiftAt4(p, q);
    GatedShiftAt8(p, q);
    GatedShiftAt12(p, q);
    GatedShiftAt16(p, q);
    GatedTopAt20(p, q);
    AddZero(Gated(p, q, 20));
  }

  lemma GatedRow0Step(p: bv64, q: bv64)
    requires q < 0x100_0000
    ensures GatedRow0(p, q) == Add(ScaleRow0(p, Digit(q)), ShiftUp(GatedRow0(p, ShiftDown(q))))
  {
    GatedRow0Shift(p, q);
    ScaleRow0IsGated(p, q);
  }

  /** Row 0 of the product regrouped: the left-nested sum of its gated terms is GatedRow0. */
  lemma GatedRow0Regrouped(p: bv64, q: bv64)
    ensures Add(Add(Add(Add(Add(Gated(p, q, 0), Gated(p, q, 4)), Gated(p, q, 8)), Gated(p, q, 12)), Gated(p, q, 16)), Gated(p, q, 20)) == GatedRow0(p, q)
  {
    AddAssociates(Add(Add(Add(Gated(p, q, 0), Gated(p, q, 4)), Gated(p, q, 8)), Gated(p, q, 12)), Gated(p, q, 16), Gated(p, q, 20));
    AddAssociates(Add(Add(Gated(p, q, 0), Gated(p, q, 4)), Gated(p, q, 8)), Gated(p, q, 12), Add(Gated(p, q, 16), Gated(p, q, 20)));
    AddAssociates(Add(Gated(p, q, 0), Gated(p, q, 4)), Gated(p, q, 8), Add(Gated(p, q, 12), Add(Gated(p, q, 16), Gated(p, q, 20))));
    AddAssociates(Gated(p, q, 0), Gated(p, q, 4), Add(Gated(p, q, 8), Add(Gated(p, q, 12), Add(Gated(p, q, 16), Gated(p, q, 20)))));
  }

  lemma GatedRow1Shift(p: bv64, q: bv64)
    requires q < 0x100_0000
    ensures ShiftUp(GatedRow1(p, ShiftDown(q))) == Add(Gated(p, q, 5), Add(Gated(p, q, 9), Add(Gated(p, q, 13), Add(Gated(p, q, 17), Gated(p, q, 21)))))
  {
    ShiftUpAdd(Gated(p, ShiftDown(q), 1), Add(Gated(p, ShiftDown(q), 5), Add(Gated(p, ShiftDown(q), 9), Add(Gated(p, ShiftDown(q), 13), Add(Gated(p, ShiftDown(q), 17), Gated(p, ShiftDown(q), 21))))));
    ShiftUpAdd(Gated(p, ShiftDown(q), 5), Add(Gated(p, ShiftDown(q), 9), Add(Gated(p, ShiftDown(q), 13), Add(Gated(p, ShiftDown(q), 17), Gated(p, ShiftDown(q), 21)))));
    ShiftUpAdd(Gated(p, ShiftDown(q), 9), Add(Gated(p, ShiftDown(q), 13), Add(Gated(p, ShiftDown(q), 17), Gated(p, ShiftDown(q), 21))));
    ShiftUpAdd(Gated(p, ShiftDown(q), 13), Add(Gated(p, ShiftDown(q), 17), Gated(p, ShiftDown(q), 21)));
    ShiftUpAdd(Gated(p, ShiftDown(q), 17), Gated(p, ShiftDown(q), 21));
    GatedShiftAt1(p, q);
    GatedShiftAt5(p, q);
    GatedShiftAt9(p, q);
    GatedShiftAt13(p, q);
    GatedShiftAt17(p, q);
    GatedTopAt21(p, q);
    AddZero(Gated(p, q, 21));
  }

  lemma GatedRow1Step(p: bv64, q: bv64)
    requires q < 0x100_0000
    ensures GatedRow1(p, q) == Add(ScaleRow1(p, Digit(q)), ShiftUp(GatedRow1(p, ShiftDown(q))))
  {
    GatedRow1Shift(p, q);
    ScaleRow1IsGated(p, q);
  }

  /** Row 1 of the product regrouped: the left-nested sum of its gated terms is GatedRow1. */
  lemma GatedRow1Regrouped(p: bv64, q: bv64)
    ensures Add(Add(Add(Add(Add(Gated(p, q, 1), Gated(p, q, 5)), Gated(p, q, 9)), Gated(p, q, 13)), Gated(p, q, 17)), Gated(p, q, 21)) == GatedRow1(p, q)
  {
    AddAssociates(Add(Add(Add(Gated(p, q, 1), Gated(p, q, 5)), Gated(p, q, 9)), Gated(p, q, 13)), Gated(p, q, 17), Gated(p, q, 21));
    AddAssociates(Add(Add(Gated(p, q, 1), Gated(p, q, 5)), Gated(p, q, 9)), Gated(p, q, 13), Add(Gated(p, q, 17), Gated(p, q, 21)));
    AddAssociates(Add(Gated(p, q, 1), Gated(p, q, 5)), Gated(p, q, 9), Add(Gated(p, q, 13), Add(Gated(p, q, 17), Gated(p, q, 21))));
    AddAssociates(Gated(p, q, 1), Gated(p, q, 5), Add(Gated(p, q, 9), Add(Gated(p, q, 13), Add(Gated(p, q, 17), Gated(p, q, 21)))));
  }

  lemma GatedRow2Shift(p: bv64, q: bv64)
    requires q < 0x100_0000
    ensures ShiftUp(GatedRow2(p, ShiftDown(q))) == Add(Gated(p, q, 6), Add(Gated(p, q, 10), Add(Gated(p, q, 14), Add(Gated(p, q, 18), Gated(p, q, 22)))))
  {
    ShiftUpAdd(Gated(p, ShiftDown(q), 2), Add(Gated(p, ShiftDown(q), 6), Add(Gated(p, ShiftDown(q), 10), Add(Gated(p, ShiftDown(q), 14), Add(Gated(p, ShiftDown(q), 18), Gated(p, ShiftDown(q), 22))))));
    ShiftUpAdd(Gated(p, ShiftDown(q), 6), Add(Gated(p, ShiftDown(q), 10), Add(Gated(p, ShiftDown(q), 14), Add(Gated(p, ShiftDown(q), 18), Gated(p, ShiftDown(q), 22)))));
    ShiftUpAdd(Gated(p, ShiftDown(q), 10), Add(Gated(p, ShiftDown(q), 14), Add(Gated(p, ShiftDown(q), 18), Gated(p, ShiftDown(q), 22))));
    ShiftUpAdd(Gated(p, ShiftDown(q), 14), Add(Gated(p, ShiftDown(q), 18), Gated(p, ShiftDown(q), 22)));
    ShiftUpAdd(Gated(p, ShiftDown(q), 18), Gated(p, ShiftDown(q), 22));
    GatedShiftAt2(p, q);
    GatedShiftAt6(p, q);
    GatedShiftAt10(p, q);
    GatedShiftAt14(p, q);
    GatedShiftAt18(p, q);
    GatedTopAt22(p, q);
    AddZero(Gated(p, q, 22));
  }

  lemma GatedRow2Step(p: bv64, q: bv64)
    requires q < 0x100_0000
    ensures GatedRow2(p, q) == Add(ScaleRow2(p, Digit(q)), ShiftUp(GatedRow2(p, ShiftDown(q))))
  {
    GatedRow2Shift(p, q);
    ScaleRow2IsGated(p, q);
  }

  /** Row 2 of the product regrouped: the left-nested sum of its gated terms is GatedRow2. */
  lemma GatedRow2Regrouped(p: bv64, q: bv64)
    ensures Add(Add(Add(Add(Add(Gated(p, q, 2), Gated(p, q, 6)), Gated(p, q, 10)), Gated(p, q, 14)), Gated(p, q, 18)), Gated(p, q, 22)) == GatedRow2(p, q)
  {
    AddAssociates(Add(Add(Add(Gated(p, q, 2), Gated(p, q, 6)), Gated(p, q, 10)), Gated(p, q, 14)), Gated(p, q, 18), Gated(p, q, 22));
    AddAssociates(Add(Add(Gated(p, q, 2), Gated(p, q, 6)), Gated(p, q, 10)), Gated(p, q, 14), Add(Gated(p, q, 18), Gated(p, q, 22)));
    AddAssociates(Add(Gated(p, q, 2), Gated(p, q, 6)), Gated(p, q, 10), Add(Gated(p, q, 14), Add(Gated(p, q, 18), Gated(p, q, 22))));
    AddAssociates(Gated(p, q, 2), Gated(p, q, 6), Add(Gated(p, q, 10), Add(Gated(p, q, 14), Add(Gated(p, q, 18), Gated(p, q, 22)))));
  }

  lemma GatedRow3Shift(p: bv64, q: bv64)
    requires q < 0x100_0000
    ensures ShiftUp(GatedRow3(p, ShiftDown(q))) == Add(Gated(p, q, 7), Add(Gated(p, q, 11), Add(Gated(p, q, 15), Add(Gated(p, q, 19), Gated(p, q, 23)))))
  {
    ShiftUpAdd(Gated(p, ShiftDown(q), 3), Add(Gated(p, ShiftDown(q), 7), Add(Gated(p, ShiftDown(q), 11), Add(Gated(p, ShiftDown(q), 15), Add(Gated(p, ShiftDown(q), 19), Gated(p, ShiftDown(q), 23))))));
    ShiftUpAdd(Gated(p, ShiftDown(q), 7), Add(Gated(p, ShiftDown(q), 11), Add(Gated(p, ShiftDown(q), 15), Add(Gated(p, ShiftDown(q), 19), Gated(p, ShiftDown(q), 23)))));
    ShiftUpAdd(Gated(p, ShiftDown(q), 11), Add(Gated(p, ShiftDown(q), 15), Add(Gated(p, ShiftDown(q), 19), Gated(p, ShiftDown(q), 23))));
    ShiftUpAdd(Gated(p, ShiftDown(q), 15), Add(Gated(p, ShiftDown(q), 19), Gated(p, ShiftDown(q), 23)));
    ShiftUpAdd(Gated(p, ShiftDown(q), 19), Gated(p, ShiftDown(q), 23));
    GatedShiftAt3(p, q);
    GatedShiftAt7(p, q);
    GatedShiftAt11(p, q);
    GatedShiftAt15(p, q);
    GatedShiftAt19(p, q);
    GatedTopAt23(p, q);
    AddZero(Gated(p, q, 23));
  }

  lemma GatedRow3Step(p: bv64, q: bv64)
    requires q < 0x100_0000
    ensures GatedRow3(p, q) == Add(ScaleRow3(p, Digit(q)), ShiftUp(GatedRow3(p, ShiftDown(q))))
  {
    GatedRow3Shift(p, q);
    ScaleRow3IsGated(p, q);
  }

  /** Row 3 of the product regrouped: the left-nested sum of its gated terms is GatedRow3. */
  lemma GatedRow3Regrouped(p: bv64, q: bv64)
    ensures Add(Add(Add(Add(Add(Gated(p, q, 3), Gated(p, q, 7)), Gated(p, q, 11)), Gated(p, q, 15)), Gated(p, q, 19)), Gated(p, q, 23)) == GatedRow3(p, q)
  {
    AddAssociates(Add(Add(Add(Gated(p, q, 3), Gated(p, q, 7)), Gated(p, q, 11)), Gated(p, q, 15)), Gated(p, q, 19), Gated(p, q, 23));
    AddAssociates(Add(Add(Gated(p, q, 3), Gated(p, q, 7)), Gated(p, q, 11)), Gated(p, q, 15), Add(Gated(p, q, 19), Gated(p, q, 23)));
    AddAssociates(Add(Gated(p, q, 3), Gated(p, q, 7)), Gated(p, q, 11), Add(Gated(p, q, 15), Add(Gated(p, q, 19), Gated(p, q, 23))));
    AddAssociates(Gated(p, q, 3), Gated(p, q, 7), Add(Gated(p, q, 11), Add(Gated(p, q, 15), Add(Gated(p, q, 19), Gated(p, q, 23)))));
  }

  lemma CombineStepAt0(p: bv64, d: GF16.Elem, r0: bv64, r1: bv64, r2: bv64, r3: bv64, s0: bv64, s1: bv64, s2: bv64, s3: bv64)
    requires r0 == Add(ScaleRow0(p, d), ShiftUp(s0))
    requires r1 == Add(ScaleRow1(p, d), ShiftUp(s1))
    requires r2 == Add(ScaleRow2(p, d), ShiftUp(s2))
    requires r3 == Add(ScaleRow3(p, d), ShiftUp(s3))
    requires s1 & 1 == 0 && s2 & 3 == 0 && s3 & 7 == 0
    ensures Coeff(Combine(r0, r1, r2, r3), 0) == GF16.FieldMul(Coeff(p, 0), d)
  {
    CombineCoeffAt0(r0, r1, r2, r3);
    WindowStepAt0(ScaleRow0(p, d), ScaleRow1(p, d), ScaleRow2(p, d), ScaleRow3(p, d), s0, s1, s2, s3);
    ScaleWindowAt0(p, d);
  }

  lemma CombineWindowStepAt1(p: bv64, d: GF16.Elem, r0: bv64, r1: bv64, r2: bv64, r3: bv64, s0: bv64, s1: bv64, s2: bv64, s3: bv64)
    requires r0 == Add(ScaleRow0(p, d), ShiftUp(s0))
    requires r1 == Add(ScaleRow1(p, d), ShiftUp(s1))
    requires r2 == Add(ScaleRow2(p, d), ShiftUp(s2))
    requires r3 == Add(ScaleRow3(p, d), ShiftUp(s3))
    ensures Window(r0 >> 4, r1 >> 4, r2 >> 4, r3 >> 4) == WindowSum(GF16.CarrylessMul(Coeff(p, 1), d), Window(s0, s1, s2, s3))
  {
    WindowStepAt1(ScaleRow0(p, d), ScaleRow1(p, d), ScaleRow2(p, d), ScaleRow3(p, d), s0, s1, s2, s3);
    ScaleWindowAt1(p, d);
  }

  lemma CombineStepAt1(p: bv64, d: GF16.Elem, r0: bv64, r1: bv64, r2: bv64, r3: bv64, s0: bv64, s1: bv64, s2: bv64, s3: bv64)
    requires r0 == Add(ScaleRow0(p, d), ShiftUp(s0))
    requires r1 == Add(ScaleRow1(p, d), ShiftUp(s1))
    requires r2 == Add(ScaleRow2(p, d), ShiftUp(s2))
    requires r3 == Add(ScaleRow3(p, d), ShiftUp(s3))
    ensures Coeff(Combine(r0, r1, r2, r3), 1) == GF16.Add(GF16.FieldMul(Coeff(p, 1), d), Coeff(Combine(s0, s1, s2, s3), 0))
  {
    CombineCoeffAt1(r0, r1, r2, r3);
    CombineWindowStepAt1(p, d, r0, r1, r2, r3, s0, s1, s2, s3);
    CombineCoeffAt0(s0, s1, s2, s3);
    WindowStepReduces(Coeff(Combine(r0, r1, r2, r3), 1), Coeff(Combine(s0, s1, s2, s3), 0), Coeff(p, 1), d, Window(s0, s1, s2, s3));
  }

  lemma CombineWindowStepAt2(p: bv64, d: GF16.Elem, r0: bv64, r1: bv64, r2: bv64, r3: bv64, s0: bv64, s1: bv64, s2: bv64, s3: bv64)
    requires r0 == Add(ScaleRow0(p, d), ShiftUp(s0))
    requires r1 == Add(ScaleRow1(p, d), ShiftUp(s1))
    requires r2 == Add(ScaleRow2(p, d), ShiftUp(s2))
    requires r3 == Add(ScaleRow3(p, d), ShiftUp(s3))
    ensures Window(r0 >> 8, r1 >> 8, r2 >> 8, r3 >> 8) == WindowSum(GF16.CarrylessMul(Coeff(p, 2), d), Window(s0 >> 4, s1 >> 4, s2 >> 4, s3 >> 4))
  {
    WindowStepAt2(ScaleRow0(p, d), ScaleRow1(p, d), ScaleRow2(p, d), ScaleRow3(p, d), s0, s1, s2, s3);
    ScaleWindowAt2(p, d);
  }

  lemma CombineStepAt2(p: bv64, d: GF16.Elem, r0: bv64, r1: bv64, r2: bv64, r3: bv64, s0: bv64, s1: bv64, s2: bv64, s3: bv64)
    requires r0 == Add(ScaleRow0(p, d), ShiftUp(s0))
    requires r1 == Add(ScaleRow1(p, d), ShiftUp(s1))
    requires r2 == Add(ScaleRow2(p, d), ShiftUp(s2))
    requires r3 == Add(ScaleRow3(p, d), ShiftUp(s3))
    ensures Coeff(Combine(r0, r1, r2, r3), 2) == GF16.Add(GF16.FieldMul(Coeff(p, 2), d), Coeff(Combine(s0, s1, s2, s3), 1))
  {
    CombineCoeffAt2(r0, r1, r2, r3);
    CombineWindowStepAt2(p, d, r0, r1, r2, r3, s0, s1, s2, s3);
    CombineCoeffAt1(s0, s1, s2, s3);
    WindowStepReduces(Coeff(Combine(r0, r1, r2, r3), 2), Coeff(Combine(s0, s1, s2, s3), 1), Coeff(p, 2), d, Window(s0 >> 4, s1 >> 4, s2 >> 4, s3 >> 4));
  }

  lemma CombineWindowStepAt3(p: bv64, d: GF16.Elem, r0: bv64, r1: bv64, r2: bv64, r3: bv64, s0: bv64, s1: bv64, s2: bv64, s3: bv64)
    requires r0 == Add(ScaleRow0(p, d), ShiftUp(s0))
    requires r1 == Add(ScaleRow1(p, d), ShiftUp(s1))
    requires r2 == Add(ScaleRow2(p, d), ShiftUp(s2))
    requires r3 == Add(ScaleRow3(p, d), ShiftUp(s3))
    ensures Window(r0 >> 12, r1 >> 12, r2 >> 12, r3 >> 12) == WindowSum(GF16.CarrylessMul(Coeff(p, 3), d), Window(s0 >> 8, s1 >> 8, s2 >> 8, s3 >> 8))
  {
    WindowStepAt3(ScaleRow0(p, d), ScaleRow1(p, d), ScaleRow2(p, d), ScaleRow3(p, d), s0, s1, s2, s3);
    ScaleWindowAt3(p, d);
  }

  lemma CombineStepAt3(p: bv64, d: GF16.Elem, r0: bv64, r1: bv64, r2: bv64, r3: bv64, s0: bv64, s1: bv64, s2: bv64, s3: bv64)
    requires r0 == Add(ScaleRow0(p, d), ShiftUp(s0))
    requires r1 == Add(ScaleRow1(p, d), ShiftUp(s1))
    requires r2 == Add(ScaleRow2(p, d), ShiftUp(s2))
    requires r3 == Add(ScaleRow3(p, d), ShiftUp(s3))
    ensures Coeff(Combine(r0, r1, r2, r3), 3) == GF16.Add(GF16.FieldMul(Coeff(p, 3), d), Coeff(Combine(s0, s1, s2, s3), 2))
  {
    CombineCoeffAt3(r0, r1, r2, r3);
    CombineWindowStepAt3(p, d, r0, r1, r2, r3, s0, s1, s2, s3);
    CombineCoeffAt2(s0, s1, s2, s3);
    WindowStepReduces(Coeff(Combine(r0, r1, r2, r3), 3), Coeff(Combine(s0, s1, s2, s3), 2), Coeff(p, 3), d, Window(s0 >> 8, s1 >> 8, s2 >> 8, s3 >> 8));
  }

  lemma CombineWindowStepAt4(p: bv64, d: GF16.Elem, r0: bv64, r1: bv64, r2: bv64, r3: bv64, s0: bv64, s1: bv64, s2: bv64, s3: bv64)
    requires r0 == Add(ScaleRow0(p, d), ShiftUp(s0))
    requires r1 == Add(ScaleRow1(p, d), ShiftUp(s1))
    requires r2 == Add(ScaleRow2(p, d), ShiftUp(s2))
    requires r3 == Add(ScaleRow3(p, d), ShiftUp(s3))
    ensures Window(r0 >> 16, r1 >> 16, r2 >> 16, r3 >> 16) == WindowSum(GF16.CarrylessMul(Coeff(p, 4), d), Window(s0 >> 12, s1 >> 12, s2 >> 12, s3 >> 12))
  {
    WindowStepAt4(ScaleRow0(p, d), ScaleRow1(p, d), ScaleRow2(p, d), ScaleRow3(p, d), s0, s1, s2, s3);
    ScaleWindowAt4(p, d);
  }

  lemma CombineStepAt4(p: bv64, d: GF16.Elem, r0: bv64, r1: bv64, r2: bv64, r3: bv64, s0: bv64, s1: bv64, s2: bv64, s3: bv64)
    requires r0 == Add(ScaleRow0(p, d), ShiftUp(s0))
    requires r1 == Add(ScaleRow1(p, d), ShiftUp(s1))
    requires r2 == Add(ScaleRow2(p, d), ShiftUp(s2))
    requires r3 == Add(ScaleRow3(p, d), ShiftUp(s3))
    ensures Coeff(Combine(r0, r1, r2, r3), 4) == GF16.Add(GF16.FieldMul(Coeff(p, 4), d), Coeff(Combine(s0, s1, s2, s3), 3))
  {
    CombineCoeffAt4(r0, r1, r2, r3);
    CombineWindowStepAt4(p, d, r0, r1, r2, r3, s0, s1, s2, s3);
    CombineCoeffAt3(s0, s1, s2, s3);
    WindowStepReduces(Coeff(Combine(r0, r1, r2, r3), 4), Coeff(Combine(s0, s1, s2, s3), 3), Coeff(p, 4), d, Window(s0 >> 12, s1 >> 12, s2 >> 12, s3 >> 12));
  }

  lemma CombineWindowStepAt5(p: bv64, d: GF16.Elem, r0: bv64, r1: bv64, r2: bv64, r3: bv64, s0: bv64, s1: bv64, s2: bv64, s3: bv64)
    requires r0 == Add(ScaleRow0(p, d), ShiftUp(s0))
    requires r1 == Add(ScaleRow1(p, d), ShiftUp(s1))
    requires r2 == Add(ScaleRow2(p, d), ShiftUp(s2))
    requires r3 == Add(ScaleRow3(p, d), ShiftUp(s3))
    ensures Window(r0 >> 20, r1 >> 20, r2 >> 20, r3 >> 20) == WindowSum(GF16.CarrylessMul(Coeff(p, 5), d), Window(s0 >> 16, s1 >> 16, s2 >> 16, s3 >> 16))
  {
    WindowStepAt5(ScaleRow0(p, d), ScaleRow1(p, d), ScaleRow2(p, d), ScaleRow3(p, d), s0, s1, s2, s3);
    ScaleWindowAt5(p, d);
  }

  lemma CombineStepAt5(p: bv64, d: GF16.Elem, r0: bv64, r1: bv64, r2: bv64, r3: bv64, s0: bv64, s1: bv64, s2: bv64, s3: bv64)
    requires r0 == Add(ScaleRow0(p, d), ShiftUp(s0))
    requires r1 == Add(ScaleRow1(p, d), ShiftUp(s1))
    requires r2 == Add(ScaleRow2(p, d), ShiftUp(s2))
    requires r3 == Add(ScaleRow3(p, d), ShiftUp(s3))
    ensures Coeff(Combine(r0, r1, r2, r3), 5) == GF16.Add(GF16.FieldMul(Coeff(p, 5), d), Coeff(Combine(s0, s1, s2, s3), 4))
  {
    CombineCoeffAt5(r0, r1, r2, r3);
    CombineWindowStepAt5(p, d, r0, r1, r2, r3, s0, s1, s2, s3);
    CombineCoeffAt4(s0, s1, s2, s3);
    WindowStepReduces(Coeff(Combine(r0, r1, r2, r3), 5), Coeff(Combine(s0, s1, s2, s3), 4), Coeff(p, 5), d, Window(s0 >> 16, s1 >> 16, s2 >> 16, s3 >> 16));
  }

  lemma CombineWindowStepAt6(p: bv64, d: GF16.Elem, r0: bv64, r1: bv64, r2: bv64, r3: bv64, s0: bv64, s1: bv64, s2: bv64, s3: bv64)
    requires r0 == Add(ScaleRow0(p, d), ShiftUp(s0))
    requires r1 == Add(ScaleRow1(p, d), ShiftUp(s1))
    requires r2 == Add(ScaleRow2(p, d), ShiftUp(s2))
    requires r3 == Add(ScaleRow3(p, d), ShiftUp(s3))
    ensures Window(r0 >> 24, r1 >> 24, r2 >> 24, r3 >> 24) == WindowSum(GF16.CarrylessMul(Coeff(p, 6), d), Window(s0 >> 20, s1 >> 20, s2 >> 20, s3 >> 20))
  {
    WindowStepAt6(ScaleRow0(p, d), ScaleRow1(p, d), ScaleRow2(p, d), ScaleRow3(p, d), s0, s1, s2, s3);
    ScaleWindowAt6(p, d);
  }

  lemma CombineStepAt6(p: bv64, d: GF16.Elem, r0: bv64, r1: bv64, r2: bv64, r3: bv64, s0: bv64, s1: bv64, s2: bv64, s3: bv64)
    requires r0 == Add(ScaleRow0(p, d), ShiftUp(s0))
    requires r1 == Add(ScaleRow1(p, d), ShiftUp(s1))
    requires r2 == Add(ScaleRow2(p, d), ShiftUp(s2))
    requires r3 == Add(ScaleRow3(p, d), ShiftUp(s3))
    ensures Coeff(Combine(r0, r1, r2, r3), 6) == GF16.Add(GF16.FieldMul(Coeff(p, 6), d), Coeff(Combine(s0, s1, s2, s3), 5))
  {
    CombineCoeffAt6(r0, r1, r2, r3);
    CombineWindowStepAt6(p, d, r0, r1, r2, r3, s0, s1, s2, s3);
    CombineCoeffAt5(s0, s1, s2, s3);
    WindowStepReduces(Coeff(Combine(r0, r1, r2, r3), 6), Coeff(Combine(s0, s1, s2, s3), 5), Coeff(p, 6), d, Window(s0 >> 20, s1 >> 20, s2 >> 20, s3 >> 20));
  }

  lemma CombineWindowStepAt7(p: bv64, d: GF16.Elem, r0: bv64, r1: bv64, r2: bv64, r3: bv64, s0: bv64, s1: bv64, s2: bv64, s3: bv64)
    requires r0 == Add(ScaleRow0(p, d), ShiftUp(s0))
    requires r1 == Add(ScaleRow1(p, d), ShiftUp(s1))
    requires r2 == Add(ScaleRow2(p, d), ShiftUp(s2))
    requires r3 == Add(ScaleRow3(p, d), ShiftUp(s3))
    ensures Window(r0 >> 28, r1 >> 28, r2 >> 28, r3 >> 28) == WindowSum(GF16.CarrylessMul(Coeff(p, 7), d), Window(s0 >> 24, s1 >> 24, s2 >> 24, s3 >> 24))
  {
    WindowStepAt7(ScaleRow0(p, d), ScaleRow1(p, d), ScaleRow2(p, d), ScaleRow3(p, d), s0, s1, s2, s3);
    ScaleWindowAt7(p, d);
  }

  lemma CombineStepAt7(p: bv64, d: GF16.Elem, r0: bv64, r1: bv64, r2: bv64, r3: bv64, s0: bv64, s1: bv64, s2: bv64, s3: bv64)
    requires r0 == Add(ScaleRow0(p, d), ShiftUp(s0))
    requires r1 == Add(ScaleRow1(p, d), ShiftUp(s1))
    requires r2 == Add(ScaleRow2(p, d), ShiftUp(s2))
    requires r3 == Add(ScaleRow3(p, d), ShiftUp(s3))
    ensures Coeff(Combine(r0, r1, r2, r3), 7) == GF16.Add(GF16.FieldMul(Coeff(p, 7), d), Coeff(Combine(s0, s1, s2, s3), 6))
  {
    CombineCoeffAt7(r0, r1, r2, r3);
    CombineWindowStepAt7(p, d, r0, r1, r2, r3, s0, s1, s2, s3);
    CombineCoeffAt6(s0, s1, s2, s3);
    WindowStepReduces(Coeff(Combine(r0, r1, r2, r3), 7), Coeff(Combine(s0, s1, s2, s3), 6), Coeff(p, 7), d, Window(s0 >> 24, s1 >> 24, s2 >> 24, s3 >> 24));
  }

  lemma CombineWindowStepAt8(p: bv64, d: GF16.Elem, r0: bv64, r1: bv64, r2: bv64, r3: bv64, s0: bv64, s1: bv64, s2: bv64, s3: bv64)
    requires r0 == Add(ScaleRow0(p, d), ShiftUp(s0))
    requires r1 == Add(ScaleRow1(p, d), ShiftUp(s1))
    requires r2 == Add(ScaleRow2(p, d), ShiftUp(s2))
    requires r3 == Add(ScaleRow3(p, d), ShiftUp(s3))
    ensures Window(r0 >> 32, r1 >> 32, r2 >> 32, r3 >> 32) == WindowSum(GF16.CarrylessMul(Coeff(p, 8), d), Window(s0 >> 28, s1 >> 28, s2 >> 28, s3 >> 28))
  {
    WindowStepAt8(ScaleRow0(p, d), ScaleRow1(p, d), ScaleRow2(p, d), ScaleRow3(p, d), s0, s1, s2, s3);
    ScaleWindowAt8(p, d);
  }

  lemma CombineStepAt8(p: bv64, d: GF16.Elem, r0: bv64, r1: bv64, r2: bv64, r3: bv64, s0: bv64, s1: bv64, s2: bv64, s3: bv64)
    requires r0 == Add(ScaleRow0(p, d), ShiftUp(s0))
    requires r1 == Add(ScaleRow1(p, d), ShiftUp(s1))
    requires r2 == Add(ScaleRow2(p, d), ShiftUp(s2))
    requires r3 == Add(ScaleRow3(p, d), ShiftUp(s3))
    ensures Coeff(Combine(r0, r1, r2, r3), 8) == GF16.Add(GF16.FieldMul(Coeff(p, 8), d), Coeff(Combine(s0, s1, s2, s3), 7))
  {
    CombineCoeffAt8(r0, r1, r2, r3);
    CombineWindowStepAt8(p, d, r0, r1, r2, r3, s0, s1, s2, s3);
    CombineCoeffAt7(s0, s1, s2, s3);
    WindowStepReduces(Coeff(Combine(r0, r1, r2, r3), 8), Coeff(Combine(s0, s1, s2, s3), 7), Coeff(p, 8), d, Window(s0 >> 28, s1 >> 28, s2 >> 28, s3 >> 28));
  }

  lemma CombineWindowStepAt9(p: bv64, d: GF16.Elem, r0: bv64, r1: bv64, r2: bv64, r3: bv64, s0: bv64, s1: bv64, s2: bv64, s3: bv64)
    requires r0 == Add(ScaleRow0(p, d), ShiftUp(s0))
    requires r1 == Add(ScaleRow1(p, d), ShiftUp(s1))
    requires r2 == Add(ScaleRow2(p, d), ShiftUp(s2))
    requires r3 == Add(ScaleRow3(p, d), ShiftUp(s3))
    ensures Window(r0 >> 36, r1 >> 36, r2 >> 36, r3 >> 36) == WindowSum(GF16.CarrylessMul(Coeff(p, 9), d), Window(s0 >> 32, s1 >> 32, s2 >> 32, s3 >> 32))
  {
    WindowStepAt9(ScaleRow0(p, d), ScaleRow1(p, d), ScaleRow2(p, d), ScaleRow3(p, d), s0, s1, s2, s3);
    ScaleWindowAt9(p, d);
  }

  lemma CombineStepAt9(p: bv64, d: GF16.Elem, r0: bv64, r1: bv64, r2: bv64, r3: bv64, s0: bv64, s1: bv64, s2: bv64, s3: bv64)
    requires r0 == Add(ScaleRow0(p, d), ShiftUp(s0))
    requires r1 == Add(ScaleRow1(p, d), ShiftUp(s1))
    requires r2 == Add(ScaleRow2(p, d), ShiftUp(s2))
    requires r3 == Add(ScaleRow3(p, d), ShiftUp(s3))
    ensures Coeff(Combine(r0, r1, r2, r3), 9) == GF16.Add(GF16.FieldMul(Coeff(p, 9), d), Coeff(Combine(s0, s1, s2, s3), 8))
  {
    CombineCoeffAt9(r0, r1, r2, r3);
    CombineWindowStepAt9(p, d, r0, r1, r2, r3, s0, s1, s2, s3);
    CombineCoeffAt8(s0, s1, s2, s3);
    WindowStepReduces(Coeff(Combine(r0, r1, r2, r3), 9), Coeff(Combine(s0, s1, s2, s3), 8), Coeff(p, 9), d, Window(s0 >> 32, s1 >> 32, s2 >> 32, s3 >> 32));
  }

  lemma CombineWindowStepAt10(p: bv64, d: GF16.Elem, r0: bv64, r1: bv64, r2: bv64, r3: bv64, s0: bv64, s1: bv64, s2: bv64, s3: bv64)
    requires r0 == Add(ScaleRow0(p, d), ShiftUp(s0))
    requires r1 == Add(ScaleRow1(p, d), ShiftUp(s1))
    requires r2 == Add(ScaleRow2(p, d), ShiftUp(s2))
    requires r3 == Add(ScaleRow3(p, d), ShiftUp(s3))
    ensures Window(r0 >> 40, r1 >> 40, r2 >> 40, r3 >> 40) == WindowSum(GF16.CarrylessMul(Coeff(p, 10), d), Window(s0 >> 36, s1 >> 36, s2 >> 36, s3 >> 36))
  {
    WindowStepAt10(ScaleRow0(p, d), ScaleRow1(p, d), ScaleRow2(p, d), ScaleRow3(p, d), s0, s1, s2, s3);
    ScaleWindowAt10(p, d);
  }

  lemma CombineStepAt10(p: bv64, d: GF16.Elem, r0: bv64, r1: bv64, r2: bv64, r3: bv64, s0: bv64, s1: bv64, s2: bv64, s3: bv64)
    requires r0 == Add(ScaleRow0(p, d), ShiftUp(s0))
    requires r1 == Add(ScaleRow1(p, d), ShiftUp(s1))
    requires r2 == Add(ScaleRow2(p, d), ShiftUp(s2))
    requires r3 == Add(ScaleRow3(p, d), ShiftUp(s3))
    ensures Coeff(Combine(r0, r1, r2, r3), 10) == GF16.Add(GF16.FieldMul(Coeff(p, 10), d), Coeff(Combine(s0, s1, s2, s3), 9))
  {
    CombineCoeffAt10(r0, r1, r2, r3);
    CombineWindowStepAt10(p, d, r0, r1, r2, r3, s0, s1, s2, s3);
    CombineCoeffAt9(s0, s1, s2, s3);
    WindowStepReduces(Coeff(Combine(r0, r1, r2, r3), 10), Coeff(Combine(s0, s1, s2, s3), 9), Coeff(p, 10), d, Window(s0 >> 36, s1 >> 36, s2 >> 36, s3 >> 36));
  }

  lemma CombineWindowStepAt11(p: bv64, d: GF16.Elem, r0: bv64, r1: bv64, r2: bv64, r3: bv64, s0: bv64, s1: bv64, s2: bv64, s3: bv64)
    requires r0 == Add(ScaleRow0(p, d), ShiftUp(s0))
    requires r1 == Add(ScaleRow1(p, d), ShiftUp(s1))
    requires r2 == Add(ScaleRow2(p, d), ShiftUp(s2))
    requires r3 == Add(ScaleRow3(p, d), ShiftUp(s3))
    ensures Window(r0 >> 44, r1 >> 44, r2 >> 44, r3 >> 44) == WindowSum(GF16.CarrylessMul(Coeff(p, 11), d), Window(s0 >> 40, s1 >> 40, s2 >> 40, s3 >> 40))
  {
    WindowStepAt11(ScaleRow0(p, d), ScaleRow1(p, d), ScaleRow2(p, d), ScaleRow3(p, d), s0, s1, s2, s3);
    ScaleWindowAt11(p, d);
  }

  lemma CombineStepAt11(p: bv64, d: GF16.Elem, r0: bv64, r1: bv64, r2: bv64, r3: bv64, s0: bv64, s1: bv64, s2: bv64, s3: bv64)
    requires r0 == Add(ScaleRow0(p, d), ShiftUp(s0))
    requires r1 == Add(ScaleRow1(p, d), ShiftUp(s1))
    requires r2 == Add(ScaleRow2(p, d), ShiftUp(s2))
    requires r3 == Add(ScaleRow3(p, d), ShiftUp(s3))
    ensures Coeff(Combine(r0, r1, r2, r3), 11) == GF16.Add(GF16.FieldMul(Coeff(p, 11), d), Coeff(Combine(s0, s1, s2, s3), 10))
  {
    CombineCoeffAt11(r0, r1, r2, r3);
    CombineWindowStepAt11(p, d, r0, r1, r2, r3, s0, s1, s2, s3);
    CombineCoeffAt10(s0, s1, s2, s3);
    WindowStepReduces(Coeff(Combine(r0, r1, r2, r3), 11), Coeff(Combine(s0, s1, s2, s3), 10), Coeff(p, 11), d, Window(s0 >> 40, s1 >> 40, s2 >> 40, s3 >> 40));
  }

  lemma CombineWindowStepAt12(p: bv64, d: GF16.Elem, r0: bv64, r1: bv64, r2: bv64, r3: bv64, s0: bv64, s1: bv64, s2: bv64, s3: bv64)
    requires r0 == Add(ScaleRow0(p, d), ShiftUp(s0))
    requires r1 == Add(ScaleRow1(p, d), ShiftUp(s1))
    requires r2 == Add(ScaleRow2(p, d), ShiftUp(s2))
    requires r3 == Add(ScaleRow3(p, d), ShiftUp(s3))
    ensures Window(r0 >> 48, r1 >> 48, r2 >> 48, r3 >> 48) == WindowSum(GF16.CarrylessMul(Coeff(p, 12), d), Window(s0 >> 44, s1 >> 44, s2 >> 44, s3 >> 44))
  {
    WindowStepAt12(ScaleRow0(p, d), ScaleRow1(p, d), ScaleRow2(p, d), ScaleRow3(p, d), s0, s1, s2, s3);
    ScaleWindowAt12(p, d);
  }

  lemma CombineStepAt12(p: bv64, d: GF16.Elem, r0: bv64, r1: bv64, r2: bv64, r3: bv64, s0: bv64, s1: bv64, s2: bv64, s3: bv64)
    requires r0 == Add(ScaleRow0(p, d), ShiftUp(s0))
    requires r1 == Add(ScaleRow1(p, d), ShiftUp(s1))
    requires r2 == Add(ScaleRow2(p, d), ShiftUp(s2))
    requires r3 == Add(ScaleRow3(p, d), ShiftUp(s3))
    ensures Coeff(Combine(r0, r1, r2, r3), 12) == GF16.Add(GF16.FieldMul(Coeff(p, 12), d), Coeff(Combine(s0, s1, s2, s3), 11))
  {
    CombineCoeffAt12(r0, r1, r2, r3);
    CombineWindowStepAt12(p, d, r0, r1, r2, r3, s0, s1, s2, s3);
    CombineCoeffAt11(s0, s1, s2, s3);
    WindowStepReduces(Coeff(Combine(r0, r1, r2, r3), 12), Coeff(Combine(s0, s1, s2, s3), 11), Coeff(p, 12), d, Window(s0 >> 44, s1 >> 44, s2 >> 44, s3 >> 44));
  }

  lemma CombineWindowStepAt13(p: bv64, d: GF16.Elem, r0: bv64, r1: bv64, r2: bv64, r3: bv64, s0: bv64, s1: bv64, s2: bv64, s3: bv64)
    requires r0 == Add(ScaleRow0(p, d), ShiftUp(s0))
    requires r1 == Add(ScaleRow1(p, d), ShiftUp(s1))
    requires r2 == Add(ScaleRow2(p, d), ShiftUp(s2))
    requires r3 == Add(ScaleRow3(p, d), ShiftUp(s3))
    ensures Window(r0 >> 52, r1 >> 52, r2 >> 52, r3 >> 52) == WindowSum(GF16.CarrylessMul(Coeff(p, 13), d), Window(s0 >> 48, s1 >> 48, s2 >> 48, s3 >> 48))
  {
    WindowStepAt13(ScaleRow0(p, d), ScaleRow1(p, d), ScaleRow2(p, d), ScaleRow3(p, d), s0, s1, s2, s3);
    ScaleWindowAt13(p, d);
  }

  lemma CombineStepAt13(p: bv64, d: GF16.Elem, r0: bv64, r1: bv64, r2: bv64, r3: bv64, s0: bv64, s1: bv64, s2: bv64, s3: bv64)
    requires r0 == Add(ScaleRow0(p, d), ShiftUp(s0))
    requires r1 == Add(ScaleRow1(p, d), ShiftUp(s1))
    requires r2 == Add(ScaleRow2(p, d), ShiftUp(s2))
    requires r3 == Add(ScaleRow3(p, d), ShiftUp(s3))
    ensures Coeff(Combine(r0, r1, r2, r3), 13) == GF16.Add(GF16.FieldMul(Coeff(p, 13), d), Coeff(Combine(s0, s1, s2, s3), 12))
  {
    CombineCoeffAt13(r0, r1, r2, r3);
    CombineWindowStepAt13(p, d, r0, r1, r2, r3, s0, s1, s2, s3);
    CombineCoeffAt12(s0, s1, s2, s3);
    WindowStepReduces(Coeff(Combine(r0, r1, r2, r3), 13), Coeff(Combine(s0, s1, s2, s3), 12), Coeff(p, 13), d, Window(s0 >> 48, s1 >> 48, s2 >> 48, s3 >> 48));
  }

  lemma CombineWindowStepAt14(p: bv64, d: GF16.Elem, r0: bv64, r1: bv64, r2: bv64, r3: bv64, s0: bv64, s1: bv64, s2: bv64, s3: bv64)
    requires r0 == Add(ScaleRow0(p, d), ShiftUp(s0))
    requires r1 == Add(ScaleRow1(p, d), ShiftUp(s1))
    requires r2 == Add(ScaleRow2(p, d), ShiftUp(s2))
    requires r3 == Add(ScaleRow3(p, d), ShiftUp(s3))
    ensures Window(r0 >> 56, r1 >> 56, r2 >> 56, r3 >> 56) == WindowSum(GF16.CarrylessMul(Coeff(p, 14), d), Window(s0 >> 52, s1 >> 52, s2 >> 52, s3 >> 52))
  {
    WindowStepAt14(ScaleRow0(p, d), ScaleRow1(p, d), ScaleRow2(p, d), ScaleRow3(p, d), s0, s1, s2, s3);
    ScaleWindowAt14(p, d);
  }

  lemma CombineStepAt14(p: bv64, d: GF16.Elem, r0: bv64, r1: bv64, r2: bv64, r3: bv64, s0: bv64, s1: bv64, s2: bv64, s3: bv64)
    requires r0 == Add(ScaleRow0(p, d), ShiftUp(s0))
    requires r1 == Add(ScaleRow1(p, d), ShiftUp(s1))
    requires r2 == Add(ScaleRow2(p, d), ShiftUp(s2))
    requires r3 == Add(ScaleRow3(p, d), ShiftUp(s3))
    ensures Coeff(Combine(r0, r1, r2, r3), 14) == GF16.Add(GF16.FieldMul(Coeff(p, 14), d), Coeff(Combine(s0, s1, s2, s3), 13))
  {
    CombineCoeffAt14(r0, r1, r2, r3);
    CombineWindowStepAt14(p, d, r0, r1, r2, r3, s0, s1, s2, s3);
    CombineCoeffAt13(s0, s1, s2, s3);
    WindowStepReduces(Coeff(Combine(r0, r1, r2, r3), 14), Coeff(Combine(s0, s1, s2, s3), 13), Coeff(p, 14), d, Window(s0 >> 52, s1 >> 52, s2 >> 52, s3 >> 52));
  }

  lemma FormalDerivativeCoeffAt0(p: bv64)
    ensures Coeff(FormalDerivative(p), 0) == Coeff(p, 1)
  {
  }

  lemma FormalDerivativeCoeffAt1(p: bv64)
    ensures Coeff(FormalDerivative(p), 1) == 0
  {
  }

  lemma FormalDerivativeCoeffAt2(p: bv64)
    ensures Coeff(FormalDerivative(p), 2) == Coeff(p, 3)
  {
  }

  lemma FormalDerivativeCoeffAt3(p: bv64)
    ensures Coeff(FormalDerivative(p), 3) == 0
  {
  }

  lemma FormalDerivativeCoeffAt4(p: bv64)
    ensures Coeff(FormalDerivative(p), 4) == Coeff(p, 5)
  {
  }

  lemma FormalDerivativeCoeffAt5(p: bv64)
    ensures Coeff(FormalDerivative(p), 5) == 0
  {
  }

  lemma FormalDerivativeCoeffAt6(p: bv64)
    ensures Coeff(FormalDerivative(p), 6) == Coeff(p, 7)
  {
  }

  lemma FormalDerivativeCoeffAt7(p: bv64)
    ensures Coeff(FormalDerivative(p), 7) == 0
  {
  }

  lemma FormalDerivativeCoeffAt8(p: bv64)
    ensures Coeff(FormalDerivative(p), 8) == Coeff(p, 9)
  {
  }

  lemma FormalDerivativeCoeffAt9(p: bv64)
    ensures Coeff(FormalDerivative(p), 9) == 0
  {
  }

  lemma FormalDerivativeCoeffAt10(p: bv64)
    ensures Coeff(FormalDerivative(p), 10) == Coeff(p, 11)
  {
  }

  lemma FormalDerivativeCoeffAt11(p: bv64)
    ensures Coeff(FormalDerivative(p), 11) == 0
  {
  }

  lemma FormalDerivativeCoeffAt12(p: bv64)
    ensures Coeff(FormalDerivative(p), 12) == Coeff(p, 13)
  {
  }

  lemma FormalDerivativeCoeffAt13(p: bv64)
    ensures Coeff(FormalDerivative(p), 13) == 0
  {
  }

  lemma FormalDerivativeCoeffAt14(p: bv64)
    requires p < Limit
    ensures Coeff(FormalDerivative(p), 14) == 0
  {
  }

  lemma CoeffLowDigitsAt0(q: bv64)
    ensures Coeff(q & 0xff_ffff, 0) == Coeff(q, 0)
  {
  }

  lemma CoeffLowDigitsAt1(q: bv64)
    ensures Coeff(q & 0xff_ffff, 1) == Coeff(q, 1)
  {
  }

  lemma CoeffLowDigitsAt2(q: bv64)
    ensures Coeff(q & 0xff_ffff, 2) == Coeff(q, 2)
  {
  }

  lemma CoeffLowDigitsAt3(q: bv64)
    ensures Coeff(q & 0xff_ffff, 3) == Coeff(q, 3)
  {
  }

  lemma CoeffLowDigitsAt4(q: bv64)
    ensures Coeff(q & 0xff_ffff, 4) == Coeff(q, 4)
  {
  }

  lemma CoeffLowDigitsAt5(q: bv64)
    ensures Coeff(q & 0xff_ffff, 5) == Coeff(q, 5)
  {
  }

  lemma GatedLowDigitsAt0(p: bv64, q: bv64)
    ensures Gated(p, q, 0) == Gated(p, q & 0xff_ffff, 0)
  {
  }

  lemma GatedLowDigitsAt1(p: bv64, q: bv64)
    ensures Gated(p, q, 1) == Gated(p, q & 0xff_ffff, 1)
  {
  }

  lemma GatedLowDigitsAt2(p: bv64, q: bv64)
    ensures Gated(p, q, 2) == Gated(p, q & 0xff_ffff, 2)
  {
  }

  lemma GatedLowDigitsAt3(p: bv64, q: bv64)
    ensures Gated(p, q, 3) == Gated(p, q & 0xff_ffff, 3)
  {
  }

  lemma GatedLowDigitsAt4(p: bv64, q: bv64)
    ensures Gated(p, q, 4) == Gated(p, q & 0xff_ffff, 4)
  {
  }

  lemma GatedLowDigitsAt5(p: bv64, q: bv64)
    ensures Gated(p, q, 5) == Gated(p, q & 0xff_ffff, 5)
  {
  }

  lemma GatedLowDigitsAt6(p: bv64, q: bv64)
    ensures Gated(p, q, 6) == Gated(p, q & 0xff_ffff, 6)
  {
  }

  lemma GatedLowDigitsAt7(p: bv64, q: bv64)
    ensures Gated(p, q, 7) == Gated(p, q & 0xff_ffff, 7)
  {
  }

  lemma GatedLowDigitsAt8(p: bv64, q: bv64)
    ensures Gated(p, q, 8) == Gated(p, q & 0xff_ffff, 8)
  {
  }

  lemma GatedLowDigitsAt9(p: bv64, q: bv64)
    ensures Gated(p, q, 9) == Gated(p, q & 0xff_ffff, 9)
  {
  }

  lemma GatedLowDigitsAt10(p: bv64, q: bv64)
    ensures Gated(p, q, 10) == Gated(p, q & 0xff_ffff, 10)
  {
  }

  lemma GatedLowDigitsAt11(p: bv64, q: bv64)
    ensures Gated(p, q, 11) == Gated(p, q & 0xff_ffff, 11)
  {
  }

  lemma GatedLowDigitsAt12(p: bv64, q: bv64)
    ensures Gated(p, q, 12) == Gated(p, q & 0xff_ffff, 12)
  {
  }

  lemma GatedLowDigitsAt13(p: bv64, q: bv64)
    ensures Gated(p, q, 13) == Gated(p, q & 0xff_ffff, 13)
  {
  }

  lemma GatedLowDigitsAt14(p: bv64, q: bv64)
    ensures Gated(p, q, 14) == Gated(p, q & 0xff_ffff, 14)
  {
  }

  lemma GatedLowDigitsAt15(p: bv64, q: bv64)
    ensures Gated(p, q, 15) == Gated(p, q & 0xff_ffff, 15)
  {
  }

  lemma GatedLowDigitsAt16(p: bv64, q: bv64)
    ensures Gated(p, q, 16) == Gated(p, q & 0xff_ffff, 16)
  {
  }

  lemma GatedLowDigitsAt17(p: bv64, q: bv64)
    ensures Gated(p, q, 17) == Gated(p, q & 0xff_ffff, 17)
  {
  }

  lemma GatedLowDigitsAt18(p: bv64, q: bv64)
    ensures Gated(p, q, 18) == Gated(p, q & 0xff_ffff, 18)
  {
  }

  lemma GatedLowDigitsAt19(p: bv64, q: bv64)
    ensures Gated(p, q, 19) == Gated(p, q & 0xff_ffff, 19)
  {
  }

  lemma GatedLowDigitsAt20(p: bv64, q: bv64)
    ensures Gated(p, q, 20) == Gated(p, q & 0xff_ffff, 20)
  {
  }

  lemma GatedLowDigitsAt21(p: bv64, q: bv64)
    ensures Gated(p, q, 21) == Gated(p, q & 0xff_ffff, 21)
  {
  }

  lemma GatedLowDigitsAt22(p: bv64, q: bv64)
    ensures Gated(p, q, 22) == Gated(p, q & 0xff_ffff, 22)
  {
  }

  lemma GatedLowDigitsAt23(p: bv64, q: bv64)
    ensures Gated(p, q, 23) == Gated(p, q & 0xff_ffff, 23)
  {
  }

  /** Coefficient k of a sum is the sum of the coefficients k. */
  lemma CoeffAdd(a: bv64, b: bv64, k: nat)
    requires k < Terms
    ensures Coeff(Add(a, b), k) == GF16.Add(Coeff(a, k), Coeff(b, k))
  {
    if k == 0 {
      CoeffAddAt0(a, b);
    } else if k == 1 {
      CoeffAddAt1(a, b);
    } else if k == 2 {
      CoeffAddAt2(a, b);
    } else if k == 3 {
      CoeffAddAt3(a, b);
    } else if k == 4 {
      CoeffAddAt4(a, b);
    } else if k == 5 {
      CoeffAddAt5(a, b);
    } else if k == 6 {
      CoeffAddAt6(a, b);
    } else if k == 7 {
      CoeffAddAt7(a, b);
    } else if k == 8 {
      CoeffAddAt8(a, b);
    } else if k == 9 {
      CoeffAddAt9(a, b);
    } else if k == 10 {
      CoeffAddAt10(a, b);
    } else if k == 11 {
      CoeffAddAt11(a, b);
    } else if k == 12 {
      CoeffAddAt12(a, b);
    } else if k == 13 {
      CoeffAddAt13(a, b);
    } else {
      CoeffAddAt14(a, b);
    }
  }

  /** Coefficient k of the common bits of two words is the and of their coefficients k. */
  lemma CoeffAnd(a: bv64, b: bv64, k: nat)
    requires k < Terms
    ensures Coeff(Common(a, b), k) == Coeff(a, k) & Coeff(b, k)
  {
    if k == 0 {
      CoeffAndAt0(a, b, k);
    } else if k == 1 {
      CoeffAndAt1(a, b, k);
    } else if k == 2 {
      CoeffAndAt2(a, b, k);
    } else if k == 3 {
      CoeffAndAt3(a, b, k);
    } else if k == 4 {
      CoeffAndAt4(a, b, k);
    } else if k == 5 {
      CoeffAndAt5(a, b, k);
    } else if k == 6 {
      CoeffAndAt6(a, b, k);
    } else if k == 7 {
      CoeffAndAt7(a, b, k);
    } else if k == 8 {
      CoeffAndAt8(a, b, k);
    } else if k == 9 {
      CoeffAndAt9(a, b, k);
    } else if k == 10 {
      CoeffAndAt10(a, b, k);
    } else if k == 11 {
      CoeffAndAt11(a, b, k);
    } else if k == 12 {
      CoeffAndAt12(a, b, k);
    } else if k == 13 {
      CoeffAndAt13(a, b, k);
    } else {
      CoeffAndAt14(a, b, k);
    }
  }

  lemma CoeffShiftUp(p: bv64, k: nat)
    requires k < Terms
    ensures Coeff(ShiftUp(p), k) == if k == 0 then 0 else Coeff(p, k - 1)
  {
    if k == 0 {
      CoeffShiftUpAt0(p);
    } else if k == 1 {
      CoeffShiftUpAt1(p);
    } else if k == 2 {
      CoeffShiftUpAt2(p);
    } else if k == 3 {
      CoeffShiftUpAt3(p);
    } else if k == 4 {
      CoeffShiftUpAt4(p);
    } else if k == 5 {
      CoeffShiftUpAt5(p);
    } else if k == 6 {
      CoeffShiftUpAt6(p);
    } else if k == 7 {
      CoeffShiftUpAt7(p);
    } else if k == 8 {
      CoeffShiftUpAt8(p);
    } else if k == 9 {
      CoeffShiftUpAt9(p);
    } else if k == 10 {
      CoeffShiftUpAt10(p);
    } else if k == 11 {
      CoeffShiftUpAt11(p);
    } else if k == 12 {
      CoeffShiftUpAt12(p);
    } else if k == 13 {
      CoeffShiftUpAt13(p);
    } else {
      CoeffShiftUpAt14(p);
    }
  }

  lemma CoeffShiftDown(p: bv64, k: nat)
    requires k < Terms
    requires k + 1 < Terms || p < Limit
    ensures Coeff(ShiftDown(p), k) == if k + 1 < Terms then Coeff(p, k + 1) else 0
  {
    if k == 0 {
      CoeffShiftDownAt0(p);
    } else if k == 1 {
      CoeffShiftDownAt1(p);
    } else if k == 2 {
      CoeffShiftDownAt2(p);
    } else if k == 3 {
      CoeffShiftDownAt3(p);
    } else if k == 4 {
      CoeffShiftDownAt4(p);
    } else if k == 5 {
      CoeffShiftDownAt5(p);
    } else if k == 6 {
      CoeffShiftDownAt6(p);
    } else if k == 7 {
      CoeffShiftDownAt7(p);
    } else if k == 8 {
      CoeffShiftDownAt8(p);
    } else if k == 9 {
      CoeffShiftDownAt9(p);
    } else if k == 10 {
      CoeffShiftDownAt10(p);
    } else if k == 11 {
      CoeffShiftDownAt11(p);
    } else if k == 12 {
      CoeffShiftDownAt12(p);
    } else if k == 13 {
      CoeffShiftDownAt13(p);
    } else {
      CoeffShiftDownAt14(p);
    }
  }

  lemma ScaleCoeff(p: bv64, x: GF16.Elem, k: nat)
    requires k < Terms
    ensures Coeff(Scale(p, x), k) == GF16.FieldMul(Coeff(p, k), x)
  {
    if k == 0 {
      ScaleCoeffAt0(p, x);
    } else if k == 1 {
      ScaleCoeffAt1(p, x);
    } else if k == 2 {
      ScaleCoeffAt2(p, x);
    } else if k == 3 {
      ScaleCoeffAt3(p, x);
    } else if k == 4 {
      ScaleCoeffAt4(p, x);
    } else if k == 5 {
      ScaleCoeffAt5(p, x);
    } else if k == 6 {
      ScaleCoeffAt6(p, x);
    } else if k == 7 {
      ScaleCoeffAt7(p, x);
    } else if k == 8 {
      ScaleCoeffAt8(p, x);
    } else if k == 9 {
      ScaleCoeffAt9(p, x);
    } else if k == 10 {
      ScaleCoeffAt10(p, x);
    } else if k == 11 {
      ScaleCoeffAt11(p, x);
    } else if k == 12 {
      ScaleCoeffAt12(p, x);
    } else if k == 13 {
      ScaleCoeffAt13(p, x);
    } else {
      ScaleCoeffAt14(p, x);
    }
  }

  /** One step of the long multiplication: rows for q are the rows of its constant coefficient plus the rows for the rest of q, one place up. */
  lemma CombineStep(p: bv64, d: GF16.Elem, r0: bv64, r1: bv64, r2: bv64, r3: bv64, s0: bv64, s1: bv64, s2: bv64, s3: bv64, k: nat)
    requires k < Terms
    requires r0 == Add(ScaleRow0(p, d), ShiftUp(s0))
    requires r1 == Add(ScaleRow1(p, d), ShiftUp(s1))
    requires r2 == Add(ScaleRow2(p, d), ShiftUp(s2))
    requires r3 == Add(ScaleRow3(p, d), ShiftUp(s3))
    requires s1 & 1 == 0 && s2 & 3 == 0 && s3 & 7 == 0
    ensures Coeff(Combine(r0, r1, r2, r3), k)
         == if k == 0 then GF16.FieldMul(Coeff(p, 0), d)
            else GF16.Add(GF16.FieldMul(Coeff(p, k), d), Coeff(Combine(s0, s1, s2, s3), k - 1))
  {
    if k == 0 {
      CombineStepAt0(p, d, r0, r1, r2, r3, s0, s1, s2, s3);
    } else if k == 1 {
      CombineStepAt1(p, d, r0, r1, r2, r3, s0, s1, s2, s3);
    } else if k == 2 {
      CombineStepAt2(p, d, r0, r1, r2, r3, s0, s1, s2, s3);
    } else if k == 3 {
      CombineStepAt3(p, d, r0, r1, r2, r3, s0, s1, s2, s3);
    } else if k == 4 {
      CombineStepAt4(p, d, r0, r1, r2, r3, s0, s1, s2, s3);
    } else if k == 5 {
      CombineStepAt5(p, d, r0, r1, r2, r3, s0, s1, s2, s3);
    } else if k == 6 {
      CombineStepAt6(p, d, r0, r1, r2, r3, s0, s1, s2, s3);
    } else if k == 7 {
      CombineStepAt7(p, d, r0, r1, r2, r3, s0, s1, s2, s3);
    } else if k == 8 {
      CombineStepAt8(p, d, r0, r1, r2, r3, s0, s1, s2, s3);
    } else if k == 9 {
      CombineStepAt9(p, d, r0, r1, r2, r3, s0, s1, s2, s3);
    } else if k == 10 {
      CombineStepAt10(p, d, r0, r1, r2, r3, s0, s1, s2, s3);
    } else if k == 11 {
      CombineStepAt11(p, d, r0, r1, r2, r3, s0, s1, s2, s3);
    } else if k == 12 {
      CombineStepAt12(p, d, r0, r1, r2, r3, s0, s1, s2, s3);
    } else if k == 13 {
      CombineStepAt13(p, d, r0, r1, r2, r3, s0, s1, s2, s3);
    } else {
      CombineStepAt14(p, d, r0, r1, r2, r3, s0, s1, s2, s3);
    }
  }

  lemma FormalDerivativeCoeff(p: bv64, k: nat)
    requires k < Terms
    requires p < Limit
    ensures Coeff(FormalDerivative(p), k) == if k % 2 == 0 && k + 1 < Terms then Coeff(p, k + 1) else 0
  {
    if k == 0 {
      FormalDerivativeCoeffAt0(p);
    } else if k == 1 {
      FormalDerivativeCoeffAt1(p);
    } else if k == 2 {
      FormalDerivativeCoeffAt2(p);
    } else if k == 3 {
      FormalDerivativeCoeffAt3(p);
    } else if k == 4 {
      FormalDerivativeCoeffAt4(p);
    } else if k == 5 {
      FormalDerivativeCoeffAt5(p);
    } else if k == 6 {
      FormalDerivativeCoeffAt6(p);
    } else if k == 7 {
      FormalDerivativeCoeffAt7(p);
    } else if k == 8 {
      FormalDerivativeCoeffAt8(p);
    } else if k == 9 {
      FormalDerivativeCoeffAt9(p);
    } else if k == 10 {
      FormalDerivativeCoeffAt10(p);
    } else if k == 11 {
      FormalDerivativeCoeffAt11(p);
    } else if k == 12 {
      FormalDerivativeCoeffAt12(p);
    } else if k == 13 {
      FormalDerivativeCoeffAt13(p);
    } else {
      FormalDerivativeCoeffAt14(p);
    }
  }

  lemma CoeffLowDigits(q: bv64, k: nat)
    requires k < 6
    ensures Coeff(q & 0xff_ffff, k) == Coeff(q, k)
  {
    if k == 0 {
      CoeffLowDigitsAt0(q);
    } else if k == 1 {
      CoeffLowDigitsAt1(q);
    } else if k == 2 {
      CoeffLowDigitsAt2(q);
    } else if k == 3 {
      CoeffLowDigitsAt3(q);
    } else if k == 4 {
      CoeffLowDigitsAt4(q);
    } else {
      CoeffLowDigitsAt5(q);
    }
  }

  lemma CoeffTopAt0(p: bv64)
    requires Bound(0) <= p < Bound(1)
    ensures Coeff(p, 0) != 0
  {
  }

  lemma CoeffTopAt1(p: bv64)
    requires Bound(1) <= p < Bound(2)
    ensures Coeff(p, 1) != 0
  {
  }

  lemma CoeffTopAt2(p: bv64)
    requires Bound(2) <= p < Bound(3)
    ensures Coeff(p, 2) != 0
  {
  }

  lemma CoeffTopAt3(p: bv64)
    requires Bound(3) <= p < Bound(4)
    ensures Coeff(p, 3) != 0
  {
  }

  lemma CoeffTopAt4(p: bv64)
    requires Bound(4) <= p < Bound(5)
    ensures Coeff(p, 4) != 0
  {
  }

  lemma CoeffTopAt5(p: bv64)
    requires Bound(5) <= p < Bound(6)
    ensures Coeff(p, 5) != 0
  {
  }

  lemma CoeffTopAt6(p: bv64)
    requires Bound(6) <= p < Bound(7)
    ensures Coeff(p, 6) != 0
  {
  }

  lemma CoeffTopAt7(p: bv64)
    requires Bound(7) <= p < Bound(8)
    ensures Coeff(p, 7) != 0
  {
  }

  lemma CoeffTopAt8(p: bv64)
    requires Bound(8) <= p < Bound(9)
    ensures Coeff(p, 8) != 0
  {
  }

  lemma CoeffTopAt9(p: bv64)
    requires Bound(9) <= p < Bound(10)
    ensures Coeff(p, 9) != 0
  {
  }

  lemma CoeffTopAt10(p: bv64)
    requires Bound(10) <= p < Bound(11)
    ensures Coeff(p, 10) != 0
  {
  }

  lemma CoeffTopAt11(p: bv64)
    requires Bound(11) <= p < Bound(12)
    ensures Coeff(p, 11) != 0
  {
  }

  lemma CoeffTopAt12(p: bv64)
    requires Bound(12) <= p < Bound(13)
    ensures Coeff(p, 12) != 0
  {
  }

  lemma CoeffTopAt13(p: bv64)
    requires Bound(13) <= p < Bound(14)
    ensures Coeff(p, 13) != 0
  {
  }

  lemma CoeffTopAt14(p: bv64)
    requires Bound(14) <= p < Bound(15)
    ensures Coeff(p, 14) != 0
  {
  }

  /** Bound grows with the number of terms. */
  lemma BoundMonotone(n: nat, j: nat)
    requires n <= j <= Terms
    ensures Bound(n) <= Bound(j)
  {
  }

  lemma CoeffTopLow(p: bv64, k: nat)
    requires k < Terms
    requires Bound(k) <= p < Bound(k + 1)
    requires 0 <= k <= 4
    ensures Coeff(p, k) != 0
  {
    if k == 0 {
      CoeffTopAt0(p);
    } else if k == 1 {
      CoeffTopAt1(p);
    } else if k == 2 {
      CoeffTopAt2(p);
    } else if k == 3 {
      CoeffTopAt3(p);
    } else {
      CoeffTopAt4(p);
    }
  }

  lemma CoeffTopMid(p: bv64, k: nat)
    requires k < Terms
    requires Bound(k) <= p < Bound(k + 1)
    requires 5 <= k <= 9
    ensures Coeff(p, k) != 0
  {
    if k == 5 {
      CoeffTopAt5(p);
    } else if k == 6 {
      CoeffTopAt6(p);
    } else if k == 7 {
      CoeffTopAt7(p);
    } else if k == 8 {
      CoeffTopAt8(p);
    } else {
      CoeffTopAt9(p);
    }
  }

  lemma CoeffTopHigh(p: bv64, k: nat)
    requires k < Terms
    requires Bound(k) <= p < Bound(k + 1)
    requires 10 <= k <= 14
    ensures Coeff(p, k) != 0
  {
    if k == 10 {
      CoeffTopAt10(p);
    } else if k == 11 {
      CoeffTopAt11(p);
    } else if k == 12 {
      CoeffTopAt12(p);
    } else if k == 13 {
      CoeffTopAt13(p);
    } else {
      CoeffTopAt14(p);
    }
  }

  /** A word from Bound(k) up to Bound(k + 1) has a non-zero coefficient k. */
  lemma CoeffTop(p: bv64, k: nat)
    requires k < Terms
    requires Bound(k) <= p < Bound(k + 1)
    ensures Coeff(p, k) != 0
  {
    if k <= 4 {
      CoeffTopLow(p, k);
    } else if k <= 9 {
      CoeffTopMid(p, k);
    } else {
      CoeffTopHigh(p, k);
    }
  }

  lemma OrderPowersAt0(p: bv64, k: nat)
    requires k == 0
    requires k <= Terms && p < Pow16(k)
    ensures Poly16.Order(Coeffs(p)) == k - 1 && Fits(p, 4 * k) && (k > 0 ==> !Fits(p, 4 * k - 4))
  {
    FitsBoundAt0(p, k);
    TopTermsZero(p, k);
    Poly16.OrderOf(Coeffs(p), -1);
  }

  lemma OrderPowersAt1(p: bv64, k: nat)
    requires k == 1
    requires k <= Terms && p < Pow16(k)
    requires k > 0 ==> Pow16(k - 1) <= p
    ensures Poly16.Order(Coeffs(p)) == k - 1 && Fits(p, 4 * k) && (k > 0 ==> !Fits(p, 4 * k - 4))
  {
    FitsBoundAt1(p, k);
    TopTermsZero(p, k);
    assert k - 1 == 0 && 4 * k - 4 == 0;
    CoeffTopAt0(p);
    CoeffsAt(p, 0);
    FitsBoundAt0(p, k - 1);
    Poly16.OrderOf(Coeffs(p), 0);
  }

  lemma OrderPowersAt2(p: bv64, k: nat)
    requires k == 2
    requires k <= Terms && p < Pow16(k)
    requires k > 0 ==> Pow16(k - 1) <= p
    ensures Poly16.Order(Coeffs(p)) == k - 1 && Fits(p, 4 * k) && (k > 0 ==> !Fits(p, 4 * k - 4))
  {
    FitsBoundAt2(p, k);
    TopTermsZero(p, k);
    assert k - 1 == 1 && 4 * k - 4 == 4;
    CoeffTopAt1(p);
    CoeffsAt(p, 1);
    FitsBoundAt1(p, k - 1);
    Poly16.OrderOf(Coeffs(p), 1);
  }

  lemma OrderPowersAt3(p: bv64, k: nat)
    requires k == 3
    requires k <= Terms && p < Pow16(k)
    requires k > 0 ==> Pow16(k - 1) <= p
    ensures Poly16.Order(Coeffs(p)) == k - 1 && Fits(p, 4 * k) && (k > 0 ==> !Fits(p, 4 * k - 4))
  {
    FitsBoundAt3(p, k);
    TopTermsZero(p, k);
    assert k - 1 == 2 && 4 * k - 4 == 8;
    CoeffTopAt2(p);
    CoeffsAt(p, 2);
    FitsBoundAt2(p, k - 1);
    Poly16.OrderOf(Coeffs(p), 2);
  }

  lemma OrderPowersAt4(p: bv64, k: nat)
    requires k == 4
    requires k <= Terms && p < Pow16(k)
    requires k > 0 ==> Pow16(k - 1) <= p
    ensures Poly16.Order(Coeffs(p)) == k - 1 && Fits(p, 4 * k) && (k > 0 ==> !Fits(p, 4 * k - 4))
  {
    FitsBoundAt4(p, k);
    TopTermsZero(p, k);
    assert k - 1 == 3 && 4 * k - 4 == 12;
    CoeffTopAt3(p);
    CoeffsAt(p, 3);
    FitsBoundAt3(p, k - 1);
    Poly16.OrderOf(Coeffs(p), 3);
  }

  lemma OrderPowersAt5(p: bv64, k: nat)
    requires k == 5
    requires k <= Terms && p < Pow16(k)
    requires k > 0 ==> Pow16(k - 1) <= p
    ensures Poly16.Order(Coeffs(p)) == k - 1 && Fits(p, 4 * k) && (k > 0 ==> !Fits(p, 4 * k - 4))
  {
    FitsBoundAt5(p, k);
    TopTermsZero(p, k);
    assert k - 1 == 4 && 4 * k - 4 == 16;
    CoeffTopAt4(p);
    CoeffsAt(p, 4);
    FitsBoundAt4(p, k - 1);
    Poly16.OrderOf(Coeffs(p), 4);
  }

  lemma OrderPowersAt6(p: bv64, k: nat)
    requires k == 6
    requires k <= Terms && p < Pow16(k)
    requires k > 0 ==> Pow16(k - 1) <= p
    ensures Poly16.Order(Coeffs(p)) == k - 1 && Fits(p, 4 * k) && (k > 0 ==> !Fits(p, 4 * k - 4))
  {
    FitsBoundAt6(p, k);
    TopTermsZero(p, k);
    assert k - 1 == 5 && 4 * k - 4 == 20;
    CoeffTopAt5(p);
    CoeffsAt(p, 5);
    FitsBoundAt5(p, k - 1);
    Poly16.OrderOf(Coeffs(p), 5);
  }

  lemma OrderPowersAt7(p: bv64, k: nat)
    requires k == 7
    requires k <= Terms && p < Pow16(k)
    requires k > 0 ==> Pow16(k - 1) <= p
    ensures Poly16.Order(Coeffs(p)) == k - 1 && Fits(p, 4 * k) && (k > 0 ==> !Fits(p, 4 * k - 4))
  {
    FitsBoundAt7(p, k);
    TopTermsZero(p, k);
    assert k - 1 == 6 && 4 * k - 4 == 24;
    CoeffTopAt6(p);
    CoeffsAt(p, 6);
    FitsBoundAt6(p, k - 1);
    Poly16.OrderOf(Coeffs(p), 6);
  }

  lemma OrderPowersAt8(p: bv64, k: nat)
    requires k == 8
    requires k <= Terms && p < Pow16(k)
    requires k > 0 ==> Pow16(k - 1) <= p
    ensures Poly16.Order(Coeffs(p)) == k - 1 && Fits(p, 4 * k) && (k > 0 ==> !Fits(p, 4 * k - 4))
  {
    FitsBoundAt8(p, k);
    TopTermsZero(p, k);
    assert k - 1 == 7 && 4 * k - 4 == 28;
    CoeffTopAt7(p);
    CoeffsAt(p, 7);
    FitsBoundAt7(p, k - 1);
    Poly16.OrderOf(Coeffs(p), 7);
  }

  lemma OrderPowersAt9(p: bv64, k: nat)
    requires k == 9
    requires k <= Terms && p < Pow16(k)
    requires k > 0 ==> Pow16(k - 1) <= p
    ensures Poly16.Order(Coeffs(p)) == k - 1 && Fits(p, 4 * k) && (k > 0 ==> !Fits(p, 4 * k - 4))
  {
    FitsBoundAt9(p, k);
    TopTermsZero(p, k);
    assert k - 1 == 8 && 4 * k - 4 == 32;
    CoeffTopAt8(p);
    CoeffsAt(p, 8);
    FitsBoundAt8(p, k - 1);
    Poly16.OrderOf(Coeffs(p), 8);
  }

  lemma OrderPowersAt10(p: bv64, k: nat)
    requires k == 10
    requires k <= Terms && p < Pow16(k)
    requires k > 0 ==> Pow16(k - 1) <= p
    ensures Poly16.Order(Coeffs(p)) == k - 1 && Fits(p, 4 * k) && (k > 0 ==> !Fits(p, 4 * k - 4))
  {
    FitsBoundAt10(p, k);
    TopTermsZero(p, k);
    assert k - 1 == 9 && 4 * k - 4 == 36;
    CoeffTopAt9(p);
    CoeffsAt(p, 9);
    FitsBoundAt9(p, k - 1);
    Poly16.OrderOf(Coeffs(p), 9);
  }

  lemma OrderPowersAt11(p: bv64, k: nat)
    requires k == 11
    requires k <= Terms && p < Pow16(k)
    requires k > 0 ==> Pow16(k - 1) <= p
    ensures Poly16.Order(Coeffs(p)) == k - 1 && Fits(p, 4 * k) && (k > 0 ==> !Fits(p, 4 * k - 4))
  {
    FitsBoundAt11(p, k);
    TopTermsZero(p, k);
    assert k - 1 == 10 && 4 * k - 4 == 40;
    CoeffTopAt10(p);
    CoeffsAt(p, 10);
    FitsBoundAt10(p, k - 1);
    Poly16.OrderOf(Coeffs(p), 10);
  }

  lemma OrderPowersAt12(p: bv64, k: nat)
    requires k == 12
    requires k <= Terms && p < Pow16(k)
    requires k > 0 ==> Pow16(k - 1) <= p
    ensures Poly16.Order(Coeffs(p)) == k - 1 && Fits(p, 4 * k) && (k > 0 ==> !Fits(p, 4 * k - 4))
  {
    FitsBoundAt12(p, k);
    TopTermsZero(p, k);
    assert k - 1 == 11 && 4 * k - 4 == 44;
    CoeffTopAt11(p);
    CoeffsAt(p, 11);
    FitsBoundAt11(p, k - 1);
    Poly16.OrderOf(Coeffs(p), 11);
  }

  lemma OrderPowersAt13(p: bv64, k: nat)
    requires k == 13
    requires k <= Terms && p < Pow16(k)
    requires k > 0 ==> Pow16(k - 1) <= p
    ensures Poly16.Order(Coeffs(p)) == k - 1 && Fits(p, 4 * k) && (k > 0 ==> !Fits(p, 4 * k - 4))
  {
    FitsBoundAt13(p, k);
    TopTermsZero(p, k);
    assert k - 1 == 12 && 4 * k - 4 == 48;
    CoeffTopAt12(p);
    CoeffsAt(p, 12);
    FitsBoundAt12(p, k - 1);
    Poly16.OrderOf(Coeffs(p), 12);
  }

  lemma OrderPowersAt14(p: bv64, k: nat)
    requires k == 14
    requires k <= Terms && p < Pow16(k)
    requires k > 0 ==> Pow16(k - 1) <= p
    ensures Poly16.Order(Coeffs(p)) == k - 1 && Fits(p, 4 * k) && (k > 0 ==> !Fits(p, 4 * k - 4))
  {
    FitsBoundAt14(p, k);
    TopTermsZero(p, k);
    assert k - 1 == 13 && 4 * k - 4 == 52;
    CoeffTopAt13(p);
    CoeffsAt(p, 13);
    FitsBoundAt13(p, k - 1);
    Poly16.OrderOf(Coeffs(p), 13);
  }

  lemma OrderPowersAt15(p: bv64, k: nat)
    requires k == 15
    requires k <= Terms && p < Pow16(k)
    requires k > 0 ==> Pow16(k - 1) <= p
    ensures Poly16.Order(Coeffs(p)) == k - 1 && Fits(p, 4 * k) && (k > 0 ==> !Fits(p, 4 * k - 4))
  {
    PowerFifteen();
    FitsBoundAt15(p, k);
    TopTermsZero(p, k);
    assert k - 1 == 14 && 4 * k - 4 == 56;
    CoeffTopAt14(p);
    CoeffsAt(p, 14);
    FitsBoundAt14(p, k - 1);
    Poly16.OrderOf(Coeffs(p), 14);
  }

  /** A word from 16^(k - 1) up to 16^k has order k - 1 and fits in 4k bits but not in 4k - 4. */
  lemma OrderPowers(p: bv64, k: nat)
    requires k <= Terms && p < Pow16(k)
    requires k > 0 ==> Pow16(k - 1) <= p
    ensures Poly16.Order(Coeffs(p)) == k - 1 && Fits(p, 4 * k) && (k > 0 ==> !Fits(p, 4 * k - 4))
  {
    if k == 0 {
      OrderPowersAt0(p, k);
    } else if k == 1 {
      OrderPowersAt1(p, k);
    } else if k == 2 {
      OrderPowersAt2(p, k);
    } else if k == 3 {
      OrderPowersAt3(p, k);
    } else if k == 4 {
      OrderPowersAt4(p, k);
    } else if k == 5 {
      OrderPowersAt5(p, k);
    } else if k == 6 {
      OrderPowersAt6(p, k);
    } else if k == 7 {
      OrderPowersAt7(p, k);
    } else if k == 8 {
      OrderPowersAt8(p, k);
    } else if k == 9 {
      OrderPowersAt9(p, k);
    } else if k == 10 {
      OrderPowersAt10(p, k);
    } else if k == 11 {
      OrderPowersAt11(p, k);
    } else if k == 12 {
      OrderPowersAt12(p, k);
    } else if k == 13 {
      OrderPowersAt13(p, k);
    } else if k == 14 {
      OrderPowersAt14(p, k);
    } else {
      OrderPowersAt15(p, k);
    }
  }

  lemma FitsBoundAt0(p: bv64, k: nat)
    requires k == 0
    ensures Fits(p, 4 * k) <==> p < Bound(k)
  {
  }

  lemma FitsBoundAt1(p: bv64, k: nat)
    requires k == 1
    ensures Fits(p, 4 * k) <==> p < Bound(k)
  {
    FitsBoundAt0(ShiftDown(p), k - 1);
  }

  lemma FitsBoundAt2(p: bv64, k: nat)
    requires k == 2
    ensures Fits(p, 4 * k) <==> p < Bound(k)
  {
    FitsBoundAt1(ShiftDown(p), k - 1);
  }

  lemma FitsBoundAt3(p: bv64, k: nat)
    requires k == 3
    ensures Fits(p, 4 * k) <==> p < Bound(k)
  {
    FitsBoundAt2(ShiftDown(p), k - 1);
  }

  lemma FitsBoundAt4(p: bv64, k: nat)
    requires k == 4
    ensures Fits(p, 4 * k) <==> p < Bound(k)
  {
    FitsBoundAt3(ShiftDown(p), k - 1);
  }

  lemma FitsBoundAt5(p: bv64, k: nat)
    requires k == 5
    ensures Fits(p, 4 * k) <==> p < Bound(k)
  {
    FitsBoundAt4(ShiftDown(p), k - 1);
  }

  lemma FitsBoundAt6(p: bv64, k: nat)
    requires k == 6
    ensures Fits(p, 4 * k) <==> p < Bound(k)
  {
    FitsBoundAt5(ShiftDown(p), k - 1);
  }

  lemma FitsBoundAt7(p: bv64, k: nat)
    requires k == 7
    ensures Fits(p, 4 * k) <==> p < Bound(k)
  {
    FitsBoundAt6(ShiftDown(p), k - 1);
  }

  lemma FitsBoundAt8(p: bv64, k: nat)
    requires k == 8
    ensures Fits(p, 4 * k) <==> p < Bound(k)
  {
    FitsBoundAt7(ShiftDown(p), k - 1);
  }

  lemma FitsBoundAt9(p: bv64, k: nat)
    requires k == 9
    ensures Fits(p, 4 * k) <==> p < Bound(k)
  {
    FitsBoundAt8(ShiftDown(p), k - 1);
  }

  lemma FitsBoundAt10(p: bv64, k: nat)
    requires k == 10
    ensures Fits(p, 4 * k) <==> p < Bound(k)
  {
    FitsBoundAt9(ShiftDown(p), k - 1);
  }

  lemma FitsBoundAt11(p: bv64, k: nat)
    requires k == 11
    ensures Fits(p, 4 * k) <==> p < Bound(k)
  {
    FitsBoundAt10(ShiftDown(p), k - 1);
  }

  lemma FitsBoundAt12(p: bv64, k: nat)
    requires k == 12
    ensures Fits(p, 4 * k) <==> p < Bound(k)
  {
    FitsBoundAt11(ShiftDown(p), k - 1);
  }

  lemma FitsBoundAt13(p: bv64, k: nat)
    requires k == 13
    ensures Fits(p, 4 * k) <==> p < Bound(k)
  {
    FitsBoundAt12(ShiftDown(p), k - 1);
  }

  lemma FitsBoundAt14(p: bv64, k: nat)
    requires k == 14
    ensures Fits(p, 4 * k) <==> p < Bound(k)
  {
    FitsBoundAt13(ShiftDown(p), k - 1);
  }

  lemma FitsBoundAt15(p: bv64, k: nat)
    requires k == 15
    ensures Fits(p, 4 * k) <==> p < Bound(k)
  {
    FitsBoundAt14(ShiftDown(p), k - 1);
  }

  /** Fitting in 4k bits is lying below 16^k. */
  lemma FitsBound(p: bv64, k: nat)
    requires k <= Terms
    ensures Fits(p, 4 * k) <==> p < Bound(k)
  {
    if k == 0 {
      FitsBoundAt0(p, k);
    } else if k == 1 {
      FitsBoundAt1(p, k);
    } else if k == 2 {
      FitsBoundAt2(p, k);
    } else if k == 3 {
      FitsBoundAt3(p, k);
    } else if k == 4 {
      FitsBoundAt4(p, k);
    } else if k == 5 {
      FitsBoundAt5(p, k);
    } else if k == 6 {
      FitsBoundAt6(p, k);
    } else if k == 7 {
      FitsBoundAt7(p, k);
    } else if k == 8 {
      FitsBoundAt8(p, k);
    } else if k == 9 {
      FitsBoundAt9(p, k);
    } else if k == 10 {
      FitsBoundAt10(p, k);
    } else if k == 11 {
      FitsBoundAt11(p, k);
    } else if k == 12 {
      FitsBoundAt12(p, k);
    } else if k == 13 {
      FitsBoundAt13(p, k);
    } else if k == 14 {
      FitsBoundAt14(p, k);
    } else {
      FitsBoundAt15(p, k);
    }
  }

  /** A word below Limit whose coefficients from n up are all 0 fits in 4n bits. */
  lemma FitsFromCoeffs(p: bv64, n: nat)
    requires p < Limit && n <= Terms
    requires forall j :: n <= j < Terms ==> Coeffs(p)[j] == 0
    ensures Fits(p, 4 * n)
  {
    OrderBelow(Coeffs(p), n);
    var k := FitsOrder(p);
    FitsMonotone(p, 4 * k, 4 * n);
  }

  /** A word below Limit fits in 4k bits, for k one more than its order. */
  lemma FitsOrder(p: bv64) returns (k: nat)
    requires p < Limit
    ensures k == Poly16.Order(Coeffs(p)) + 1 && k <= Terms && Fits(p, 4 * k)
  {
    var i: bv64 := 1;
    k := 0;
    while i <= p
      invariant k <= Terms && i == Pow16(k) && (k > 0 ==> Pow16(k - 1) <= p)
      decreases Terms - k
    {
      var i0, k0 := i, k;
      i := ShiftUp(i);
      k := k + 1;
      PowerStep(p, i0, k0, i, k);
    }
    OrderPowers(p, k);
  }

  /** A word that fits in a bits fits in every b >= a bits. */
  lemma {:induction false} FitsMonotone(p: bv64, a: int, b: int)
    requires a <= b && Fits(p, a)
    ensures Fits(p, b)
    decreases b
  {
    if a <= 0 {
      ZeroFits(b);
    } else {
      FitsMonotone(ShiftDown(p), a - 4, b - 4);
    }
  }

  /** The zero word fits in any size. */
  lemma {:induction false} ZeroFits(b: int)
    ensures Fits(0, b)
    decreases b
  {
    if b > 0 {
      assert ShiftDown(0) == 0;
      ZeroFits(b - 4);
    }
  }

  /** Coefficients all 0 from n up put the order below n. */
  lemma OrderBelow(P: Poly16.Poly, n: nat)
    requires n <= |P|
    requires forall j :: n <= j < |P| ==> P[j] == 0
    ensures Poly16.Order(P) < n
  {
    Poly16.OrderIsTop(P);
  }

  // ---------------------------------------------------------------------
  // Coefficient sequences
  // ---------------------------------------------------------------------

  /** A word whose coefficients agree with a fifteen-term sequence has that sequence as its coefficients. */
  lemma CoeffsEqual(m: bv64, s: Poly16.Poly)
    requires |s| == Terms
    requires forall k :: 0 <= k < Terms ==> Coeff(m, k) == s[k]
    ensures Coeffs(m) == s
  {
  }

  lemma CoeffsAdd(a: bv64, b: bv64)
    ensures Coeffs(Add(a, b)) == Poly16.Add(Coeffs(a), Coeffs(b))
  {
    forall k | 0 <= k < Terms
      ensures Coeffs(Add(a, b))[k] == Poly16.Add(Coeffs(a), Coeffs(b))[k]
    {
      CoeffAdd(a, b, k);
    }
  }

  lemma CoeffsShiftUp(p: bv64)
    ensures Coeffs(ShiftUp(p)) == Poly16.ShiftUp(Coeffs(p))
  {
    forall k | 0 <= k < Terms
      ensures Coeffs(ShiftUp(p))[k] == Poly16.ShiftUp(Coeffs(p))[k]
    {
      CoeffShiftUp(p, k);
    }
  }

  lemma CoeffsShiftDown(p: bv64)
    requires p < Limit
    ensures Coeffs(ShiftDown(p)) == Poly16.ShiftDown(Coeffs(p))
  {
    forall k | 0 <= k < Terms
      ensures Coeffs(ShiftDown(p))[k] == Poly16.ShiftDown(Coeffs(p))[k]
    {
      CoeffShiftDown(p, k);
    }
  }

  lemma CoeffsOfZero()
    ensures Coeffs(0) == Poly16.Zero(Terms)
  {
    forall k | 0 <= k < Terms
      ensures Coeffs(0)[k] == 0
    {
      CoeffShiftDown(0, k);
    }
  }

  /** gf16_poly_scale multiplies every coefficient of p by x. */
  lemma ScaleIsScaleBy(p: bv64, x: GF16.Elem)
    ensures Coeffs(Scale(p, x)) == Poly16.ScaleBy(Coeffs(p), x)
  {
    forall k | 0 <= k < Terms
      ensures Coeffs(Scale(p, x))[k] == Poly16.ScaleBy(Coeffs(p), x)[k]
    {
      ScaleCoeff(p, x, k);
      GF16.MulIsFieldMul(Coeff(p, k), x);
    }
  }

  lemma GatedMulStep(p: bv64, q: bv64, k: nat)
    requires q < 0x100_0000 && k < Terms
    ensures Coeff(GatedMul(p, q), k)
         == if k == 0 then GF16.FieldMul(Coeff(p, 0), Digit(q))
            else GF16.Add(GF16.FieldMul(Coeff(p, k), Digit(q)), Coeff(GatedMul(p, ShiftDown(q)), k - 1))
  {
    var q' := ShiftDown(q);
    GatedRowsStep(p, q);
    GatedRowsStep(p, q');
    StepLowBits(p, Digit(q'), GatedRow1(p, q'), GatedRow2(p, q'), GatedRow3(p, q'), GatedRow1(p, ShiftDown(q')), GatedRow2(p, ShiftDown(q')), GatedRow3(p, ShiftDown(q')));
    CombineStep(p, Digit(q), GatedRow0(p, q), GatedRow1(p, q), GatedRow2(p, q), GatedRow3(p, q), GatedRow0(p, q'), GatedRow1(p, q'), GatedRow2(p, q'), GatedRow3(p, q'), k);
  }

  /** Dropping the first of n terms of c leaves the first n - 1 terms of d when d is c moved down one place. */
  lemma SliceShift(c: Poly16.Poly, d: Poly16.Poly, n: nat)
    requires 0 < n <= |c| && n - 1 <= |d|
    requires forall i :: 0 <= i < n - 1 ==> d[i] == c[i + 1]
    ensures c[..n][1..] == d[..n - 1]
  {
    assert forall i :: 0 <= i < n - 1 ==> c[..n][1..][i] == c[i + 1];
  }

  /** The coefficients of ShiftDown(q) are those of q moved down one place. */
  lemma CoeffsMoveDown(q: bv64, i: nat)
    requires i + 1 < Terms
    ensures Coeffs(ShiftDown(q))[i] == Coeffs(q)[i + 1]
  {
    CoeffShiftDown(q, i);
  }

  lemma DigitsShift(q: bv64, n: nat)
    requires 0 < n <= Terms
    ensures Coeffs(q)[..n][1..] == Coeffs(ShiftDown(q))[..n - 1]
  {
    forall i | 0 <= i < n - 1
      ensures Coeffs(ShiftDown(q))[i] == Coeffs(q)[i + 1]
    {
      CoeffsMoveDown(q, i);
    }
    SliceShift(Coeffs(q), Coeffs(ShiftDown(q)), n);
  }

  /** Coefficient k of m is one step of the product of p by q, given m' for q moved down one place. */
  predicate ProductStep(p: bv64, q: bv64, m: bv64, m': bv64, k: nat)
    requires k < Terms
  {
    Coeff(m, k) == if k == 0 then GF16.FieldMul(Coeff(p, 0), Digit(q))
                   else GF16.Add(GF16.FieldMul(Coeff(p, k), Digit(q)), Coeff(m', k - 1))
  }

  /** Every coefficient of m is one product step from m'. */
  predicate ProductSteps(p: bv64, q: bv64, m: bv64, m': bv64)
  {
    forall k :: 0 <= k < Terms ==> ProductStep(p, q, m, m', k)
  }

  /** Coefficient k of the product, from the coefficient k - 1 of the product by the rest of q. */
  lemma ProductHigher(P: Poly16.Poly, Q: Poly16.Poly, R: Poly16.Poly, a: GF16.Elem, d: GF16.Elem, r: GF16.Elem, c: GF16.Elem, k: nat)
    requires 0 < k < |P| && |Q| > 0
    requires P[k] == a && Q[0] == d
    requires R == Poly16.Product(P, Q[1..]) && R[k - 1] == r
    requires c == GF16.Add(GF16.FieldMul(a, d), r)
    ensures c == Poly16.Product(P, Q)[k]
  {
    GF16.MulIsFieldMul(a, d);
    Poly16.ProductCoeff(P, Q, k);
  }

  /** Coefficient k of the word p. */
  lemma CoeffsAt(p: bv64, k: nat)
    requires k < Terms
    ensures Coeffs(p)[k] == Coeff(p, k)
  {
  }

  /** The first of the first n coefficients of q is its lowest digit. */
  lemma FirstDigit(q: bv64, n: nat)
    requires 0 < n <= Terms
    ensures Coeffs(q)[..n][0] == Digit(q)
  {
    CoeffsAt(q, 0);
  }

  lemma ProductStepConstant(p: bv64, q: bv64, m: bv64, n: nat)
    requires 0 < n <= Terms
    requires Coeff(m, 0) == GF16.FieldMul(Coeff(p, 0), Digit(q))
    ensures Coeff(m, 0) == Poly16.Product(Coeffs(p), Coeffs(q)[..n])[0]
  {
    GF16.MulIsFieldMul(Coeff(p, 0), Digit(q));
    FirstDigit(q, n);
    CoeffsAt(p, 0);
    Poly16.ProductConstant(Coeffs(p), Coeffs(q)[..n]);
  }

  lemma ProductStepHigher(p: bv64, q: bv64, m: bv64, m': bv64, n: nat, k: nat)
    requires 0 < n <= Terms && 0 < k < Terms
    requires Coeff(m, k) == GF16.Add(GF16.FieldMul(Coeff(p, k), Digit(q)), Coeff(m', k - 1))
    requires Coeffs(m') == Poly16.Product(Coeffs(p), Coeffs(ShiftDown(q))[..n - 1])
    ensures Coeff(m, k) == Poly16.Product(Coeffs(p), Coeffs(q)[..n])[k]
  {
    FirstDigit(q, n);
    CoeffsAt(p, k);
    CoeffsAt(m', k - 1);
    DigitsShift(q, n);
    ProductHigher(Coeffs(p), Coeffs(q)[..n], Coeffs(m'), Coeff(p, k), Digit(q), Coeff(m', k - 1), Coeff(m, k), k);
  }

  lemma ProductStepCoeff(p: bv64, q: bv64, m: bv64, m': bv64, n: nat, k: nat)
    requires 0 < n <= Terms && k < Terms
    requires ProductStep(p, q, m, m', k)
    requires Coeffs(m') == Poly16.Product(Coeffs(p), Coeffs(ShiftDown(q))[..n - 1])
    ensures Coeff(m, k) == Poly16.Product(Coeffs(p), Coeffs(q)[..n])[k]
  {
    if k == 0 {
      ProductStepConstant(p, q, m, n);
    } else {
      ProductStepHigher(p, q, m, m', n, k);
    }
  }

  lemma ProductStepWords(p: bv64, q: bv64, m: bv64, m': bv64, n: nat)
    requires 0 < n <= Terms
    requires ProductSteps(p, q, m, m')
    requires Coeffs(m') == Poly16.Product(Coeffs(p), Coeffs(ShiftDown(q))[..n - 1])
    ensures Coeffs(m) == Poly16.Product(Coeffs(p), Coeffs(q)[..n])
  {
    var s := Poly16.Product(Coeffs(p), Coeffs(q)[..n]);
    forall k | 0 <= k < Terms
      ensures Coeff(m, k) == s[k]
    {
      ProductStepCoeff(p, q, m, m', n, k);
    }
    CoeffsEqual(m, s);
  }

  /** f starts at 0 and every value of f is one product step from its value at the argument moved down. */
  ghost predicate DigitSteps(f: bv64 -> bv64, p: bv64)
  {
    && Coeffs(f(0)) == Poly16.Zero(Terms)
    && forall x: bv64 {:trigger ProductSteps(p, x, f(x), f(ShiftDown(x)))} :: x < 0x100_0000 ==> ProductSteps(p, x, f(x), f(ShiftDown(x)))
  }

  lemma ProductByNoDigits(f: bv64 -> bv64, p: bv64, q: bv64)
    requires DigitSteps(f, p)
    requires q < Bound(0)
    ensures Coeffs(f(q)) == Poly16.Product(Coeffs(p), Coeffs(q)[..0])
  {
    assert q == 0;
  }

  lemma ProductByOneMoreDigit(f: bv64 -> bv64, p: bv64, q: bv64, n: nat)
    requires DigitSteps(f, p)
    requires 0 < n <= 6 && q < 0x100_0000
    requires Coeffs(f(ShiftDown(q))) == Poly16.Product(Coeffs(p), Coeffs(ShiftDown(q))[..n - 1])
    ensures Coeffs(f(q)) == Poly16.Product(Coeffs(p), Coeffs(q)[..n])
  {
    ProductStepWords(p, q, f(q), f(ShiftDown(q)), n);
  }

  /**
    * Induction over the coefficients of q: a word function f that starts at 0
    * and takes product steps is the product by the first n coefficients of q.
    */
  lemma {:induction false} ProductByDigits(f: bv64 -> bv64, p: bv64, q: bv64, n: nat)
    requires DigitSteps(f, p)
    requires n <= 6 && q < Bound(n)
    ensures Coeffs(f(q)) == Poly16.Product(Coeffs(p), Coeffs(q)[..n])
  {
    if n == 0 {
      ProductByNoDigits(f, p, q);
    } else {
      BoundShift(q, n);
      ProductByDigits(f, p, ShiftDown(q), n - 1);
      ProductByOneMoreDigit(f, p, q, n);
    }
  }

  /** The gated product by p, as a function of the second argument. */
  function GatedMulBy(p: bv64): bv64 -> bv64
  {
    x => GatedMul(p, x)
  }

  lemma GatedMulDigitSteps(p: bv64)
    ensures DigitSteps(GatedMulBy(p), p)
  {
    GatedMulOfZero(p);
    CoeffsOfZero();
    forall x: bv64 | x < 0x100_0000
      ensures ProductSteps(p, x, GatedMul(p, x), GatedMul(p, ShiftDown(x)))
    {
      forall k | 0 <= k < Terms
        ensures ProductStep(p, x, GatedMul(p, x), GatedMul(p, ShiftDown(x)), k)
      {
        GatedMulStep(p, x, k);
      }
    }
  }

  lemma GatedMulIsProduct(p: bv64, q: bv64, n: nat)
    requires n <= 6 && q < Bound(n)
    ensures Coeffs(GatedMul(p, q)) == Poly16.Product(Coeffs(p), Coeffs(q)[..n])
  {
    GatedMulDigitSteps(p);
    ProductByDigits(GatedMulBy(p), p, q, n);
  }

  lemma MulIsProduct(p: bv64, q: bv64)
    ensures Coeffs(Mul(p, q)) == Poly16.Product(Coeffs(p), Coeffs(q)[..6])
  {
    SelectIsGated(p, q);
    PartialIsGatedAt4(p, q);
    PartialIsGatedAt8(p, q);
    PartialIsGatedAt12(p, q);
    PartialIsGatedAt16(p, q);
    PartialIsGatedAt20(p, q);
    PartialIsGatedAt1(p, q);
    PartialIsGatedAt5(p, q);
    PartialIsGatedAt9(p, q);
    PartialIsGatedAt13(p, q);
    PartialIsGatedAt17(p, q);
    PartialIsGatedAt21(p, q);
    PartialIsGatedAt2(p, q);
    PartialIsGatedAt6(p, q);
    PartialIsGatedAt10(p, q);
    PartialIsGatedAt14(p, q);
    PartialIsGatedAt18(p, q);
    PartialIsGatedAt22(p, q);
    PartialIsGatedAt3(p, q);
    PartialIsGatedAt7(p, q);
    PartialIsGatedAt11(p, q);
    PartialIsGatedAt15(p, q);
    PartialIsGatedAt19(p, q);
    PartialIsGatedAt23(p, q);
    GatedRow0Regrouped(p, q);
    GatedRow1Regrouped(p, q);
    GatedRow2Regrouped(p, q);
    GatedRow3Regrouped(p, q);
    GatedRowsLowDigits(p, q);
    GatedMulIsProduct(p, q & 0xff_ffff, 6);
    LowDigitsPrefix(q);
  }

  /** The first six coefficients of q are the coefficients of its low twenty-four bits. */
  lemma LowDigitsPrefix(q: bv64)
    ensures Coeffs(q & 0xff_ffff)[..6] == Coeffs(q)[..6]
  {
    forall k | 0 <= k < 6
      ensures Coeffs(q & 0xff_ffff)[k] == Coeffs(q)[k]
    {
      CoeffLowDigits(q, k);
    }
  }

  /** Adding p to a word m shifted up by one place extends a product by one monic factor term. */
  lemma MonicStep(p: bv64, q: bv64, m: bv64)
    requires Coeff(q, 0) == 1
    requires Coeffs(m) == Poly16.Product(Coeffs(p), Coeffs(ShiftDown(q))[..6])
    ensures Coeffs(Add(p, ShiftUp(m))) == Poly16.Product(Coeffs(p), Coeffs(q)[..7])
  {
    CoeffsAdd(p, ShiftUp(m));
    CoeffsShiftUp(m);
    DigitsShift(q, 7);
    Poly16.ProductMonic(Coeffs(p), Coeffs(q)[..7]);
  }

  /** gf16_poly_mul_q0_monic: with a constant term of 1, seven coefficients of q take part in the product. */
  lemma MulQ0MonicIsProduct(p: bv64, q: bv64)
    requires Coeff(q, 0) == 1
    ensures Coeffs(MulQ0Monic(p, q)) == Poly16.Product(Coeffs(p), Coeffs(q)[..7])
  {
    MulIsProduct(p, ShiftDown(q));
    MonicStep(p, q, Mul(p, ShiftDown(q)));
  }

  /** gf16_poly_formal_derivative is the formal derivative of the coefficient sequence. */
  lemma FormalDerivativeIsDerivative(p: bv64)
    requires p < Limit
    ensures Coeffs(FormalDerivative(p)) == Poly16.Derivative(Coeffs(p))
  {
    forall k | 0 <= k < Terms
      ensures Coeffs(FormalDerivative(p))[k] == Poly16.Derivative(Coeffs(p))[k]
    {
      FormalDerivativeCoeff(p, k);
      Poly16.DerivativeKeepsOdd(Coeffs(p), k);
    }
  }

  // ---------------------------------------------------------------------
  // gf16_poly_eval
  // ---------------------------------------------------------------------

  /**
    * p fits in its low sz bits, for sz a multiple of 4: the terms from bit sz
    * up are all 0.  This is what a size in bits (p_sz, q_sz) promises.
    */
  predicate Fits(p: bv64, sz: int)
    decreases sz
  {
    if sz <= 0 then p == 0 else Fits(ShiftDown(p), sz - 4)
  }

  /** The term that starts at bit sz (a multiple of 4): (p >> sz) & GF16_MAX. */
  function Term(p: bv64, sz: int): GF16.Elem
    requires 0 <= sz
    decreases sz
  {
    if sz < 4 then Digit(p) else Term(ShiftDown(p), sz - 4)
  }

  /** The term at bit 4i is coefficient i. */
  lemma {:induction false} TermIsCoeff(p: bv64, i: nat)
    requires i < Terms
    ensures Term(p, 4 * i) == Coeff(p, i)
  {
    if i > 0 {
      TermIsCoeff(ShiftDown(p), i - 1);
      assert 4 * i - 4 == 4 * (i - 1);
      CoeffShiftDown(p, i - 1);
    }
  }

  /**
    * gf16_poly_eval: the value at x of the polynomial held in the low pSz bits
    * of p, by Horner's rule from the top term down.  The top term is read as
    * p >> (pSz - 4) with no mask, so p must fit in pSz bits; a zero x would
    * index the exponent table with log 0 = -1.  The inlined table product
    * `if (y) y = exp[log y + log x]` is gf16_mul, written here as GF16.Mul.
    */
  method Eval(p: bv64, pSz: int, x: GF16.Elem) returns (y: GF16.Elem)
    requires 4 <= pSz <= 4 * Terms && pSz % 4 == 0
    requires Fits(p, pSz)
    requires x != 0
    ensures y == Poly16.Eval(Coeffs(p), x)
  {
    ghost var c, i := Coeffs(p), pSz / 4 - 1;
    var sz := pSz - 4;
    y := Term(p, sz);
    EvalTop(p, c, pSz, i, x, y);
    sz := sz - 4;
    while sz >= 0
      invariant 0 <= i < Terms && sz == 4 * i - 4
      invariant y == Poly16.Horner(c, i, x)
    {
      ghost var prev := y;
      y := GF16.Add(GF16.Mul(y, x), Term(p, sz));
      EvalStep(p, c, i, sz, x, prev, y);
      sz := sz - 4;
      i := i - 1;
    }
    EvalDone(c, x, y);
  }

  /** The top term of a word that fits in pSz bits is Horner's rule from that term up. */
  lemma EvalTop(p: bv64, c: Poly16.Poly, pSz: int, i: int, x: GF16.Elem, y: GF16.Elem)
    requires 4 <= pSz <= 4 * Terms && pSz % 4 == 0 && i == pSz / 4 - 1
    requires c == Coeffs(p) && Fits(p, pSz) && y == Term(p, pSz - 4)
    ensures 0 <= i < Terms && pSz - 4 == 4 * i
    ensures y == Poly16.Horner(c, i, x)
  {
    var n := pSz / 4;
    assert pSz == 4 * n && pSz - 4 == 4 * i;
    FitsBound(p, n);
    TermIsCoeff(p, i);
    CoeffsAt(p, i);
    TopTermsZero(p, n);
    HornerTop(c, n, x, y);
  }

  lemma HornerTop(c: Poly16.Poly, n: nat, x: GF16.Elem, y: GF16.Elem)
    requires 0 < n <= |c| && y == c[n - 1]
    requires forall j :: n <= j < |c| ==> c[j] == 0
    ensures y == Poly16.Horner(c, n - 1, x)
  {
    Poly16.HornerOfZeros(c, n, x);
    GF16.AddZero(y);
    GF16.AddCommutes(0, y);
  }

  /** One step of the loop: fold in the term below the ones already done. */
  lemma EvalStep(p: bv64, c: Poly16.Poly, i: nat, sz: int, x: GF16.Elem, prev: GF16.Elem, y: GF16.Elem)
    requires c == Coeffs(p) && 0 < i < Terms && sz == 4 * i - 4
    requires prev == Poly16.Horner(c, i, x)
    requires y == GF16.Add(GF16.Mul(prev, x), Term(p, sz))
    ensures y == Poly16.Horner(c, i - 1, x)
  {
    assert sz == 4 * (i - 1);
    TermIsCoeff(p, i - 1);
    CoeffsAt(p, i - 1);
  }

  /** With every term folded in, Horner's rule has computed the value. */
  lemma EvalDone(c: Poly16.Poly, x: GF16.Elem, y: GF16.Elem)
    requires y == Poly16.Horner(c, 0, x)
    ensures y == Poly16.Eval(c, x)
  {
    Poly16.HornerIsEval(c, 0, x);
    assert c[0..] == c;
  }

  // ---------------------------------------------------------------------
  // gf16_poly_mod
  // ---------------------------------------------------------------------

  /** p << 4j: multiplication by x^j, one term at a time. */
  function ShiftUpBy(p: bv64, j: nat): bv64
  {
    if j == 0 then p else ShiftUp(ShiftUpBy(p, j - 1))
  }

  /** Packed and sequence shifts by j agree. */
  lemma {:induction false} CoeffsShiftUpBy(p: bv64, j: nat)
    ensures Coeffs(ShiftUpBy(p, j)) == Poly16.ShiftUpBy(Coeffs(p), j)
  {
    if j > 0 {
      CoeffsShiftUpBy(p, j - 1);
      CoeffsShiftUp(ShiftUpBy(p, j - 1));
    }
  }

  /** A shift up keeps bits 60 to 63 clear when the top term is 0. */
  lemma ShiftUpBelowLimit(w: bv64)
    requires w < Limit && Coeff(w, 14) == 0
    ensures ShiftUp(w) < Limit
  {
  }

  /** Shifting up by j keeps bits 60 to 63 clear when the top j terms are 0. */
  lemma {:induction false} ShiftUpByBelowLimit(p: bv64, j: nat)
    requires j <= Terms && p < Limit
    requires forall k :: Terms - j <= k < Terms ==> Coeffs(p)[k] == 0
    ensures ShiftUpBy(p, j) < Limit
  {
    if j > 0 {
      var w := ShiftUpBy(p, j - 1);
      ShiftUpByBelowLimit(p, j - 1);
      CoeffsShiftUpBy(p, j - 1);
      Poly16.ShiftUpByAt(Coeffs(p), j - 1, 14);
      CoeffsAt(w, 14);
      ShiftUpBelowLimit(w);
    }
  }

  /** Scaling keeps bits 60 to 63 clear. */
  lemma ScaleBelowLimit(p: bv64, x: GF16.Elem)
    requires p < Limit
    ensures Scale(p, x) < Limit
  {
  }

  /**
    * The values at every root of q agree with those of p * x^dq: this is what
    * the remainder of p * x^dq by q keeps.
    */
  ghost predicate CongruentAtRoots(p: bv64, q: bv64, dq: nat, m: bv64)
  {
    forall r: GF16.Elem {:trigger Poly16.Eval(Coeffs(q), r)} :: Poly16.Eval(Coeffs(q), r) == 0 ==>
      Poly16.Eval(Coeffs(m), r) == GF16.Mul(Poly16.Eval(Coeffs(p), r), GF16.Power(r, dq))
  }

  /**
    * The state of the division loop before the term at bit 4t is cleared:
    * q has dq + 1 terms, qw is q moved up to end at term t, m agrees with
    * p * x^dq at the roots of q, and, when q is monic, every term of m above
    * t is already 0.
    */
  ghost predicate ModState(p: bv64, q: bv64, dq: nat, m: bv64, qw: bv64, t: int)
  {
    && dq < Terms && dq - 1 <= t < Terms
    && q < Limit && (forall k :: dq < k < Terms ==> Coeffs(q)[k] == 0)
    && m < Limit
    && (t >= dq ==> qw == ShiftUpBy(q, t - dq))
    && CongruentAtRoots(p, q, dq, m)
    && Cleared(q, dq, m, t)
  }

  /** When q is monic, every term of m above t is 0. */
  ghost predicate Cleared(q: bv64, dq: nat, m: bv64, t: int)
    requires dq < Terms && -1 <= t
  {
    Coeffs(q)[dq] == 1 ==> forall k :: t < k < Terms ==> Coeffs(m)[k] == 0
  }

  /**
    * The division identity: p * x^dq is Q * q + m for a quotient Q of
    * Terms - dq coefficients, so that Q * q loses nothing off the top of the
    * fifteen terms.
    */
  ghost predicate DivisionIdentity(p: bv64, q: bv64, dq: nat, m: bv64)
    requires dq < Terms
  {
    exists Q: Poly16.Poly {:trigger Poly16.Product(Coeffs(q), Q)} ::
      |Q| == Terms - dq && Poly16.Add(Poly16.Product(Coeffs(q), Q), Coeffs(m)) == Poly16.ShiftUpBy(Coeffs(p), dq)
  }

  /**
    * The quotient built so far by the division loop before the term at bit
    * 4t is cleared: its terms at t - dq and below are still 0.
    */
  ghost predicate QuotientState(p: bv64, q: bv64, dq: nat, m: bv64, Q: Poly16.Poly, t: int)
  {
    && dq < Terms && dq - 1 <= t < Terms && |Q| == Terms - dq
    && (forall k :: 0 <= k <= t - dq ==> Q[k] == 0)
    && Poly16.Add(Poly16.Product(Coeffs(q), Q), Coeffs(m)) == Poly16.ShiftUpBy(Coeffs(p), dq)
  }

  /**
    * gf16_poly_mod: p of pSz / 4 terms is multiplied by x^dq, where q has
    * dq + 1 terms, and then, from the top term down to term dq, each term c
    * of the running value is cancelled by adding c times q moved up to end at
    * that term.  The result agrees with p * x^dq at every root of q, and when
    * the top coefficient of q is 1 every term from dq up has been cleared: it
    * is the remainder of p * x^dq, not of p, by q (unique by RemainderUnique).
    * Both operands must fit their sizes and the shifted dividend must fit in
    * fifteen terms.
    */
  method Mod(p: bv64, pSz: int, q: bv64, qSz: int) returns (m: bv64)
    requires 4 <= pSz && pSz % 4 == 0 && 4 <= qSz && qSz % 4 == 0
    requires pSz + qSz <= 4 * Terms + 4
    requires Fits(p, pSz) && Fits(q, qSz)
    ensures m < Limit
    ensures DivisionIdentity(p, q, qSz / 4 - 1, m)
    ensures forall r: GF16.Elem :: Poly16.Eval(Coeffs(q), r) == 0 ==>
      Poly16.Eval(Coeffs(m), r) == GF16.Mul(Poly16.Eval(Coeffs(p), r), GF16.Power(r, qSz / 4 - 1))
    ensures Coeffs(q)[qSz / 4 - 1] == 1 ==> forall k :: qSz / 4 - 1 <= k < Terms ==> Coeffs(m)[k] == 0
  {
    ghost var pn, qn := pSz / 4, qSz / 4;
    SizeInTerms(pSz);
    SizeInTerms(qSz);
    var pS := pSz - 4;
    var qS := qSz - 4;
    m := ShiftUpBy(p, qS / 4);
    var qw := ShiftUpBy(q, pS / 4);
    var i := pS + qS;
    ghost var dq, t := qn - 1, pn + qn - 2;
    ghost var quot: Poly16.Poly := Poly16.Zero(Terms - dq);
    StartDivision(p, q, pn, qn, dq, t, m, qw, quot);
    while i >= qS
      invariant i == 4 * t && qS == 4 * dq
      invariant DivisionState(p, q, dq, m, qw, quot, t)
      decreases i
    {
      ghost var m0, qw0, t0, quot0 := m, qw, t, quot;
      var c := Term(m, i);
      m := Add(m, Scale(qw, c));
      qw := ShiftDown(qw);
      i := i - 4;
      t := t - 1;
      quot := quot[t0 - dq := c];
      DivisionStep(p, q, dq, m0, qw0, quot0, t0, c, m, qw, quot, t);
    }
    DivisionDone(p, q, dq, m, qw, quot, t, qSz);
  }

  /** The loop starts from p * x^dq with the zero quotient. */
  lemma StartDivision(p: bv64, q: bv64, pn: nat, qn: nat, dq: nat, t: int, m: bv64, qw: bv64, Q: Poly16.Poly)
    requires 0 < pn && 0 < qn && pn + qn <= Terms + 1 && dq == qn - 1 && t == pn + qn - 2
    requires Fits(p, 4 * pn) && Fits(q, 4 * qn)
    requires m == ShiftUpBy(p, dq) && qw == ShiftUpBy(q, pn - 1) && Q == Poly16.Zero(Terms - dq)
    ensures DivisionState(p, q, dq, m, qw, Q, t)
  {
    StartState(p, q, pn, qn, dq, t, m, qw);
    StartQuotient(p, q, dq, t, m, Q);
  }

  /** When the loop stops at t = dq - 1, its state is the promise of Mod. */
  lemma DivisionDone(p: bv64, q: bv64, dq: nat, m: bv64, qw: bv64, Q: Poly16.Poly, t: int, qSz: int)
    requires DivisionState(p, q, dq, m, qw, Q, t) && t == dq - 1 && dq == qSz / 4 - 1
    ensures m < Limit
    ensures DivisionIdentity(p, q, qSz / 4 - 1, m)
    ensures forall r: GF16.Elem :: Poly16.Eval(Coeffs(q), r) == 0 ==>
      Poly16.Eval(Coeffs(m), r) == GF16.Mul(Poly16.Eval(Coeffs(p), r), GF16.Power(r, qSz / 4 - 1))
    ensures Coeffs(q)[qSz / 4 - 1] == 1 ==> forall k :: qSz / 4 - 1 <= k < Terms ==> Coeffs(m)[k] == 0
  {
    ModDone(p, q, dq, m, qw, t, qSz);
    QuotientDone(p, q, dq, m, Q, t);
  }

  /** The whole state of the division loop: the running value and the quotient built so far. */
  ghost predicate DivisionState(p: bv64, q: bv64, dq: nat, m: bv64, qw: bv64, Q: Poly16.Poly, t: int)
  {
    ModState(p, q, dq, m, qw, t) && QuotientState(p, q, dq, m, Q, t)
  }

  /** One pass of the loop keeps the whole state. */
  lemma DivisionStep(p: bv64, q: bv64, dq: nat, m: bv64, qw: bv64, Q: Poly16.Poly, t: int, c: GF16.Elem,
                     m': bv64, qw': bv64, Q': Poly16.Poly, t': int)
    requires DivisionState(p, q, dq, m, qw, Q, t) && t >= dq && t' == t - 1
    requires c == Term(m, 4 * t)
    requires m' == Add(m, Scale(qw, c)) && qw' == ShiftDown(qw) && Q' == Q[t - dq := c]
    ensures DivisionState(p, q, dq, m', qw', Q', t')
  {
    ModStep(p, q, dq, m, qw, t, c, m', qw', t');
    QuotientStep(p, q, dq, m, qw, t, c, m', Q, Q');
  }

  /** The loop starts with the zero quotient: p * x^dq = 0 * q + p * x^dq. */
  lemma StartQuotient(p: bv64, q: bv64, dq: nat, t: int, m: bv64, Q: Poly16.Poly)
    requires dq < Terms && dq - 1 <= t < Terms && m == ShiftUpBy(p, dq) && Q == Poly16.Zero(Terms - dq)
    ensures QuotientState(p, q, dq, m, Q, t)
  {
    Poly16.ProductOfZeros(Coeffs(q), Q);
    CoeffsShiftUpBy(p, dq);
    var z := Poly16.Product(Coeffs(q), Q);
    forall k | 0 <= k < Terms
      ensures Poly16.Add(z, Coeffs(m))[k] == Coeffs(m)[k]
    {
      GF16.AddZero(Coeffs(m)[k]);
    }
  }

  /**
    * One pass adds c * x^(t - dq) * q to the running value and c * x^(t - dq)
    * to the quotient, so the identity is kept.
    */
  lemma QuotientStep(p: bv64, q: bv64, dq: nat, m: bv64, qw: bv64, t: int, c: GF16.Elem, m': bv64,
                     Q: Poly16.Poly, Q': Poly16.Poly)
    requires ModState(p, q, dq, m, qw, t) && QuotientState(p, q, dq, m, Q, t) && t >= dq
    requires m' == Add(m, Scale(qw, c)) && Q' == Q[t - dq := c]
    ensures QuotientState(p, q, dq, m', Q', t - 1)
  {
    var j: nat := t - dq;
    assert qw == ShiftUpBy(q, j);
    MovedDivisor(q, dq, j);
    QuotientMoved(p, q, dq, m, qw, t, c, m', Q, Q', j);
  }

  /** The step of QuotientStep once the moved divisor qw is known to read as q shifted by j = t - dq. */
  lemma QuotientMoved(p: bv64, q: bv64, dq: nat, m: bv64, qw: bv64, t: int, c: GF16.Elem, m': bv64,
                      Q: Poly16.Poly, Q': Poly16.Poly, j: nat)
    requires QuotientState(p, q, dq, m, Q, t) && j == t - dq && m < Limit && qw < Limit
    requires Coeffs(qw) == Poly16.ShiftUpBy(Coeffs(q), j)
    requires m' == Add(m, Scale(qw, c)) && Q' == Q[j := c]
    ensures QuotientState(p, q, dq, m', Q', t - 1)
  {
    StepWords(m, qw, c, m');
    Poly16.ProductSetTerm(Coeffs(q), Q, j, c);
    QuotientKept(Poly16.Product(Coeffs(q), Q), Coeffs(m), Poly16.ScaleBy(Coeffs(qw), c),
      Poly16.Product(Coeffs(q), Q'), Coeffs(m'), Poly16.ShiftUpBy(Coeffs(p), dq));
  }

  /** (a + s) + (b + s) = a + b, coefficient by coefficient. */
  lemma QuotientKept(a: Poly16.Poly, b: Poly16.Poly, s: Poly16.Poly, a': Poly16.Poly, b': Poly16.Poly, r: Poly16.Poly)
    requires |a| == |b| == |s| && Poly16.Add(a, b) == r
    requires a' == Poly16.Add(a, s) && b' == Poly16.Add(b, s)
    ensures Poly16.Add(a', b') == r
  {
    forall k | 0 <= k < |a|
      ensures Poly16.Add(a', b')[k] == r[k]
    {
      assert r[k] == GF16.Add(a[k], b[k]);
    }
  }

  /** When the loop stops, its quotient witnesses the division identity. */
  lemma QuotientDone(p: bv64, q: bv64, dq: nat, m: bv64, Q: Poly16.Poly, t: int)
    requires QuotientState(p, q, dq, m, Q, t)
    ensures DivisionIdentity(p, q, dq, m)
  {
  }

  /**
    * The remainder by a divisor q with top coefficient 1 is unique: two words
    * that both satisfy the division identity for p * x^dq and have every term
    * from dq up cleared are equal.  So the result of Mod depends on p and q
    * only, not on pSz as long as p fits it.
    */
  lemma RemainderUnique(p: bv64, q: bv64, dq: nat, m: bv64, n: bv64)
    requires dq < Terms && Coeffs(q)[dq] == 1 && forall k :: dq < k < Terms ==> Coeffs(q)[k] == 0
    requires m < Limit && n < Limit
    requires DivisionIdentity(p, q, dq, m) && DivisionIdentity(p, q, dq, n)
    requires forall k :: dq <= k < Terms ==> Coeffs(m)[k] == 0 && Coeffs(n)[k] == 0
    ensures m == n
  {
    var A: Poly16.Poly :| |A| == Terms - dq
      && Poly16.Add(Poly16.Product(Coeffs(q), A), Coeffs(m)) == Poly16.ShiftUpBy(Coeffs(p), dq);
    var B: Poly16.Poly :| |B| == Terms - dq
      && Poly16.Add(Poly16.Product(Coeffs(q), B), Coeffs(n)) == Poly16.ShiftUpBy(Coeffs(p), dq);
    Poly16.DivisionUnique(Coeffs(q), dq, A, B, Coeffs(m), Coeffs(n));
    CoeffsDetermine(m, n);
  }

  /** Fifteen coefficients determine a word with bits 60 to 63 clear. */
  lemma CoeffsDetermine(a: bv64, b: bv64)
    requires a < Limit && b < Limit && Coeffs(a) == Coeffs(b)
    ensures a == b
  {
    CoeffsAt(a, 0); CoeffsAt(b, 0);
    CoeffsAt(a, 1); CoeffsAt(b, 1);
    CoeffsAt(a, 2); CoeffsAt(b, 2);
    CoeffsAt(a, 3); CoeffsAt(b, 3);
    CoeffsAt(a, 4); CoeffsAt(b, 4);
    CoeffsAt(a, 5); CoeffsAt(b, 5);
    CoeffsAt(a, 6); CoeffsAt(b, 6);
    CoeffsAt(a, 7); CoeffsAt(b, 7);
    CoeffsAt(a, 8); CoeffsAt(b, 8);
    CoeffsAt(a, 9); CoeffsAt(b, 9);
    CoeffsAt(a, 10); CoeffsAt(b, 10);
    CoeffsAt(a, 11); CoeffsAt(b, 11);
    CoeffsAt(a, 12); CoeffsAt(b, 12);
    CoeffsAt(a, 13); CoeffsAt(b, 13);
    CoeffsAt(a, 14); CoeffsAt(b, 14);
    assert Coeffs(a)[0] == Coeffs(b)[0] && Coeffs(a)[1] == Coeffs(b)[1] && Coeffs(a)[2] == Coeffs(b)[2];
    assert Coeffs(a)[3] == Coeffs(b)[3] && Coeffs(a)[4] == Coeffs(b)[4] && Coeffs(a)[5] == Coeffs(b)[5];
    assert Coeffs(a)[6] == Coeffs(b)[6] && Coeffs(a)[7] == Coeffs(b)[7] && Coeffs(a)[8] == Coeffs(b)[8];
    assert Coeffs(a)[9] == Coeffs(b)[9] && Coeffs(a)[10] == Coeffs(b)[10] && Coeffs(a)[11] == Coeffs(b)[11];
    assert Coeffs(a)[12] == Coeffs(b)[12] && Coeffs(a)[13] == Coeffs(b)[13] && Coeffs(a)[14] == Coeffs(b)[14];
  }

  /** When the loop stops at t = dq - 1, its state is the promise of Mod. */
  lemma ModDone(p: bv64, q: bv64, dq: nat, m: bv64, qw: bv64, t: int, qSz: int)
    requires ModState(p, q, dq, m, qw, t) && t == dq - 1 && dq == qSz / 4 - 1
    ensures m < Limit
    ensures forall r: GF16.Elem :: Poly16.Eval(Coeffs(q), r) == 0 ==>
      Poly16.Eval(Coeffs(m), r) == GF16.Mul(Poly16.Eval(Coeffs(p), r), GF16.Power(r, qSz / 4 - 1))
    ensures Coeffs(q)[qSz / 4 - 1] == 1 ==> forall k :: qSz / 4 - 1 <= k < Terms ==> Coeffs(m)[k] == 0
  {
  }

  /** A size in bits that is a multiple of 4 is a count of terms. */
  lemma SizeInTerms(sz: int)
    requires 4 <= sz && sz % 4 == 0
    ensures sz == 4 * (sz / 4) && (sz - 4) / 4 == sz / 4 - 1 && sz / 4 > 0
  {
  }

  /** The loop starts from p * x^dq, with q moved up to end at the top term. */
  lemma StartState(p: bv64, q: bv64, pn: nat, qn: nat, dq: nat, t: int, m: bv64, qw: bv64)
    requires 0 < pn && 0 < qn && pn + qn <= Terms + 1 && dq == qn - 1 && t == pn + qn - 2
    requires Fits(p, 4 * pn) && Fits(q, 4 * qn)
    requires m == ShiftUpBy(p, dq) && qw == ShiftUpBy(q, pn - 1)
    ensures ModState(p, q, dq, m, qw, t)
  {
    var P := Coeffs(p);
    FitsBound(p, pn);
    FitsBound(q, qn);
    TopTermsZero(p, pn);
    TopTermsZero(q, qn);
    BelowLimit(p, pn);
    BelowLimit(q, qn);
    ShiftUpByBelowLimit(p, dq);
    assert t - dq == pn - 1;
    StartCongruent(p, q, pn, dq, m);
    CoeffsShiftUpBy(p, dq);
    StartCleared(P, pn, dq, Coeffs(m));
  }

  /** Nothing of p * x^dq lies above its top term pn - 1 + dq. */
  lemma StartCleared(P: Poly16.Poly, pn: nat, dq: nat, M: Poly16.Poly)
    requires |P| == Terms && pn + dq <= Terms + 1 && M == Poly16.ShiftUpBy(P, dq)
    requires forall k :: pn <= k < Terms ==> P[k] == 0
    ensures forall k :: pn + dq - 1 < k < Terms ==> M[k] == 0
  {
    forall k | pn + dq - 1 < k < Terms
      ensures M[k] == 0
    {
      Poly16.ShiftUpByAt(P, dq, k);
    }
  }

  /** Every word that fits some number of terms fits fifteen. */
  lemma BelowLimit(p: bv64, n: nat)
    requires n <= Terms && p < Bound(n)
    ensures p < Limit
  {
    BoundMonotone(n, Terms);
  }

  lemma StartCongruent(p: bv64, q: bv64, pn: nat, dq: nat, m: bv64)
    requires pn + dq <= Terms && m == ShiftUpBy(p, dq)
    requires forall k :: pn <= k < Terms ==> Coeffs(p)[k] == 0
    ensures CongruentAtRoots(p, q, dq, m)
  {
    CoeffsShiftUpBy(p, dq);
    forall r: GF16.Elem
      ensures Poly16.Eval(Coeffs(m), r) == GF16.Mul(Poly16.Eval(Coeffs(p), r), GF16.Power(r, dq))
    {
      Poly16.EvalShiftUpBy(Coeffs(p), dq, r);
    }
  }

  /** One pass of the loop: the top term t is cleared and q moves down a term. */
  lemma ModStep(p: bv64, q: bv64, dq: nat, m: bv64, qw: bv64, t: int, c: GF16.Elem, m': bv64, qw': bv64, t': int)
    requires ModState(p, q, dq, m, qw, t) && t >= dq && t' == t - 1
    requires c == Term(m, 4 * t)
    requires m' == Add(m, Scale(qw, c)) && qw' == ShiftDown(qw)
    ensures ModState(p, q, dq, m', qw', t')
  {
    var j: nat := t - dq;
    StepDivisor(q, dq, j, qw, qw');
    StepWords(m, qw, c, m');
    StepCongruent(p, q, dq, m, m', qw, c, j);
    StepTopClear(q, dq, m, m', qw, c, t);
  }

  /** The divisor moved down a term is the divisor moved up one term less. */
  lemma StepDivisor(q: bv64, dq: nat, j: nat, qw: bv64, qw': bv64)
    requires dq + j < Terms && q < Limit && forall k :: dq < k < Terms ==> Coeffs(q)[k] == 0
    requires qw == ShiftUpBy(q, j) && qw' == ShiftDown(qw)
    ensures qw < Limit
    ensures j > 0 ==> qw' == ShiftUpBy(q, j - 1)
  {
    MovedDivisor(q, dq, j);
    if j > 0 {
      StepShiftDown(q, dq, j);
    }
  }

  /** With a monic divisor, the pass clears the top term t. */
  lemma StepTopClear(q: bv64, dq: nat, m: bv64, m': bv64, qw: bv64, c: GF16.Elem, t: int)
    requires dq <= t < Terms && q < Limit
    requires forall k :: dq < k < Terms ==> Coeffs(q)[k] == 0
    requires qw == ShiftUpBy(q, t - dq) && c == Term(m, 4 * t)
    requires Cleared(q, dq, m, t)
    requires Coeffs(m') == Poly16.Add(Coeffs(m), Poly16.ScaleBy(Coeffs(qw), c))
    ensures Cleared(q, dq, m', t - 1)
  {
    if Coeffs(q)[dq] == 1 {
      TermIsCoeff(m, t);
      CoeffsAt(m, t);
      StepClears(q, dq, m, m', qw, c, t);
    }
  }

  /** q moved up by j, with nothing falling off the top, reads as the sequence shift. */
  lemma MovedDivisor(q: bv64, dq: nat, j: nat)
    requires dq + j < Terms && q < Limit && forall k :: dq < k < Terms ==> Coeffs(q)[k] == 0
    ensures ShiftUpBy(q, j) < Limit
    ensures Coeffs(ShiftUpBy(q, j)) == Poly16.ShiftUpBy(Coeffs(q), j)
  {
    ShiftUpByBelowLimit(q, j);
    CoeffsShiftUpBy(q, j);
  }

  /** Moving the shifted divisor down a term undoes its last shift. */
  lemma StepShiftDown(q: bv64, dq: nat, j: nat)
    requires 0 < j && dq + j < Terms && q < Limit && forall k :: dq < k < Terms ==> Coeffs(q)[k] == 0
    ensures ShiftDown(ShiftUpBy(q, j)) == ShiftUpBy(q, j - 1)
  {
    var w := ShiftUpBy(q, j - 1);
    MovedDivisor(q, dq, j - 1);
    Poly16.ShiftUpByAt(Coeffs(q), j - 1, 14);
    CoeffsAt(w, 14);
    ShiftDownShiftUp(w);
  }

  /** A shift up loses nothing when bits 56 to 63 are clear. */
  lemma ShiftDownShiftUp(w: bv64)
    requires w < Limit && Coeff(w, 14) == 0
    ensures ShiftDown(ShiftUp(w)) == w
  {
  }

  /** A word that fits in n terms has no coefficient from n up. */
  lemma {:induction false} TopTermsZero(q: bv64, n: nat)
    requires n <= Terms && Fits(q, 4 * n)
    ensures forall k :: n <= k < Terms ==> Coeffs(q)[k] == 0
    decreases n
  {
    if n == 0 {
      CoeffsOfZero();
    } else {
      assert Fits(ShiftDown(q), 4 * (n - 1));
      TopTermsZero(ShiftDown(q), n - 1);
      forall k | n <= k < Terms
        ensures Coeffs(q)[k] == 0
      {
        CoeffsAt(q, k);
        CoeffsAt(ShiftDown(q), k - 1);
        CoeffShiftDown(q, k - 1);
      }
    }
  }

  /** The word update of one pass, read as coefficients. */
  lemma StepWords(m: bv64, qw: bv64, c: GF16.Elem, m': bv64)
    requires m < Limit && qw < Limit
    requires m' == Add(m, Scale(qw, c))
    ensures m' < Limit
    ensures Coeffs(m') == Poly16.Add(Coeffs(m), Poly16.ScaleBy(Coeffs(qw), c))
  {
    ScaleBelowLimit(qw, c);
    CoeffsAdd(m, Scale(qw, c));
    ScaleIsScaleBy(qw, c);
  }

  /** Adding a multiple of q moved up keeps the values at the roots of q. */
  lemma StepCongruent(p: bv64, q: bv64, dq: nat, m: bv64, m': bv64, qw: bv64, c: GF16.Elem, j: nat)
    requires CongruentAtRoots(p, q, dq, m)
    requires dq + j < Terms && q < Limit && forall k :: dq < k < Terms ==> Coeffs(q)[k] == 0
    requires qw == ShiftUpBy(q, j)
    requires Coeffs(m') == Poly16.Add(Coeffs(m), Poly16.ScaleBy(Coeffs(qw), c))
    ensures CongruentAtRoots(p, q, dq, m')
  {
    var Q, s := Coeffs(q), Coeffs(qw);
    MovedDivisor(q, dq, j);
    forall r: GF16.Elem | Poly16.Eval(Q, r) == 0
      ensures Poly16.Eval(Coeffs(m'), r) == Poly16.Eval(Coeffs(m), r)
    {
      Poly16.EvalAdd(Coeffs(m), Poly16.ScaleBy(s, c), r);
      Poly16.EvalScaleBy(s, c, r);
      Poly16.EvalShiftUpBy(Q, j, r);
      GF16.AddZero(Poly16.Eval(Coeffs(m), r));
    }
  }

  /** With q monic, the new term t is c + 1 * c = 0 and the terms above stay 0. */
  lemma StepClears(q: bv64, dq: nat, m: bv64, m': bv64, qw: bv64, c: GF16.Elem, t: int)
    requires dq <= t < Terms && q < Limit
    requires Coeffs(q)[dq] == 1 && forall k :: dq < k < Terms ==> Coeffs(q)[k] == 0
    requires qw == ShiftUpBy(q, t - dq) && Coeffs(m)[t] == c
    requires forall k :: t < k < Terms ==> Coeffs(m)[k] == 0
    requires Coeffs(m') == Poly16.Add(Coeffs(m), Poly16.ScaleBy(Coeffs(qw), c))
    ensures forall k :: t - 1 < k < Terms ==> Coeffs(m')[k] == 0
  {
    forall k | t - 1 < k < Terms
      ensures Coeffs(m')[k] == 0
    {
      ClearsAt(q, dq, m, m', qw, c, t, k);
    }
  }

  /** Term k >= t of one pass: c + 1 * c at t, 0 + q's zeros above. */
  lemma ClearsAt(q: bv64, dq: nat, m: bv64, m': bv64, qw: bv64, c: GF16.Elem, t: int, k: int)
    requires dq <= t <= k < Terms && q < Limit
    requires Coeffs(q)[dq] == 1 && forall k :: dq < k < Terms ==> Coeffs(q)[k] == 0
    requires qw == ShiftUpBy(q, t - dq) && Coeffs(m)[t] == c
    requires forall k :: t < k < Terms ==> Coeffs(m)[k] == 0
    requires Coeffs(m') == Poly16.Add(Coeffs(m), Poly16.ScaleBy(Coeffs(qw), c))
    ensures Coeffs(m')[k] == 0
  {
    var j: nat := t - dq;
    MovedDivisor(q, dq, j);
    Poly16.ShiftUpByAt(Coeffs(q), j, k);
    assert Coeffs(qw)[k] == Coeffs(q)[k - j];
    assert Coeffs(m')[k] == GF16.Add(Coeffs(m)[k], GF16.Mul(Coeffs(qw)[k], c));
    if k == t {
      assert k - j == dq;
      GF16.MulOne(c);
      GF16.AddSelf(c);
    } else {
      GF16.AddZero(0);
    }
  }

  // ---------------------------------------------------------------------
  // gf16_poly_get_order, gf16_poly_get_size
  // ---------------------------------------------------------------------

  /** gf16_poly is a signed 64-bit integer: a word with bit 63 set is negative. */
  predicate Negative(p: bv64)
  {
    p >= 0x8000_0000_0000_0000
  }

  /** 16^k, built as gf16_poly_get_order builds it: one term up at a time. */
  function Pow16(k: nat): bv64
  {
    if k == 0 then 1 else ShiftUp(Pow16(k - 1))
  }

  /** One pass of the counting loop: i = 16^k does not exceed p, so k < 15 and i moves on to 16^(k + 1). */
  lemma PowerStep(p: bv64, i: bv64, k: nat, i': bv64, k': nat)
    requires k <= Terms && i == Pow16(k) && i <= p && p < Limit
    requires i' == ShiftUp(i) && k' == k + 1
    ensures k' <= Terms && i' == Pow16(k') && Pow16(k' - 1) <= p
  {
    PowerBelowLimit(k);
    assert k' - 1 == k;
  }

  /** 16^15 is 2^60: a word below Limit is below it, so the count stops before 15. */
  lemma PowerBelowLimit(k: nat)
    requires k <= Terms && Pow16(k) < Limit
    ensures k < Terms
  {
    PowerFifteen();
  }

  lemma PowerFifteen()
    ensures Pow16(Terms) == Limit
  {
    assert Pow16(5) == 0x10_0000;
    assert Pow16(10) == 0x100_0000_0000;
  }

  /** The counting loop stops at the first power 16^k above p: p has order k - 1 and fits in 4k bits, not in 4k - 4. */
  lemma CountDone(p: bv64, i: bv64, k: nat)
    requires k <= Terms && i == Pow16(k) && !(i <= p)
    requires k > 0 ==> Pow16(k - 1) <= p
    ensures Poly16.Order(Coeffs(p)) == k - 1 && Fits(p, 4 * k) && (k > 0 ==> !Fits(p, 4 * k - 4))
  {
    OrderPowers(p, k);
  }

  /**
    * gf16_poly_get_order: counts the powers 1, 16, 256, ... of 16 that do not
    * exceed p, less one.  gf16_poly is a signed 64-bit integer, so a word with
    * bit 63 set is negative, below 1, and gets -1; a non-negative word with
    * any of bits 60 to 62 set is at least 16^15, the counter is shifted out
    * to 0 and the loop never ends, so such words are excluded.
    */
  method GetOrder(p: bv64) returns (n: int)
    requires p < Limit || Negative(p)
    ensures n == if Negative(p) then -1 else Poly16.Order(Coeffs(p))
    ensures -1 <= n < Terms
  {
    n := -1;
    var i: bv64 := 1;
    ghost var k: nat := 0;
    while !Negative(p) && i <= p
      invariant k <= Terms && i == Pow16(k) && n == k - 1
      invariant k > 0 ==> Pow16(k - 1) <= p
      invariant Negative(p) ==> k == 0
      decreases Terms - k
    {
      ghost var i0, k0 := i, k;
      i := ShiftUp(i);
      n := n + 1;
      k := k + 1;
      PowerStep(p, i0, k0, i, k);
    }
    if !Negative(p) {
      CountDone(p, i, k);
    }
  }

  /**
    * gf16_poly_get_size: four bits per power of 16 that does not exceed p,
    * that is the number of bits the terms up to the top non-zero one occupy.
    * It is the least size in bits p fits in, the size that Eval and Mod
    * expect.  A negative word gets size 0; the non-negative words with any of
    * bits 60 to 62 set never return, as for GetOrder.
    */
  method GetSize(p: bv64) returns (sz: int)
    requires p < Limit || Negative(p)
    ensures sz == if Negative(p) then 0 else 4 * (Poly16.Order(Coeffs(p)) + 1)
    ensures !Negative(p) ==> Fits(p, sz) && (sz > 0 ==> !Fits(p, sz - 4))
  {
    sz := 0;
    var i: bv64 := 1;
    ghost var k: nat := 0;
    while !Negative(p) && i <= p
      invariant k <= Terms && i == Pow16(k) && sz == 4 * k
      invariant k > 0 ==> Pow16(k - 1) <= p
      invariant Negative(p) ==> k == 0
      decreases Terms - k
    {
      ghost var i0, k0 := i, k;
      i := ShiftUp(i);
      sz := sz + 4;
      k := k + 1;
      PowerStep(p, i0, k0, i, k);
    }
    if !Negative(p) {
      CountDone(p, i, k);
    }
  }
}
