/**
  * The packed polynomials of ReedSolomon/src/gf8.c.
  *
  * A gf8_poly holds ten 3-bit coefficients in one 32-bit word, the constant
  * term in the least significant bits.  `Coeffs` reads a word as a Poly8.Poly
  * of length 10, and every operation here is proved to act on those
  * coefficients as the matching Poly8 operation does.  The C type is a signed
  * int32; the model uses 32 unsigned bits, so shifts are logical and products
  * wrap modulo 2^32.  The two differ only when a shifted row of scale or mul
  * carries the tenth coefficient into bit 31, the sign bit, which the
  * arithmetic shifts of gf8_poly_reduce then copy downwards; the
  * Reed-Solomon codec never fills the tenth slot.  That case is modelled
  * separately by ScaleAsWritten and MulAsWritten at the end of this module.
  */
module GF8Poly {
  import GF8
  import Poly8

  const Terms: nat := 10              // coefficients in a packed word
  const Limit: bv32 := 0x4000_0000    // words with bits 30 and 31 clear hold exactly ten coefficients

  const R1Overflow: bv32 := 0x4924_9248  // GF8_R1_OF = 011111111110
  const R2Overflow: bv32 := 0xdb6d_b6d8  // GF8_R2_OF = 033333333330
  const R1Keep: bv32 := 0x36db_6db6      // GF8_R1_R0 = 006666666666
  const R2Keep: bv32 := 0x2492_4924      // GF8_R2_R0 = 004444444444
  const OddTerms: bv32 := 0x38e3_8e38    // GF8_ODD   = 007070707070

  /** Coefficient-wise addition of packed words: XOR. */
  function Add(a: bv32, b: bv32): bv32
  {
    a ^ b
  }

  /** a & b: the bits set in both words. */
  function Common(a: bv32, b: bv32): bv32
  {
    a & b
  }

  /** p << GF8_SYM_SZ: multiplication by x. */
  function ShiftUp(p: bv32): bv32
  {
    p << 3
  }

  /** p >> GF8_SYM_SZ: division by x, dropping the constant term. */
  function ShiftDown(p: bv32): bv32
  {
    p >> 3
  }

  /** The low coefficient, p & GF8_MAX. */
  function Digit(p: bv32): GF8.Elem
  {
    (p & 7) as bv8
  }

  /** Coefficient k (0 <= k < 10) of a packed polynomial: bits 3k..3k+2, that is (p >> 3k) & GF8_MAX. */
  function Coeff(p: bv32, k: nat): GF8.Elem
    requires k < Terms
  {
    if k == 0 then Digit(p)
      else if k == 1 then Digit(p >> 3)
      else if k == 2 then Digit(p >> 6)
      else if k == 3 then Digit(p >> 9)
      else if k == 4 then Digit(p >> 12)
      else if k == 5 then Digit(p >> 15)
      else if k == 6 then Digit(p >> 18)
      else if k == 7 then Digit(p >> 21)
      else if k == 8 then Digit(p >> 24)
      else Digit(p >> 27)
  }


  /** The ten coefficients of a packed word, lowest degree first. */
  function Coeffs(p: bv32): (r: Poly8.Poly)
    ensures |r| == Terms
  {
    seq(Terms, k requires 0 <= k < Terms => Coeff(p, k))
  }

  // ---------------------------------------------------------------------
  // gf8_poly_reduce, gf8_poly_scale, gf8_poly_mul
  // ---------------------------------------------------------------------

  /** gf8_poly_reduce: folds the overflow bits back with x^3 = x + 1 and x^4 = x^2 + x. */
  function Reduce(p: bv32, overflow: bv32): bv32
  {
    p ^ (overflow >> 2) ^ (overflow >> 3)
  }

  /**
    * The common tail of gf8_poly_scale and gf8_poly_mul: the rows r1 and r2
    * (partial products by x and x^2 of each coefficient) are split by the masks
    * into the part that stays in its 3-bit slot and the overflow, which Reduce
    * folds back.
    */
  function Combine(r0: bv32, r1: bv32, r2: bv32): bv32
  {
    Reduce(r0 ^ ((r1 & R1Keep) ^ (r2 & R2Keep)), (r1 & R1Overflow) ^ (r2 & R2Overflow))
  }

  function ScaleRow0(p: bv32, x: GF8.Elem): bv32
  {
    if x & 1 != 0 then p else 0
  }

  function ScaleRow1(p: bv32, x: GF8.Elem): bv32
  {
    if x & 2 != 0 then p << 1 else 0
  }

  function ScaleRow2(p: bv32, x: GF8.Elem): bv32
  {
    if x & 4 != 0 then p << 2 else 0
  }

  /** gf8_poly_scale: every coefficient of p multiplied by the element x. */
  function Scale(p: bv32, x: GF8.Elem): bv32
  {
    Combine(ScaleRow0(p, x), ScaleRow1(p, x), ScaleRow2(p, x))
  }

  /** The bits of the three rows that land in one 3-bit slot before reduction: a value of degree at most 4. */
  function Window(r0: bv32, r1: bv32, r2: bv32): (w: bv8)
    ensures w < 32
  {
    ((r0 & 7) ^ (r1 & 0xE) ^ (r2 & 0x1C)) as bv8
  }


  /** The row-0 partial product of the constant term of q: (q & 01) ? p : 0. */
  function Select(p: bv32, q: bv32): bv32
  {
    if q & 1 != 0 then p else 0
  }

  /** One partial product (q & bit) * p of gf8_poly_mul: p shifted to the position of a set bit of q, or 0. */
  function Partial(p: bv32, q: bv32, bit: bv32): bv32
  {
    (q & bit) * p
  }

  // The three rows of gf8_poly_mul, accumulated over the five low coefficients of q in the order of the source.
  function MulRow0(p: bv32, q: bv32): bv32
  {
    Add(Add(Add(Add(Select(p, q), Partial(p, q, 0x8)), Partial(p, q, 0x40)), Partial(p, q, 0x200)), Partial(p, q, 0x1000))
  }

  function MulRow1(p: bv32, q: bv32): bv32
  {
    Add(Add(Add(Add(Partial(p, q, 0x2), Partial(p, q, 0x10)), Partial(p, q, 0x80)), Partial(p, q, 0x400)), Partial(p, q, 0x2000))
  }

  function MulRow2(p: bv32, q: bv32): bv32
  {
    Add(Add(Add(Add(Partial(p, q, 0x4), Partial(p, q, 0x20)), Partial(p, q, 0x100)), Partial(p, q, 0x800)), Partial(p, q, 0x4000))
  }

  /** gf8_poly_mul: the product of p by the five low coefficients of q, truncated to ten coefficients. */
  function Mul(p: bv32, q: bv32): bv32
  {
    Combine(MulRow0(p, q), MulRow1(p, q), MulRow2(p, q))
  }

  /** gf8_poly_mul_q0_monic: the product of p by the six low coefficients of q when the constant term of q is 1. */
  function MulQ0Monic(p: bv32, q: bv32): bv32
  {
    Add(p, ShiftUp(Mul(p, ShiftDown(q))))
  }

  /** gf8_poly_formal_derivative: the odd-degree coefficients moved down one place. */
  function FormalDerivative(p: bv32): bv32
  {
    ShiftDown(p & OddTerms)
  }

  // ---------------------------------------------------------------------
  // Word-level facts
  // ---------------------------------------------------------------------

  lemma AddZero(a: bv32)
    ensures Add(a, 0) == a
  {
  }

  lemma AddAssociates(a: bv32, b: bv32, c: bv32)
    ensures Add(Add(a, b), c) == Add(a, Add(b, c))
  {
  }

  lemma ShiftUpAdd(a: bv32, b: bv32)
    ensures ShiftUp(Add(a, b)) == Add(ShiftUp(a), ShiftUp(b))
  {
  }

  /**
    * A partial product with its gate written without a branch: p << n where
    * bit n of q is set, and 0 elsewhere.
    */
  function Gated(p: bv32, q: bv32, n: bv32): bv32
    requires n < 32
  {
    (p << n) & (0 - ((q >> n) & 1))
  }

  function GatedRow0(p: bv32, q: bv32): bv32
  {
    Add(Gated(p, q, 0), Add(Gated(p, q, 3), Add(Gated(p, q, 6), Add(Gated(p, q, 9), Gated(p, q, 12)))))
  }

  function GatedRow1(p: bv32, q: bv32): bv32
  {
    Add(Gated(p, q, 1), Add(Gated(p, q, 4), Add(Gated(p, q, 7), Add(Gated(p, q, 10), Gated(p, q, 13)))))
  }

  function GatedRow2(p: bv32, q: bv32): bv32
  {
    Add(Gated(p, q, 2), Add(Gated(p, q, 5), Add(Gated(p, q, 8), Add(Gated(p, q, 11), Gated(p, q, 14)))))
  }

  lemma GatedRowsStep(p: bv32, q: bv32)
    requires q < 0x8000
    ensures GatedRow0(p, q) == Add(ScaleRow0(p, Digit(q)), ShiftUp(GatedRow0(p, ShiftDown(q))))
    ensures GatedRow1(p, q) == Add(ScaleRow1(p, Digit(q)), ShiftUp(GatedRow1(p, ShiftDown(q))))
    ensures GatedRow2(p, q) == Add(ScaleRow2(p, Digit(q)), ShiftUp(GatedRow2(p, ShiftDown(q))))
  {
    GatedRow0Step(p, q);
    GatedRow1Step(p, q);
    GatedRow2Step(p, q);
  }

  /** gf8_poly_mul with its partial products written as gated shifts. */
  function GatedMul(p: bv32, q: bv32): bv32
  {
    Combine(GatedRow0(p, q), GatedRow1(p, q), GatedRow2(p, q))
  }

  /** The rows read bits 0..14 of q only. */
  lemma GatedRowsLowDigits(p: bv32, q: bv32)
    ensures GatedRow0(p, q) == GatedRow0(p, q & 0x7fff)
    ensures GatedRow1(p, q) == GatedRow1(p, q & 0x7fff)
    ensures GatedRow2(p, q) == GatedRow2(p, q & 0x7fff)
  {
    GatedLowDigitsAt0(p, q);
    GatedLowDigitsAt1(p, q);
    GatedLowDigitsAt2(p, q);
    GatedLowDigitsAt3(p, q);
    GatedLowDigitsAt4(p, q);
    GatedLowDigitsAt5(p, q);
    GatedLowDigitsAt6(p, q);
    GatedLowDigitsAt7(p, q);
    GatedLowDigitsAt8(p, q);
    GatedLowDigitsAt9(p, q);
    GatedLowDigitsAt10(p, q);
    GatedLowDigitsAt11(p, q);
    GatedLowDigitsAt12(p, q);
    GatedLowDigitsAt13(p, q);
    GatedLowDigitsAt14(p, q);
  }

  lemma GatedMulOfZero(p: bv32)
    ensures GatedMul(p, 0) == 0
  {
  }

  /** The bits of q that the first n coefficients occupy: 8^n. */
  /** 8^n: the words below Bound(n) are those whose coefficients from n up are all 0. */
  function Bound(n: nat): bv32
    requires n <= Terms
  {
    if n == 0 then 1 else if n == 1 then 8 else if n == 2 then 0x40 else if n == 3 then 0x200
    else if n == 4 then 0x1000 else if n == 5 then 0x8000 else if n == 6 then 0x4_0000
    else if n == 7 then 0x20_0000 else if n == 8 then 0x100_0000 else if n == 9 then 0x800_0000 else 0x4000_0000
  }

  lemma BoundShift(q: bv32, n: nat)
    requires 0 < n <= 5 && q < Bound(n)
    ensures q < 0x8000 && ShiftDown(q) < Bound(n - 1)
  {
  }

  /** Rows built by a step have clear low bits in rows 1 and 2. */
  lemma StepLowBits(p: bv32, d: GF8.Elem, r1: bv32, r2: bv32, s1: bv32, s2: bv32)
    requires r1 == Add(ScaleRow1(p, d), ShiftUp(s1))
    requires r2 == Add(ScaleRow2(p, d), ShiftUp(s2))
    ensures r1 & 1 == 0 && r2 & 3 == 0
  {
  }

  /** The sum of two windows; by linearity its reduction is the sum of their reductions. */
  function WindowSum(a: bv8, b: bv8): bv8
  {
    a ^ b
  }

  lemma ReduceWindowSum(a: bv8, b: bv8)
    requires a < 32 && b < 32
    ensures WindowSum(a, b) < 32
    ensures GF8.ReduceModPrime(WindowSum(a, b)) == GF8.Add(GF8.ReduceModPrime(a), GF8.ReduceModPrime(b))
  {
    GF8.ReduceModPrimeLinear(a, b);
  }

  /** The last step of a coefficient of a product: the window of the new digit plus the window of the rest. */
  lemma WindowStepReduces(lhs: GF8.Elem, rest: GF8.Elem, a: GF8.Elem, d: GF8.Elem, w: bv8, w0: bv8)
    requires w0 < 32
    requires lhs == GF8.ReduceModPrime(WindowSum(GF8.CarrylessMul(a, d), w0))
    requires rest == GF8.ReduceModPrime(w0)
    ensures lhs == GF8.Add(GF8.FieldMul(a, d), rest)
  {
    ReduceWindowSum(GF8.CarrylessMul(a, d), w0);
  }

  // Coefficient-wise facts, one lemma per coefficient index.

  lemma CoeffAddAt0(a: bv32, b: bv32)
    ensures Coeff(Add(a, b), 0) == GF8.Add(Coeff(a, 0), Coeff(b, 0))
  {
  }

  lemma CoeffAddAt1(a: bv32, b: bv32)
    ensures Coeff(Add(a, b), 1) == GF8.Add(Coeff(a, 1), Coeff(b, 1))
  {
  }

  lemma CoeffAddAt2(a: bv32, b: bv32)
    ensures Coeff(Add(a, b), 2) == GF8.Add(Coeff(a, 2), Coeff(b, 2))
  {
  }

  lemma CoeffAddAt3(a: bv32, b: bv32)
    ensures Coeff(Add(a, b), 3) == GF8.Add(Coeff(a, 3), Coeff(b, 3))
  {
  }

  lemma CoeffAddAt4(a: bv32, b: bv32)
    ensures Coeff(Add(a, b), 4) == GF8.Add(Coeff(a, 4), Coeff(b, 4))
  {
  }

  lemma CoeffAddAt5(a: bv32, b: bv32)
    ensures Coeff(Add(a, b), 5) == GF8.Add(Coeff(a, 5), Coeff(b, 5))
  {
  }

  lemma CoeffAddAt6(a: bv32, b: bv32)
    ensures Coeff(Add(a, b), 6) == GF8.Add(Coeff(a, 6), Coeff(b, 6))
  {
  }

  lemma CoeffAddAt7(a: bv32, b: bv32)
    ensures Coeff(Add(a, b), 7) == GF8.Add(Coeff(a, 7), Coeff(b, 7))
  {
  }

  lemma CoeffAddAt8(a: bv32, b: bv32)
    ensures Coeff(Add(a, b), 8) == GF8.Add(Coeff(a, 8), Coeff(b, 8))
  {
  }

  lemma CoeffAddAt9(a: bv32, b: bv32)
    ensures Coeff(Add(a, b), 9) == GF8.Add(Coeff(a, 9), Coeff(b, 9))
  {
  }

  lemma CoeffAndAt0(a: bv32, b: bv32, k: nat)
    requires k == 0
    ensures Coeff(Common(a, b), k) == Coeff(a, k) & Coeff(b, k)
  {
  }

  lemma CoeffAndAt1(a: bv32, b: bv32, k: nat)
    requires k == 1
    ensures Coeff(Common(a, b), k) == Coeff(a, k) & Coeff(b, k)
  {
  }

  lemma CoeffAndAt2(a: bv32, b: bv32, k: nat)
    requires k == 2
    ensures Coeff(Common(a, b), k) == Coeff(a, k) & Coeff(b, k)
  {
  }

  lemma CoeffAndAt3(a: bv32, b: bv32, k: nat)
    requires k == 3
    ensures Coeff(Common(a, b), k) == Coeff(a, k) & Coeff(b, k)
  {
  }

  lemma CoeffAndAt4(a: bv32, b: bv32, k: nat)
    requires k == 4
    ensures Coeff(Common(a, b), k) == Coeff(a, k) & Coeff(b, k)
  {
  }

  lemma CoeffAndAt5(a: bv32, b: bv32, k: nat)
    requires k == 5
    ensures Coeff(Common(a, b), k) == Coeff(a, k) & Coeff(b, k)
  {
  }

  lemma CoeffAndAt6(a: bv32, b: bv32, k: nat)
    requires k == 6
    ensures Coeff(Common(a, b), k) == Coeff(a, k) & Coeff(b, k)
  {
  }

  lemma CoeffAndAt7(a: bv32, b: bv32, k: nat)
    requires k == 7
    ensures Coeff(Common(a, b), k) == Coeff(a, k) & Coeff(b, k)
  {
  }

  lemma CoeffAndAt8(a: bv32, b: bv32, k: nat)
    requires k == 8
    ensures Coeff(Common(a, b), k) == Coeff(a, k) & Coeff(b, k)
  {
  }

  lemma CoeffAndAt9(a: bv32, b: bv32, k: nat)
    requires k == 9
    ensures Coeff(Common(a, b), k) == Coeff(a, k) & Coeff(b, k)
  {
  }

  lemma CoeffShiftUpAt0(p: bv32)
    ensures Coeff(ShiftUp(p), 0) == 0
  {
  }

  lemma CoeffShiftUpAt1(p: bv32)
    ensures Coeff(ShiftUp(p), 1) == Coeff(p, 0)
  {
  }

  lemma CoeffShiftUpAt2(p: bv32)
    ensures Coeff(ShiftUp(p), 2) == Coeff(p, 1)
  {
  }

  lemma CoeffShiftUpAt3(p: bv32)
    ensures Coeff(ShiftUp(p), 3) == Coeff(p, 2)
  {
  }

  lemma CoeffShiftUpAt4(p: bv32)
    ensures Coeff(ShiftUp(p), 4) == Coeff(p, 3)
  {
  }

  lemma CoeffShiftUpAt5(p: bv32)
    ensures Coeff(ShiftUp(p), 5) == Coeff(p, 4)
  {
  }

  lemma CoeffShiftUpAt6(p: bv32)
    ensures Coeff(ShiftUp(p), 6) == Coeff(p, 5)
  {
  }

  lemma CoeffShiftUpAt7(p: bv32)
    ensures Coeff(ShiftUp(p), 7) == Coeff(p, 6)
  {
  }

  lemma CoeffShiftUpAt8(p: bv32)
    ensures Coeff(ShiftUp(p), 8) == Coeff(p, 7)
  {
  }

  lemma CoeffShiftUpAt9(p: bv32)
    ensures Coeff(ShiftUp(p), 9) == Coeff(p, 8)
  {
  }

  lemma CoeffShiftDownAt0(p: bv32)
    ensures Coeff(ShiftDown(p), 0) == Coeff(p, 1)
  {
  }

  lemma CoeffShiftDownAt1(p: bv32)
    ensures Coeff(ShiftDown(p), 1) == Coeff(p, 2)
  {
  }

  lemma CoeffShiftDownAt2(p: bv32)
    ensures Coeff(ShiftDown(p), 2) == Coeff(p, 3)
  {
  }

  lemma CoeffShiftDownAt3(p: bv32)
    ensures Coeff(ShiftDown(p), 3) == Coeff(p, 4)
  {
  }

  lemma CoeffShiftDownAt4(p: bv32)
    ensures Coeff(ShiftDown(p), 4) == Coeff(p, 5)
  {
  }

  lemma CoeffShiftDownAt5(p: bv32)
    ensures Coeff(ShiftDown(p), 5) == Coeff(p, 6)
  {
  }

  lemma CoeffShiftDownAt6(p: bv32)
    ensures Coeff(ShiftDown(p), 6) == Coeff(p, 7)
  {
  }

  lemma CoeffShiftDownAt7(p: bv32)
    ensures Coeff(ShiftDown(p), 7) == Coeff(p, 8)
  {
  }

  lemma CoeffShiftDownAt8(p: bv32)
    ensures Coeff(ShiftDown(p), 8) == Coeff(p, 9)
  {
  }

  lemma CoeffShiftDownAt9(p: bv32)
    requires p < Limit
    ensures Coeff(ShiftDown(p), 9) == 0
  {
  }

  lemma CombineCoeffAt0(r0: bv32, r1: bv32, r2: bv32)
    ensures Coeff(Combine(r0, r1, r2), 0) == GF8.ReduceModPrime(Window(r0, r1, r2))
  {
  }

  lemma CombineCoeffAt1(r0: bv32, r1: bv32, r2: bv32)
    ensures Coeff(Combine(r0, r1, r2), 1) == GF8.ReduceModPrime(Window(r0 >> 3, r1 >> 3, r2 >> 3))
  {
  }

  lemma CombineCoeffAt2(r0: bv32, r1: bv32, r2: bv32)
    ensures Coeff(Combine(r0, r1, r2), 2) == GF8.ReduceModPrime(Window(r0 >> 6, r1 >> 6, r2 >> 6))
  {
  }

  lemma CombineCoeffAt3(r0: bv32, r1: bv32, r2: bv32)
    ensures Coeff(Combine(r0, r1, r2), 3) == GF8.ReduceModPrime(Window(r0 >> 9, r1 >> 9, r2 >> 9))
  {
  }

  lemma CombineCoeffAt4(r0: bv32, r1: bv32, r2: bv32)
    ensures Coeff(Combine(r0, r1, r2), 4) == GF8.ReduceModPrime(Window(r0 >> 12, r1 >> 12, r2 >> 12))
  {
  }

  lemma CombineCoeffAt5(r0: bv32, r1: bv32, r2: bv32)
    ensures Coeff(Combine(r0, r1, r2), 5) == GF8.ReduceModPrime(Window(r0 >> 15, r1 >> 15, r2 >> 15))
  {
  }

  lemma CombineCoeffAt6(r0: bv32, r1: bv32, r2: bv32)
    ensures Coeff(Combine(r0, r1, r2), 6) == GF8.ReduceModPrime(Window(r0 >> 18, r1 >> 18, r2 >> 18))
  {
  }

  lemma CombineCoeffAt7(r0: bv32, r1: bv32, r2: bv32)
    ensures Coeff(Combine(r0, r1, r2), 7) == GF8.ReduceModPrime(Window(r0 >> 21, r1 >> 21, r2 >> 21))
  {
  }

  lemma CombineCoeffAt8(r0: bv32, r1: bv32, r2: bv32)
    ensures Coeff(Combine(r0, r1, r2), 8) == GF8.ReduceModPrime(Window(r0 >> 24, r1 >> 24, r2 >> 24))
  {
  }

  lemma CombineCoeffAt9(r0: bv32, r1: bv32, r2: bv32)
    ensures Coeff(Combine(r0, r1, r2), 9) == GF8.ReduceModPrime(Window(r0 >> 27, r1 >> 27, r2 >> 27))
  {
  }

  lemma WindowStepAt0(a0: bv32, a1: bv32, a2: bv32, b0: bv32, b1: bv32, b2: bv32)
    requires b1 & 1 == 0 && b2 & 3 == 0
    ensures Window(Add(a0, ShiftUp(b0)), Add(a1, ShiftUp(b1)), Add(a2, ShiftUp(b2))) == Window(a0, a1, a2)
  {
  }

  lemma WindowStepAt1(a0: bv32, a1: bv32, a2: bv32, b0: bv32, b1: bv32, b2: bv32)
    ensures Window(Add(a0, ShiftUp(b0)) >> 3, Add(a1, ShiftUp(b1)) >> 3, Add(a2, ShiftUp(b2)) >> 3)
         == WindowSum(Window(a0 >> 3, a1 >> 3, a2 >> 3), Window(b0, b1, b2))
  {
  }

  lemma WindowStepAt2(a0: bv32, a1: bv32, a2: bv32, b0: bv32, b1: bv32, b2: bv32)
    ensures Window(Add(a0, ShiftUp(b0)) >> 6, Add(a1, ShiftUp(b1)) >> 6, Add(a2, ShiftUp(b2)) >> 6)
         == WindowSum(Window(a0 >> 6, a1 >> 6, a2 >> 6), Window(b0 >> 3, b1 >> 3, b2 >> 3))
  {
  }

  lemma WindowStepAt3(a0: bv32, a1: bv32, a2: bv32, b0: bv32, b1: bv32, b2: bv32)
    ensures Window(Add(a0, ShiftUp(b0)) >> 9, Add(a1, ShiftUp(b1)) >> 9, Add(a2, ShiftUp(b2)) >> 9)
         == WindowSum(Window(a0 >> 9, a1 >> 9, a2 >> 9), Window(b0 >> 6, b1 >> 6, b2 >> 6))
  {
  }

  lemma WindowStepAt4(a0: bv32, a1: bv32, a2: bv32, b0: bv32, b1: bv32, b2: bv32)
    ensures Window(Add(a0, ShiftUp(b0)) >> 12, Add(a1, ShiftUp(b1)) >> 12, Add(a2, ShiftUp(b2)) >> 12)
         == WindowSum(Window(a0 >> 12, a1 >> 12, a2 >> 12), Window(b0 >> 9, b1 >> 9, b2 >> 9))
  {
  }

  lemma WindowStepAt5(a0: bv32, a1: bv32, a2: bv32, b0: bv32, b1: bv32, b2: bv32)
    ensures Window(Add(a0, ShiftUp(b0)) >> 15, Add(a1, ShiftUp(b1)) >> 15, Add(a2, ShiftUp(b2)) >> 15)
         == WindowSum(Window(a0 >> 15, a1 >> 15, a2 >> 15), Window(b0 >> 12, b1 >> 12, b2 >> 12))
  {
  }

  lemma WindowStepAt6(a0: bv32, a1: bv32, a2: bv32, b0: bv32, b1: bv32, b2: bv32)
    ensures Window(Add(a0, ShiftUp(b0)) >> 18, Add(a1, ShiftUp(b1)) >> 18, Add(a2, ShiftUp(b2)) >> 18)
         == WindowSum(Window(a0 >> 18, a1 >> 18, a2 >> 18), Window(b0 >> 15, b1 >> 15, b2 >> 15))
  {
  }

  lemma WindowStepAt7(a0: bv32, a1: bv32, a2: bv32, b0: bv32, b1: bv32, b2: bv32)
    ensures Window(Add(a0, ShiftUp(b0)) >> 21, Add(a1, ShiftUp(b1)) >> 21, Add(a2, ShiftUp(b2)) >> 21)
         == WindowSum(Window(a0 >> 21, a1 >> 21, a2 >> 21), Window(b0 >> 18, b1 >> 18, b2 >> 18))
  {
  }

  lemma WindowStepAt8(a0: bv32, a1: bv32, a2: bv32, b0: bv32, b1: bv32, b2: bv32)
    ensures Window(Add(a0, ShiftUp(b0)) >> 24, Add(a1, ShiftUp(b1)) >> 24, Add(a2, ShiftUp(b2)) >> 24)
         == WindowSum(Window(a0 >> 24, a1 >> 24, a2 >> 24), Window(b0 >> 21, b1 >> 21, b2 >> 21))
  {
  }

  lemma WindowStepAt9(a0: bv32, a1: bv32, a2: bv32, b0: bv32, b1: bv32, b2: bv32)
    ensures Window(Add(a0, ShiftUp(b0)) >> 27, Add(a1, ShiftUp(b1)) >> 27, Add(a2, ShiftUp(b2)) >> 27)
         == WindowSum(Window(a0 >> 27, a1 >> 27, a2 >> 27), Window(b0 >> 24, b1 >> 24, b2 >> 24))
  {
  }

  lemma ScaleWindowAt0(p: bv32, x: GF8.Elem)
    ensures Window(ScaleRow0(p, x), ScaleRow1(p, x), ScaleRow2(p, x)) == GF8.CarrylessMul(Coeff(p, 0), x)
  {
  }

  lemma ScaleWindowAt1(p: bv32, x: GF8.Elem)
    ensures Window(ScaleRow0(p, x) >> 3, ScaleRow1(p, x) >> 3, ScaleRow2(p, x) >> 3) == GF8.CarrylessMul(Coeff(p, 1), x)
  {
  }

  lemma ScaleWindowAt2(p: bv32, x: GF8.Elem)
    ensures Window(ScaleRow0(p, x) >> 6, ScaleRow1(p, x) >> 6, ScaleRow2(p, x) >> 6) == GF8.CarrylessMul(Coeff(p, 2), x)
  {
  }

  lemma ScaleWindowAt3(p: bv32, x: GF8.Elem)
    ensures Window(ScaleRow0(p, x) >> 9, ScaleRow1(p, x) >> 9, ScaleRow2(p, x) >> 9) == GF8.CarrylessMul(Coeff(p, 3), x)
  {
  }

  lemma ScaleWindowAt4(p: bv32, x: GF8.Elem)
    ensures Window(ScaleRow0(p, x) >> 12, ScaleRow1(p, x) >> 12, ScaleRow2(p, x) >> 12) == GF8.CarrylessMul(Coeff(p, 4), x)
  {
  }

  lemma ScaleWindowAt5(p: bv32, x: GF8.Elem)
    ensures Window(ScaleRow0(p, x) >> 15, ScaleRow1(p, x) >> 15, ScaleRow2(p, x) >> 15) == GF8.CarrylessMul(Coeff(p, 5), x)
  {
  }

  lemma ScaleWindowAt6(p: bv32, x: GF8.Elem)
    ensures Window(ScaleRow0(p, x) >> 18, ScaleRow1(p, x) >> 18, ScaleRow2(p, x) >> 18) == GF8.CarrylessMul(Coeff(p, 6), x)
  {
  }

  lemma ScaleWindowAt7(p: bv32, x: GF8.Elem)
    ensures Window(ScaleRow0(p, x) >> 21, ScaleRow1(p, x) >> 21, ScaleRow2(p, x) >> 21) == GF8.CarrylessMul(Coeff(p, 7), x)
  {
  }

  lemma ScaleWindowAt8(p: bv32, x: GF8.Elem)
    ensures Window(ScaleRow0(p, x) >> 24, ScaleRow1(p, x) >> 24, ScaleRow2(p, x) >> 24) == GF8.CarrylessMul(Coeff(p, 8), x)
  {
  }

  lemma ScaleWindowAt9(p: bv32, x: GF8.Elem)
    ensures Window(ScaleRow0(p, x) >> 27, ScaleRow1(p, x) >> 27, ScaleRow2(p, x) >> 27) == GF8.CarrylessMul(Coeff(p, 9), x)
  {
  }

  lemma ScaleCoeffAt0(p: bv32, x: GF8.Elem)
    ensures Coeff(Scale(p, x), 0) == GF8.FieldMul(Coeff(p, 0), x)
  {
    CombineCoeffAt0(ScaleRow0(p, x), ScaleRow1(p, x), ScaleRow2(p, x));
    ScaleWindowAt0(p, x);
  }

  lemma ScaleCoeffAt1(p: bv32, x: GF8.Elem)
    ensures Coeff(Scale(p, x), 1) == GF8.FieldMul(Coeff(p, 1), x)
  {
    CombineCoeffAt1(ScaleRow0(p, x), ScaleRow1(p, x), ScaleRow2(p, x));
    ScaleWindowAt1(p, x);
  }

  lemma ScaleCoeffAt2(p: bv32, x: GF8.Elem)
    ensures Coeff(Scale(p, x), 2) == GF8.FieldMul(Coeff(p, 2), x)
  {
    CombineCoeffAt2(ScaleRow0(p, x), ScaleRow1(p, x), ScaleRow2(p, x));
    ScaleWindowAt2(p, x);
  }

  lemma ScaleCoeffAt3(p: bv32, x: GF8.Elem)
    ensures Coeff(Scale(p, x), 3) == GF8.FieldMul(Coeff(p, 3), x)
  {
    CombineCoeffAt3(ScaleRow0(p, x), ScaleRow1(p, x), ScaleRow2(p, x));
    ScaleWindowAt3(p, x);
  }

  lemma ScaleCoeffAt4(p: bv32, x: GF8.Elem)
    ensures Coeff(Scale(p, x), 4) == GF8.FieldMul(Coeff(p, 4), x)
  {
    CombineCoeffAt4(ScaleRow0(p, x), ScaleRow1(p, x), ScaleRow2(p, x));
    ScaleWindowAt4(p, x);
  }

  lemma ScaleCoeffAt5(p: bv32, x: GF8.Elem)
    ensures Coeff(Scale(p, x), 5) == GF8.FieldMul(Coeff(p, 5), x)
  {
    CombineCoeffAt5(ScaleRow0(p, x), ScaleRow1(p, x), ScaleRow2(p, x));
    ScaleWindowAt5(p, x);
  }

  lemma ScaleCoeffAt6(p: bv32, x: GF8.Elem)
    ensures Coeff(Scale(p, x), 6) == GF8.FieldMul(Coeff(p, 6), x)
  {
    CombineCoeffAt6(ScaleRow0(p, x), ScaleRow1(p, x), ScaleRow2(p, x));
    ScaleWindowAt6(p, x);
  }

  lemma ScaleCoeffAt7(p: bv32, x: GF8.Elem)
    ensures Coeff(Scale(p, x), 7) == GF8.FieldMul(Coeff(p, 7), x)
  {
    CombineCoeffAt7(ScaleRow0(p, x), ScaleRow1(p, x), ScaleRow2(p, x));
    ScaleWindowAt7(p, x);
  }

  lemma ScaleCoeffAt8(p: bv32, x: GF8.Elem)
    ensures Coeff(Scale(p, x), 8) == GF8.FieldMul(Coeff(p, 8), x)
  {
    CombineCoeffAt8(ScaleRow0(p, x), ScaleRow1(p, x), ScaleRow2(p, x));
    ScaleWindowAt8(p, x);
  }

  lemma ScaleCoeffAt9(p: bv32, x: GF8.Elem)
    ensures Coeff(Scale(p, x), 9) == GF8.FieldMul(Coeff(p, 9), x)
  {
    CombineCoeffAt9(ScaleRow0(p, x), ScaleRow1(p, x), ScaleRow2(p, x));
    ScaleWindowAt9(p, x);
  }


  lemma SelectIsGated(p: bv32, q: bv32)
    ensures Select(p, q) == Gated(p, q, 0)
  {
  }

  lemma PartialIsGatedAt1(p: bv32, q: bv32)
    ensures Partial(p, q, 0x2) == Gated(p, q, 1)
  {
  }

  lemma PartialIsGatedAt2(p: bv32, q: bv32)
    ensures Partial(p, q, 0x4) == Gated(p, q, 2)
  {
  }

  lemma PartialIsGatedAt3(p: bv32, q: bv32)
    ensures Partial(p, q, 0x8) == Gated(p, q, 3)
  {
  }

  lemma PartialIsGatedAt4(p: bv32, q: bv32)
    ensures Partial(p, q, 0x10) == Gated(p, q, 4)
  {
  }

  lemma PartialIsGatedAt5(p: bv32, q: bv32)
    ensures Partial(p, q, 0x20) == Gated(p, q, 5)
  {
  }

  lemma PartialIsGatedAt6(p: bv32, q: bv32)
    ensures Partial(p, q, 0x40) == Gated(p, q, 6)
  {
  }

  lemma PartialIsGatedAt7(p: bv32, q: bv32)
    ensures Partial(p, q, 0x80) == Gated(p, q, 7)
  {
  }

  lemma PartialIsGatedAt8(p: bv32, q: bv32)
    ensures Partial(p, q, 0x100) == Gated(p, q, 8)
  {
  }

  lemma PartialIsGatedAt9(p: bv32, q: bv32)
    ensures Partial(p, q, 0x200) == Gated(p, q, 9)
  {
  }

  lemma PartialIsGatedAt10(p: bv32, q: bv32)
    ensures Partial(p, q, 0x400) == Gated(p, q, 10)
  {
  }

  lemma PartialIsGatedAt11(p: bv32, q: bv32)
    ensures Partial(p, q, 0x800) == Gated(p, q, 11)
  {
  }

  lemma PartialIsGatedAt12(p: bv32, q: bv32)
    ensures Partial(p, q, 0x1000) == Gated(p, q, 12)
  {
  }

  lemma PartialIsGatedAt13(p: bv32, q: bv32)
    ensures Partial(p, q, 0x2000) == Gated(p, q, 13)
  {
  }

  lemma PartialIsGatedAt14(p: bv32, q: bv32)
    ensures Partial(p, q, 0x4000) == Gated(p, q, 14)
  {
  }

  lemma GatedShiftAt0(p: bv32, q: bv32)
    ensures Gated(p, q, 3) == ShiftUp(Gated(p, ShiftDown(q), 0))
  {
  }

  lemma GatedShiftAt1(p: bv32, q: bv32)
    ensures Gated(p, q, 4) == ShiftUp(Gated(p, ShiftDown(q), 1))
  {
  }

  lemma GatedShiftAt2(p: bv32, q: bv32)
    ensures Gated(p, q, 5) == ShiftUp(Gated(p, ShiftDown(q), 2))
  {
  }

  lemma GatedShiftAt3(p: bv32, q: bv32)
    ensures Gated(p, q, 6) == ShiftUp(Gated(p, ShiftDown(q), 3))
  {
  }

  lemma GatedShiftAt4(p: bv32, q: bv32)
    ensures Gated(p, q, 7) == ShiftUp(Gated(p, ShiftDown(q), 4))
  {
  }

  lemma GatedShiftAt5(p: bv32, q: bv32)
    ensures Gated(p, q, 8) == ShiftUp(Gated(p, ShiftDown(q), 5))
  {
  }

  lemma GatedShiftAt6(p: bv32, q: bv32)
    ensures Gated(p, q, 9) == ShiftUp(Gated(p, ShiftDown(q), 6))
  {
  }

  lemma GatedShiftAt7(p: bv32, q: bv32)
    ensures Gated(p, q, 10) == ShiftUp(Gated(p, ShiftDown(q), 7))
  {
  }

  lemma GatedShiftAt8(p: bv32, q: bv32)
    ensures Gated(p, q, 11) == ShiftUp(Gated(p, ShiftDown(q), 8))
  {
  }

  lemma GatedShiftAt9(p: bv32, q: bv32)
    ensures Gated(p, q, 12) == ShiftUp(Gated(p, ShiftDown(q), 9))
  {
  }

  lemma GatedShiftAt10(p: bv32, q: bv32)
    ensures Gated(p, q, 13) == ShiftUp(Gated(p, ShiftDown(q), 10))
  {
  }

  lemma GatedShiftAt11(p: bv32, q: bv32)
    ensures Gated(p, q, 14) == ShiftUp(Gated(p, ShiftDown(q), 11))
  {
  }

  lemma GatedTopAt12(p: bv32, q: bv32)
    requires q < 0x8000
    ensures ShiftUp(Gated(p, ShiftDown(q), 12)) == 0
  {
  }

  lemma GatedTopAt13(p: bv32, q: bv32)
    requires q < 0x8000
    ensures ShiftUp(Gated(p, ShiftDown(q), 13)) == 0
  {
  }

  lemma GatedTopAt14(p: bv32, q: bv32)
    requires q < 0x8000
    ensures ShiftUp(Gated(p, ShiftDown(q), 14)) == 0
  {
  }

  lemma ScaleRow0IsGated(p: bv32, q: bv32)
    ensures ScaleRow0(p, Digit(q)) == Gated(p, q, 0)
  {
  }

  lemma ScaleRow1IsGated(p: bv32, q: bv32)
    ensures ScaleRow1(p, Digit(q)) == Gated(p, q, 1)
  {
  }

  lemma ScaleRow2IsGated(p: bv32, q: bv32)
    ensures ScaleRow2(p, Digit(q)) == Gated(p, q, 2)
  {
  }

  lemma GatedRow0Shift(p: bv32, q: bv32)
    requires q < 0x8000
    ensures ShiftUp(GatedRow0(p, ShiftDown(q))) == Add(Gated(p, q, 3), Add(Gated(p, q, 6), Add(Gated(p, q, 9), Gated(p, q, 12))))
  {
    ShiftUpAdd(Gated(p, ShiftDown(q), 0), Add(Gated(p, ShiftDown(q), 3), Add(Gated(p, ShiftDown(q), 6), Add(Gated(p, ShiftDown(q), 9), Gated(p, ShiftDown(q), 12)))));
    ShiftUpAdd(Gated(p, ShiftDown(q), 3), Add(Gated(p, ShiftDown(q), 6), Add(Gated(p, ShiftDown(q), 9), Gated(p, ShiftDown(q), 12))));
    ShiftUpAdd(Gated(p, ShiftDown(q), 6), Add(Gated(p, ShiftDown(q), 9), Gated(p, ShiftDown(q), 12)));
    ShiftUpAdd(Gated(p, ShiftDown(q), 9), Gated(p, ShiftDown(q), 12));
    GatedShiftAt0(p, q);
    GatedShiftAt3(p, q);
    GatedShiftAt6(p, q);
    GatedShiftAt9(p, q);
    GatedTopAt12(p, q);
    AddZero(Gated(p, q, 12));
  }

  lemma GatedRow0Step(p: bv32, q: bv32)
    requires q < 0x8000
    ensures GatedRow0(p, q) == Add(ScaleRow0(p, Digit(q)), ShiftUp(GatedRow0(p, ShiftDown(q))))
  {
    GatedRow0Shift(p, q);
    ScaleRow0IsGated(p, q);
  }

  /** Row 0 of the product regrouped: the left-nested sum of its gated terms is GatedRow0. */
  lemma GatedRow0Regrouped(p: bv32, q: bv32)
    ensures Add(Add(Add(Add(Gated(p, q, 0), Gated(p, q, 3)), Gated(p, q, 6)), Gated(p, q, 9)), Gated(p, q, 12)) == GatedRow0(p, q)
  {
    AddAssociates(Add(Add(Gated(p, q, 0), Gated(p, q, 3)), Gated(p, q, 6)), Gated(p, q, 9), Gated(p, q, 12));
    AddAssociates(Add(Gated(p, q, 0), Gated(p, q, 3)), Gated(p, q, 6), Add(Gated(p, q, 9), Gated(p, q, 12)));
    AddAssociates(Gated(p, q, 0), Gated(p, q, 3), Add(Gated(p, q, 6), Add(Gated(p, q, 9), Gated(p, q, 12))));
  }

  lemma GatedRow1Shift(p: bv32, q: bv32)
    requires q < 0x8000
    ensures ShiftUp(GatedRow1(p, ShiftDown(q))) == Add(Gated(p, q, 4), Add(Gated(p, q, 7), Add(Gated(p, q, 10), Gated(p, q, 13))))
  {
    ShiftUpAdd(Gated(p, ShiftDown(q), 1), Add(Gated(p, ShiftDown(q), 4), Add(Gated(p, ShiftDown(q), 7), Add(Gated(p, ShiftDown(q), 10), Gated(p, ShiftDown(q), 13)))));
    ShiftUpAdd(Gated(p, ShiftDown(q), 4), Add(Gated(p, ShiftDown(q), 7), Add(Gated(p, ShiftDown(q), 10), Gated(p, ShiftDown(q), 13))));
    ShiftUpAdd(Gated(p, ShiftDown(q), 7), Add(Gated(p, ShiftDown(q), 10), Gated(p, ShiftDown(q), 13)));
    ShiftUpAdd(Gated(p, ShiftDown(q), 10), Gated(p, ShiftDown(q), 13));
    GatedShiftAt1(p, q);
    GatedShiftAt4(p, q);
    GatedShiftAt7(p, q);
    GatedShiftAt10(p, q);
    GatedTopAt13(p, q);
    AddZero(Gated(p, q, 13));
  }

  lemma GatedRow1Step(p: bv32, q: bv32)
    requires q < 0x8000
    ensures GatedRow1(p, q) == Add(ScaleRow1(p, Digit(q)), ShiftUp(GatedRow1(p, ShiftDown(q))))
  {
    GatedRow1Shift(p, q);
    ScaleRow1IsGated(p, q);
  }

  /** Row 1 of the product regrouped: the left-nested sum of its gated terms is GatedRow1. */
  lemma GatedRow1Regrouped(p: bv32, q: bv32)
    ensures Add(Add(Add(Add(Gated(p, q, 1), Gated(p, q, 4)), Gated(p, q, 7)), Gated(p, q, 10)), Gated(p, q, 13)) == GatedRow1(p, q)
  {
    AddAssociates(Add(Add(Gated(p, q, 1), Gated(p, q, 4)), Gated(p, q, 7)), Gated(p, q, 10), Gated(p, q, 13));
    AddAssociates(Add(Gated(p, q, 1), Gated(p, q, 4)), Gated(p, q, 7), Add(Gated(p, q, 10), Gated(p, q, 13)));
    AddAssociates(Gated(p, q, 1), Gated(p, q, 4), Add(Gated(p, q, 7), Add(Gated(p, q, 10), Gated(p, q, 13))));
  }

  lemma GatedRow2Shift(p: bv32, q: bv32)
    requires q < 0x8000
    ensures ShiftUp(GatedRow2(p, ShiftDown(q))) == Add(Gated(p, q, 5), Add(Gated(p, q, 8), Add(Gated(p, q, 11), Gated(p, q, 14))))
  {
    ShiftUpAdd(Gated(p, ShiftDown(q), 2), Add(Gated(p, ShiftDown(q), 5), Add(Gated(p, ShiftDown(q), 8), Add(Gated(p, ShiftDown(q), 11), Gated(p, ShiftDown(q), 14)))));
    ShiftUpAdd(Gated(p, ShiftDown(q), 5), Add(Gated(p, ShiftDown(q), 8), Add(Gated(p, ShiftDown(q), 11), Gated(p, ShiftDown(q), 14))));
    ShiftUpAdd(Gated(p, ShiftDown(q), 8), Add(Gated(p, ShiftDown(q), 11), Gated(p, ShiftDown(q), 14)));
    ShiftUpAdd(Gated(p, ShiftDown(q), 11), Gated(p, ShiftDown(q), 14));
    GatedShiftAt2(p, q);
    GatedShiftAt5(p, q);
    GatedShiftAt8(p, q);
    GatedShiftAt11(p, q);
    GatedTopAt14(p, q);
    AddZero(Gated(p, q, 14));
  }

  lemma GatedRow2Step(p: bv32, q: bv32)
    requires q < 0x8000
    ensures GatedRow2(p, q) == Add(ScaleRow2(p, Digit(q)), ShiftUp(GatedRow2(p, ShiftDown(q))))
  {
    GatedRow2Shift(p, q);
    ScaleRow2IsGated(p, q);
  }

  /** Row 2 of the product regrouped: the left-nested sum of its gated terms is GatedRow2. */
  lemma GatedRow2Regrouped(p: bv32, q: bv32)
    ensures Add(Add(Add(Add(Gated(p, q, 2), Gated(p, q, 5)), Gated(p, q, 8)), Gated(p, q, 11)), Gated(p, q, 14)) == GatedRow2(p, q)
  {
    AddAssociates(Add(Add(Gated(p, q, 2), Gated(p, q, 5)), Gated(p, q, 8)), Gated(p, q, 11), Gated(p, q, 14));
    AddAssociates(Add(Gated(p, q, 2), Gated(p, q, 5)), Gated(p, q, 8), Add(Gated(p, q, 11), Gated(p, q, 14)));
    AddAssociates(Gated(p, q, 2), Gated(p, q, 5), Add(Gated(p, q, 8), Add(Gated(p, q, 11), Gated(p, q, 14))));
  }

  lemma CombineStepAt0(p: bv32, d: GF8.Elem, r0: bv32, r1: bv32, r2: bv32, s0: bv32, s1: bv32, s2: bv32)
    requires r0 == Add(ScaleRow0(p, d), ShiftUp(s0))
    requires r1 == Add(ScaleRow1(p, d), ShiftUp(s1))
    requires r2 == Add(ScaleRow2(p, d), ShiftUp(s2))
    requires s1 & 1 == 0 && s2 & 3 == 0
    ensures Coeff(Combine(r0, r1, r2), 0) == GF8.FieldMul(Coeff(p, 0), d)
  {
    CombineCoeffAt0(r0, r1, r2);
    WindowStepAt0(ScaleRow0(p, d), ScaleRow1(p, d), ScaleRow2(p, d), s0, s1, s2);
    ScaleWindowAt0(p, d);
  }

  lemma CombineWindowStepAt1(p: bv32, d: GF8.Elem, r0: bv32, r1: bv32, r2: bv32, s0: bv32, s1: bv32, s2: bv32)
    requires r0 == Add(ScaleRow0(p, d), ShiftUp(s0))
    requires r1 == Add(ScaleRow1(p, d), ShiftUp(s1))
    requires r2 == Add(ScaleRow2(p, d), ShiftUp(s2))
    ensures Window(r0 >> 3, r1 >> 3, r2 >> 3) == WindowSum(GF8.CarrylessMul(Coeff(p, 1), d), Window(s0, s1, s2))
  {
    WindowStepAt1(ScaleRow0(p, d), ScaleRow1(p, d), ScaleRow2(p, d), s0, s1, s2);
    ScaleWindowAt1(p, d);
  }

  lemma CombineStepAt1(p: bv32, d: GF8.Elem, r0: bv32, r1: bv32, r2: bv32, s0: bv32, s1: bv32, s2: bv32)
    requires r0 == Add(ScaleRow0(p, d), ShiftUp(s0))
    requires r1 == Add(ScaleRow1(p, d), ShiftUp(s1))
    requires r2 == Add(ScaleRow2(p, d), ShiftUp(s2))
    ensures Coeff(Combine(r0, r1, r2), 1) == GF8.Add(GF8.FieldMul(Coeff(p, 1), d), Coeff(Combine(s0, s1, s2), 0))
  {
    CombineCoeffAt1(r0, r1, r2);
    CombineWindowStepAt1(p, d, r0, r1, r2, s0, s1, s2);
    CombineCoeffAt0(s0, s1, s2);
    WindowStepReduces(Coeff(Combine(r0, r1, r2), 1), Coeff(Combine(s0, s1, s2), 0), Coeff(p, 1), d, Window(r0 >> 3, r1 >> 3, r2 >> 3), Window(s0, s1, s2));
  }

  lemma CombineWindowStepAt2(p: bv32, d: GF8.Elem, r0: bv32, r1: bv32, r2: bv32, s0: bv32, s1: bv32, s2: bv32)
    requires r0 == Add(ScaleRow0(p, d), ShiftUp(s0))
    requires r1 == Add(ScaleRow1(p, d), ShiftUp(s1))
    requires r2 == Add(ScaleRow2(p, d), ShiftUp(s2))
    ensures Window(r0 >> 6, r1 >> 6, r2 >> 6) == WindowSum(GF8.CarrylessMul(Coeff(p, 2), d), Window(s0 >> 3, s1 >> 3, s2 >> 3))
  {
    WindowStepAt2(ScaleRow0(p, d), ScaleRow1(p, d), ScaleRow2(p, d), s0, s1, s2);
    ScaleWindowAt2(p, d);
  }

  lemma CombineStepAt2(p: bv32, d: GF8.Elem, r0: bv32, r1: bv32, r2: bv32, s0: bv32, s1: bv32, s2: bv32)
    requires r0 == Add(ScaleRow0(p, d), ShiftUp(s0))
    requires r1 == Add(ScaleRow1(p, d), ShiftUp(s1))
    requires r2 == Add(ScaleRow2(p, d), ShiftUp(s2))
    ensures Coeff(Combine(r0, r1, r2), 2) == GF8.Add(GF8.FieldMul(Coeff(p, 2), d), Coeff(Combine(s0, s1, s2), 1))
  {
    CombineCoeffAt2(r0, r1, r2);
    CombineWindowStepAt2(p, d, r0, r1, r2, s0, s1, s2);
    CombineCoeffAt1(s0, s1, s2);
    WindowStepReduces(Coeff(Combine(r0, r1, r2), 2), Coeff(Combine(s0, s1, s2), 1), Coeff(p, 2), d, Window(r0 >> 6, r1 >> 6, r2 >> 6), Window(s0 >> 3, s1 >> 3, s2 >> 3));
  }

  lemma CombineWindowStepAt3(p: bv32, d: GF8.Elem, r0: bv32, r1: bv32, r2: bv32, s0: bv32, s1: bv32, s2: bv32)
    requires r0 == Add(ScaleRow0(p, d), ShiftUp(s0))
    requires r1 == Add(ScaleRow1(p, d), ShiftUp(s1))
    requires r2 == Add(ScaleRow2(p, d), ShiftUp(s2))
    ensures Window(r0 >> 9, r1 >> 9, r2 >> 9) == WindowSum(GF8.CarrylessMul(Coeff(p, 3), d), Window(s0 >> 6, s1 >> 6, s2 >> 6))
  {
    WindowStepAt3(ScaleRow0(p, d), ScaleRow1(p, d), ScaleRow2(p, d), s0, s1, s2);
    ScaleWindowAt3(p, d);
  }

  lemma CombineStepAt3(p: bv32, d: GF8.Elem, r0: bv32, r1: bv32, r2: bv32, s0: bv32, s1: bv32, s2: bv32)
    requires r0 == Add(ScaleRow0(p, d), ShiftUp(s0))
    requires r1 == Add(ScaleRow1(p, d), ShiftUp(s1))
    requires r2 == Add(ScaleRow2(p, d), ShiftUp(s2))
    ensures Coeff(Combine(r0, r1, r2), 3) == GF8.Add(GF8.FieldMul(Coeff(p, 3), d), Coeff(Combine(s0, s1, s2), 2))
  {
    CombineCoeffAt3(r0, r1, r2);
    CombineWindowStepAt3(p, d, r0, r1, r2, s0, s1, s2);
    CombineCoeffAt2(s0, s1, s2);
    WindowStepReduces(Coeff(Combine(r0, r1, r2), 3), Coeff(Combine(s0, s1, s2), 2), Coeff(p, 3), d, Window(r0 >> 9, r1 >> 9, r2 >> 9), Window(s0 >> 6, s1 >> 6, s2 >> 6));
  }

  lemma CombineWindowStepAt4(p: bv32, d: GF8.Elem, r0: bv32, r1: bv32, r2: bv32, s0: bv32, s1: bv32, s2: bv32)
    requires r0 == Add(ScaleRow0(p, d), ShiftUp(s0))
    requires r1 == Add(ScaleRow1(p, d), ShiftUp(s1))
    requires r2 == Add(ScaleRow2(p, d), ShiftUp(s2))
    ensures Window(r0 >> 12, r1 >> 12, r2 >> 12) == WindowSum(GF8.CarrylessMul(Coeff(p, 4), d), Window(s0 >> 9, s1 >> 9, s2 >> 9))
  {
    WindowStepAt4(ScaleRow0(p, d), ScaleRow1(p, d), ScaleRow2(p, d), s0, s1, s2);
    ScaleWindowAt4(p, d);
  }

  lemma CombineStepAt4(p: bv32, d: GF8.Elem, r0: bv32, r1: bv32, r2: bv32, s0: bv32, s1: bv32, s2: bv32)
    requires r0 == Add(ScaleRow0(p, d), ShiftUp(s0))
    requires r1 == Add(ScaleRow1(p, d), ShiftUp(s1))
    requires r2 == Add(ScaleRow2(p, d), ShiftUp(s2))
    ensures Coeff(Combine(r0, r1, r2), 4) == GF8.Add(GF8.FieldMul(Coeff(p, 4), d), Coeff(Combine(s0, s1, s2), 3))
  {
    CombineCoeffAt4(r0, r1, r2);
    CombineWindowStepAt4(p, d, r0, r1, r2, s0, s1, s2);
    CombineCoeffAt3(s0, s1, s2);
    WindowStepReduces(Coeff(Combine(r0, r1, r2), 4), Coeff(Combine(s0, s1, s2), 3), Coeff(p, 4), d, Window(r0 >> 12, r1 >> 12, r2 >> 12), Window(s0 >> 9, s1 >> 9, s2 >> 9));
  }

  lemma CombineWindowStepAt5(p: bv32, d: GF8.Elem, r0: bv32, r1: bv32, r2: bv32, s0: bv32, s1: bv32, s2: bv32)
    requires r0 == Add(ScaleRow0(p, d), ShiftUp(s0))
    requires r1 == Add(ScaleRow1(p, d), ShiftUp(s1))
    requires r2 == Add(ScaleRow2(p, d), ShiftUp(s2))
    ensures Window(r0 >> 15, r1 >> 15, r2 >> 15) == WindowSum(GF8.CarrylessMul(Coeff(p, 5), d), Window(s0 >> 12, s1 >> 12, s2 >> 12))
  {
    WindowStepAt5(ScaleRow0(p, d), ScaleRow1(p, d), ScaleRow2(p, d), s0, s1, s2);
    ScaleWindowAt5(p, d);
  }

  lemma CombineStepAt5(p: bv32, d: GF8.Elem, r0: bv32, r1: bv32, r2: bv32, s0: bv32, s1: bv32, s2: bv32)
    requires r0 == Add(ScaleRow0(p, d), ShiftUp(s0))
    requires r1 == Add(ScaleRow1(p, d), ShiftUp(s1))
    requires r2 == Add(ScaleRow2(p, d), ShiftUp(s2))
    ensures Coeff(Combine(r0, r1, r2), 5) == GF8.Add(GF8.FieldMul(Coeff(p, 5), d), Coeff(Combine(s0, s1, s2), 4))
  {
    CombineCoeffAt5(r0, r1, r2);
    CombineWindowStepAt5(p, d, r0, r1, r2, s0, s1, s2);
    CombineCoeffAt4(s0, s1, s2);
    WindowStepReduces(Coeff(Combine(r0, r1, r2), 5), Coeff(Combine(s0, s1, s2), 4), Coeff(p, 5), d, Window(r0 >> 15, r1 >> 15, r2 >> 15), Window(s0 >> 12, s1 >> 12, s2 >> 12));
  }

  lemma CombineWindowStepAt6(p: bv32, d: GF8.Elem, r0: bv32, r1: bv32, r2: bv32, s0: bv32, s1: bv32, s2: bv32)
    requires r0 == Add(ScaleRow0(p, d), ShiftUp(s0))
    requires r1 == Add(ScaleRow1(p, d), ShiftUp(s1))
    requires r2 == Add(ScaleRow2(p, d), ShiftUp(s2))
    ensures Window(r0 >> 18, r1 >> 18, r2 >> 18) == WindowSum(GF8.CarrylessMul(Coeff(p, 6), d), Window(s0 >> 15, s1 >> 15, s2 >> 15))
  {
    WindowStepAt6(ScaleRow0(p, d), ScaleRow1(p, d), ScaleRow2(p, d), s0, s1, s2);
    ScaleWindowAt6(p, d);
  }

  lemma CombineStepAt6(p: bv32, d: GF8.Elem, r0: bv32, r1: bv32, r2: bv32, s0: bv32, s1: bv32, s2: bv32)
    requires r0 == Add(ScaleRow0(p, d), ShiftUp(s0))
    requires r1 == Add(ScaleRow1(p, d), ShiftUp(s1))
    requires r2 == Add(ScaleRow2(p, d), ShiftUp(s2))
    ensures Coeff(Combine(r0, r1, r2), 6) == GF8.Add(GF8.FieldMul(Coeff(p, 6), d), Coeff(Combine(s0, s1, s2), 5))
  {
    CombineCoeffAt6(r0, r1, r2);
    CombineWindowStepAt6(p, d, r0, r1, r2, s0, s1, s2);
    CombineCoeffAt5(s0, s1, s2);
    WindowStepReduces(Coeff(Combine(r0, r1, r2), 6), Coeff(Combine(s0, s1, s2), 5), Coeff(p, 6), d, Window(r0 >> 18, r1 >> 18, r2 >> 18), Window(s0 >> 15, s1 >> 15, s2 >> 15));
  }

  lemma CombineWindowStepAt7(p: bv32, d: GF8.Elem, r0: bv32, r1: bv32, r2: bv32, s0: bv32, s1: bv32, s2: bv32)
    requires r0 == Add(ScaleRow0(p, d), ShiftUp(s0))
    requires r1 == Add(ScaleRow1(p, d), ShiftUp(s1))
    requires r2 == Add(ScaleRow2(p, d), ShiftUp(s2))
    ensures Window(r0 >> 21, r1 >> 21, r2 >> 21) == WindowSum(GF8.CarrylessMul(Coeff(p, 7), d), Window(s0 >> 18, s1 >> 18, s2 >> 18))
  {
    WindowStepAt7(ScaleRow0(p, d), ScaleRow1(p, d), ScaleRow2(p, d), s0, s1, s2);
    ScaleWindowAt7(p, d);
  }

  lemma CombineStepAt7(p: bv32, d: GF8.Elem, r0: bv32, r1: bv32, r2: bv32, s0: bv32, s1: bv32, s2: bv32)
    requires r0 == Add(ScaleRow0(p, d), ShiftUp(s0))
    requires r1 == Add(ScaleRow1(p, d), ShiftUp(s1))
    requires r2 == Add(ScaleRow2(p, d), ShiftUp(s2))
    ensures Coeff(Combine(r0, r1, r2), 7) == GF8.Add(GF8.FieldMul(Coeff(p, 7), d), Coeff(Combine(s0, s1, s2), 6))
  {
    CombineCoeffAt7(r0, r1, r2);
    CombineWindowStepAt7(p, d, r0, r1, r2, s0, s1, s2);
    CombineCoeffAt6(s0, s1, s2);
    WindowStepReduces(Coeff(Combine(r0, r1, r2), 7), Coeff(Combine(s0, s1, s2), 6), Coeff(p, 7), d, Window(r0 >> 21, r1 >> 21, r2 >> 21), Window(s0 >> 18, s1 >> 18, s2 >> 18));
  }

  lemma CombineWindowStepAt8(p: bv32, d: GF8.Elem, r0: bv32, r1: bv32, r2: bv32, s0: bv32, s1: bv32, s2: bv32)
    requires r0 == Add(ScaleRow0(p, d), ShiftUp(s0))
    requires r1 == Add(ScaleRow1(p, d), ShiftUp(s1))
    requires r2 == Add(ScaleRow2(p, d), ShiftUp(s2))
    ensures Window(r0 >> 24, r1 >> 24, r2 >> 24) == WindowSum(GF8.CarrylessMul(Coeff(p, 8), d), Window(s0 >> 21, s1 >> 21, s2 >> 21))
  {
    WindowStepAt8(ScaleRow0(p, d), ScaleRow1(p, d), ScaleRow2(p, d), s0, s1, s2);
    ScaleWindowAt8(p, d);
  }

  lemma CombineStepAt8(p: bv32, d: GF8.Elem, r0: bv32, r1: bv32, r2: bv32, s0: bv32, s1: bv32, s2: bv32)
    requires r0 == Add(ScaleRow0(p, d), ShiftUp(s0))
    requires r1 == Add(ScaleRow1(p, d), ShiftUp(s1))
    requires r2 == Add(ScaleRow2(p, d), ShiftUp(s2))
    ensures Coeff(Combine(r0, r1, r2), 8) == GF8.Add(GF8.FieldMul(Coeff(p, 8), d), Coeff(Combine(s0, s1, s2), 7))
  {
    CombineCoeffAt8(r0, r1, r2);
    CombineWindowStepAt8(p, d, r0, r1, r2, s0, s1, s2);
    CombineCoeffAt7(s0, s1, s2);
    WindowStepReduces(Coeff(Combine(r0, r1, r2), 8), Coeff(Combine(s0, s1, s2), 7), Coeff(p, 8), d, Window(r0 >> 24, r1 >> 24, r2 >> 24), Window(s0 >> 21, s1 >> 21, s2 >> 21));
  }

  lemma CombineWindowStepAt9(p: bv32, d: GF8.Elem, r0: bv32, r1: bv32, r2: bv32, s0: bv32, s1: bv32, s2: bv32)
    requires r0 == Add(ScaleRow0(p, d), ShiftUp(s0))
    requires r1 == Add(ScaleRow1(p, d), ShiftUp(s1))
    requires r2 == Add(ScaleRow2(p, d), ShiftUp(s2))
    ensures Window(r0 >> 27, r1 >> 27, r2 >> 27) == WindowSum(GF8.CarrylessMul(Coeff(p, 9), d), Window(s0 >> 24, s1 >> 24, s2 >> 24))
  {
    WindowStepAt9(ScaleRow0(p, d), ScaleRow1(p, d), ScaleRow2(p, d), s0, s1, s2);
    ScaleWindowAt9(p, d);
  }

  lemma CombineStepAt9(p: bv32, d: GF8.Elem, r0: bv32, r1: bv32, r2: bv32, s0: bv32, s1: bv32, s2: bv32)
    requires r0 == Add(ScaleRow0(p, d), ShiftUp(s0))
    requires r1 == Add(ScaleRow1(p, d), ShiftUp(s1))
    requires r2 == Add(ScaleRow2(p, d), ShiftUp(s2))
    ensures Coeff(Combine(r0, r1, r2), 9) == GF8.Add(GF8.FieldMul(Coeff(p, 9), d), Coeff(Combine(s0, s1, s2), 8))
  {
    CombineCoeffAt9(r0, r1, r2);
    CombineWindowStepAt9(p, d, r0, r1, r2, s0, s1, s2);
    CombineCoeffAt8(s0, s1, s2);
    WindowStepReduces(Coeff(Combine(r0, r1, r2), 9), Coeff(Combine(s0, s1, s2), 8), Coeff(p, 9), d, Window(r0 >> 27, r1 >> 27, r2 >> 27), Window(s0 >> 24, s1 >> 24, s2 >> 24));
  }

  lemma FormalDerivativeCoeffAt0(p: bv32)
    ensures Coeff(FormalDerivative(p), 0) == Coeff(p, 1)
  {
  }

  lemma FormalDerivativeCoeffAt1(p: bv32)
    ensures Coeff(FormalDerivative(p), 1) == 0
  {
  }

  lemma FormalDerivativeCoeffAt2(p: bv32)
    ensures Coeff(FormalDerivative(p), 2) == Coeff(p, 3)
  {
  }

  lemma FormalDerivativeCoeffAt3(p: bv32)
    ensures Coeff(FormalDerivative(p), 3) == 0
  {
  }

  lemma FormalDerivativeCoeffAt4(p: bv32)
    ensures Coeff(FormalDerivative(p), 4) == Coeff(p, 5)
  {
  }

  lemma FormalDerivativeCoeffAt5(p: bv32)
    ensures Coeff(FormalDerivative(p), 5) == 0
  {
  }

  lemma FormalDerivativeCoeffAt6(p: bv32)
    ensures Coeff(FormalDerivative(p), 6) == Coeff(p, 7)
  {
  }

  lemma FormalDerivativeCoeffAt7(p: bv32)
    ensures Coeff(FormalDerivative(p), 7) == 0
  {
  }

  lemma FormalDerivativeCoeffAt8(p: bv32)
    ensures Coeff(FormalDerivative(p), 8) == Coeff(p, 9)
  {
  }

  lemma FormalDerivativeCoeffAt9(p: bv32)
    ensures Coeff(FormalDerivative(p), 9) == 0
  {
  }

  lemma CoeffLowDigitsAt0(q: bv32)
    ensures Coeff(q & 0x7fff, 0) == Coeff(q, 0)
  {
  }

  lemma CoeffLowDigitsAt1(q: bv32)
    ensures Coeff(q & 0x7fff, 1) == Coeff(q, 1)
  {
  }

  lemma CoeffLowDigitsAt2(q: bv32)
    ensures Coeff(q & 0x7fff, 2) == Coeff(q, 2)
  {
  }

  lemma CoeffLowDigitsAt3(q: bv32)
    ensures Coeff(q & 0x7fff, 3) == Coeff(q, 3)
  {
  }

  lemma CoeffLowDigitsAt4(q: bv32)
    ensures Coeff(q & 0x7fff, 4) == Coeff(q, 4)
  {
  }

  lemma GatedLowDigitsAt0(p: bv32, q: bv32)
    ensures Gated(p, q, 0) == Gated(p, q & 0x7fff, 0)
  {
  }

  lemma GatedLowDigitsAt1(p: bv32, q: bv32)
    ensures Gated(p, q, 1) == Gated(p, q & 0x7fff, 1)
  {
  }

  lemma GatedLowDigitsAt2(p: bv32, q: bv32)
    ensures Gated(p, q, 2) == Gated(p, q & 0x7fff, 2)
  {
  }

  lemma GatedLowDigitsAt3(p: bv32, q: bv32)
    ensures Gated(p, q, 3) == Gated(p, q & 0x7fff, 3)
  {
  }

  lemma GatedLowDigitsAt4(p: bv32, q: bv32)
    ensures Gated(p, q, 4) == Gated(p, q & 0x7fff, 4)
  {
  }

  lemma GatedLowDigitsAt5(p: bv32, q: bv32)
    ensures Gated(p, q, 5) == Gated(p, q & 0x7fff, 5)
  {
  }

  lemma GatedLowDigitsAt6(p: bv32, q: bv32)
    ensures Gated(p, q, 6) == Gated(p, q & 0x7fff, 6)
  {
  }

  lemma GatedLowDigitsAt7(p: bv32, q: bv32)
    ensures Gated(p, q, 7) == Gated(p, q & 0x7fff, 7)
  {
  }

  lemma GatedLowDigitsAt8(p: bv32, q: bv32)
    ensures Gated(p, q, 8) == Gated(p, q & 0x7fff, 8)
  {
  }

  lemma GatedLowDigitsAt9(p: bv32, q: bv32)
    ensures Gated(p, q, 9) == Gated(p, q & 0x7fff, 9)
  {
  }

  lemma GatedLowDigitsAt10(p: bv32, q: bv32)
    ensures Gated(p, q, 10) == Gated(p, q & 0x7fff, 10)
  {
  }

  lemma GatedLowDigitsAt11(p: bv32, q: bv32)
    ensures Gated(p, q, 11) == Gated(p, q & 0x7fff, 11)
  {
  }

  lemma GatedLowDigitsAt12(p: bv32, q: bv32)
    ensures Gated(p, q, 12) == Gated(p, q & 0x7fff, 12)
  {
  }

  lemma GatedLowDigitsAt13(p: bv32, q: bv32)
    ensures Gated(p, q, 13) == Gated(p, q & 0x7fff, 13)
  {
  }

  lemma GatedLowDigitsAt14(p: bv32, q: bv32)
    ensures Gated(p, q, 14) == Gated(p, q & 0x7fff, 14)
  {
  }


  /** Coefficient k of a sum is the sum of the coefficients k. */
  lemma CoeffAdd(a: bv32, b: bv32, k: nat)
    requires k < Terms
    ensures Coeff(Add(a, b), k) == GF8.Add(Coeff(a, k), Coeff(b, k))
  {
    if k == 0 {
      CoeffAddAt0(a, b);
    } else if k == 1 {
      CoeffAddAt1(a, b);
    } else if k == 2 {
      CoeffAddAt2(a, b);
    } else if k == 3 {
      CoeffAddAt3(a, b);
    } else if k == 4 {
      CoeffAddAt4(a, b);
    } else if k == 5 {
      CoeffAddAt5(a, b);
    } else if k == 6 {
      CoeffAddAt6(a, b);
    } else if k == 7 {
      CoeffAddAt7(a, b);
    } else if k == 8 {
      CoeffAddAt8(a, b);
    } else {
      CoeffAddAt9(a, b);
    }
  }

  /** Coefficient k of the common bits of two words is the and of their coefficients k. */
  lemma CoeffAnd(a: bv32, b: bv32, k: nat)
    requires k < Terms
    ensures Coeff(Common(a, b), k) == Coeff(a, k) & Coeff(b, k)
  {
    if k == 0 {
      CoeffAndAt0(a, b, k);
    } else if k == 1 {
      CoeffAndAt1(a, b, k);
    } else if k == 2 {
      CoeffAndAt2(a, b, k);
    } else if k == 3 {
      CoeffAndAt3(a, b, k);
    } else if k == 4 {
      CoeffAndAt4(a, b, k);
    } else if k == 5 {
      CoeffAndAt5(a, b, k);
    } else if k == 6 {
      CoeffAndAt6(a, b, k);
    } else if k == 7 {
      CoeffAndAt7(a, b, k);
    } else if k == 8 {
      CoeffAndAt8(a, b, k);
    } else {
      CoeffAndAt9(a, b, k);
    }
  }

  lemma CoeffShiftUp(p: bv32, k: nat)
    requires k < Terms
    ensures Coeff(ShiftUp(p), k) == if k == 0 then 0 else Coeff(p, k - 1)
  {
    if k == 0 {
      CoeffShiftUpAt0(p);
    } else if k == 1 {
      CoeffShiftUpAt1(p);
    } else if k == 2 {
      CoeffShiftUpAt2(p);
    } else if k == 3 {
      CoeffShiftUpAt3(p);
    } else if k == 4 {
      CoeffShiftUpAt4(p);
    } else if k == 5 {
      CoeffShiftUpAt5(p);
    } else if k == 6 {
      CoeffShiftUpAt6(p);
    } else if k == 7 {
      CoeffShiftUpAt7(p);
    } else if k == 8 {
      CoeffShiftUpAt8(p);
    } else {
      CoeffShiftUpAt9(p);
    }
  }

  lemma CoeffShiftDown(p: bv32, k: nat)
    requires k < Terms
    requires k + 1 < Terms || p < Limit
    ensures Coeff(ShiftDown(p), k) == if k + 1 < Terms then Coeff(p, k + 1) else 0
  {
    if k == 0 {
      CoeffShiftDownAt0(p);
    } else if k == 1 {
      CoeffShiftDownAt1(p);
    } else if k == 2 {
      CoeffShiftDownAt2(p);
    } else if k == 3 {
      CoeffShiftDownAt3(p);
    } else if k == 4 {
      CoeffShiftDownAt4(p);
    } else if k == 5 {
      CoeffShiftDownAt5(p);
    } else if k == 6 {
      CoeffShiftDownAt6(p);
    } else if k == 7 {
      CoeffShiftDownAt7(p);
    } else if k == 8 {
      CoeffShiftDownAt8(p);
    } else {
      CoeffShiftDownAt9(p);
    }
  }

  lemma ScaleCoeff(p: bv32, x: GF8.Elem, k: nat)
    requires k < Terms
    ensures Coeff(Scale(p, x), k) == GF8.FieldMul(Coeff(p, k), x)
  {
    if k == 0 {
      ScaleCoeffAt0(p, x);
    } else if k == 1 {
      ScaleCoeffAt1(p, x);
    } else if k == 2 {
      ScaleCoeffAt2(p, x);
    } else if k == 3 {
      ScaleCoeffAt3(p, x);
    } else if k == 4 {
      ScaleCoeffAt4(p, x);
    } else if k == 5 {
      ScaleCoeffAt5(p, x);
    } else if k == 6 {
      ScaleCoeffAt6(p, x);
    } else if k == 7 {
      ScaleCoeffAt7(p, x);
    } else if k == 8 {
      ScaleCoeffAt8(p, x);
    } else {
      ScaleCoeffAt9(p, x);
    }
  }

  /** One step of the long multiplication: rows for q are the rows of its constant coefficient plus the rows for the rest of q, one place up. */
  lemma CombineStep(p: bv32, d: GF8.Elem, r0: bv32, r1: bv32, r2: bv32, s0: bv32, s1: bv32, s2: bv32, k: nat)
    requires k < Terms
    requires r0 == Add(ScaleRow0(p, d), ShiftUp(s0))
    requires r1 == Add(ScaleRow1(p, d), ShiftUp(s1))
    requires r2 == Add(ScaleRow2(p, d), ShiftUp(s2))
    requires s1 & 1 == 0 && s2 & 3 == 0
    ensures Coeff(Combine(r0, r1, r2), k)
         == if k == 0 then GF8.FieldMul(Coeff(p, 0), d)
            else GF8.Add(GF8.FieldMul(Coeff(p, k), d), Coeff(Combine(s0, s1, s2), k - 1))
  {
    if k == 0 {
      CombineStepAt0(p, d, r0, r1, r2, s0, s1, s2);
    } else if k == 1 {
      CombineStepAt1(p, d, r0, r1, r2, s0, s1, s2);
    } else if k == 2 {
      CombineStepAt2(p, d, r0, r1, r2, s0, s1, s2);
    } else if k == 3 {
      CombineStepAt3(p, d, r0, r1, r2, s0, s1, s2);
    } else if k == 4 {
      CombineStepAt4(p, d, r0, r1, r2, s0, s1, s2);
    } else if k == 5 {
      CombineStepAt5(p, d, r0, r1, r2, s0, s1, s2);
    } else if k == 6 {
      CombineStepAt6(p, d, r0, r1, r2, s0, s1, s2);
    } else if k == 7 {
      CombineStepAt7(p, d, r0, r1, r2, s0, s1, s2);
    } else if k == 8 {
      CombineStepAt8(p, d, r0, r1, r2, s0, s1, s2);
    } else {
      CombineStepAt9(p, d, r0, r1, r2, s0, s1, s2);
    }
  }

  lemma FormalDerivativeCoeff(p: bv32, k: nat)
    requires k < Terms
    ensures Coeff(FormalDerivative(p), k) == if k % 2 == 0 && k + 1 < Terms then Coeff(p, k + 1) else 0
  {
    if k == 0 {
      FormalDerivativeCoeffAt0(p);
    } else if k == 1 {
      FormalDerivativeCoeffAt1(p);
    } else if k == 2 {
      FormalDerivativeCoeffAt2(p);
    } else if k == 3 {
      FormalDerivativeCoeffAt3(p);
    } else if k == 4 {
      FormalDerivativeCoeffAt4(p);
    } else if k == 5 {
      FormalDerivativeCoeffAt5(p);
    } else if k == 6 {
      FormalDerivativeCoeffAt6(p);
    } else if k == 7 {
      FormalDerivativeCoeffAt7(p);
    } else if k == 8 {
      FormalDerivativeCoeffAt8(p);
    } else {
      FormalDerivativeCoeffAt9(p);
    }
  }

  lemma CoeffLowDigits(q: bv32, k: nat)
    requires k < 5
    ensures Coeff(q & 0x7fff, k) == Coeff(q, k)
  {
    if k == 0 {
      CoeffLowDigitsAt0(q);
    } else if k == 1 {
      CoeffLowDigitsAt1(q);
    } else if k == 2 {
      CoeffLowDigitsAt2(q);
    } else if k == 3 {
      CoeffLowDigitsAt3(q);
    } else {
      CoeffLowDigitsAt4(q);
    }
  }

  lemma CoeffAboveAt0(p: bv32)
    requires p < Bound(0)
    ensures Coeff(p, 0) == 0
  {
  }

  lemma CoeffTopAt0(p: bv32)
    requires Bound(0) <= p < Bound(1)
    ensures Coeff(p, 0) != 0
  {
  }

  lemma CoeffAboveAt1(p: bv32)
    requires p < Bound(1)
    ensures Coeff(p, 1) == 0
  {
  }

  lemma CoeffTopAt1(p: bv32)
    requires Bound(1) <= p < Bound(2)
    ensures Coeff(p, 1) != 0
  {
  }

  lemma CoeffAboveAt2(p: bv32)
    requires p < Bound(2)
    ensures Coeff(p, 2) == 0
  {
  }

  lemma CoeffTopAt2(p: bv32)
    requires Bound(2) <= p < Bound(3)
    ensures Coeff(p, 2) != 0
  {
  }

  lemma CoeffAboveAt3(p: bv32)
    requires p < Bound(3)
    ensures Coeff(p, 3) == 0
  {
  }

  lemma CoeffTopAt3(p: bv32)
    requires Bound(3) <= p < Bound(4)
    ensures Coeff(p, 3) != 0
  {
  }

  lemma CoeffAboveAt4(p: bv32)
    requires p < Bound(4)
    ensures Coeff(p, 4) == 0
  {
  }

  lemma CoeffTopAt4(p: bv32)
    requires Bound(4) <= p < Bound(5)
    ensures Coeff(p, 4) != 0
  {
  }

  lemma CoeffAboveAt5(p: bv32)
    requires p < Bound(5)
    ensures Coeff(p, 5) == 0
  {
  }

  lemma CoeffTopAt5(p: bv32)
    requires Bound(5) <= p < Bound(6)
    ensures Coeff(p, 5) != 0
  {
  }

  lemma CoeffAboveAt6(p: bv32)
    requires p < Bound(6)
    ensures Coeff(p, 6) == 0
  {
  }

  lemma CoeffTopAt6(p: bv32)
    requires Bound(6) <= p < Bound(7)
    ensures Coeff(p, 6) != 0
  {
  }

  lemma CoeffAboveAt7(p: bv32)
    requires p < Bound(7)
    ensures Coeff(p, 7) == 0
  {
  }

  lemma CoeffTopAt7(p: bv32)
    requires Bound(7) <= p < Bound(8)
    ensures Coeff(p, 7) != 0
  {
  }

  lemma CoeffAboveAt8(p: bv32)
    requires p < Bound(8)
    ensures Coeff(p, 8) == 0
  {
  }

  lemma CoeffTopAt8(p: bv32)
    requires Bound(8) <= p < Bound(9)
    ensures Coeff(p, 8) != 0
  {
  }

  lemma CoeffAboveAt9(p: bv32)
    requires p < Bound(9)
    ensures Coeff(p, 9) == 0
  {
  }

  lemma CoeffTopAt9(p: bv32)
    requires Bound(9) <= p < Bound(10)
    ensures Coeff(p, 9) != 0
  {
  }

  /** Bound grows with the number of terms. */
  lemma BoundMonotone(n: nat, j: nat)
    requires n <= j <= Terms
    ensures Bound(n) <= Bound(j)
  {
  }

  /** A word below Bound(n) has no coefficient from n up. */
  lemma CoeffAbove(p: bv32, n: nat, k: nat)
    requires n <= k < Terms
    requires p < Bound(n)
    ensures Coeff(p, k) == 0
  {
    if k == 0 {
      BoundMonotone(n, 0); CoeffAboveAt0(p);
    } else if k == 1 {
      BoundMonotone(n, 1); CoeffAboveAt1(p);
    } else if k == 2 {
      BoundMonotone(n, 2); CoeffAboveAt2(p);
    } else if k == 3 {
      BoundMonotone(n, 3); CoeffAboveAt3(p);
    } else if k == 4 {
      BoundMonotone(n, 4); CoeffAboveAt4(p);
    } else if k == 5 {
      BoundMonotone(n, 5); CoeffAboveAt5(p);
    } else if k == 6 {
      BoundMonotone(n, 6); CoeffAboveAt6(p);
    } else if k == 7 {
      BoundMonotone(n, 7); CoeffAboveAt7(p);
    } else if k == 8 {
      BoundMonotone(n, 8); CoeffAboveAt8(p);
    } else {
      BoundMonotone(n, 9); CoeffAboveAt9(p);
    }
  }

  /** A word from Bound(k) up to Bound(k + 1) has a non-zero coefficient k. */
  lemma CoeffTop(p: bv32, k: nat)
    requires k < Terms
    requires Bound(k) <= p < Bound(k + 1)
    ensures Coeff(p, k) != 0
  {
    if k == 0 {
      CoeffTopAt0(p);
    } else if k == 1 {
      CoeffTopAt1(p);
    } else if k == 2 {
      CoeffTopAt2(p);
    } else if k == 3 {
      CoeffTopAt3(p);
    } else if k == 4 {
      CoeffTopAt4(p);
    } else if k == 5 {
      CoeffTopAt5(p);
    } else if k == 6 {
      CoeffTopAt6(p);
    } else if k == 7 {
      CoeffTopAt7(p);
    } else if k == 8 {
      CoeffTopAt8(p);
    } else {
      CoeffTopAt9(p);
    }
  }

  lemma OrderPowersAt0(p: bv32, k: nat)
    requires k == 0
    requires k <= Terms && p < Pow8(k)
    ensures Poly8.Order(Coeffs(p)) == k - 1 && Fits(p, 3 * k) && (k > 0 ==> !Fits(p, 3 * k - 3))
  {
    assert 3 * k == 0;
    TopTermsZero(p, 0);
    Poly8.OrderOf(Coeffs(p), -1);
    FitsBoundAt0(p);
  }

  lemma OrderPowersAt1(p: bv32, k: nat)
    requires k == 1
    requires k <= Terms && p < Pow8(k)
    requires k > 0 ==> Pow8(k - 1) <= p
    ensures Poly8.Order(Coeffs(p)) == k - 1 && Fits(p, 3 * k) && (k > 0 ==> !Fits(p, 3 * k - 3))
  {
    assert 3 * k == 3;
    TopTermsZero(p, 1);
    assert k - 1 == 0 && 3 * k - 3 == 0;
    CoeffTopAt0(p);
    CoeffsAt(p, 0);
    FitsBoundAt0(p);
    Poly8.OrderOf(Coeffs(p), 0);
    FitsBoundAt1(p);
  }

  lemma OrderPowersAt2(p: bv32, k: nat)
    requires k == 2
    requires k <= Terms && p < Pow8(k)
    requires k > 0 ==> Pow8(k - 1) <= p
    ensures Poly8.Order(Coeffs(p)) == k - 1 && Fits(p, 3 * k) && (k > 0 ==> !Fits(p, 3 * k - 3))
  {
    assert 3 * k == 6;
    TopTermsZero(p, 2);
    assert k - 1 == 1 && 3 * k - 3 == 3;
    CoeffTopAt1(p);
    CoeffsAt(p, 1);
    FitsBoundAt1(p);
    Poly8.OrderOf(Coeffs(p), 1);
    FitsBoundAt2(p);
  }

  lemma OrderPowersAt3(p: bv32, k: nat)
    requires k == 3
    requires k <= Terms && p < Pow8(k)
    requires k > 0 ==> Pow8(k - 1) <= p
    ensures Poly8.Order(Coeffs(p)) == k - 1 && Fits(p, 3 * k) && (k > 0 ==> !Fits(p, 3 * k - 3))
  {
    assert 3 * k == 9;
    TopTermsZero(p, 3);
    assert k - 1 == 2 && 3 * k - 3 == 6;
    CoeffTopAt2(p);
    CoeffsAt(p, 2);
    FitsBoundAt2(p);
    Poly8.OrderOf(Coeffs(p), 2);
    FitsBoundAt3(p);
  }

  lemma OrderPowersAt4(p: bv32, k: nat)
    requires k == 4
    requires k <= Terms && p < Pow8(k)
    requires k > 0 ==> Pow8(k - 1) <= p
    ensures Poly8.Order(Coeffs(p)) == k - 1 && Fits(p, 3 * k) && (k > 0 ==> !Fits(p, 3 * k - 3))
  {
    assert 3 * k == 12;
    TopTermsZero(p, 4);
    assert k - 1 == 3 && 3 * k - 3 == 9;
    CoeffTopAt3(p);
    CoeffsAt(p, 3);
    FitsBoundAt3(p);
    Poly8.OrderOf(Coeffs(p), 3);
    FitsBoundAt4(p);
  }

  lemma OrderPowersAt5(p: bv32, k: nat)
    requires k == 5
    requires k <= Terms && p < Pow8(k)
    requires k > 0 ==> Pow8(k - 1) <= p
    ensures Poly8.Order(Coeffs(p)) == k - 1 && Fits(p, 3 * k) && (k > 0 ==> !Fits(p, 3 * k - 3))
  {
    assert 3 * k == 15;
    TopTermsZero(p, 5);
    assert k - 1 == 4 && 3 * k - 3 == 12;
    CoeffTopAt4(p);
    CoeffsAt(p, 4);
    FitsBoundAt4(p);
    Poly8.OrderOf(Coeffs(p), 4);
    FitsBoundAt5(p);
  }

  lemma OrderPowersAt6(p: bv32, k: nat)
    requires k == 6
    requires k <= Terms && p < Pow8(k)
    requires k > 0 ==> Pow8(k - 1) <= p
    ensures Poly8.Order(Coeffs(p)) == k - 1 && Fits(p, 3 * k) && (k > 0 ==> !Fits(p, 3 * k - 3))
  {
    assert 3 * k == 18;
    TopTermsZero(p, 6);
    assert k - 1 == 5 && 3 * k - 3 == 15;
    CoeffTopAt5(p);
    CoeffsAt(p, 5);
    FitsBoundAt5(p);
    Poly8.OrderOf(Coeffs(p), 5);
    FitsBoundAt6(p);
  }

  lemma OrderPowersAt7(p: bv32, k: nat)
    requires k == 7
    requires k <= Terms && p < Pow8(k)
    requires k > 0 ==> Pow8(k - 1) <= p
    ensures Poly8.Order(Coeffs(p)) == k - 1 && Fits(p, 3 * k) && (k > 0 ==> !Fits(p, 3 * k - 3))
  {
    assert 3 * k == 21;
    TopTermsZero(p, 7);
    assert k - 1 == 6 && 3 * k - 3 == 18;
    CoeffTopAt6(p);
    CoeffsAt(p, 6);
    FitsBoundAt6(p);
    Poly8.OrderOf(Coeffs(p), 6);
    FitsBoundAt7(p);
  }

  lemma OrderPowersAt8(p: bv32, k: nat)
    requires k == 8
    requires k <= Terms && p < Pow8(k)
    requires k > 0 ==> Pow8(k - 1) <= p
    ensures Poly8.Order(Coeffs(p)) == k - 1 && Fits(p, 3 * k) && (k > 0 ==> !Fits(p, 3 * k - 3))
  {
    assert 3 * k == 24;
    TopTermsZero(p, 8);
    assert k - 1 == 7 && 3 * k - 3 == 21;
    CoeffTopAt7(p);
    CoeffsAt(p, 7);
    FitsBoundAt7(p);
    Poly8.OrderOf(Coeffs(p), 7);
    FitsBoundAt8(p);
  }

  lemma OrderPowersAt9(p: bv32, k: nat)
    requires k == 9
    requires k <= Terms && p < Pow8(k)
    requires k > 0 ==> Pow8(k - 1) <= p
    ensures Poly8.Order(Coeffs(p)) == k - 1 && Fits(p, 3 * k) && (k > 0 ==> !Fits(p, 3 * k - 3))
  {
    assert 3 * k == 27;
    TopTermsZero(p, 9);
    assert k - 1 == 8 && 3 * k - 3 == 24;
    CoeffTopAt8(p);
    CoeffsAt(p, 8);
    FitsBoundAt8(p);
    Poly8.OrderOf(Coeffs(p), 8);
    FitsBoundAt9(p);
  }

  lemma OrderPowersAt10(p: bv32, k: nat)
    requires k == 10
    requires k <= Terms && p < Pow8(k)
    requires k > 0 ==> Pow8(k - 1) <= p
    ensures Poly8.Order(Coeffs(p)) == k - 1 && Fits(p, 3 * k) && (k > 0 ==> !Fits(p, 3 * k - 3))
  {
    assert 3 * k == 30;
    TopTermsZero(p, 10);
    assert k - 1 == 9 && 3 * k - 3 == 27;
    CoeffTopAt9(p);
    CoeffsAt(p, 9);
    FitsBoundAt9(p);
    Poly8.OrderOf(Coeffs(p), 9);
    FitsBoundAt10(p);
  }

  /** A word from 8^(k - 1) up to 8^k has order k - 1 and fits in 3k bits but not in 3k - 3. */
  lemma OrderPowers(p: bv32, k: nat)
    requires k <= Terms && p < Pow8(k)
    requires k > 0 ==> Pow8(k - 1) <= p
    ensures Poly8.Order(Coeffs(p)) == k - 1 && Fits(p, 3 * k) && (k > 0 ==> !Fits(p, 3 * k - 3))
  {
    if k == 0 {
      OrderPowersAt0(p, k);
    } else if k == 1 {
      OrderPowersAt1(p, k);
    } else if k == 2 {
      OrderPowersAt2(p, k);
    } else if k == 3 {
      OrderPowersAt3(p, k);
    } else if k == 4 {
      OrderPowersAt4(p, k);
    } else if k == 5 {
      OrderPowersAt5(p, k);
    } else if k == 6 {
      OrderPowersAt6(p, k);
    } else if k == 7 {
      OrderPowersAt7(p, k);
    } else if k == 8 {
      OrderPowersAt8(p, k);
    } else if k == 9 {
      OrderPowersAt9(p, k);
    } else {
      OrderPowersAt10(p, k);
    }
  }

  lemma FitsBoundAt0(p: bv32)
    ensures Fits(p, 0) <==> p < Bound(0)
  {
  }

  lemma FitsBoundAt1(p: bv32)
    ensures Fits(p, 3) <==> p < Bound(1)
  {
    FitsBoundAt0(ShiftDown(p));
  }

  lemma FitsBoundAt2(p: bv32)
    ensures Fits(p, 6) <==> p < Bound(2)
  {
    FitsBoundAt1(ShiftDown(p));
  }

  lemma FitsBoundAt3(p: bv32)
    ensures Fits(p, 9) <==> p < Bound(3)
  {
    FitsBoundAt2(ShiftDown(p));
  }

  lemma FitsBoundAt4(p: bv32)
    ensures Fits(p, 12) <==> p < Bound(4)
  {
    FitsBoundAt3(ShiftDown(p));
  }

  lemma FitsBoundAt5(p: bv32)
    ensures Fits(p, 15) <==> p < Bound(5)
  {
    FitsBoundAt4(ShiftDown(p));
  }

  lemma FitsBoundAt6(p: bv32)
    ensures Fits(p, 18) <==> p < Bound(6)
  {
    FitsBoundAt5(ShiftDown(p));
  }

  lemma FitsBoundAt7(p: bv32)
    ensures Fits(p, 21) <==> p < Bound(7)
  {
    FitsBoundAt6(ShiftDown(p));
  }

  lemma FitsBoundAt8(p: bv32)
    ensures Fits(p, 24) <==> p < Bound(8)
  {
    FitsBoundAt7(ShiftDown(p));
  }

  lemma FitsBoundAt9(p: bv32)
    ensures Fits(p, 27) <==> p < Bound(9)
  {
    FitsBoundAt8(ShiftDown(p));
  }

  lemma FitsBoundAt10(p: bv32)
    ensures Fits(p, 30) <==> p < Bound(10)
  {
    FitsBoundAt9(ShiftDown(p));
  }

  /** Fitting in 3k bits is lying below 8^k. */
  lemma FitsBound(p: bv32, k: nat)
    requires k <= Terms
    ensures Fits(p, 3 * k) <==> p < Bound(k)
  {
    if k == 0 {
      assert 3 * k == 0; FitsBoundAt0(p);
    } else if k == 1 {
      assert 3 * k == 3; FitsBoundAt1(p);
    } else if k == 2 {
      assert 3 * k == 6; FitsBoundAt2(p);
    } else if k == 3 {
      assert 3 * k == 9; FitsBoundAt3(p);
    } else if k == 4 {
      assert 3 * k == 12; FitsBoundAt4(p);
    } else if k == 5 {
      assert 3 * k == 15; FitsBoundAt5(p);
    } else if k == 6 {
      assert 3 * k == 18; FitsBoundAt6(p);
    } else if k == 7 {
      assert 3 * k == 21; FitsBoundAt7(p);
    } else if k == 8 {
      assert 3 * k == 24; FitsBoundAt8(p);
    } else if k == 9 {
      assert 3 * k == 27; FitsBoundAt9(p);
    } else {
      assert 3 * k == 30; FitsBoundAt10(p);
    }
  }

  /** A word below Limit whose coefficients from n up are all 0 fits in 3n bits. */
  lemma FitsFromCoeffs(p: bv32, n: nat)
    requires p < Limit && n <= Terms
    requires forall j :: n <= j < Terms ==> Coeffs(p)[j] == 0
    ensures Fits(p, 3 * n)
  {
    OrderBelow(Coeffs(p), n);
    var k := FitsOrder(p);
    FitsMonotone(p, 3 * k, 3 * n);
  }

  /** A word below Limit fits in 3k bits, for k one more than its order. */
  lemma FitsOrder(p: bv32) returns (k: nat)
    requires p < Limit
    ensures k == Poly8.Order(Coeffs(p)) + 1 && k <= Terms && Fits(p, 3 * k)
  {
    var i: bv32 := 1;
    k := 0;
    while i <= p
      invariant k <= Terms && i == Pow8(k) && (k > 0 ==> Pow8(k - 1) <= p)
      decreases Terms - k
    {
      var i0, k0 := i, k;
      i := ShiftUp(i);
      k := k + 1;
      PowerStep(p, i0, k0, i, k);
    }
    OrderPowers(p, k);
  }

  /** A word that fits in a bits fits in every b >= a bits. */
  lemma {:induction false} FitsMonotone(p: bv32, a: int, b: int)
    requires a <= b && Fits(p, a)
    ensures Fits(p, b)
    decreases b
  {
    if a <= 0 {
      ZeroFits(b);
    } else {
      FitsMonotone(ShiftDown(p), a - 3, b - 3);
    }
  }

  /** The zero word fits in any size. */
  lemma {:induction false} ZeroFits(b: int)
    ensures Fits(0, b)
    decreases b
  {
    if b > 0 {
      assert ShiftDown(0) == 0;
      ZeroFits(b - 3);
    }
  }

  /** Coefficients all 0 from n up put the order below n. */
  lemma OrderBelow(P: Poly8.Poly, n: nat)
    requires n <= |P|
    requires forall j :: n <= j < |P| ==> P[j] == 0
    ensures Poly8.Order(P) < n
  {
    Poly8.OrderIsTop(P);
  }

  // ---------------------------------------------------------------------
  // Coefficient sequences
  // ---------------------------------------------------------------------

  /** A word whose coefficients agree with a ten-term sequence has that sequence as its coefficients. */
  lemma CoeffsEqual(m: bv32, s: Poly8.Poly)
    requires |s| == Terms
    requires forall k :: 0 <= k < Terms ==> Coeff(m, k) == s[k]
    ensures Coeffs(m) == s
  {
  }

  lemma CoeffsAdd(a: bv32, b: bv32)
    ensures Coeffs(Add(a, b)) == Poly8.Add(Coeffs(a), Coeffs(b))
  {
    forall k | 0 <= k < Terms
      ensures Coeffs(Add(a, b))[k] == Poly8.Add(Coeffs(a), Coeffs(b))[k]
    {
      CoeffAdd(a, b, k);
    }
  }

  lemma CoeffsShiftUp(p: bv32)
    ensures Coeffs(ShiftUp(p)) == Poly8.ShiftUp(Coeffs(p))
  {
    forall k | 0 <= k < Terms
      ensures Coeffs(ShiftUp(p))[k] == Poly8.ShiftUp(Coeffs(p))[k]
    {
      CoeffShiftUp(p, k);
    }
  }

  lemma CoeffsShiftDown(p: bv32)
    requires p < Limit
    ensures Coeffs(ShiftDown(p)) == Poly8.ShiftDown(Coeffs(p))
  {
    forall k | 0 <= k < Terms
      ensures Coeffs(ShiftDown(p))[k] == Poly8.ShiftDown(Coeffs(p))[k]
    {
      CoeffShiftDown(p, k);
    }
  }

  lemma CoeffsOfZero()
    ensures Coeffs(0) == Poly8.Zero(Terms)
  {
    forall k | 0 <= k < Terms
      ensures Coeffs(0)[k] == 0
    {
      CoeffShiftDown(0, k);
    }
  }

  /** gf8_poly_scale multiplies every coefficient of p by x. */
  lemma ScaleIsScaleBy(p: bv32, x: GF8.Elem)
    ensures Coeffs(Scale(p, x)) == Poly8.ScaleBy(Coeffs(p), x)
  {
    forall k | 0 <= k < Terms
      ensures Coeffs(Scale(p, x))[k] == Poly8.ScaleBy(Coeffs(p), x)[k]
    {
      ScaleCoeff(p, x, k);
      GF8.MulIsFieldMul(Coeff(p, k), x);
    }
  }

  lemma GatedMulStep(p: bv32, q: bv32, k: nat)
    requires q < 0x8000 && k < Terms
    ensures Coeff(GatedMul(p, q), k)
         == if k == 0 then GF8.FieldMul(Coeff(p, 0), Digit(q))
            else GF8.Add(GF8.FieldMul(Coeff(p, k), Digit(q)), Coeff(GatedMul(p, ShiftDown(q)), k - 1))
  {
    var q' := ShiftDown(q);
    GatedRowsStep(p, q);
    GatedRowsStep(p, q');
    StepLowBits(p, Digit(q'), GatedRow1(p, q'), GatedRow2(p, q'), GatedRow1(p, ShiftDown(q')), GatedRow2(p, ShiftDown(q')));
    CombineStep(p, Digit(q), GatedRow0(p, q), GatedRow1(p, q), GatedRow2(p, q), GatedRow0(p, q'), GatedRow1(p, q'), GatedRow2(p, q'), k);
  }

  /** Dropping the first of n terms of c leaves the first n - 1 terms of d when d is c moved down one place. */
  lemma SliceShift(c: Poly8.Poly, d: Poly8.Poly, n: nat)
    requires 0 < n <= |c| && n - 1 <= |d|
    requires forall i :: 0 <= i < n - 1 ==> d[i] == c[i + 1]
    ensures c[..n][1..] == d[..n - 1]
  {
    assert forall i :: 0 <= i < n - 1 ==> c[..n][1..][i] == c[i + 1];
  }

  /** The coefficients of ShiftDown(q) are those of q moved down one place. */
  lemma CoeffsMoveDown(q: bv32, i: nat)
    requires i + 1 < Terms
    ensures Coeffs(ShiftDown(q))[i] == Coeffs(q)[i + 1]
  {
    CoeffShiftDown(q, i);
  }

  lemma DigitsShift(q: bv32, n: nat)
    requires 0 < n <= Terms
    ensures Coeffs(q)[..n][1..] == Coeffs(ShiftDown(q))[..n - 1]
  {
    forall i | 0 <= i < n - 1
      ensures Coeffs(ShiftDown(q))[i] == Coeffs(q)[i + 1]
    {
      CoeffsMoveDown(q, i);
    }
    SliceShift(Coeffs(q), Coeffs(ShiftDown(q)), n);
  }

  /** Coefficient k of m is one step of the product of p by q, given m' for q moved down one place. */
  predicate ProductStep(p: bv32, q: bv32, m: bv32, m': bv32, k: nat)
    requires k < Terms
  {
    Coeff(m, k) == if k == 0 then GF8.FieldMul(Coeff(p, 0), Digit(q))
                   else GF8.Add(GF8.FieldMul(Coeff(p, k), Digit(q)), Coeff(m', k - 1))
  }

  /** Every coefficient of m is one product step from m'. */
  predicate ProductSteps(p: bv32, q: bv32, m: bv32, m': bv32)
  {
    forall k :: 0 <= k < Terms ==> ProductStep(p, q, m, m', k)
  }

  /** Coefficient k of the product, from the coefficient k - 1 of the product by the rest of q. */
  lemma ProductHigher(P: Poly8.Poly, Q: Poly8.Poly, R: Poly8.Poly, a: GF8.Elem, d: GF8.Elem, r: GF8.Elem, c: GF8.Elem, k: nat)
    requires 0 < k < |P| && |Q| > 0
    requires P[k] == a && Q[0] == d
    requires R == Poly8.Product(P, Q[1..]) && R[k - 1] == r
    requires c == GF8.Add(GF8.FieldMul(a, d), r)
    ensures c == Poly8.Product(P, Q)[k]
  {
    GF8.MulIsFieldMul(a, d);
    Poly8.ProductCoeff(P, Q, k);
  }

  /** Coefficient k of the word p. */
  lemma CoeffsAt(p: bv32, k: nat)
    requires k < Terms
    ensures Coeffs(p)[k] == Coeff(p, k)
  {
  }

  /** The first of the first n coefficients of q is its lowest digit. */
  lemma FirstDigit(q: bv32, n: nat)
    requires 0 < n <= Terms
    ensures Coeffs(q)[..n][0] == Digit(q)
  {
    CoeffsAt(q, 0);
  }

  lemma ProductStepConstant(p: bv32, q: bv32, m: bv32, n: nat)
    requires 0 < n <= Terms
    requires Coeff(m, 0) == GF8.FieldMul(Coeff(p, 0), Digit(q))
    ensures Coeff(m, 0) == Poly8.Product(Coeffs(p), Coeffs(q)[..n])[0]
  {
    GF8.MulIsFieldMul(Coeff(p, 0), Digit(q));
    FirstDigit(q, n);
    CoeffsAt(p, 0);
    Poly8.ProductConstant(Coeffs(p), Coeffs(q)[..n]);
  }

  lemma ProductStepHigher(p: bv32, q: bv32, m: bv32, m': bv32, n: nat, k: nat)
    requires 0 < n <= Terms && 0 < k < Terms
    requires Coeff(m, k) == GF8.Add(GF8.FieldMul(Coeff(p, k), Digit(q)), Coeff(m', k - 1))
    requires Coeffs(m') == Poly8.Product(Coeffs(p), Coeffs(ShiftDown(q))[..n - 1])
    ensures Coeff(m, k) == Poly8.Product(Coeffs(p), Coeffs(q)[..n])[k]
  {
    FirstDigit(q, n);
    CoeffsAt(p, k);
    CoeffsAt(m', k - 1);
    DigitsShift(q, n);
    ProductHigher(Coeffs(p), Coeffs(q)[..n], Coeffs(m'), Coeff(p, k), Digit(q), Coeff(m', k - 1), Coeff(m, k), k);
  }

  lemma ProductStepCoeff(p: bv32, q: bv32, m: bv32, m': bv32, n: nat, k: nat)
    requires 0 < n <= Terms && k < Terms
    requires ProductStep(p, q, m, m', k)
    requires Coeffs(m') == Poly8.Product(Coeffs(p), Coeffs(ShiftDown(q))[..n - 1])
    ensures Coeff(m, k) == Poly8.Product(Coeffs(p), Coeffs(q)[..n])[k]
  {
    if k == 0 {
      ProductStepConstant(p, q, m, n);
    } else {
      ProductStepHigher(p, q, m, m', n, k);
    }
  }

  lemma ProductStepWords(p: bv32, q: bv32, m: bv32, m': bv32, n: nat)
    requires 0 < n <= Terms
    requires ProductSteps(p, q, m, m')
    requires Coeffs(m') == Poly8.Product(Coeffs(p), Coeffs(ShiftDown(q))[..n - 1])
    ensures Coeffs(m) == Poly8.Product(Coeffs(p), Coeffs(q)[..n])
  {
    var s := Poly8.Product(Coeffs(p), Coeffs(q)[..n]);
    forall k | 0 <= k < Terms
      ensures Coeff(m, k) == s[k]
    {
      ProductStepCoeff(p, q, m, m', n, k);
    }
    CoeffsEqual(m, s);
  }

  /** f starts at 0 and every value of f is one product step from its value at the argument moved down. */
  ghost predicate DigitSteps(f: bv32 -> bv32, p: bv32)
  {
    && Coeffs(f(0)) == Poly8.Zero(Terms)
    && forall x: bv32 {:trigger ProductSteps(p, x, f(x), f(ShiftDown(x)))} :: x < 0x8000 ==> ProductSteps(p, x, f(x), f(ShiftDown(x)))
  }

  lemma ProductByNoDigits(f: bv32 -> bv32, p: bv32, q: bv32)
    requires DigitSteps(f, p)
    requires q < Bound(0)
    ensures Coeffs(f(q)) == Poly8.Product(Coeffs(p), Coeffs(q)[..0])
  {
    assert q == 0;
  }

  lemma ProductByOneMoreDigit(f: bv32 -> bv32, p: bv32, q: bv32, n: nat)
    requires DigitSteps(f, p)
    requires 0 < n <= 5 && q < 0x8000
    requires Coeffs(f(ShiftDown(q))) == Poly8.Product(Coeffs(p), Coeffs(ShiftDown(q))[..n - 1])
    ensures Coeffs(f(q)) == Poly8.Product(Coeffs(p), Coeffs(q)[..n])
  {
    ProductStepWords(p, q, f(q), f(ShiftDown(q)), n);
  }

  /**
    * Induction over the coefficients of q: a word function f that starts at 0
    * and takes product steps is the product by the first n coefficients of q.
    */
  lemma {:induction false} ProductByDigits(f: bv32 -> bv32, p: bv32, q: bv32, n: nat)
    requires DigitSteps(f, p)
    requires n <= 5 && q < Bound(n)
    ensures Coeffs(f(q)) == Poly8.Product(Coeffs(p), Coeffs(q)[..n])
  {
    if n == 0 {
      ProductByNoDigits(f, p, q);
    } else {
      BoundShift(q, n);
      ProductByDigits(f, p, ShiftDown(q), n - 1);
      ProductByOneMoreDigit(f, p, q, n);
    }
  }

  /** The gated product by p, as a function of the second argument. */
  function GatedMulBy(p: bv32): bv32 -> bv32
  {
    x => GatedMul(p, x)
  }

  lemma GatedMulDigitSteps(p: bv32)
    ensures DigitSteps(GatedMulBy(p), p)
  {
    GatedMulOfZero(p);
    CoeffsOfZero();
    forall x: bv32 | x < 0x8000
      ensures ProductSteps(p, x, GatedMul(p, x), GatedMul(p, ShiftDown(x)))
    {
      forall k | 0 <= k < Terms
        ensures ProductStep(p, x, GatedMul(p, x), GatedMul(p, ShiftDown(x)), k)
      {
        GatedMulStep(p, x, k);
      }
    }
  }

  lemma GatedMulIsProduct(p: bv32, q: bv32, n: nat)
    requires n <= 5 && q < Bound(n)
    ensures Coeffs(GatedMul(p, q)) == Poly8.Product(Coeffs(p), Coeffs(q)[..n])
  {
    GatedMulDigitSteps(p);
    ProductByDigits(GatedMulBy(p), p, q, n);
  }

  lemma MulIsProduct(p: bv32, q: bv32)
    ensures Coeffs(Mul(p, q)) == Poly8.Product(Coeffs(p), Coeffs(q)[..5])
  {
    SelectIsGated(p, q);
    PartialIsGatedAt3(p, q);
    PartialIsGatedAt6(p, q);
    PartialIsGatedAt9(p, q);
    PartialIsGatedAt12(p, q);
    PartialIsGatedAt1(p, q);
    PartialIsGatedAt4(p, q);
    PartialIsGatedAt7(p, q);
    PartialIsGatedAt10(p, q);
    PartialIsGatedAt13(p, q);
    PartialIsGatedAt2(p, q);
    PartialIsGatedAt5(p, q);
    PartialIsGatedAt8(p, q);
    PartialIsGatedAt11(p, q);
    PartialIsGatedAt14(p, q);
    GatedRow0Regrouped(p, q);
    GatedRow1Regrouped(p, q);
    GatedRow2Regrouped(p, q);
    GatedRowsLowDigits(p, q);
    GatedMulIsProduct(p, q & 0x7fff, 5);
    LowDigitsPrefix(q);
  }

  /** The first five coefficients of q are the coefficients of its low fifteen bits. */
  lemma LowDigitsPrefix(q: bv32)
    ensures Coeffs(q & 0x7fff)[..5] == Coeffs(q)[..5]
  {
    forall k | 0 <= k < 5
      ensures Coeffs(q & 0x7fff)[k] == Coeffs(q)[k]
    {
      CoeffLowDigits(q, k);
    }
  }

  /** Adding p to a word m shifted up by one place extends a product by one monic factor term. */
  lemma MonicStep(p: bv32, q: bv32, m: bv32)
    requires Coeff(q, 0) == 1
    requires Coeffs(m) == Poly8.Product(Coeffs(p), Coeffs(ShiftDown(q))[..5])
    ensures Coeffs(Add(p, ShiftUp(m))) == Poly8.Product(Coeffs(p), Coeffs(q)[..6])
  {
    CoeffsAdd(p, ShiftUp(m));
    CoeffsShiftUp(m);
    DigitsShift(q, 6);
    Poly8.ProductMonic(Coeffs(p), Coeffs(q)[..6]);
  }

  /** gf8_poly_mul_q0_monic: with a constant term of 1, six coefficients of q take part in the product. */
  lemma MulQ0MonicIsProduct(p: bv32, q: bv32)
    requires Coeff(q, 0) == 1
    ensures Coeffs(MulQ0Monic(p, q)) == Poly8.Product(Coeffs(p), Coeffs(q)[..6])
  {
    MulIsProduct(p, ShiftDown(q));
    MonicStep(p, q, Mul(p, ShiftDown(q)));
  }

  /** gf8_poly_formal_derivative is the formal derivative of the coefficient sequence. */
  lemma FormalDerivativeIsDerivative(p: bv32)
    ensures Coeffs(FormalDerivative(p)) == Poly8.Derivative(Coeffs(p))
  {
    forall k | 0 <= k < Terms
      ensures Coeffs(FormalDerivative(p))[k] == Poly8.Derivative(Coeffs(p))[k]
    {
      FormalDerivativeCoeff(p, k);
      Poly8.DerivativeKeepsOdd(Coeffs(p), k);
    }
  }

  // ---------------------------------------------------------------------
  // gf8_poly_eval
  // ---------------------------------------------------------------------

  /**
    * p fits in its low sz bits, for sz a multiple of 3: the terms from bit sz
    * up are all 0.  This is what a size in bits (p_sz, q_sz) promises.
    */
  predicate Fits(p: bv32, sz: int)
    decreases sz
  {
    if sz <= 0 then p == 0 else Fits(ShiftDown(p), sz - 3)
  }

  /** The term that starts at bit sz (a multiple of 3): (p >> sz) & GF8_MAX. */
  function Term(p: bv32, sz: int): GF8.Elem
    requires 0 <= sz
    decreases sz
  {
    if sz < 3 then Digit(p) else Term(ShiftDown(p), sz - 3)
  }

  /** The term at bit 3i is coefficient i. */
  lemma {:induction false} TermIsCoeff(p: bv32, i: nat)
    requires i < Terms
    ensures Term(p, 3 * i) == Coeff(p, i)
  {
    if i > 0 {
      TermIsCoeff(ShiftDown(p), i - 1);
      assert 3 * i - 3 == 3 * (i - 1);
      CoeffShiftDown(p, i - 1);
    }
  }

  /**
    * gf8_poly_eval: the value at x of the polynomial held in the low pSz bits
    * of p, by Horner's rule from the top term down.  The top term is read as
    * p >> (pSz - 3) with no mask, so p must fit in pSz bits; a zero x would
    * index the exponent table with log 0 = -1.  The inlined table product
    * `if (y) y = exp[log y + log x]` is gf8_mul, written here as GF8.Mul.
    */
  method Eval(p: bv32, pSz: int, x: GF8.Elem) returns (y: GF8.Elem)
    requires 3 <= pSz <= 3 * Terms && pSz % 3 == 0
    requires Fits(p, pSz)
    requires x != 0
    ensures y == Poly8.Eval(Coeffs(p), x)
  {
    ghost var c, i := Coeffs(p), pSz / 3 - 1;
    var sz := pSz - 3;
    y := Term(p, sz);
    EvalTop(p, c, pSz, i, x, y);
    sz := sz - 3;
    while sz >= 0
      invariant 0 <= i < Terms && sz == 3 * i - 3
      invariant y == Poly8.Horner(c, i, x)
    {
      ghost var prev := y;
      y := GF8.Add(GF8.Mul(y, x), Term(p, sz));
      EvalStep(p, c, i, sz, x, prev, y);
      sz := sz - 3;
      i := i - 1;
    }
    EvalDone(c, x, y);
  }

  /** The top term of a word that fits in pSz bits is Horner's rule from that term up. */
  lemma EvalTop(p: bv32, c: Poly8.Poly, pSz: int, i: int, x: GF8.Elem, y: GF8.Elem)
    requires 3 <= pSz <= 3 * Terms && pSz % 3 == 0 && i == pSz / 3 - 1
    requires c == Coeffs(p) && Fits(p, pSz) && y == Term(p, pSz - 3)
    ensures 0 <= i < Terms && pSz - 3 == 3 * i
    ensures y == Poly8.Horner(c, i, x)
  {
    var n := pSz / 3;
    assert pSz == 3 * n && pSz - 3 == 3 * i;
    FitsBound(p, n);
    TermIsCoeff(p, i);
    CoeffsAt(p, i);
    TopTermsZero(p, n);
    HornerTop(c, n, x, y);
  }

  lemma HornerTop(c: Poly8.Poly, n: nat, x: GF8.Elem, y: GF8.Elem)
    requires 0 < n <= |c| && y == c[n - 1]
    requires forall j :: n <= j < |c| ==> c[j] == 0
    ensures y == Poly8.Horner(c, n - 1, x)
  {
    Poly8.HornerOfZeros(c, n, x);
    GF8.AddZero(y);
    GF8.AddCommutes(0, y);
  }

  /** One step of the loop: fold in the term below the ones already done. */
  lemma EvalStep(p: bv32, c: Poly8.Poly, i: nat, sz: int, x: GF8.Elem, prev: GF8.Elem, y: GF8.Elem)
    requires c == Coeffs(p) && 0 < i < Terms && sz == 3 * i - 3
    requires prev == Poly8.Horner(c, i, x)
    requires y == GF8.Add(GF8.Mul(prev, x), Term(p, sz))
    ensures y == Poly8.Horner(c, i - 1, x)
  {
    assert sz == 3 * (i - 1);
    TermIsCoeff(p, i - 1);
    CoeffsAt(p, i - 1);
  }

  /** With every term folded in, Horner's rule has computed the value. */
  lemma EvalDone(c: Poly8.Poly, x: GF8.Elem, y: GF8.Elem)
    requires y == Poly8.Horner(c, 0, x)
    ensures y == Poly8.Eval(c, x)
  {
    Poly8.HornerIsEval(c, 0, x);
    assert c[0..] == c;
  }

  // ---------------------------------------------------------------------
  // gf8_poly_mod
  // ---------------------------------------------------------------------

  /** p << 3j: multiplication by x^j, one term at a time. */
  function ShiftUpBy(p: bv32, j: nat): bv32
  {
    if j == 0 then p else ShiftUp(ShiftUpBy(p, j - 1))
  }

  /** Packed and sequence shifts by j agree. */
  lemma {:induction false} CoeffsShiftUpBy(p: bv32, j: nat)
    ensures Coeffs(ShiftUpBy(p, j)) == Poly8.ShiftUpBy(Coeffs(p), j)
  {
    if j > 0 {
      CoeffsShiftUpBy(p, j - 1);
      CoeffsShiftUp(ShiftUpBy(p, j - 1));
    }
  }

  /** A shift up keeps bits 30 and 31 clear when the top term is 0. */
  lemma ShiftUpBelowLimit(w: bv32)
    requires w < Limit && Coeff(w, 9) == 0
    ensures ShiftUp(w) < Limit
  {
  }

  /** Shifting up by j keeps bits 30 and 31 clear when the top j terms are 0. */
  lemma {:induction false} ShiftUpByBelowLimit(p: bv32, j: nat)
    requires j <= Terms && p < Limit
    requires forall k :: Terms - j <= k < Terms ==> Coeffs(p)[k] == 0
    ensures ShiftUpBy(p, j) < Limit
  {
    if j > 0 {
      var w := ShiftUpBy(p, j - 1);
      ShiftUpByBelowLimit(p, j - 1);
      CoeffsShiftUpBy(p, j - 1);
      Poly8.ShiftUpByAt(Coeffs(p), j - 1, 9);
      CoeffsAt(w, 9);
      ShiftUpBelowLimit(w);
    }
  }

  /** One partial product of a word of six coefficients stays below bit 30. */
  lemma PartialBelowLimit(p: bv32, q: bv32, bit: bv32)
    requires p < 0x4_0000 && (bit == 0x2 || bit == 0x4 || bit == 0x8 || bit == 0x10 || bit == 0x20 || bit == 0x40
      || bit == 0x80 || bit == 0x100 || bit == 0x200 || bit == 0x400 || bit == 0x800 || bit == 0x1000)
    ensures Partial(p, q, bit) < Limit
  {
    if q & bit == 0 {
      assert Partial(p, q, bit) == 0;
    } else {
      assert q & bit == bit;
    }
  }

  /** The product of a word of at most six coefficients keeps bits 30 and 31 clear. */
  lemma MulBelowLimit(p: bv32, q: bv32)
    requires p < Bound(6)
    ensures Mul(p, q) < Limit
  {
    PartialBelowLimit(p, q, 0x8);
    PartialBelowLimit(p, q, 0x40);
    PartialBelowLimit(p, q, 0x200);
    PartialBelowLimit(p, q, 0x1000);
    PartialBelowLimit(p, q, 0x2);
    PartialBelowLimit(p, q, 0x10);
    PartialBelowLimit(p, q, 0x80);
    PartialBelowLimit(p, q, 0x400);
    PartialBelowLimit(p, q, 0x4);
    PartialBelowLimit(p, q, 0x20);
    PartialBelowLimit(p, q, 0x100);
    PartialBelowLimit(p, q, 0x800);
  }

  /** Scaling keeps bits 30 and 31 clear. */
  lemma ScaleBelowLimit(p: bv32, x: GF8.Elem)
    requires p < Limit
    ensures Scale(p, x) < Limit
  {
  }

  /**
    * The values at every root of q agree with those of p * x^dq: this is what
    * the remainder of p * x^dq by q keeps.
    */
  ghost predicate CongruentAtRoots(p: bv32, q: bv32, dq: nat, m: bv32)
  {
    forall r: GF8.Elem {:trigger Poly8.Eval(Coeffs(q), r)} :: Poly8.Eval(Coeffs(q), r) == 0 ==>
      Poly8.Eval(Coeffs(m), r) == GF8.Mul(Poly8.Eval(Coeffs(p), r), GF8.Power(r, dq))
  }

  /**
    * The state of the division loop before the term at bit 3t is cleared:
    * q has dq + 1 terms, qw is q moved up to end at term t, m agrees with
    * p * x^dq at the roots of q, and, when q is monic, every term of m above
    * t is already 0.
    */
  ghost predicate ModState(p: bv32, q: bv32, dq: nat, m: bv32, qw: bv32, t: int)
  {
    && dq < Terms && dq - 1 <= t < Terms
    && q < Limit && (forall k :: dq < k < Terms ==> Coeffs(q)[k] == 0)
    && m < Limit
    && (t >= dq ==> qw == ShiftUpBy(q, t - dq))
    && CongruentAtRoots(p, q, dq, m)
    && (Coeffs(q)[dq] == 1 ==> forall k :: t < k < Terms ==> Coeffs(m)[k] == 0)
  }

  /**
    * The division identity: p * x^dq is Q * q + m for a quotient Q of
    * Terms - dq coefficients, so that Q * q loses nothing off the top of the
    * ten terms.
    */
  ghost predicate DivisionIdentity(p: bv32, q: bv32, dq: nat, m: bv32)
    requires dq < Terms
  {
    exists Q: Poly8.Poly {:trigger Poly8.Product(Coeffs(q), Q)} ::
      |Q| == Terms - dq && Poly8.Add(Poly8.Product(Coeffs(q), Q), Coeffs(m)) == Poly8.ShiftUpBy(Coeffs(p), dq)
  }

  /**
    * The quotient built so far by the division loop before the term at bit
    * 3t is cleared: its terms at t - dq and below are still 0.
    */
  ghost predicate QuotientState(p: bv32, q: bv32, dq: nat, m: bv32, Q: Poly8.Poly, t: int)
  {
    && dq < Terms && dq - 1 <= t < Terms && |Q| == Terms - dq
    && (forall k :: 0 <= k <= t - dq ==> Q[k] == 0)
    && Poly8.Add(Poly8.Product(Coeffs(q), Q), Coeffs(m)) == Poly8.ShiftUpBy(Coeffs(p), dq)
  }

  /**
    * gf8_poly_mod: p of pSz / 3 terms is multiplied by x^dq, where q has
    * dq + 1 terms, and then, from the top term down to term dq, each term c
    * of the running value is cancelled by adding c times q moved up to end at
    * that term.  The result agrees with p * x^dq at every root of q, and when
    * the top coefficient of q is 1 every term from dq up has been cleared: it
    * is the remainder of p * x^dq, not of p, by q (unique by RemainderUnique).
    * Both operands must fit their sizes and the shifted dividend must fit in
    * ten terms.
    */
  method Mod(p: bv32, pSz: int, q: bv32, qSz: int) returns (m: bv32)
    requires 3 <= pSz && pSz % 3 == 0 && 3 <= qSz && qSz % 3 == 0
    requires pSz + qSz <= 3 * Terms + 3
    requires Fits(p, pSz) && Fits(q, qSz)
    ensures m < Limit
    ensures DivisionIdentity(p, q, qSz / 3 - 1, m)
    ensures forall r: GF8.Elem :: Poly8.Eval(Coeffs(q), r) == 0 ==>
      Poly8.Eval(Coeffs(m), r) == GF8.Mul(Poly8.Eval(Coeffs(p), r), GF8.Power(r, qSz / 3 - 1))
    ensures Coeffs(q)[qSz / 3 - 1] == 1 ==> forall k :: qSz / 3 - 1 <= k < Terms ==> Coeffs(m)[k] == 0
  {
    ghost var pn, qn := pSz / 3, qSz / 3;
    SizeInTerms(pSz);
    SizeInTerms(qSz);
    var pS := pSz - 3;
    var qS := qSz - 3;
    m := ShiftUpBy(p, qS / 3);
    var qw := ShiftUpBy(q, pS / 3);
    var i := pS + qS;
    ghost var dq, t := qn - 1, pn + qn - 2;
    ghost var quot: Poly8.Poly := Poly8.Zero(Terms - dq);
    StartDivision(p, q, pn, qn, dq, t, m, qw, quot);
    while i >= qS
      invariant i == 3 * t && qS == 3 * dq
      invariant DivisionState(p, q, dq, m, qw, quot, t)
      decreases i
    {
      ghost var m0, qw0, t0, quot0 := m, qw, t, quot;
      var c := Term(m, i);
      m := Add(m, Scale(qw, c));
      qw := ShiftDown(qw);
      i := i - 3;
      t := t - 1;
      quot := quot[t0 - dq := c];
      DivisionStep(p, q, dq, m0, qw0, quot0, t0, c, m, qw, quot, t);
    }
    DivisionDone(p, q, dq, m, qw, quot, t, qSz);
  }

  /** The loop starts from p * x^dq with the zero quotient. */
  lemma StartDivision(p: bv32, q: bv32, pn: nat, qn: nat, dq: nat, t: int, m: bv32, qw: bv32, Q: Poly8.Poly)
    requires 0 < pn && 0 < qn && pn + qn <= Terms + 1 && dq == qn - 1 && t == pn + qn - 2
    requires Fits(p, 3 * pn) && Fits(q, 3 * qn)
    requires m == ShiftUpBy(p, dq) && qw == ShiftUpBy(q, pn - 1) && Q == Poly8.Zero(Terms - dq)
    ensures DivisionState(p, q, dq, m, qw, Q, t)
  {
    StartState(p, q, pn, qn, dq, t, m, qw);
    StartQuotient(p, q, dq, t, m, Q);
  }

  /** When the loop stops at t = dq - 1, its state is the promise of Mod. */
  lemma DivisionDone(p: bv32, q: bv32, dq: nat, m: bv32, qw: bv32, Q: Poly8.Poly, t: int, qSz: int)
    requires DivisionState(p, q, dq, m, qw, Q, t) && t == dq - 1 && dq == qSz / 3 - 1
    ensures m < Limit
    ensures DivisionIdentity(p, q, qSz / 3 - 1, m)
    ensures forall r: GF8.Elem :: Poly8.Eval(Coeffs(q), r) == 0 ==>
      Poly8.Eval(Coeffs(m), r) == GF8.Mul(Poly8.Eval(Coeffs(p), r), GF8.Power(r, qSz / 3 - 1))
    ensures Coeffs(q)[qSz / 3 - 1] == 1 ==> forall k :: qSz / 3 - 1 <= k < Terms ==> Coeffs(m)[k] == 0
  {
    ModDone(p, q, dq, m, qw, t, qSz);
    QuotientDone(p, q, dq, m, Q, t);
  }

  /** The whole state of the division loop: the running value and the quotient built so far. */
  ghost predicate DivisionState(p: bv32, q: bv32, dq: nat, m: bv32, qw: bv32, Q: Poly8.Poly, t: int)
  {
    ModState(p, q, dq, m, qw, t) && QuotientState(p, q, dq, m, Q, t)
  }

  /** One pass of the loop keeps the whole state. */
  lemma DivisionStep(p: bv32, q: bv32, dq: nat, m: bv32, qw: bv32, Q: Poly8.Poly, t: int, c: GF8.Elem,
                     m': bv32, qw': bv32, Q': Poly8.Poly, t': int)
    requires DivisionState(p, q, dq, m, qw, Q, t) && t >= dq && t' == t - 1
    requires c == Term(m, 3 * t)
    requires m' == Add(m, Scale(qw, c)) && qw' == ShiftDown(qw) && Q' == Q[t - dq := c]
    ensures DivisionState(p, q, dq, m', qw', Q', t')
  {
    ModStep(p, q, dq, m, qw, t, c, m', qw', t');
    QuotientStep(p, q, dq, m, qw, t, c, m', Q, Q');
  }

  /** The loop starts with the zero quotient: p * x^dq = 0 * q + p * x^dq. */
  lemma StartQuotient(p: bv32, q: bv32, dq: nat, t: int, m: bv32, Q: Poly8.Poly)
    requires dq < Terms && dq - 1 <= t < Terms && m == ShiftUpBy(p, dq) && Q == Poly8.Zero(Terms - dq)
    ensures QuotientState(p, q, dq, m, Q, t)
  {
    Poly8.ProductOfZeros(Coeffs(q), Q);
    CoeffsShiftUpBy(p, dq);
    var z := Poly8.Product(Coeffs(q), Q);
    forall k | 0 <= k < Terms
      ensures Poly8.Add(z, Coeffs(m))[k] == Coeffs(m)[k]
    {
      GF8.AddZero(Coeffs(m)[k]);
    }
  }

  /**
    * One pass adds c * x^(t - dq) * q to the running value and c * x^(t - dq)
    * to the quotient, so the identity is kept.
    */
  lemma QuotientStep(p: bv32, q: bv32, dq: nat, m: bv32, qw: bv32, t: int, c: GF8.Elem, m': bv32,
                     Q: Poly8.Poly, Q': Poly8.Poly)
    requires ModState(p, q, dq, m, qw, t) && QuotientState(p, q, dq, m, Q, t) && t >= dq
    requires m' == Add(m, Scale(qw, c)) && Q' == Q[t - dq := c]
    ensures QuotientState(p, q, dq, m', Q', t - 1)
  {
    var j: nat := t - dq;
    assert qw == ShiftUpBy(q, j);
    MovedDivisor(q, dq, j);
    QuotientMoved(p, q, dq, m, qw, t, c, m', Q, Q', j);
  }

  /** The step of QuotientStep once the moved divisor qw is known to read as q shifted by j = t - dq. */
  lemma QuotientMoved(p: bv32, q: bv32, dq: nat, m: bv32, qw: bv32, t: int, c: GF8.Elem, m': bv32,
                      Q: Poly8.Poly, Q': Poly8.Poly, j: nat)
    requires QuotientState(p, q, dq, m, Q, t) && j == t - dq && m < Limit && qw < Limit
    requires Coeffs(qw) == Poly8.ShiftUpBy(Coeffs(q), j)
    requires m' == Add(m, Scale(qw, c)) && Q' == Q[j := c]
    ensures QuotientState(p, q, dq, m', Q', t - 1)
  {
    StepWords(m, qw, c, m');
    Poly8.ProductSetTerm(Coeffs(q), Q, j, c);
    QuotientKept(Poly8.Product(Coeffs(q), Q), Coeffs(m), Poly8.ScaleBy(Coeffs(qw), c),
      Poly8.Product(Coeffs(q), Q'), Coeffs(m'), Poly8.ShiftUpBy(Coeffs(p), dq));
  }

  /** (a + s) + (b + s) = a + b, coefficient by coefficient. */
  lemma QuotientKept(a: Poly8.Poly, b: Poly8.Poly, s: Poly8.Poly, a': Poly8.Poly, b': Poly8.Poly, r: Poly8.Poly)
    requires |a| == |b| == |s| && Poly8.Add(a, b) == r
    requires a' == Poly8.Add(a, s) && b' == Poly8.Add(b, s)
    ensures Poly8.Add(a', b') == r
  {
    forall k | 0 <= k < |a|
      ensures Poly8.Add(a', b')[k] == r[k]
    {
      assert r[k] == GF8.Add(a[k], b[k]);
    }
  }

  /** When the loop stops, its quotient witnesses the division identity. */
  lemma QuotientDone(p: bv32, q: bv32, dq: nat, m: bv32, Q: Poly8.Poly, t: int)
    requires QuotientState(p, q, dq, m, Q, t)
    ensures DivisionIdentity(p, q, dq, m)
  {
  }

  /**
    * The remainder by a divisor q with top coefficient 1 is unique: two words
    * that both satisfy the division identity for p * x^dq and have every term
    * from dq up cleared are equal.  So the result of Mod depends on p and q
    * only, not on pSz as long as p fits it.
    */
  lemma RemainderUnique(p: bv32, q: bv32, dq: nat, m: bv32, n: bv32)
    requires dq < Terms && Coeffs(q)[dq] == 1 && forall k :: dq < k < Terms ==> Coeffs(q)[k] == 0
    requires m < Limit && n < Limit
    requires DivisionIdentity(p, q, dq, m) && DivisionIdentity(p, q, dq, n)
    requires forall k :: dq <= k < Terms ==> Coeffs(m)[k] == 0 && Coeffs(n)[k] == 0
    ensures m == n
  {
    var A: Poly8.Poly :| |A| == Terms - dq
      && Poly8.Add(Poly8.Product(Coeffs(q), A), Coeffs(m)) == Poly8.ShiftUpBy(Coeffs(p), dq);
    var B: Poly8.Poly :| |B| == Terms - dq
      && Poly8.Add(Poly8.Product(Coeffs(q), B), Coeffs(n)) == Poly8.ShiftUpBy(Coeffs(p), dq);
    Poly8.DivisionUnique(Coeffs(q), dq, A, B, Coeffs(m), Coeffs(n));
    CoeffsDetermine(m, n);
  }

  /** Ten coefficients determine a word with bits 30 and 31 clear. */
  lemma CoeffsDetermine(a: bv32, b: bv32)
    requires a < Limit && b < Limit && Coeffs(a) == Coeffs(b)
    ensures a == b
  {
    CoeffsAt(a, 0); CoeffsAt(b, 0);
    CoeffsAt(a, 1); CoeffsAt(b, 1);
    CoeffsAt(a, 2); CoeffsAt(b, 2);
    CoeffsAt(a, 3); CoeffsAt(b, 3);
    CoeffsAt(a, 4); CoeffsAt(b, 4);
    CoeffsAt(a, 5); CoeffsAt(b, 5);
    CoeffsAt(a, 6); CoeffsAt(b, 6);
    CoeffsAt(a, 7); CoeffsAt(b, 7);
    CoeffsAt(a, 8); CoeffsAt(b, 8);
    CoeffsAt(a, 9); CoeffsAt(b, 9);
    assert Coeffs(a)[0] == Coeffs(b)[0] && Coeffs(a)[1] == Coeffs(b)[1] && Coeffs(a)[2] == Coeffs(b)[2];
    assert Coeffs(a)[3] == Coeffs(b)[3] && Coeffs(a)[4] == Coeffs(b)[4] && Coeffs(a)[5] == Coeffs(b)[5];
    assert Coeffs(a)[6] == Coeffs(b)[6] && Coeffs(a)[7] == Coeffs(b)[7] && Coeffs(a)[8] == Coeffs(b)[8];
    assert Coeffs(a)[9] == Coeffs(b)[9];
  }

  /** When the loop stops at t = dq - 1, its state is the promise of Mod. */
  lemma ModDone(p: bv32, q: bv32, dq: nat, m: bv32, qw: bv32, t: int, qSz: int)
    requires ModState(p, q, dq, m, qw, t) && t == dq - 1 && dq == qSz / 3 - 1
    ensures m < Limit
    ensures forall r: GF8.Elem :: Poly8.Eval(Coeffs(q), r) == 0 ==>
      Poly8.Eval(Coeffs(m), r) == GF8.Mul(Poly8.Eval(Coeffs(p), r), GF8.Power(r, qSz / 3 - 1))
    ensures Coeffs(q)[qSz / 3 - 1] == 1 ==> forall k :: qSz / 3 - 1 <= k < Terms ==> Coeffs(m)[k] == 0
  {
  }

  /** A size in bits that is a multiple of 3 is a count of terms. */
  lemma SizeInTerms(sz: int)
    requires 3 <= sz && sz % 3 == 0
    ensures sz == 3 * (sz / 3) && (sz - 3) / 3 == sz / 3 - 1 && sz / 3 > 0
  {
  }

  /** The loop starts from p * x^dq, with q moved up to end at the top term. */
  lemma StartState(p: bv32, q: bv32, pn: nat, qn: nat, dq: nat, t: int, m: bv32, qw: bv32)
    requires 0 < pn && 0 < qn && pn + qn <= Terms + 1 && dq == qn - 1 && t == pn + qn - 2
    requires Fits(p, 3 * pn) && Fits(q, 3 * qn)
    requires m == ShiftUpBy(p, dq) && qw == ShiftUpBy(q, pn - 1)
    ensures ModState(p, q, dq, m, qw, t)
  {
    var P := Coeffs(p);
    FitsBound(p, pn);
    FitsBound(q, qn);
    TopTermsZero(p, pn);
    TopTermsZero(q, qn);
    BelowLimit(p, pn);
    BelowLimit(q, qn);
    ShiftUpByBelowLimit(p, dq);
    assert t - dq == pn - 1;
    StartCongruent(p, q, pn, dq, m);
    CoeffsShiftUpBy(p, dq);
    StartCleared(P, pn, dq, Coeffs(m));
  }

  /** Nothing of p * x^dq lies above its top term pn - 1 + dq. */
  lemma StartCleared(P: Poly8.Poly, pn: nat, dq: nat, M: Poly8.Poly)
    requires |P| == Terms && pn + dq <= Terms + 1 && M == Poly8.ShiftUpBy(P, dq)
    requires forall k :: pn <= k < Terms ==> P[k] == 0
    ensures forall k :: pn + dq - 1 < k < Terms ==> M[k] == 0
  {
    forall k | pn + dq - 1 < k < Terms
      ensures M[k] == 0
    {
      Poly8.ShiftUpByAt(P, dq, k);
    }
  }

  /** Every word that fits some number of terms fits ten. */
  lemma BelowLimit(p: bv32, n: nat)
    requires n <= Terms && p < Bound(n)
    ensures p < Limit
  {
    BoundMonotone(n, Terms);
  }

  lemma StartCongruent(p: bv32, q: bv32, pn: nat, dq: nat, m: bv32)
    requires pn + dq <= Terms && m == ShiftUpBy(p, dq)
    requires forall k :: pn <= k < Terms ==> Coeffs(p)[k] == 0
    ensures CongruentAtRoots(p, q, dq, m)
  {
    CoeffsShiftUpBy(p, dq);
    forall r: GF8.Elem
      ensures Poly8.Eval(Coeffs(m), r) == GF8.Mul(Poly8.Eval(Coeffs(p), r), GF8.Power(r, dq))
    {
      Poly8.EvalShiftUpBy(Coeffs(p), dq, r);
    }
  }

  /** One pass of the loop: the top term t is cleared and q moves down a term. */
  lemma ModStep(p: bv32, q: bv32, dq: nat, m: bv32, qw: bv32, t: int, c: GF8.Elem, m': bv32, qw': bv32, t': int)
    requires ModState(p, q, dq, m, qw, t) && t >= dq && t' == t - 1
    requires c == Term(m, 3 * t)
    requires m' == Add(m, Scale(qw, c)) && qw' == ShiftDown(qw)
    ensures ModState(p, q, dq, m', qw', t')
  {
    var j: nat := t - dq;
    StepDivisor(q, dq, j, qw, qw');
    StepWords(m, qw, c, m');
    StepCongruent(p, q, dq, m, m', qw, c, j);
    if Coeffs(q)[dq] == 1 {
      StepTopClear(q, dq, m, m', qw, c, t);
    }
  }

  /** The divisor moved down a term is the divisor moved up one term less. */
  lemma StepDivisor(q: bv32, dq: nat, j: nat, qw: bv32, qw': bv32)
    requires dq + j < Terms && q < Limit && forall k :: dq < k < Terms ==> Coeffs(q)[k] == 0
    requires qw == ShiftUpBy(q, j) && qw' == ShiftDown(qw)
    ensures qw < Limit
    ensures j > 0 ==> qw' == ShiftUpBy(q, j - 1)
  {
    MovedDivisor(q, dq, j);
    if j > 0 {
      StepShiftDown(q, dq, j);
    }
  }

  /** With a monic divisor, the pass clears the top term t. */
  lemma StepTopClear(q: bv32, dq: nat, m: bv32, m': bv32, qw: bv32, c: GF8.Elem, t: int)
    requires dq <= t < Terms && q < Limit
    requires Coeffs(q)[dq] == 1 && forall k :: dq < k < Terms ==> Coeffs(q)[k] == 0
    requires qw == ShiftUpBy(q, t - dq) && c == Term(m, 3 * t)
    requires forall k :: t < k < Terms ==> Coeffs(m)[k] == 0
    requires Coeffs(m') == Poly8.Add(Coeffs(m), Poly8.ScaleBy(Coeffs(qw), c))
    ensures forall k :: t - 1 < k < Terms ==> Coeffs(m')[k] == 0
  {
    TermIsCoeff(m, t);
    CoeffsAt(m, t);
    StepClears(q, dq, m, m', qw, c, t);
  }

  /** q moved up by j, with nothing falling off the top, reads as the sequence shift. */
  lemma MovedDivisor(q: bv32, dq: nat, j: nat)
    requires dq + j < Terms && q < Limit && forall k :: dq < k < Terms ==> Coeffs(q)[k] == 0
    ensures ShiftUpBy(q, j) < Limit
    ensures Coeffs(ShiftUpBy(q, j)) == Poly8.ShiftUpBy(Coeffs(q), j)
  {
    ShiftUpByBelowLimit(q, j);
    CoeffsShiftUpBy(q, j);
  }

  /** Moving the shifted divisor down a term undoes its last shift. */
  lemma StepShiftDown(q: bv32, dq: nat, j: nat)
    requires 0 < j && dq + j < Terms && q < Limit && forall k :: dq < k < Terms ==> Coeffs(q)[k] == 0
    ensures ShiftDown(ShiftUpBy(q, j)) == ShiftUpBy(q, j - 1)
  {
    var w := ShiftUpBy(q, j - 1);
    MovedDivisor(q, dq, j - 1);
    Poly8.ShiftUpByAt(Coeffs(q), j - 1, 9);
    CoeffsAt(w, 9);
    ShiftDownShiftUp(w);
  }

  /** A shift up loses nothing when bits 27 to 31 are clear. */
  lemma ShiftDownShiftUp(w: bv32)
    requires w < Limit && Coeff(w, 9) == 0
    ensures ShiftDown(ShiftUp(w)) == w
  {
  }

  /** A word below Bound(n) has no coefficient from n up. */
  lemma TopTermsZero(q: bv32, n: nat)
    requires n <= Terms && q < Bound(n)
    ensures forall k :: n <= k < Terms ==> Coeffs(q)[k] == 0
  {
    forall k | n <= k < Terms
      ensures Coeffs(q)[k] == 0
    {
      CoeffsAt(q, k);
      CoeffAbove(q, n, k);
    }
  }

  /** The word update of one pass, read as coefficients. */
  lemma StepWords(m: bv32, qw: bv32, c: GF8.Elem, m': bv32)
    requires m < Limit && qw < Limit
    requires m' == Add(m, Scale(qw, c))
    ensures m' < Limit
    ensures Coeffs(m') == Poly8.Add(Coeffs(m), Poly8.ScaleBy(Coeffs(qw), c))
  {
    ScaleBelowLimit(qw, c);
    CoeffsAdd(m, Scale(qw, c));
    ScaleIsScaleBy(qw, c);
  }

  /** Adding a multiple of q moved up keeps the values at the roots of q. */
  lemma StepCongruent(p: bv32, q: bv32, dq: nat, m: bv32, m': bv32, qw: bv32, c: GF8.Elem, j: nat)
    requires CongruentAtRoots(p, q, dq, m)
    requires dq + j < Terms && q < Limit && forall k :: dq < k < Terms ==> Coeffs(q)[k] == 0
    requires qw == ShiftUpBy(q, j)
    requires Coeffs(m') == Poly8.Add(Coeffs(m), Poly8.ScaleBy(Coeffs(qw), c))
    ensures CongruentAtRoots(p, q, dq, m')
  {
    var Q, s := Coeffs(q), Coeffs(qw);
    MovedDivisor(q, dq, j);
    forall r: GF8.Elem | Poly8.Eval(Q, r) == 0
      ensures Poly8.Eval(Coeffs(m'), r) == Poly8.Eval(Coeffs(m), r)
    {
      Poly8.EvalAdd(Coeffs(m), Poly8.ScaleBy(s, c), r);
      Poly8.EvalScaleBy(s, c, r);
      Poly8.EvalShiftUpBy(Q, j, r);
      GF8.AddZero(Poly8.Eval(Coeffs(m), r));
    }
  }

  /** With q monic, the new term t is c + 1 * c = 0 and the terms above stay 0. */
  lemma StepClears(q: bv32, dq: nat, m: bv32, m': bv32, qw: bv32, c: GF8.Elem, t: int)
    requires dq <= t < Terms && q < Limit
    requires Coeffs(q)[dq] == 1 && forall k :: dq < k < Terms ==> Coeffs(q)[k] == 0
    requires qw == ShiftUpBy(q, t - dq) && Coeffs(m)[t] == c
    requires forall k :: t < k < Terms ==> Coeffs(m)[k] == 0
    requires Coeffs(m') == Poly8.Add(Coeffs(m), Poly8.ScaleBy(Coeffs(qw), c))
    ensures forall k :: t - 1 < k < Terms ==> Coeffs(m')[k] == 0
  {
    forall k | t - 1 < k < Terms
      ensures Coeffs(m')[k] == 0
    {
      ClearsAt(q, dq, m, m', qw, c, t, k);
    }
  }

  /** Term k >= t of one pass: c + 1 * c at t, 0 + q's zeros above. */
  lemma ClearsAt(q: bv32, dq: nat, m: bv32, m': bv32, qw: bv32, c: GF8.Elem, t: int, k: int)
    requires dq <= t <= k < Terms && q < Limit
    requires Coeffs(q)[dq] == 1 && forall k :: dq < k < Terms ==> Coeffs(q)[k] == 0
    requires qw == ShiftUpBy(q, t - dq) && Coeffs(m)[t] == c
    requires forall k :: t < k < Terms ==> Coeffs(m)[k] == 0
    requires Coeffs(m') == Poly8.Add(Coeffs(m), Poly8.ScaleBy(Coeffs(qw), c))
    ensures Coeffs(m')[k] == 0
  {
    var j: nat := t - dq;
    MovedDivisor(q, dq, j);
    Poly8.ShiftUpByAt(Coeffs(q), j, k);
    assert Coeffs(qw)[k] == Coeffs(q)[k - j];
    assert Coeffs(m')[k] == GF8.Add(Coeffs(m)[k], GF8.Mul(Coeffs(qw)[k], c));
    if k == t {
      assert k - j == dq;
      GF8.MulOne(c);
      GF8.AddSelf(c);
    } else {
      GF8.AddZero(0);
    }
  }

  // ---------------------------------------------------------------------
  // gf8_poly_get_order, gf8_poly_get_size
  // ---------------------------------------------------------------------

  /** gf8_poly is a signed 32-bit integer: a word with bit 31 set is negative. */
  predicate Negative(p: bv32)
  {
    p >= 0x8000_0000
  }

  /** 8^k, built as gf8_poly_get_order builds it: one term up at a time. */
  function Pow8(k: nat): bv32
  {
    if k == 0 then 1 else ShiftUp(Pow8(k - 1))
  }

  /** One pass of the counting loop: i = 8^k does not exceed p, so k < 10 and i moves on to 8^(k + 1). */
  lemma PowerStep(p: bv32, i: bv32, k: nat, i': bv32, k': nat)
    requires k <= Terms && i == Pow8(k) && i <= p && p < Limit
    requires i' == ShiftUp(i) && k' == k + 1
    ensures k' <= Terms && i' == Pow8(k') && Pow8(k' - 1) <= p
  {
    PowerBelowLimit(k);
    assert k' - 1 == k;
  }

  /** 8^10 is 2^30: a word below Limit is below it, so the count stops before 10. */
  lemma PowerBelowLimit(k: nat)
    requires k <= Terms && Pow8(k) < Limit
    ensures k < Terms
  {
    PowerTen();
  }

  lemma PowerTen()
    ensures Pow8(Terms) == Limit
  {
  }

  /**
    * gf8_poly_get_order: counts the powers 1, 8, 64, ... of 8 that do not
    * exceed p, less one.  gf8_poly is a signed 32-bit integer, so a word with
    * bit 31 set is negative, below 1, and gets -1; a word with bit 30 set and
    * bit 31 clear is at least 8^10, the counter overflows to 0 and the loop
    * never ends, so such words are excluded.
    */
  method GetOrder(p: bv32) returns (n: int)
    requires p < Limit || Negative(p)
    ensures n == if Negative(p) then -1 else Poly8.Order(Coeffs(p))
    ensures -1 <= n < Terms
  {
    n := -1;
    var i: bv32 := 1;
    ghost var k: nat := 0;
    while !Negative(p) && i <= p
      invariant k <= Terms && i == Pow8(k) && n == k - 1
      invariant k > 0 ==> Pow8(k - 1) <= p
      invariant Negative(p) ==> k == 0
      decreases Terms - k
    {
      ghost var i0, k0 := i, k;
      i := ShiftUp(i);
      n := n + 1;
      k := k + 1;
      PowerStep(p, i0, k0, i, k);
    }
    if !Negative(p) {
      OrderPowers(p, k);
    }
  }

  /**
    * gf8_poly_get_size: three bits per power of 8 that does not exceed p, that
    * is the number of bits the terms up to the top non-zero one occupy.  It is
    * the least size in bits p fits in, the size that Eval and Mod expect.  A
    * negative word gets size 0; the words with bit 30 set and bit 31 clear
    * never return, as for GetOrder.
    */
  method GetSize(p: bv32) returns (sz: int)
    requires p < Limit || Negative(p)
    ensures sz == if Negative(p) then 0 else 3 * (Poly8.Order(Coeffs(p)) + 1)
    ensures !Negative(p) ==> Fits(p, sz) && (sz > 0 ==> !Fits(p, sz - 3))
  {
    sz := 0;
    var i: bv32 := 1;
    ghost var k: nat := 0;
    while !Negative(p) && i <= p
      invariant k <= Terms && i == Pow8(k) && sz == 3 * k
      invariant k > 0 ==> Pow8(k - 1) <= p
      invariant Negative(p) ==> k == 0
      decreases Terms - k
    {
      ghost var i0, k0 := i, k;
      i := ShiftUp(i);
      sz := sz + 3;
      k := k + 1;
      PowerStep(p, i0, k0, i, k);
    }
    if !Negative(p) {
      OrderPowers(p, k);
    }
  }

  // ---------------------------------------------------------------------
  // gf8_poly_reduce on a signed word
  // ---------------------------------------------------------------------

  /** `w >> n` on a signed 32-bit integer, as compilers implement it: the sign bit is copied into the vacated bits. */
  function ShiftRightSigned(w: bv32, n: nat): (r: bv32)
    requires n <= 3
  {
    if n == 0 then w
    else if w & 0x8000_0000 == 0 then ShiftRightSigned(w, n - 1) >> 1
    else (ShiftRightSigned(w, n - 1) >> 1) | 0x8000_0000
  }

  /** gf8_poly_reduce as written, on the signed gf8_poly: both shifts of the overflow are arithmetic. */
  function ReduceAsWritten(p: bv32, overflow: bv32): bv32
  {
    p ^ ShiftRightSigned(overflow, 2) ^ ShiftRightSigned(overflow, 3)
  }

  /** gf8_poly_scale as written: the rows of Scale, folded back by the signed reduction. */
  function ScaleAsWritten(p: bv32, x: GF8.Elem): bv32
  {
    var r0, r1, r2 := ScaleRow0(p, x), ScaleRow1(p, x), ScaleRow2(p, x);
    ReduceAsWritten(r0 ^ ((r1 & R1Keep) ^ (r2 & R2Keep)), (r1 & R1Overflow) ^ (r2 & R2Overflow))
  }

  /**
    * Coefficient 9 of 4 x^9 scaled by 4 is 4 * 4 = x^4 = x^2 + x = 6.  As
    * written, the overflow bit lands on the sign bit, the arithmetic shifts
    * fill bits 29 to 31 with ones, and coefficient 9 comes out as 2; the
    * unsigned Scale gets 6.
    */
  lemma ScaleSignedCounterexample()
    ensures Coeff(ScaleAsWritten(0x2000_0000, 4), 9) == 2
    ensures Coeff(Scale(0x2000_0000, 4), 9) == 6 == GF8.Mul(4, 4)
  {
    assert ShiftRightSigned(0x8000_0000, 2) == 0xE000_0000;
    assert ShiftRightSigned(0x8000_0000, 3) == 0xF000_0000;
    ScaleCoeff(0x2000_0000, 4, 9);
    GF8.MulIsFieldMul(4, 4);
  }

  /** gf8_poly_mul as written: the rows of Mul, folded back by the signed reduction. */
  function MulAsWritten(p: bv32, q: bv32): bv32
  {
    var r0, r1, r2 := MulRow0(p, q), MulRow1(p, q), MulRow2(p, q);
    ReduceAsWritten(r0 ^ ((r1 & R1Keep) ^ (r2 & R2Keep)), (r1 & R1Overflow) ^ (r2 & R2Overflow))
  }

  /**
    * gf8_poly_mul meets the same sign bit: multiplying 4 x^9 by the
    * polynomial 4 puts the overflow of coefficient 9 on bit 31, so as written
    * coefficient 9 is 2 where the product (and the unsigned Mul) has 6.
    */
  lemma MulSignedCounterexample()
    ensures Coeff(MulAsWritten(0x2000_0000, 4), 9) == 2
    ensures Coeff(Mul(0x2000_0000, 4), 9) == 6 == GF8.Mul(4, 4)
  {
    var p: bv32 := 0x2000_0000;
    assert MulRow0(p, 4) == ScaleRow0(p, 4) == 0;
    assert MulRow1(p, 4) == ScaleRow1(p, 4) == 0;
    assert MulRow2(p, 4) == ScaleRow2(p, 4) == 0x8000_0000;
    assert MulAsWritten(p, 4) == ScaleAsWritten(p, 4);
    assert Mul(p, 4) == Scale(p, 4);
    ScaleSignedCounterexample();
  }

}
