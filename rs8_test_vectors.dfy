/**
  * The worked decodes of ReedSolomon/src/test_math.c, followed through the
  * outcome of rs8_decode (ReedSolomon/src/rs_gf8.c) as written.
  *
  * rs8_encode(0123, 4) is the codeword 01230013 (octal).  Two of the
  * corrupted words decode back to it:
  *  - 030013, four check symbols, nothing erased: terms 5 and 6 are wrong.
  *    The syndromes are 0, 1, 2, 2.  Berlekamp-Massey finds the locator
  *    1 + 2x + 6x^2, whose roots 2^2 and 2^1 point at positions 5 and 6,
  *    the evaluator is x, and Forney's formula gives 2 and 1 there
  *    (TwoErrorsRepaired).
  *  - 00013, four check symbols, positions 5 and 6 erased: terms 4, 5 and 6
  *    are wrong.  The erasure locator is 1 + 2x + 6x^2 and the Forney
  *    syndromes are 1, 5, 3, 1.  Berlekamp-Massey over all four finds
  *    1 + 6x, the locator of position 4, and with the errata locator
  *    1 + 4x + x^2 + 2x^3 and the evaluator 1 + 3x Forney's formula gives
  *    3, 2 and 1 at positions 4, 5 and 6 (ErasuresAndErrorRepaired).
  * The uncorrupted word comes back unchanged (CodewordDecodesToItself).
  */
module RS8TestVectors {
  import GF8
  import Poly8
  import GF8Poly
  import RS8
  import RS8Decode
  import BerlekampMassey
  import RS8Decoder
  import RS8Magnitude
  import RS8ErasureCase

  /** 01230013 (octal): rs8_encode(0123, 4). */
  const Codeword: bv32 := 0x5300B
  /** 030013 (octal): Codeword with terms 5 and 6 cleared. */
  const TwoErrors: bv32 := 0x300B
  /** 00013 (octal): Codeword with terms 4, 5 and 6 cleared. */
  const ThreeWrong: bv32 := 0xB
  /** Positions 5 and 6. */
  const LastTwo: bv8 := 0x60
  /** Positions 4, 5 and 6. */
  const LastThree: bv8 := 0x70
  /** Every block position transmitted. */
  const AllSent: bv8 := 0x7F
  /** The correction that turns TwoErrors into Codeword: 2 at term 5, 1 at term 6. */
  const TwoErrorsRepair: bv32 := 0x50000
  /** The correction that turns ThreeWrong into Codeword: 3, 2, 1 at terms 4, 5, 6. */
  const ThreeWrongRepair: bv32 := 0x53000

  /** p has ten coefficients a, b, c, d, 0, ..., 0. */
  ghost predicate Low4(p: Poly8.Poly, a: GF8.Elem, b: GF8.Elem, c: GF8.Elem, d: GF8.Elem)
  {
    |p| == GF8Poly.Terms && p[0] == a && p[1] == b && p[2] == c && p[3] == d
    && forall j :: 4 <= j < GF8Poly.Terms ==> p[j] == 0
  }

  // ---------------------------------------------------------------------
  // The words
  // ---------------------------------------------------------------------

  /** The coefficients of the three words. */
  lemma WordCoeffs()
    ensures GF8Poly.Coeffs(Codeword) == [3, 1, 0, 0, 3, 2, 1, 0, 0, 0]
    ensures GF8Poly.Coeffs(TwoErrors) == [3, 1, 0, 0, 3, 0, 0, 0, 0, 0]
    ensures GF8Poly.Coeffs(ThreeWrong) == [3, 1, 0, 0, 0, 0, 0, 0, 0, 0]
  {
  }

  /** The coefficients of the two corrections, which fit the seven block terms. */
  lemma RepairCoeffs()
    ensures GF8Poly.Coeffs(TwoErrorsRepair) == [0, 0, 0, 0, 0, 2, 1, 0, 0, 0]
    ensures GF8Poly.Coeffs(ThreeWrongRepair) == [0, 0, 0, 0, 3, 2, 1, 0, 0, 0]
    ensures GF8Poly.Fits(TwoErrorsRepair, 21) && GF8Poly.Fits(ThreeWrongRepair, 21)
  {
    GF8Poly.FitsBoundAt7(TwoErrorsRepair);
    GF8Poly.FitsBoundAt7(ThreeWrongRepair);
  }

  /** The powers 2^1 .. 2^7. */
  lemma RootValues()
    ensures GF8.Exp[1] == 2 && GF8.Exp[2] == 4 && GF8.Exp[3] == 3 && GF8.Exp[4] == 6
    ensures GF8.Exp[5] == 7 && GF8.Exp[6] == 5 && GF8.Exp[7] == 1
  {
  }

  /** Horner's rule written out for a polynomial with no term above degree 3. */
  lemma EvalCubic(p: Poly8.Poly, a: GF8.Elem, b: GF8.Elem, c: GF8.Elem, d: GF8.Elem, x: GF8.Elem)
    requires Low4(p, a, b, c, d)
    ensures Poly8.Eval(p, x) == GF8.Add(GF8.Mul(GF8.Add(GF8.Mul(GF8.Add(GF8.Mul(d, x), c), x), b), x), a)
  {
    RS8ErasureCase.EvalQuartic(p, x);
    GF8.AddZero(d);
  }

  /** Horner's rule written out for a polynomial with no term above degree 6. */
  lemma EvalSextic(p: Poly8.Poly, x: GF8.Elem)
    requires |p| == GF8Poly.Terms && forall j :: 7 <= j < GF8Poly.Terms ==> p[j] == 0
    ensures Poly8.Eval(p, x) == GF8.Add(GF8.Mul(Poly8.Horner(p, 1, x), x), p[0])
    ensures Poly8.Horner(p, 1, x) == GF8.Add(GF8.Mul(Poly8.Horner(p, 2, x), x), p[1])
    ensures Poly8.Horner(p, 2, x) == GF8.Add(GF8.Mul(Poly8.Horner(p, 3, x), x), p[2])
    ensures Poly8.Horner(p, 3, x) == GF8.Add(GF8.Mul(Poly8.Horner(p, 4, x), x), p[3])
    ensures Poly8.Horner(p, 4, x) == GF8.Add(GF8.Mul(GF8.Add(GF8.Mul(p[6], x), p[5]), x), p[4])
  {
    Poly8.HornerIsEval(p, 0, x);
    assert p[0..] == p;
    Poly8.HornerOfZeros(p, 7, x);
    assert Poly8.Horner(p, 6, x) == p[6] by { GF8.AddZero(p[6]); }
  }

  /** The coefficients 0 .. 3 of a convolution, written out. */
  lemma LowConvolutions(S: Poly8.Poly, C: Poly8.Poly)
    requires |S| == |C| == GF8Poly.Terms
    ensures Poly8.ConvolutionSum(S, C, 0, 1) == GF8.Mul(S[0], C[0])
    ensures Poly8.ConvolutionSum(S, C, 1, 2) == GF8.Add(GF8.Mul(S[1], C[0]), GF8.Mul(S[0], C[1]))
    ensures Poly8.ConvolutionSum(S, C, 2, 3) ==
      GF8.Add(GF8.Add(GF8.Mul(S[2], C[0]), GF8.Mul(S[1], C[1])), GF8.Mul(S[0], C[2]))
    ensures Poly8.ConvolutionSum(S, C, 3, 4) ==
      GF8.Add(GF8.Add(GF8.Add(GF8.Mul(S[3], C[0]), GF8.Mul(S[2], C[1])), GF8.Mul(S[1], C[2])), GF8.Mul(S[0], C[3]))
  {
    RS8ErasureCase.LowConvolutions(S, C);
    ThirdConvolution(S, C);
  }

  /** Coefficient 3 of a convolution, one term at a time. */
  lemma ThirdConvolution(S: Poly8.Poly, C: Poly8.Poly)
    requires |S| == |C| == GF8Poly.Terms
    ensures Poly8.ConvolutionSum(S, C, 3, 4) ==
      GF8.Add(GF8.Add(GF8.Add(GF8.Mul(S[3], C[0]), GF8.Mul(S[2], C[1])), GF8.Mul(S[1], C[2])), GF8.Mul(S[0], C[3]))
  {
    assert Poly8.ConvolutionSum(S, C, 3, 0) == 0;
    assert Poly8.ConvolutionSum(S, C, 3, 1) == GF8.Mul(S[3], C[0]) by {
      GF8.AddZero(GF8.Mul(S[3], C[0]));
    }
    assert Poly8.ConvolutionSum(S, C, 3, 2) == GF8.Add(GF8.Mul(S[3], C[0]), GF8.Mul(S[2], C[1]));
    assert Poly8.ConvolutionSum(S, C, 3, 3) ==
      GF8.Add(GF8.Add(GF8.Mul(S[3], C[0]), GF8.Mul(S[2], C[1])), GF8.Mul(S[1], C[2]));
  }

  /** The coefficients 0 .. 3 of a product are the low convolutions. */
  lemma LowProduct(P: Poly8.Poly, Q: Poly8.Poly)
    requires |P| == |Q| == GF8Poly.Terms
    ensures Poly8.Product(P, Q)[0] == Poly8.ConvolutionSum(P, Q, 0, 1)
    ensures Poly8.Product(P, Q)[1] == Poly8.ConvolutionSum(P, Q, 1, 2)
    ensures Poly8.Product(P, Q)[2] == Poly8.ConvolutionSum(P, Q, 2, 3)
    ensures Poly8.Product(P, Q)[3] == Poly8.ConvolutionSum(P, Q, 3, 4)
  {
    Poly8.ProductIsConvolution(P, Q, 0);
    Poly8.ProductIsConvolution(P, Q, 1);
    Poly8.ProductIsConvolution(P, Q, 2);
    Poly8.ProductIsConvolution(P, Q, 3);
  }

  /** A product of a polynomial of degree at most 2 and one of degree at most 1 is 0 from term 4 up. */
  lemma ProductAboveThree(P: Poly8.Poly, Q: Poly8.Poly)
    requires |P| == |Q| == GF8Poly.Terms
    requires forall j :: 3 <= j < GF8Poly.Terms ==> P[j] == 0
    requires forall j :: 2 <= j < GF8Poly.Terms ==> Q[j] == 0
    ensures forall j :: 4 <= j < GF8Poly.Terms ==> Poly8.Product(P, Q)[j] == 0
  {
    RS8Decoder.ProductDegree(P, Q, 2, 1);
  }

  /** The derivative of a + bx + cx^2 + dx^3 is b + dx^2. */
  lemma DerivativeOfCubic(L: Poly8.Poly, a: GF8.Elem, b: GF8.Elem, c: GF8.Elem, d: GF8.Elem)
    requires Low4(L, a, b, c, d)
    ensures Low4(Poly8.Derivative(L), b, 0, d, 0)
  {
    var D := Poly8.Derivative(L);
    Poly8.DerivativeKeepsOdd(L, 0);
    Poly8.DerivativeKeepsOdd(L, 1);
    Poly8.DerivativeKeepsOdd(L, 2);
    Poly8.DerivativeKeepsOdd(L, 3);
    forall j | 4 <= j < GF8Poly.Terms
      ensures D[j] == 0
    {
      Poly8.DerivativeKeepsOdd(L, j);
    }
  }

  // ---------------------------------------------------------------------
  // Berlekamp-Massey on four-term polynomials
  // ---------------------------------------------------------------------

  /** C + q x B, for B with no term above degree 2. */
  lemma CorrectedByOne(C: Poly8.Poly, B: Poly8.Poly, q: GF8.Elem,
                       c0: GF8.Elem, c1: GF8.Elem, c2: GF8.Elem, c3: GF8.Elem,
                       b0: GF8.Elem, b1: GF8.Elem, b2: GF8.Elem)
    requires Low4(C, c0, c1, c2, c3) && Low4(B, b0, b1, b2, 0)
    ensures Low4(BerlekampMassey.Corrected(C, B, q, 1), c0,
      GF8.Add(c1, GF8.Mul(b0, q)), GF8.Add(c2, GF8.Mul(b1, q)), GF8.Add(c3, GF8.Mul(b2, q)))
  {
    var r := BerlekampMassey.Corrected(C, B, q, 1);
    GF8.AddZero(c0);
    GF8.AddZero(0);
    RS8ErasureCase.CorrectedAt(C, B, q, 1, 0);
    RS8ErasureCase.CorrectedAt(C, B, q, 1, 1);
    RS8ErasureCase.CorrectedAt(C, B, q, 1, 2);
    RS8ErasureCase.CorrectedAt(C, B, q, 1, 3);
    forall j | 4 <= j < GF8Poly.Terms
      ensures r[j] == 0
    {
      RS8ErasureCase.CorrectedAt(C, B, q, 1, j);
    }
  }

  /** C + q x^2 B, for B with no term above degree 1. */
  lemma CorrectedByTwo(C: Poly8.Poly, B: Poly8.Poly, q: GF8.Elem,
                       c0: GF8.Elem, c1: GF8.Elem, c2: GF8.Elem, c3: GF8.Elem,
                       b0: GF8.Elem, b1: GF8.Elem)
    requires Low4(C, c0, c1, c2, c3) && Low4(B, b0, b1, 0, 0)
    ensures Low4(BerlekampMassey.Corrected(C, B, q, 2), c0, c1,
      GF8.Add(c2, GF8.Mul(b0, q)), GF8.Add(c3, GF8.Mul(b1, q)))
  {
    var r := BerlekampMassey.Corrected(C, B, q, 2);
    GF8.AddZero(c0);
    GF8.AddZero(c1);
    GF8.AddZero(0);
    RS8ErasureCase.CorrectedAt(C, B, q, 2, 0);
    RS8ErasureCase.CorrectedAt(C, B, q, 2, 1);
    RS8ErasureCase.CorrectedAt(C, B, q, 2, 2);
    RS8ErasureCase.CorrectedAt(C, B, q, 2, 3);
    forall j | 4 <= j < GF8Poly.Terms
      ensures r[j] == 0
    {
      RS8ErasureCase.CorrectedAt(C, B, q, 2, j);
    }
  }

  /** The recursion before any syndrome: C = B = 1, L = 0, b = 1, m = 1. */
  lemma Start(S: Poly8.Poly)
    requires |S| == GF8Poly.Terms
    ensures var st := BerlekampMassey.Run(S, 0);
      Low4(st.c, 1, 0, 0, 0) && Low4(st.b, 1, 0, 0, 0) && st.len == 0 && st.disc == 1 && st.delay == 1
  {
  }

  /** Verdicts true at steps 1 and 2 only pack to positions 6 and 5. */
  lemma VerdictsLastTwo(h: seq<bool>)
    requires |h| == 8 && h[1] && h[2] && !h[3] && !h[4] && !h[5] && !h[6] && !h[7]
    ensures RS8Decode.Verdicts(h, 7) == LastTwo
  {
    assert RS8Decode.Verdicts(h, 1) == 1;
    assert RS8Decode.Verdicts(h, 2) == 3;
    assert RS8Decode.Verdicts(h, 3) == 6;
    assert RS8Decode.Verdicts(h, 4) == 12;
    assert RS8Decode.Verdicts(h, 5) == 24;
    assert RS8Decode.Verdicts(h, 6) == 48;
  }

  /** Verdicts true at step 3 only pack to position 4. */
  lemma VerdictsFourth(h: seq<bool>)
    requires |h| == 8 && !h[1] && !h[2] && h[3] && !h[4] && !h[5] && !h[6] && !h[7]
    ensures RS8Decode.Verdicts(h, 7) == 0x10
  {
    assert RS8Decode.Verdicts(h, 1) == 0;
    assert RS8Decode.Verdicts(h, 2) == 0;
    assert RS8Decode.Verdicts(h, 3) == 1;
    assert RS8Decode.Verdicts(h, 4) == 2;
    assert RS8Decode.Verdicts(h, 5) == 4;
    assert RS8Decode.Verdicts(h, 6) == 8;
  }

  /** Forney's equation e * v == w has the one solution w / v. */
  lemma SolveForney(e: GF8.Elem, v: GF8.Elem, w: GF8.Elem, s: GF8.Elem)
    requires v != 0 && GF8.Mul(s, v) == w
    ensures GF8.Mul(e, v) == w <==> e == s
  {
    GF8.MulDivRoundTrip(e, v);
    GF8.MulDivRoundTrip(s, v);
  }

  // ---------------------------------------------------------------------
  // 030013 with nothing erased: two errors
  // ---------------------------------------------------------------------

  /** The field arithmetic of the four syndromes of 030013. */
  lemma TwoErrorsSyndromeArithmetic()
    ensures GF8.Add(GF8.Mul(GF8.Add(GF8.Mul(GF8.Add(GF8.Mul(GF8.Add(GF8.Mul(3, 2), 0), 2), 0), 2), 1), 2), 3) == 0
    ensures GF8.Add(GF8.Mul(GF8.Add(GF8.Mul(GF8.Add(GF8.Mul(GF8.Add(GF8.Mul(3, 4), 0), 4), 0), 4), 1), 4), 3) == 1
    ensures GF8.Add(GF8.Mul(GF8.Add(GF8.Mul(GF8.Add(GF8.Mul(GF8.Add(GF8.Mul(3, 3), 0), 3), 0), 3), 1), 3), 3) == 2
    ensures GF8.Add(GF8.Mul(GF8.Add(GF8.Mul(GF8.Add(GF8.Mul(GF8.Add(GF8.Mul(3, 6), 0), 6), 0), 6), 1), 6), 3) == 2
  {
  }

  /** The four syndromes of a word are its values at 2, 4, 3 and 6; the rest are 0. */
  lemma FourSyndromes(r: Poly8.Poly, a: GF8.Elem, b: GF8.Elem, c: GF8.Elem, d: GF8.Elem)
    requires Poly8.Eval(r, 2) == a && Poly8.Eval(r, 4) == b && Poly8.Eval(r, 3) == c && Poly8.Eval(r, 6) == d
    ensures Low4(RS8.Syndromes(r, 4), a, b, c, d)
  {
    RootValues();
  }

  /** The four syndromes of 030013 are 0, 1, 2, 2. */
  lemma TwoErrorsSyndromes()
    ensures Low4(RS8.Syndromes(GF8Poly.Coeffs(TwoErrors), 4), 0, 1, 2, 2)
  {
    var r := GF8Poly.Coeffs(TwoErrors);
    assert r == [3, 1, 0, 0, 3, 0, 0, 0, 0, 0] by { WordCoeffs(); }
    TwoErrorsValues(r);
    FourSyndromes(r, 0, 1, 2, 2);
  }

  /** 3 + x + 3x^4 at 2, 4, 3 and 6. */
  lemma TwoErrorsValues(r: Poly8.Poly)
    requires r == [3, 1, 0, 0, 3, 0, 0, 0, 0, 0]
    ensures Poly8.Eval(r, 2) == 0 && Poly8.Eval(r, 4) == 1 && Poly8.Eval(r, 3) == 2 && Poly8.Eval(r, 6) == 2
  {
    TwoErrorsAt(r, 2, 0);
    TwoErrorsAt(r, 4, 1);
    TwoErrorsAt(r, 3, 2);
    TwoErrorsAt(r, 6, 2);
  }

  /** 3 + x + 3x^4 at one point x. */
  lemma TwoErrorsAt(r: Poly8.Poly, x: GF8.Elem, y: GF8.Elem)
    requires r == [3, 1, 0, 0, 3, 0, 0, 0, 0, 0]
    requires (x == 2 && y == 0) || (x == 4 && y == 1) || (x == 3 && y == 2) || (x == 6 && y == 2)
    ensures Poly8.Eval(r, x) == y
  {
    RS8ErasureCase.EvalQuartic(r, x);
    if x == 2 {
      TwoErrorsSyndromeArithmetic();
    } else if x == 4 {
      TwoErrorsSyndromeArithmetic();
    } else if x == 3 {
      TwoErrorsSyndromeArithmetic();
    } else {
      TwoErrorsSyndromeArithmetic();
    }
  }

  /** Step 0 over 0, 1, 2, 2: discrepancy 0, so only m grows. */
  lemma TwoErrorsStep0(S: Poly8.Poly)
    requires Low4(S, 0, 1, 2, 2)
    ensures var st := BerlekampMassey.Run(S, 1);
      Low4(st.c, 1, 0, 0, 0) && Low4(st.b, 1, 0, 0, 0) && st.len == 0 && st.disc == 1 && st.delay == 2
  {
    Start(S);
    LowConvolutions(S, BerlekampMassey.Run(S, 0).c);
  }

  /** The field arithmetic of steps 1 .. 3 over 0, 1, 2, 2. */
  lemma TwoErrorsArithmetic()
    ensures GF8.Add(GF8.Mul(1, 1), GF8.Mul(0, 0)) == 1 && BerlekampMassey.Ratio(1, 1) == 1
    ensures GF8.Add(0, GF8.Mul(1, 1)) == 1 && GF8.Add(0, GF8.Mul(0, 1)) == 0
    ensures GF8.Add(GF8.Add(GF8.Mul(2, 1), GF8.Mul(1, 0)), GF8.Mul(0, 1)) == 2 && BerlekampMassey.Ratio(2, 1) == 2
    ensures GF8.Add(0, GF8.Mul(1, 2)) == 2 && GF8.Add(1, GF8.Mul(0, 2)) == 1 && GF8.Add(0, GF8.Mul(0, 2)) == 0
    ensures GF8.Add(GF8.Add(GF8.Add(GF8.Mul(2, 1), GF8.Mul(2, 2)), GF8.Mul(1, 1)), GF8.Mul(0, 0)) == 7
    ensures BerlekampMassey.Ratio(7, 1) == 7 && GF8.Add(1, GF8.Mul(1, 7)) == 6 && GF8.Add(0, GF8.Mul(0, 7)) == 0
  {
  }

  /** Step 1: discrepancy 1, C = 1 + x^2, L = 2. */
  lemma TwoErrorsStep1(S: Poly8.Poly, st: BerlekampMassey.State)
    requires Low4(S, 0, 1, 2, 2)
    requires Low4(st.c, 1, 0, 0, 0) && Low4(st.b, 1, 0, 0, 0) && st.len == 0 && st.disc == 1 && st.delay == 2
    ensures var r := BerlekampMassey.Step(S, st, 1);
      Low4(r.c, 1, 0, 1, 0) && Low4(r.b, 1, 0, 0, 0) && r.len == 2 && r.disc == 1 && r.delay == 1
  {
    LowConvolutions(S, st.c);
    TwoErrorsArithmetic();
    CorrectedByTwo(st.c, st.b, 1, 1, 0, 0, 0, 1, 0);
    RS8ErasureCase.StepCorrects(S, st, 1, 1, 1, BerlekampMassey.Corrected(st.c, st.b, 1, 2));
  }

  /** Step 2: discrepancy 2, C = 1 + 2x + x^2, L stays 2. */
  lemma TwoErrorsStep2(S: Poly8.Poly, st: BerlekampMassey.State)
    requires Low4(S, 0, 1, 2, 2)
    requires Low4(st.c, 1, 0, 1, 0) && Low4(st.b, 1, 0, 0, 0) && st.len == 2 && st.disc == 1 && st.delay == 1
    ensures var r := BerlekampMassey.Step(S, st, 2);
      Low4(r.c, 1, 2, 1, 0) && Low4(r.b, 1, 0, 0, 0) && r.len == 2 && r.disc == 1 && r.delay == 2
  {
    LowConvolutions(S, st.c);
    TwoErrorsArithmetic();
    CorrectedByOne(st.c, st.b, 2, 1, 0, 1, 0, 1, 0, 0);
    RS8ErasureCase.StepCorrects(S, st, 2, 2, 2, BerlekampMassey.Corrected(st.c, st.b, 2, 1));
  }

  /** Step 3: discrepancy 7, C = 1 + 2x + 6x^2, L stays 2. */
  lemma TwoErrorsStep3(S: Poly8.Poly, st: BerlekampMassey.State)
    requires Low4(S, 0, 1, 2, 2)
    requires Low4(st.c, 1, 2, 1, 0) && Low4(st.b, 1, 0, 0, 0) && st.len == 2 && st.disc == 1 && st.delay == 2
    ensures Low4(BerlekampMassey.Step(S, st, 3).c, 1, 2, 6, 0)
  {
    LowConvolutions(S, st.c);
    TwoErrorsArithmetic();
    CorrectedByTwo(st.c, st.b, 7, 1, 2, 1, 0, 1, 0);
    RS8ErasureCase.StepCorrects(S, st, 3, 7, 7, BerlekampMassey.Corrected(st.c, st.b, 7, 2));
  }

  /** Berlekamp-Massey over 0, 1, 2, 2 ends with 1 + 2x + 6x^2. */
  lemma TwoErrorsLocator(S: Poly8.Poly)
    requires Low4(S, 0, 1, 2, 2)
    ensures Low4(BerlekampMassey.Run(S, 4).c, 1, 2, 6, 0)
  {
    TwoErrorsStep0(S);
    TwoErrorsStep1(S, BerlekampMassey.Run(S, 1));
    TwoErrorsStep2(S, BerlekampMassey.Run(S, 2));
    TwoErrorsStep3(S, BerlekampMassey.Run(S, 3));
  }

  /** The field arithmetic of 1 + 2x + 6x^2 at 2^1 .. 2^7. */
  lemma TwoErrorsRootArithmetic()
    ensures GF8.Add(GF8.Mul(GF8.Add(GF8.Mul(6, 2), 2), 2), 1) == 0
    ensures GF8.Add(GF8.Mul(GF8.Add(GF8.Mul(6, 4), 2), 4), 1) == 0
    ensures GF8.Add(GF8.Mul(GF8.Add(GF8.Mul(6, 3), 2), 3), 1) == 4
    ensures GF8.Add(GF8.Mul(GF8.Add(GF8.Mul(6, 6), 2), 6), 1) == 1
    ensures GF8.Add(GF8.Mul(GF8.Add(GF8.Mul(6, 7), 2), 7), 1) == 5
    ensures GF8.Add(GF8.Mul(GF8.Add(GF8.Mul(6, 5), 2), 5), 1) == 4
    ensures GF8.Add(GF8.Mul(GF8.Add(GF8.Mul(6, 1), 2), 1), 1) == 5
  {
  }

  /** 1 + 2x + 6x^2 vanishes at 2^1 and 2^2 and nowhere else among 2^1 .. 2^7. */
  lemma TwoErrorsRoots(C: Poly8.Poly)
    requires Low4(C, 1, 2, 6, 0)
    ensures forall s :: 1 <= s < 8 ==> (Poly8.Eval(C, GF8.Exp[s]) == 0 <==> s <= 2)
  {
    RootValues();
    TwoErrorsRootArithmetic();
    forall s | 1 <= s < 8
      ensures Poly8.Eval(C, GF8.Exp[s]) == 0 <==> s <= 2
    {
      EvalCubic(C, 1, 2, 6, 0, GF8.Exp[s]);
      GF8.AddZero(6);
    }
  }

  /** The root search over every position finds positions 5 and 6. */
  lemma TwoErrorsFound(C: Poly8.Poly)
    requires Low4(C, 1, 2, 6, 0)
    ensures RS8Decoder.ErrorsFound(C, AllSent) == LastTwo
  {
    TwoErrorsRoots(C);
    var h := RS8Decoder.RootHits(C, AllSent);
    assert RS8.Marked(AllSent, 6) && RS8.Marked(AllSent, 5);
    VerdictsLastTwo(h);
  }

  /** The field arithmetic of the evaluator S C mod x^4. */
  lemma TwoErrorsEvaluatorArithmetic()
    ensures GF8.Mul(0, 1) == 0 && GF8.Add(GF8.Mul(1, 1), GF8.Mul(0, 2)) == 1
    ensures GF8.Add(GF8.Add(GF8.Mul(2, 1), GF8.Mul(1, 2)), GF8.Mul(0, 6)) == 0
    ensures GF8.Add(GF8.Add(GF8.Add(GF8.Mul(2, 1), GF8.Mul(2, 2)), GF8.Mul(1, 6)), GF8.Mul(0, 0)) == 0
  {
  }

  /** The errata evaluator (0 + x + 2x^2 + 2x^3)(1 + 2x + 6x^2) mod x^4 is x. */
  lemma TwoErrorsEvaluator(S: Poly8.Poly, C: Poly8.Poly)
    requires Low4(S, 0, 1, 2, 2) && Low4(C, 1, 2, 6, 0)
    ensures Low4(RS8Decode.Truncate(Poly8.Product(S, C), 4), 0, 1, 0, 0)
  {
    LowProduct(S, C);
    LowConvolutions(S, C);
    TwoErrorsEvaluatorArithmetic();
  }

  /** The errata locator 1 (1 + 2x + 6x^2) is the error locator. */
  lemma TwoErrorsErrataLocator(E: Poly8.Poly, C: Poly8.Poly)
    requires E == RS8.One() && Low4(C, 1, 2, 6, 0)
    ensures Low4(Poly8.Product(E, C), 1, 2, 6, 0)
  {
    LowProduct(E, C);
    LowConvolutions(E, C);
    GF8.MulOne(2);
    GF8.MulOne(6);
    RS8Decoder.ProductDegree(E, C, 0, 2);
  }

  /** Nothing erased: the count is 0 and the erasure locator is 1. */
  lemma NothingErased()
    ensures RS8Decoder.Popcount(0) == 0 && RS8.Locator(0, RS8.BlockSyms) == RS8.One()
  {
    RS8Decoder.ErasureFacts(0, 0);
    RS8Decoder.LocatorOfNone(RS8.BlockSyms);
  }

  /** The plan for 030013: repair positions 5 and 6 with the evaluator x and the locator 1 + 2x + 6x^2. */
  lemma TwoErrorsPlan() returns (Omega: Poly8.Poly, Lambda: Poly8.Poly)
    ensures Low4(Omega, 0, 1, 0, 0) && Low4(Lambda, 1, 2, 6, 0)
    ensures RS8Decoder.DecodePlan(RS8.Syndromes(GF8Poly.Coeffs(TwoErrors), 4), 4, 0, AllSent)
      == RS8Decoder.Repair(LastTwo, Omega, Lambda)
  {
    var S := RS8.Syndromes(GF8Poly.Coeffs(TwoErrors), 4);
    TwoErrorsSyndromes();
    NothingErased();
    var E := RS8.Locator(0, RS8.BlockSyms);
    TwoErrorsLocator(S);
    var C := BerlekampMassey.Run(S, 4).c;
    Poly8.OrderOf(C, 2);
    TwoErrorsFound(C);
    assert AllSent & !0 == AllSent;
    RS8Decoder.PlanSteps(S, E, 4, 0, 0, AllSent, C, 2, LastTwo);
    assert RS8Decoder.Popcount(LastTwo) == 2;
    Omega := RS8Decode.Truncate(Poly8.Product(S, C), 4);
    Lambda := Poly8.Product(E, C);
    TwoErrorsEvaluator(S, C);
    TwoErrorsErrataLocator(E, C);
  }

  /** Positions 5 and 6 are the only ones marked. */
  lemma LastTwoOnly(p: nat)
    requires p < 8
    ensures RS8.Marked(LastTwo, p) <==> p == 5 || p == 6
  {
    if p == 0 {
    } else if p == 1 {
    } else if p == 2 {
    } else if p == 3 {
    } else if p == 4 {
    } else if p == 5 {
    } else if p == 6 {
    }
  }

  /** Term p of a correction for the evaluator x and the derivative 2 is term p of TwoErrorsRepair. */
  lemma TwoErrorsCorrectionAt(Omega: Poly8.Poly, D: Poly8.Poly, p: nat, e: GF8.Elem)
    requires Low4(Omega, 0, 1, 0, 0) && Low4(D, 2, 0, 0, 0) && p < GF8Poly.Terms
    ensures RS8Magnitude.IsCorrection(Omega, D, LastTwo, p, e) <==> e == GF8Poly.Coeffs(TwoErrorsRepair)[p]
  {
    RepairCoeffs();
    if p == 5 || p == 6 {
      TwoErrorsForney(Omega, D, p, e);
    } else if p < RS8.BlockSyms {
      LastTwoOnly(p);
    }
  }

  /** At positions 5 and 6 (roots 4 and 2) the correction solves e * 2 == x: 2 and 1. */
  lemma TwoErrorsForney(Omega: Poly8.Poly, D: Poly8.Poly, p: nat, e: GF8.Elem)
    requires Low4(Omega, 0, 1, 0, 0) && Low4(D, 2, 0, 0, 0) && (p == 5 || p == 6)
    ensures RS8Magnitude.IsCorrection(Omega, D, LastTwo, p, e) <==> e == if p == 5 then 2 else 1
  {
    LastTwoOnly(p);
    var x := GF8.Exp[7 - p];
    EvalCubic(D, 2, 0, 0, 0, x);
    EvalCubic(Omega, 0, 1, 0, 0, x);
    GF8.AddZero(2);
    GF8.AddZero(GF8.Mul(1, x));
    GF8.MulOne(x);
    if p == 5 {
      assert x == 4;
      SolveForney(e, 2, 4, 2);
    } else {
      assert x == 2;
      SolveForney(e, 2, 2, 1);
    }
  }

  /**
    * For the evaluator x and the derivative 2, the only word that
    * rs8_get_errata_magnitude may return for positions 5 and 6 is
    * TwoErrorsRepair.
    */
  lemma TwoErrorsMagnitudeIff(Omega: Poly8.Poly, D: Poly8.Poly, mag: bv32)
    requires Low4(Omega, 0, 1, 0, 0) && Low4(D, 2, 0, 0, 0)
    ensures RS8Magnitude.ErrataMagnitudes(Omega, D, LastTwo, mag) <==> mag == TwoErrorsRepair
  {
    forall x: GF8.Elem
      ensures Poly8.Eval(D, x) == 2
    {
      EvalCubic(D, 2, 0, 0, 0, x);
      GF8.AddZero(2);
    }
    assert RS8Magnitude.Divisible(D, LastTwo);
    forall p | 0 <= p < GF8Poly.Terms
      ensures RS8Magnitude.IsCorrection(Omega, D, LastTwo, p, GF8Poly.Coeffs(mag)[p])
          <==> GF8Poly.Coeffs(mag)[p] == GF8Poly.Coeffs(TwoErrorsRepair)[p]
    {
      TwoErrorsCorrectionAt(Omega, D, p, GF8Poly.Coeffs(mag)[p]);
    }
    RepairCoeffs();
    if RS8Magnitude.ErrataMagnitudes(Omega, D, LastTwo, mag) {
      GF8Poly.FitsBoundAt7(mag);
      assert GF8Poly.Coeffs(mag) == GF8Poly.Coeffs(TwoErrorsRepair);
      GF8Poly.CoeffsDetermine(mag, TwoErrorsRepair);
    }
  }

  /** Repairing positions 5 and 6 of 030013 with the evaluator x and the locator 1 + 2x + 6x^2 gives 01230013, and only that. */
  lemma TwoErrorsRepairedIff(Omega: Poly8.Poly, Lambda: Poly8.Poly, d: RS8Decode.Decoded)
    requires Low4(Omega, 0, 1, 0, 0) && Low4(Lambda, 1, 2, 6, 0)
    ensures RS8Decoder.Repaired(TwoErrors, Omega, Lambda, LastTwo, d) <==> d == RS8Decode.Corrected(Codeword)
  {
    DerivativeOfCubic(Lambda, 1, 2, 6, 0);
    if d.Corrected? {
      TwoErrorsMagnitudeIff(Omega, Poly8.Derivative(Lambda), GF8Poly.Add(TwoErrors, d.word));
      assert GF8Poly.Add(TwoErrors, d.word) == TwoErrorsRepair <==> d.word == Codeword;
    }
  }

  /** Within the Singleton bound and with a non-zero syndrome, the outcome is what the plan says. */
  lemma OutcomeFollowsPlan(recv: bv32, k: nat, ePos: bv8, txPos: bv8, d: RS8Decode.Decoded, pl: RS8Decoder.Plan)
    requires k <= RS8.MaxChecks && RS8Decoder.Popcount(ePos) <= k
    requires RS8.Syndromes(GF8Poly.Coeffs(recv), k) != Poly8.Zero(GF8Poly.Terms)
    requires pl == RS8Decoder.DecodePlan(RS8.Syndromes(GF8Poly.Coeffs(recv), k), k, ePos, txPos)
    ensures RS8Decoder.DecodeOutcome(recv, k, ePos, txPos, d) <==> RS8Decoder.Follows(recv, pl, d)
  {
  }

  /** A polynomial whose coefficient 1 is 1 is not zero. */
  lemma NotZero(S: Poly8.Poly)
    requires |S| == GF8Poly.Terms && S[1] != 0
    ensures S != Poly8.Zero(GF8Poly.Terms)
  {
    assert S[1] != Poly8.Zero(GF8Poly.Terms)[1];
  }

  /**
    * rs8_decode(030013, 21, 4, 0, 0x7F) as written: the only outcome is
    * 01230013, as test_math.c records.
    */
  lemma TwoErrorsRepaired(d: RS8Decode.Decoded)
    ensures RS8Decoder.DecodeOutcome(TwoErrors, 4, 0, AllSent, d) <==> d == RS8Decode.Corrected(Codeword)
  {
    NothingErased();
    TwoErrorsSyndromes();
    NotZero(RS8.Syndromes(GF8Poly.Coeffs(TwoErrors), 4));
    var Omega, Lambda := TwoErrorsPlan();
    OutcomeFollowsPlan(TwoErrors, 4, 0, AllSent, d, RS8Decoder.Repair(LastTwo, Omega, Lambda));
    TwoErrorsRepairedIff(Omega, Lambda, d);
  }

  // ---------------------------------------------------------------------
  // 00013 with positions 5 and 6 erased: two erasures and one error
  // ---------------------------------------------------------------------

  /** The field arithmetic of 3 + x at 2, 4, 3 and 6. */
  lemma ThreeWrongSyndromeArithmetic()
    ensures GF8.Add(GF8.Mul(1, 2), 3) == 1 && GF8.Add(GF8.Mul(1, 4), 3) == 7
    ensures GF8.Add(GF8.Mul(1, 3), 3) == 0 && GF8.Add(GF8.Mul(1, 6), 3) == 5
  {
  }

  /** The four syndromes of 00013 are 1, 7, 0, 5. */
  lemma ThreeWrongSyndromes()
    ensures Low4(RS8.Syndromes(GF8Poly.Coeffs(ThreeWrong), 4), 1, 7, 0, 5)
  {
    var r := GF8Poly.Coeffs(ThreeWrong);
    assert r == [3, 1, 0, 0, 0, 0, 0, 0, 0, 0] by { WordCoeffs(); }
    RS8ErasureCase.EvalLinear(r, 3, 1, 2);
    RS8ErasureCase.EvalLinear(r, 3, 1, 4);
    RS8ErasureCase.EvalLinear(r, 3, 1, 3);
    RS8ErasureCase.EvalLinear(r, 3, 1, 6);
    ThreeWrongSyndromeArithmetic();
    FourSyndromes(r, 1, 7, 0, 5);
  }

  /** (a + bx + cx^2) (1 + ex) = a + (b + ae) x + (c + be) x^2 + ce x^3. */
  lemma BinomialCubic(L: Poly8.Poly, e: GF8.Elem, a: GF8.Elem, b: GF8.Elem, c: GF8.Elem)
    requires Low4(L, a, b, c, 0)
    ensures Low4(RS8.TimesBinomial(L, e), a, GF8.Add(b, GF8.Mul(a, e)), GF8.Add(c, GF8.Mul(b, e)), GF8.Mul(c, e))
  {
    GF8.AddZero(a);
    GF8.AddZero(GF8.Mul(c, e));
    GF8.AddZero(0);
  }

  /** One marked position multiplies the locator by 1 + 2^(n - 1) x. */
  lemma MarkedStep(pos: bv8, n: nat, a: GF8.Elem, b: GF8.Elem, c: GF8.Elem)
    requires 0 < n <= RS8.BlockSyms && RS8.Marked(pos, n - 1)
    requires Low4(RS8.Locator(pos, n - 1), a, b, c, 0)
    ensures Low4(RS8.Locator(pos, n), a, GF8.Add(b, GF8.Mul(a, GF8.Exp[n - 1])),
      GF8.Add(c, GF8.Mul(b, GF8.Exp[n - 1])), GF8.Mul(c, GF8.Exp[n - 1]))
  {
    BinomialCubic(RS8.Locator(pos, n - 1), GF8.Exp[n - 1], a, b, c);
  }

  /** No position below 4 is marked in pos, so the locator of those is 1. */
  lemma NothingBelowFour(pos: bv8)
    requires pos == LastTwo || pos == LastThree
    ensures Low4(RS8.Locator(pos, 4), 1, 0, 0, 0)
  {
    assert !RS8.Marked(pos, 0) && !RS8.Marked(pos, 1) && !RS8.Marked(pos, 2) && !RS8.Marked(pos, 3);
    assert RS8.Locator(pos, 2) == RS8.One();
    assert RS8.Locator(pos, 4) == RS8.One();
  }

  /** The field arithmetic of the factors 1 + 7x and 1 + 5x. */
  lemma LastTwoFactors()
    ensures GF8.Add(0, GF8.Mul(1, 7)) == 7 && GF8.Add(0, GF8.Mul(0, 7)) == 0 && GF8.Mul(0, 7) == 0
    ensures GF8.Add(7, GF8.Mul(1, 5)) == 2 && GF8.Add(0, GF8.Mul(7, 5)) == 6 && GF8.Mul(0, 5) == 0
  {
  }

  /** The erasure locator of positions 5 and 6: (1 + 2^5 x)(1 + 2^6 x) = 1 + 2x + 6x^2. */
  lemma LastTwoLocator(pos: bv8)
    requires pos == LastTwo
    ensures Low4(RS8.Locator(pos, RS8.BlockSyms), 1, 2, 6, 0)
  {
    NothingBelowFour(pos);
    assert !RS8.Marked(pos, 4) && RS8.Marked(pos, 5) && RS8.Marked(pos, 6);
    assert RS8.Locator(pos, 5) == RS8.Locator(pos, 4);
    RootValues();
    LastTwoFactors();
    MarkedStep(pos, 6, 1, 0, 0);
    MarkedStep(pos, 7, 1, 7, 0);
  }

  /** The field arithmetic of the Forney syndromes (1 + 7x + 5x^3)(1 + 2x + 6x^2) mod x^4. */
  lemma ErasuresAndErrorForneyArithmetic()
    ensures GF8.Mul(1, 1) == 1 && GF8.Add(GF8.Mul(7, 1), GF8.Mul(1, 2)) == 5
    ensures GF8.Add(GF8.Add(GF8.Mul(0, 1), GF8.Mul(7, 2)), GF8.Mul(1, 6)) == 3
    ensures GF8.Add(GF8.Add(GF8.Add(GF8.Mul(5, 1), GF8.Mul(0, 2)), GF8.Mul(7, 6)), GF8.Mul(1, 0)) == 1
  {
  }

  /** The Forney syndromes of 00013 with positions 5 and 6 erased: 1, 5, 3, 1. */
  lemma ErasuresAndErrorForney(S: Poly8.Poly, E: Poly8.Poly)
    requires Low4(S, 1, 7, 0, 5) && Low4(E, 1, 2, 6, 0) && E == RS8.Locator(LastTwo, RS8.BlockSyms)
    ensures Low4(RS8Decoder.ForneySyndromes(S, 4, LastTwo), 1, 5, 3, 1)
  {
    LowProduct(S, E);
    LowConvolutions(S, E);
    ErasuresAndErrorForneyArithmetic();
  }

  /** The field arithmetic of steps 0 and 1 over 1, 5, 3, 1. */
  lemma ErasuresAndErrorArithmetic01()
    ensures GF8.Mul(1, 1) == 1 && BerlekampMassey.Ratio(1, 1) == 1
    ensures GF8.Add(0, GF8.Mul(1, 1)) == 1 && GF8.Add(0, GF8.Mul(0, 1)) == 0
    ensures GF8.Add(GF8.Mul(5, 1), GF8.Mul(1, 1)) == 4 && BerlekampMassey.Ratio(4, 1) == 4
    ensures GF8.Add(1, GF8.Mul(1, 4)) == 5 && GF8.Add(0, GF8.Mul(0, 4)) == 0
  {
  }

  /** The field arithmetic of steps 2 and 3 over 1, 5, 3, 1. */
  lemma ErasuresAndErrorArithmetic23()
    ensures GF8.Add(GF8.Add(GF8.Mul(3, 1), GF8.Mul(5, 5)), GF8.Mul(1, 0)) == 4 && BerlekampMassey.Ratio(4, 1) == 4
    ensures GF8.Add(0, GF8.Mul(1, 4)) == 4 && GF8.Add(0, GF8.Mul(0, 4)) == 0
    ensures GF8.Add(GF8.Add(GF8.Add(GF8.Mul(1, 1), GF8.Mul(3, 5)), GF8.Mul(5, 4)), GF8.Mul(1, 0)) == 7
    ensures BerlekampMassey.Ratio(7, 4) == 3
    ensures GF8.Add(5, GF8.Mul(1, 3)) == 6 && GF8.Add(4, GF8.Mul(5, 3)) == 0 && GF8.Add(0, GF8.Mul(0, 3)) == 0
  {
  }

  /** Step 0 over 1, 5, 3, 1: discrepancy 1, C = 1 + x, L = 1. */
  lemma ErasuresAndErrorStep0(T: Poly8.Poly)
    requires Low4(T, 1, 5, 3, 1)
    ensures var st := BerlekampMassey.Run(T, 1);
      Low4(st.c, 1, 1, 0, 0) && Low4(st.b, 1, 0, 0, 0) && st.len == 1 && st.disc == 1 && st.delay == 1
  {
    Start(T);
    ErasuresAndErrorArithmetic01();
    var st := BerlekampMassey.Run(T, 0);
    LowConvolutions(T, st.c);
    CorrectedByOne(st.c, st.b, 1, 1, 0, 0, 0, 1, 0, 0);
    RS8ErasureCase.StepCorrects(T, st, 0, 1, 1, BerlekampMassey.Corrected(st.c, st.b, 1, 1));
  }

  /** Step 1: discrepancy 4, C = 1 + 5x, L stays 1. */
  lemma ErasuresAndErrorStep1(T: Poly8.Poly, st: BerlekampMassey.State)
    requires Low4(T, 1, 5, 3, 1)
    requires Low4(st.c, 1, 1, 0, 0) && Low4(st.b, 1, 0, 0, 0) && st.len == 1 && st.disc == 1 && st.delay == 1
    ensures var r := BerlekampMassey.Step(T, st, 1);
      Low4(r.c, 1, 5, 0, 0) && Low4(r.b, 1, 0, 0, 0) && r.len == 1 && r.disc == 1 && r.delay == 2
  {
    ErasuresAndErrorArithmetic01();
    LowConvolutions(T, st.c);
    CorrectedByOne(st.c, st.b, 4, 1, 1, 0, 0, 1, 0, 0);
    RS8ErasureCase.StepCorrects(T, st, 1, 4, 4, BerlekampMassey.Corrected(st.c, st.b, 4, 1));
  }

  /** Step 2: discrepancy 4, C = 1 + 5x + 4x^2, L = 2, B = 1 + 5x. */
  lemma ErasuresAndErrorStep2(T: Poly8.Poly, st: BerlekampMassey.State)
    requires Low4(T, 1, 5, 3, 1)
    requires Low4(st.c, 1, 5, 0, 0) && Low4(st.b, 1, 0, 0, 0) && st.len == 1 && st.disc == 1 && st.delay == 2
    ensures var r := BerlekampMassey.Step(T, st, 2);
      Low4(r.c, 1, 5, 4, 0) && Low4(r.b, 1, 5, 0, 0) && r.len == 2 && r.disc == 4 && r.delay == 1
  {
    LowConvolutions(T, st.c);
    ErasuresAndErrorArithmetic23();
    CorrectedByTwo(st.c, st.b, 4, 1, 5, 0, 0, 1, 0);
    RS8ErasureCase.StepCorrects(T, st, 2, 4, 4, BerlekampMassey.Corrected(st.c, st.b, 4, 2));
  }

  /** Step 3: discrepancy 7, C = 1 + 6x, L stays 2. */
  lemma ErasuresAndErrorStep3(T: Poly8.Poly, st: BerlekampMassey.State)
    requires Low4(T, 1, 5, 3, 1)
    requires Low4(st.c, 1, 5, 4, 0) && Low4(st.b, 1, 5, 0, 0) && st.len == 2 && st.disc == 4 && st.delay == 1
    ensures Low4(BerlekampMassey.Step(T, st, 3).c, 1, 6, 0, 0)
  {
    LowConvolutions(T, st.c);
    ErasuresAndErrorArithmetic23();
    CorrectedByOne(st.c, st.b, 3, 1, 5, 4, 0, 1, 5, 0);
    RS8ErasureCase.StepCorrects(T, st, 3, 7, 3, BerlekampMassey.Corrected(st.c, st.b, 3, 1));
  }

  /** Berlekamp-Massey over all four Forney syndromes 1, 5, 3, 1 ends with 1 + 6x. */
  lemma ErasuresAndErrorLocator(T: Poly8.Poly)
    requires Low4(T, 1, 5, 3, 1)
    ensures Low4(BerlekampMassey.Run(T, 4).c, 1, 6, 0, 0)
  {
    ErasuresAndErrorStep0(T);
    ErasuresAndErrorStep1(T, BerlekampMassey.Run(T, 1));
    ErasuresAndErrorStep2(T, BerlekampMassey.Run(T, 2));
    ErasuresAndErrorStep3(T, BerlekampMassey.Run(T, 3));
  }

  /** The field arithmetic of 1 + 6x at 2^1 .. 2^7. */
  lemma FourthRootArithmetic()
    ensures GF8.Add(GF8.Mul(6, 2), 1) == 6 && GF8.Add(GF8.Mul(6, 4), 1) == 4
    ensures GF8.Add(GF8.Mul(6, 3), 1) == 0 && GF8.Add(GF8.Mul(6, 6), 1) == 3
    ensures GF8.Add(GF8.Mul(6, 7), 1) == 5 && GF8.Add(GF8.Mul(6, 5), 1) == 2
    ensures GF8.Add(GF8.Mul(6, 1), 1) == 7
  {
  }

  /** 1 + 6x vanishes at 2^3 and nowhere else among 2^1 .. 2^7. */
  lemma FourthRoots(C: Poly8.Poly)
    requires Low4(C, 1, 6, 0, 0)
    ensures forall s :: 1 <= s < 8 ==> (Poly8.Eval(C, GF8.Exp[s]) == 0 <==> s == 3)
  {
    RootValues();
    FourthRootArithmetic();
    forall s | 1 <= s < 8
      ensures Poly8.Eval(C, GF8.Exp[s]) == 0 <==> s == 3
    {
      RS8ErasureCase.EvalLinear(C, 1, 6, GF8.Exp[s]);
    }
  }

  /** The root search over the positions not erased, 0 .. 4, finds position 4. */
  lemma FourthFound(C: Poly8.Poly)
    requires Low4(C, 1, 6, 0, 0)
    ensures RS8Decoder.ErrorsFound(C, AllSent & !LastTwo) == 0x10
  {
    FourthRoots(C);
    var h := RS8Decoder.RootHits(C, AllSent & !LastTwo);
    assert AllSent & !LastTwo == 0x1F;
    assert !RS8.Marked(0x1F, 6) && !RS8.Marked(0x1F, 5) && RS8.Marked(0x1F, 4);
    VerdictsFourth(h);
  }

  /** The field arithmetic of the evaluator T C mod x^4. */
  lemma ErasuresAndErrorEvaluatorArithmetic()
    ensures GF8.Mul(1, 1) == 1 && GF8.Add(GF8.Mul(5, 1), GF8.Mul(1, 6)) == 3
    ensures GF8.Add(GF8.Add(GF8.Mul(3, 1), GF8.Mul(5, 6)), GF8.Mul(1, 0)) == 0
    ensures GF8.Add(GF8.Add(GF8.Add(GF8.Mul(1, 1), GF8.Mul(3, 6)), GF8.Mul(5, 0)), GF8.Mul(1, 0)) == 0
  {
  }

  /** The field arithmetic of the errata locator E C. */
  lemma ErasuresAndErrorLocatorArithmetic()
    ensures GF8.Mul(1, 1) == 1 && GF8.Add(GF8.Mul(2, 1), GF8.Mul(1, 6)) == 4
    ensures GF8.Add(GF8.Add(GF8.Mul(6, 1), GF8.Mul(2, 6)), GF8.Mul(1, 0)) == 1
    ensures GF8.Add(GF8.Add(GF8.Add(GF8.Mul(0, 1), GF8.Mul(6, 6)), GF8.Mul(2, 0)), GF8.Mul(1, 0)) == 2
  {
  }

  /** The evaluator (1 + 5x + 3x^2 + x^3)(1 + 6x) mod x^4 is 1 + 3x. */
  lemma ErasuresAndErrorEvaluator(T: Poly8.Poly, C: Poly8.Poly)
    requires Low4(T, 1, 5, 3, 1) && Low4(C, 1, 6, 0, 0)
    ensures Low4(RS8Decode.Truncate(Poly8.Product(T, C), 4), 1, 3, 0, 0)
  {
    LowProduct(T, C);
    LowConvolutions(T, C);
    ErasuresAndErrorEvaluatorArithmetic();
  }

  /** The errata locator (1 + 2x + 6x^2)(1 + 6x) = 1 + 4x + x^2 + 2x^3. */
  lemma ErasuresAndErrorErrataLocator(E: Poly8.Poly, C: Poly8.Poly)
    requires Low4(E, 1, 2, 6, 0) && Low4(C, 1, 6, 0, 0)
    ensures Low4(Poly8.Product(E, C), 1, 4, 1, 2)
  {
    LowProduct(E, C);
    LowConvolutions(E, C);
    ErasuresAndErrorLocatorArithmetic();
    ProductAboveThree(E, C);
  }

  /** One root found for a locator of degree 1 within the two syndromes left: positions 4, 5 and 6 are repaired. */
  lemma OneErrorFound(Omega: Poly8.Poly, Lambda: Poly8.Poly)
    ensures RS8Decoder.SearchPlan(4, 2, 1, LastTwo, 0x10, Omega, Lambda) == RS8Decoder.Repair(LastThree, Omega, Lambda)
  {
    assert RS8Decoder.Popcount(0x10) == 1;
  }

  /**
    * The search over the Forney syndromes 1, 5, 3, 1: one error, at position
    * 4; the evaluator is 1 + 3x and the errata locator 1 + 4x + x^2 + 2x^3.
    */
  lemma ErasuresAndErrorSearch(T: Poly8.Poly, E: Poly8.Poly) returns (Omega: Poly8.Poly, Lambda: Poly8.Poly)
    requires Low4(T, 1, 5, 3, 1) && Low4(E, 1, 2, 6, 0)
    ensures Low4(Omega, 1, 3, 0, 0) && Low4(Lambda, 1, 4, 1, 2)
    ensures RS8Decoder.ErrorPlan(T, E, 4, 2, LastTwo, AllSent) == RS8Decoder.Repair(LastThree, Omega, Lambda)
  {
    ErasuresAndErrorLocator(T);
    var C := BerlekampMassey.Run(T, 4).c;
    Poly8.OrderOf(C, 1);
    FourthFound(C);
    RS8Decoder.PlanSteps(T, E, 4, 2, LastTwo, AllSent, C, 1, 0x10);
    Omega := RS8Decode.Truncate(Poly8.Product(T, C), 4);
    Lambda := Poly8.Product(E, C);
    OneErrorFound(Omega, Lambda);
    ErasuresAndErrorEvaluator(T, C);
    ErasuresAndErrorErrataLocator(E, C);
  }

  /** Two positions are erased, fewer than the four check symbols. */
  lemma LastTwoCount()
    ensures RS8Decoder.Popcount(LastTwo) == 2
  {
  }

  /** The plan for 00013 with positions 5 and 6 erased: repair 4, 5, 6 with 1 + 3x and 1 + 4x + x^2 + 2x^3. */
  lemma ErasuresAndErrorPlan() returns (Omega: Poly8.Poly, Lambda: Poly8.Poly)
    ensures Low4(Omega, 1, 3, 0, 0) && Low4(Lambda, 1, 4, 1, 2)
    ensures RS8Decoder.DecodePlan(RS8.Syndromes(GF8Poly.Coeffs(ThreeWrong), 4), 4, LastTwo, AllSent)
      == RS8Decoder.Repair(LastThree, Omega, Lambda)
  {
    var S := RS8.Syndromes(GF8Poly.Coeffs(ThreeWrong), 4);
    ThreeWrongSyndromes();
    var E := RS8.Locator(LastTwo, RS8.BlockSyms);
    LastTwoLocator(LastTwo);
    ErasuresAndErrorForney(S, E);
    LastTwoCount();
    Omega, Lambda := ErasuresAndErrorSearch(RS8Decoder.ForneySyndromes(S, 4, LastTwo), E);
  }

  /** Positions 4, 5 and 6 are the only ones marked. */
  lemma LastThreeOnly(p: nat)
    requires p < 8
    ensures RS8.Marked(LastThree, p) <==> 4 <= p <= 6
  {
    if p == 0 {
    } else if p == 1 {
    } else if p == 2 {
    } else if p == 3 {
    } else if p == 4 {
    } else if p == 5 {
    } else if p == 6 {
    }
  }

  /** The field arithmetic of 4 + 2x^2 and 1 + 3x at 3, 4 and 2, and of Forney's quotients there. */
  lemma ThreeWrongForneyArithmetic()
    ensures GF8.Add(GF8.Mul(GF8.Add(GF8.Mul(2, 3), 0), 3), 4) == 5 && GF8.Add(GF8.Mul(3, 3), 1) == 4 && GF8.Mul(3, 5) == 4
    ensures GF8.Add(GF8.Mul(GF8.Add(GF8.Mul(2, 4), 0), 4), 4) == 3 && GF8.Add(GF8.Mul(3, 4), 1) == 6 && GF8.Mul(2, 3) == 6
    ensures GF8.Add(GF8.Mul(GF8.Add(GF8.Mul(2, 2), 0), 2), 4) == 7 && GF8.Add(GF8.Mul(3, 2), 1) == 7 && GF8.Mul(1, 7) == 7
  {
  }

  /**
    * At positions 4, 5 and 6 (roots 3, 4 and 2) the derivative 4 + 2x^2 is
    * not 0 and the correction solves Forney's equation: 3, 2 and 1.
    */
  lemma ThreeWrongForney(Omega: Poly8.Poly, D: Poly8.Poly, p: nat, e: GF8.Elem)
    requires Low4(Omega, 1, 3, 0, 0) && Low4(D, 4, 0, 2, 0) && 4 <= p <= 6
    ensures Poly8.Eval(D, GF8.Exp[7 - p]) != 0
    ensures RS8Magnitude.IsCorrection(Omega, D, LastThree, p, e) <==> e as int == 7 - p
  {
    LastThreeOnly(p);
    RootValues();
    ThreeWrongForneyArithmetic();
    var x := GF8.Exp[7 - p];
    EvalCubic(D, 4, 0, 2, 0, x);
    EvalCubic(Omega, 1, 3, 0, 0, x);
    GF8.AddZero(0);
    GF8.AddZero(3);
    if p == 4 {
      assert x == 3;
      SolveForney(e, 5, 4, 3);
    } else if p == 5 {
      assert x == 4;
      SolveForney(e, 3, 6, 2);
    } else {
      assert x == 2;
      SolveForney(e, 7, 7, 1);
    }
  }

  /** Term p of a correction for the evaluator 1 + 3x and the derivative 4 + 2x^2 is term p of ThreeWrongRepair. */
  lemma ThreeWrongCorrectionAt(Omega: Poly8.Poly, D: Poly8.Poly, p: nat, e: GF8.Elem)
    requires Low4(Omega, 1, 3, 0, 0) && Low4(D, 4, 0, 2, 0) && p < GF8Poly.Terms
    ensures RS8Magnitude.IsCorrection(Omega, D, LastThree, p, e) <==> e == GF8Poly.Coeffs(ThreeWrongRepair)[p]
  {
    RepairCoeffs();
    if 4 <= p <= 6 {
      ThreeWrongForney(Omega, D, p, e);
    } else if p < RS8.BlockSyms {
      LastThreeOnly(p);
    }
  }

  /**
    * For the evaluator 1 + 3x and the derivative 4 + 2x^2, the only word
    * that rs8_get_errata_magnitude may return for positions 4, 5 and 6 is
    * ThreeWrongRepair.
    */
  lemma ThreeWrongMagnitudeIff(Omega: Poly8.Poly, D: Poly8.Poly, mag: bv32)
    requires Low4(Omega, 1, 3, 0, 0) && Low4(D, 4, 0, 2, 0)
    ensures RS8Magnitude.ErrataMagnitudes(Omega, D, LastThree, mag) <==> mag == ThreeWrongRepair
  {
    forall p | 0 <= p < RS8.BlockSyms && RS8.Marked(LastThree, p)
      ensures Poly8.Eval(D, GF8.Exp[7 - p]) != 0
    {
      LastThreeOnly(p);
      ThreeWrongForney(Omega, D, p, 0);
    }
    assert RS8Magnitude.Divisible(D, LastThree);
    forall p | 0 <= p < GF8Poly.Terms
      ensures RS8Magnitude.IsCorrection(Omega, D, LastThree, p, GF8Poly.Coeffs(mag)[p])
          <==> GF8Poly.Coeffs(mag)[p] == GF8Poly.Coeffs(ThreeWrongRepair)[p]
    {
      ThreeWrongCorrectionAt(Omega, D, p, GF8Poly.Coeffs(mag)[p]);
    }
    RepairCoeffs();
    if RS8Magnitude.ErrataMagnitudes(Omega, D, LastThree, mag) {
      GF8Poly.FitsBoundAt7(mag);
      assert GF8Poly.Coeffs(mag) == GF8Poly.Coeffs(ThreeWrongRepair);
      GF8Poly.CoeffsDetermine(mag, ThreeWrongRepair);
    }
  }

  /** Repairing positions 4, 5 and 6 of 00013 with the evaluator 1 + 3x and the locator 1 + 4x + x^2 + 2x^3 gives 01230013, and only that. */
  lemma ThreeWrongRepairedIff(Omega: Poly8.Poly, Lambda: Poly8.Poly, d: RS8Decode.Decoded)
    requires Low4(Omega, 1, 3, 0, 0) && Low4(Lambda, 1, 4, 1, 2)
    ensures RS8Decoder.Repaired(ThreeWrong, Omega, Lambda, LastThree, d) <==> d == RS8Decode.Corrected(Codeword)
  {
    DerivativeOfCubic(Lambda, 1, 4, 1, 2);
    if d.Corrected? {
      ThreeWrongMagnitudeIff(Omega, Poly8.Derivative(Lambda), GF8Poly.Add(ThreeWrong, d.word));
      assert GF8Poly.Add(ThreeWrong, d.word) == ThreeWrongRepair <==> d.word == Codeword;
    }
  }

  /**
    * rs8_decode(00013, 21, 4, 0b1100000, 0x7F) as written: the only
    * outcome is 01230013, as test_math.c records.
    */
  lemma ErasuresAndErrorRepaired(d: RS8Decode.Decoded)
    ensures RS8Decoder.DecodeOutcome(ThreeWrong, 4, LastTwo, AllSent, d) <==> d == RS8Decode.Corrected(Codeword)
  {
    LastTwoCount();
    ThreeWrongSyndromes();
    NotZero(RS8.Syndromes(GF8Poly.Coeffs(ThreeWrong), 4));
    var Omega, Lambda := ErasuresAndErrorPlan();
    OutcomeFollowsPlan(ThreeWrong, 4, LastTwo, AllSent, d, RS8Decoder.Repair(LastThree, Omega, Lambda));
    ThreeWrongRepairedIff(Omega, Lambda, d);
  }

  // ---------------------------------------------------------------------
  // 4 check symbols, no errata: 01230013 comes back as it is
  // ---------------------------------------------------------------------

  /** Codeword vanishes at 2, the first generator root. */
  lemma CodewordAt2(c: Poly8.Poly)
    requires c == [3, 1, 0, 0, 3, 2, 1, 0, 0, 0]
    ensures Poly8.Eval(c, 2) == 0
  {
    EvalSextic(c, 2);
    assert GF8.Mul(1, 2) == 2 && GF8.Mul(GF8.Add(2, 2), 2) == 0 && GF8.Add(0, 3) == 3;
    assert GF8.Mul(3, 2) == 6 && GF8.Mul(GF8.Add(6, 0), 2) == 7 && GF8.Mul(GF8.Add(7, 0), 2) == 5;
    assert GF8.Mul(GF8.Add(5, 1), 2) == 3 && GF8.Add(3, 3) == 0;
  }

  /** Codeword vanishes at 4, the second generator root. */
  lemma CodewordAt4(c: Poly8.Poly)
    requires c == [3, 1, 0, 0, 3, 2, 1, 0, 0, 0]
    ensures Poly8.Eval(c, 4) == 0
  {
    EvalSextic(c, 4);
    assert GF8.Mul(1, 4) == 4 && GF8.Mul(GF8.Add(4, 2), 4) == 5 && GF8.Add(5, 3) == 6;
    assert GF8.Mul(6, 4) == 5 && GF8.Mul(GF8.Add(5, 0), 4) == 2 && GF8.Mul(GF8.Add(2, 0), 4) == 3;
    assert GF8.Mul(GF8.Add(3, 1), 4) == 3 && GF8.Add(3, 3) == 0;
  }

  /** Codeword vanishes at 3, the third generator root. */
  lemma CodewordAt3(c: Poly8.Poly)
    requires c == [3, 1, 0, 0, 3, 2, 1, 0, 0, 0]
    ensures Poly8.Eval(c, 3) == 0
  {
    EvalSextic(c, 3);
    assert GF8.Mul(1, 3) == 3 && GF8.Mul(GF8.Add(3, 2), 3) == 3 && GF8.Add(3, 3) == 0;
    assert GF8.Mul(0, 3) == 0 && GF8.Add(0, 0) == 0 && GF8.Add(0, 1) == 1;
    assert GF8.Mul(1, 3) == 3;
  }

  /** Codeword vanishes at 6, the fourth generator root. */
  lemma CodewordAt6(c: Poly8.Poly)
    requires c == [3, 1, 0, 0, 3, 2, 1, 0, 0, 0]
    ensures Poly8.Eval(c, 6) == 0
  {
    EvalSextic(c, 6);
    assert GF8.Mul(1, 6) == 6 && GF8.Mul(GF8.Add(6, 2), 6) == 5 && GF8.Add(5, 3) == 6;
    assert GF8.Mul(6, 6) == 2 && GF8.Mul(GF8.Add(2, 0), 6) == 7 && GF8.Mul(GF8.Add(7, 0), 6) == 4;
    assert GF8.Mul(GF8.Add(4, 1), 6) == 3 && GF8.Add(3, 3) == 0;
  }

  /** The coefficients 3, 1, 0, 0, 3, 2, 1 vanish at the four generator roots 2^1 .. 2^4. */
  lemma CodewordRoots(c: Poly8.Poly)
    requires c == [3, 1, 0, 0, 3, 2, 1, 0, 0, 0]
    ensures forall i :: 1 <= i <= 4 ==> Poly8.Eval(c, GF8.Exp[i]) == 0
  {
    forall i | 1 <= i <= 4
      ensures Poly8.Eval(c, GF8.Exp[i]) == 0
    {
      if i == 1 {
        CodewordAt2(c);
      } else if i == 2 {
        CodewordAt4(c);
      } else if i == 3 {
        CodewordAt3(c);
      } else {
        CodewordAt6(c);
      }
    }
  }

  /** rs8_encode(0123, 4) is a codeword for four check symbols: it vanishes at 2, 4, 3 and 6. */
  lemma CodewordVanishes()
    ensures RS8.IsCodeword(Codeword, 4)
  {
    WordCoeffs();
    CodewordRoots(GF8Poly.Coeffs(Codeword));
  }

  /** Decoding the codeword with nothing erased returns it unchanged, and nothing else. */
  lemma CodewordDecodesToItself(d: RS8Decode.Decoded)
    ensures RS8.IsCodeword(Codeword, 4)
    ensures RS8Decoder.DecodeOutcome(Codeword, 4, 0, AllSent, d) <==> d == RS8Decode.Corrected(Codeword)
  {
    CodewordVanishes();
    RS8.SyndromesZeroIffCodeword(Codeword, 4);
    assert RS8Decoder.Popcount(0) == 0;
  }
}
