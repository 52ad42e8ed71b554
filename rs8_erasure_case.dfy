/**
  * Two erasures and no error, decoded by rs8_decode (ReedSolomon/src/rs_gf8.c)
  * with three check symbols.
  *
  * The codeword 0046112 (octal, rs8_encode(046, 3)) arrives as 0071112: its
  * terms 3 and 4 are wrong and both positions are flagged as erased.  Two
  * erasures are within what three check symbols can repair.  The Forney
  * syndromes are 3, 4, 0.  Berlekamp-Massey over all three of them (what the
  * code does) finds the locator 1 + 5x + 7x^2 of order 2, and 2 * 2 > 3 - 2
  * makes the decoder return -2 (AsWrittenFails).  Over the one syndrome the
  * erasures leave, T[2..3) = 0, it finds the locator 1, and the erasure
  * repair alone restores the codeword (IntendedRepairs).
  */
module RS8ErasureCase {
  import GF8
  import Poly8
  import GF8Poly
  import RS8
  import RS8Decode
  import BerlekampMassey
  import RS8Decoder
  import RS8Magnitude

  /** The codeword 0046112 (octal). */
  const Sent: bv32 := 0x4C4A
  /** 0071112 (octal): Sent with terms 3 and 4 changed from 6 and 4 to 1 and 7. */
  const Received: bv32 := 0x724A
  /** Positions 3 and 4 erased. */
  const BothErased: bv8 := 0x18
  /** Every block position transmitted. */
  const AllSent: bv8 := 0x7F
  /** The correction that turns Received into Sent: 7 at term 3 and 3 at term 4. */
  const Repair: bv32 := 0x3E00

  /** p has ten coefficients a, b, c, 0, ..., 0. */
  ghost predicate Low3(p: Poly8.Poly, a: GF8.Elem, b: GF8.Elem, c: GF8.Elem)
  {
    |p| == GF8Poly.Terms && p[0] == a && p[1] == b && p[2] == c
    && forall j :: 3 <= j < GF8Poly.Terms ==> p[j] == 0
  }

  // ---------------------------------------------------------------------
  // The words
  // ---------------------------------------------------------------------

  /** The coefficients of Sent and Received. */
  lemma WordCoeffs()
    ensures GF8Poly.Coeffs(Sent) == [2, 1, 1, 6, 4, 0, 0, 0, 0, 0]
    ensures GF8Poly.Coeffs(Received) == [2, 1, 1, 1, 7, 0, 0, 0, 0, 0]
  {
  }

  /** The roots 2^1, 2^2, 2^3 of the generator for three check symbols. */
  lemma FirstRoots()
    ensures GF8.Exp[1] == 2 && GF8.Exp[2] == 4 && GF8.Exp[3] == 3
  {
  }

  /**
    * Sent is the codeword for the message 046 with three check symbols, and
    * Received differs from it in terms 3 and 4 only, the erased ones.
    */
  lemma SentIsCodeword()
    ensures RS8.IsCodeword(Sent, 3)
  {
    SentVanishes(GF8Poly.Coeffs(Sent));
  }

  /** Sent's coefficients vanish at the three generator roots. */
  lemma SentVanishes(c: Poly8.Poly)
    requires c == GF8Poly.Coeffs(Sent)
    ensures forall i :: 1 <= i <= 3 ==> Poly8.Eval(c, GF8.Exp[i]) == 0
  {
    WordCoeffs();
    SentRoots(c);
    FirstRoots();
    forall i | 1 <= i <= 3
      ensures Poly8.Eval(c, GF8.Exp[i]) == 0
    {
      if i == 1 {
      } else if i == 2 {
      } else {
      }
    }
  }

  /** Received differs from Sent at terms 3 and 4 only, where Sent holds 6 and 4. */
  lemma ReceivedDiffers()
    ensures GF8Poly.Coeffs(Sent)[3] == 6 && GF8Poly.Coeffs(Sent)[4] == 4
    ensures forall j :: 5 <= j < GF8Poly.Terms ==> GF8Poly.Coeffs(Sent)[j] == 0
    ensures forall j :: 0 <= j < GF8Poly.Terms && j != 3 && j != 4 ==>
      GF8Poly.Coeffs(Received)[j] == GF8Poly.Coeffs(Sent)[j]
  {
    WordCoeffs();
  }

  /** Sent vanishes at 2, 4 and 3. */
  lemma SentRoots(c: Poly8.Poly)
    requires c == [2, 1, 1, 6, 4, 0, 0, 0, 0, 0]
    ensures Poly8.Eval(c, 2) == 0 && Poly8.Eval(c, 4) == 0 && Poly8.Eval(c, 3) == 0
  {
    SentAt2(c);
    SentAt4(c);
    SentAt3(c);
  }

  lemma SentAt2(c: Poly8.Poly)
    requires c == [2, 1, 1, 6, 4, 0, 0, 0, 0, 0]
    ensures Poly8.Eval(c, 2) == 0
  {
    EvalQuartic(c, 2);
    assert GF8.Mul(4, 2) == 3 && GF8.Mul(GF8.Add(3, 6), 2) == 1 && GF8.Mul(GF8.Add(1, 1), 2) == 0;
    assert GF8.Mul(GF8.Add(0, 1), 2) == 2;
  }

  lemma SentAt4(c: Poly8.Poly)
    requires c == [2, 1, 1, 6, 4, 0, 0, 0, 0, 0]
    ensures Poly8.Eval(c, 4) == 0
  {
    EvalQuartic(c, 4);
    assert GF8.Mul(4, 4) == 6 && GF8.Mul(GF8.Add(6, 6), 4) == 0 && GF8.Mul(GF8.Add(0, 1), 4) == 4;
    assert GF8.Mul(GF8.Add(4, 1), 4) == 2;
  }

  lemma SentAt3(c: Poly8.Poly)
    requires c == [2, 1, 1, 6, 4, 0, 0, 0, 0, 0]
    ensures Poly8.Eval(c, 3) == 0
  {
    EvalQuartic(c, 3);
    assert GF8.Mul(4, 3) == 7 && GF8.Mul(GF8.Add(7, 6), 3) == 3 && GF8.Mul(GF8.Add(3, 1), 3) == 6;
    assert GF8.Mul(GF8.Add(6, 1), 3) == 2;
  }

  /** Both erased positions are marked, and they are all that is marked. */
  lemma ErasedPositions()
    ensures RS8.Marked(BothErased, 3) && RS8.Marked(BothErased, 4) && RS8Decoder.Popcount(BothErased) == 2
  {
  }

  /** Horner's rule written out for a polynomial with no term above degree 4. */
  lemma EvalQuartic(p: Poly8.Poly, x: GF8.Elem)
    requires |p| == GF8Poly.Terms && forall j :: 5 <= j < GF8Poly.Terms ==> p[j] == 0
    ensures Poly8.Eval(p, x) ==
      GF8.Add(GF8.Mul(GF8.Add(GF8.Mul(GF8.Add(GF8.Mul(GF8.Add(GF8.Mul(p[4], x), p[3]), x), p[2]), x), p[1]), x), p[0])
  {
    Poly8.HornerIsEval(p, 0, x);
    assert p[0..] == p;
    Poly8.HornerOfZeros(p, 5, x);
    assert Poly8.Horner(p, 4, x) == p[4] by { GF8.AddZero(p[4]); }
    assert Poly8.Horner(p, 3, x) == GF8.Add(GF8.Mul(p[4], x), p[3]);
    assert Poly8.Horner(p, 2, x) == GF8.Add(GF8.Mul(Poly8.Horner(p, 3, x), x), p[2]);
    assert Poly8.Horner(p, 1, x) == GF8.Add(GF8.Mul(Poly8.Horner(p, 2, x), x), p[1]);
  }

  /** The three syndromes of Received are 3, 0, 3. */
  lemma ReceivedSyndromes()
    ensures Low3(RS8.Syndromes(GF8Poly.Coeffs(Received), 3), 3, 0, 3)
  {
    WordCoeffs();
    var r := GF8Poly.Coeffs(Received);
    ReceivedAt2(r);
    ReceivedAt4(r);
    ReceivedAt3(r);
    FirstRoots();
  }

  lemma ReceivedAt2(r: Poly8.Poly)
    requires r == [2, 1, 1, 1, 7, 0, 0, 0, 0, 0]
    ensures Poly8.Eval(r, 2) == 3
  {
    EvalQuartic(r, 2);
    assert GF8.Mul(7, 2) == 5 && GF8.Mul(GF8.Add(5, 1), 2) == 3 && GF8.Mul(GF8.Add(3, 1), 2) == 4;
    assert GF8.Mul(GF8.Add(4, 1), 2) == 1;
  }

  lemma ReceivedAt4(r: Poly8.Poly)
    requires r == [2, 1, 1, 1, 7, 0, 0, 0, 0, 0]
    ensures Poly8.Eval(r, 4) == 0
  {
    EvalQuartic(r, 4);
    assert GF8.Mul(7, 4) == 1 && GF8.Mul(GF8.Add(1, 1), 4) == 0 && GF8.Mul(GF8.Add(0, 1), 4) == 4;
    assert GF8.Mul(GF8.Add(4, 1), 4) == 2;
  }

  lemma ReceivedAt3(r: Poly8.Poly)
    requires r == [2, 1, 1, 1, 7, 0, 0, 0, 0, 0]
    ensures Poly8.Eval(r, 3) == 3
  {
    EvalQuartic(r, 3);
    assert GF8.Mul(7, 3) == 2 && GF8.Mul(GF8.Add(2, 1), 3) == 5 && GF8.Mul(GF8.Add(5, 1), 3) == 7;
    assert GF8.Mul(GF8.Add(7, 1), 3) == 1;
  }

  // ---------------------------------------------------------------------
  // The erasures
  // ---------------------------------------------------------------------

  /** The coefficients 0, 1 and 2 of a convolution, written out. */
  lemma LowConvolutions(S: Poly8.Poly, C: Poly8.Poly)
    requires |S| == |C| == GF8Poly.Terms
    ensures Poly8.ConvolutionSum(S, C, 0, 1) == GF8.Mul(S[0], C[0])
    ensures Poly8.ConvolutionSum(S, C, 1, 2) == GF8.Add(GF8.Mul(S[1], C[0]), GF8.Mul(S[0], C[1]))
    ensures Poly8.ConvolutionSum(S, C, 2, 3) ==
      GF8.Add(GF8.Add(GF8.Mul(S[2], C[0]), GF8.Mul(S[1], C[1])), GF8.Mul(S[0], C[2]))
  {
    GF8.AddZero(GF8.Mul(S[0], C[0]));
    GF8.AddZero(GF8.Mul(S[1], C[0]));
    GF8.AddZero(GF8.Mul(S[2], C[0]));
    assert Poly8.ConvolutionSum(S, C, 0, 0) == 0;
    assert Poly8.ConvolutionSum(S, C, 1, 1) == GF8.Mul(S[1], C[0]) by {
      assert Poly8.ConvolutionSum(S, C, 1, 0) == 0;
    }
    assert Poly8.ConvolutionSum(S, C, 2, 1) == GF8.Mul(S[2], C[0]) by {
      assert Poly8.ConvolutionSum(S, C, 2, 0) == 0;
    }
  }

  /** (a + bx) (1 + ex) = a + (b + ae) x + be x^2. */
  lemma BinomialLow(L: Poly8.Poly, e: GF8.Elem, a: GF8.Elem, b: GF8.Elem)
    requires Low3(L, a, b, 0)
    ensures Low3(RS8.TimesBinomial(L, e), a, GF8.Add(b, GF8.Mul(a, e)), GF8.Mul(b, e))
  {
    GF8.AddZero(a);
    GF8.AddZero(GF8.Mul(b, e));
    GF8.AddZero(0);
  }

  /** One marked position multiplies the locator by 1 + 2^(n - 1) x. */
  lemma MarkedStep(pos: bv8, n: nat, a: GF8.Elem, b: GF8.Elem)
    requires 0 < n <= RS8.BlockSyms && RS8.Marked(pos, n - 1)
    requires Low3(RS8.Locator(pos, n - 1), a, b, 0)
    ensures Low3(RS8.Locator(pos, n), a, GF8.Add(b, GF8.Mul(a, GF8.Exp[n - 1])), GF8.Mul(b, GF8.Exp[n - 1]))
  {
    BinomialLow(RS8.Locator(pos, n - 1), GF8.Exp[n - 1], a, b);
  }

  /** No position below 3 is erased, so the locator of those is 1. */
  lemma NothingBelowThree(pos: bv8)
    requires pos == BothErased
    ensures Low3(RS8.Locator(pos, 3), 1, 0, 0)
  {
    assert !RS8.Marked(pos, 0) && !RS8.Marked(pos, 1) && !RS8.Marked(pos, 2);
    assert RS8.Locator(pos, 3) == RS8.One();
  }

  /** With position 3 erased, the locator of positions 0 .. 3 is 1 + 3x. */
  lemma LocatorToFour(pos: bv8)
    requires pos == BothErased
    ensures Low3(RS8.Locator(pos, 4), 1, 3, 0)
  {
    NothingBelowThree(pos);
    assert RS8.Marked(pos, 3);
    MarkedStep(pos, 4, 1, 0);
    FourthFactor();
  }

  /** The field arithmetic of the factor 1 + 2^3 x. */
  lemma FourthFactor()
    ensures GF8.Exp[3] == 3 && GF8.Add(0, GF8.Mul(1, 3)) == 3 && GF8.Mul(0, 3) == 0
  {
  }

  /** With position 4 erased too, the locator of positions 0 .. 4 is 1 + 5x + x^2. */
  lemma LocatorToFive(pos: bv8)
    requires pos == BothErased
    ensures Low3(RS8.Locator(pos, 5), 1, 5, 1)
  {
    LocatorToFour(pos);
    assert RS8.Marked(pos, 4);
    MarkedStep(pos, 5, 1, 3);
    FifthFactor();
  }

  /** The field arithmetic of the factor 1 + 2^4 x. */
  lemma FifthFactor()
    ensures GF8.Exp[4] == 6 && GF8.Add(3, GF8.Mul(1, 6)) == 5 && GF8.Mul(3, 6) == 1
  {
  }

  /** Positions 5 and 6 are not erased, so they leave the locator as it is. */
  lemma LocatorOfErased(pos: bv8)
    requires pos == BothErased
    ensures Low3(RS8.Locator(pos, RS8.BlockSyms), 1, 5, 1)
  {
    assert !RS8.Marked(pos, 5) && !RS8.Marked(pos, 6);
    assert RS8.Locator(pos, RS8.BlockSyms) == RS8.Locator(pos, 5);
    LocatorToFive(pos);
  }

  /** The erasure locator (1 + 2^3 x)(1 + 2^4 x) = 1 + 5x + x^2. */
  lemma ErasedLocator()
    ensures Low3(RS8.Locator(BothErased, RS8.BlockSyms), 1, 5, 1)
  {
    LocatorOfErased(BothErased);
  }

  /** The Forney syndromes of Received: 3, 4, 0. */
  lemma ReceivedForney(S: Poly8.Poly, E: Poly8.Poly)
    requires Low3(S, 3, 0, 3) && Low3(E, 1, 5, 1)
    ensures Low3(RS8Decode.Truncate(Poly8.Product(S, E), 3), 3, 4, 0)
  {
    var P := Poly8.Product(S, E);
    LowConvolutions(S, E);
    Poly8.ProductIsConvolution(S, E, 0);
    Poly8.ProductIsConvolution(S, E, 1);
    Poly8.ProductIsConvolution(S, E, 2);
    assert GF8.Mul(3, 1) == 3 && GF8.Mul(3, 5) == 4 && GF8.Mul(0, 1) == 0 && GF8.Mul(0, 5) == 0;
    assert GF8.Add(GF8.Add(3, 0), 3) == 0;
  }

  // ---------------------------------------------------------------------
  // Berlekamp-Massey over all three Forney syndromes
  // ---------------------------------------------------------------------

  /** One step of the recursion with a non-zero discrepancy d, given the corrected locator c. */
  lemma StepCorrects(S: Poly8.Poly, st: BerlekampMassey.State, n: nat, d: GF8.Elem, q: GF8.Elem, c: Poly8.Poly)
    requires n < |S| && |st.c| == |S| && |st.b| == |S|
    requires BerlekampMassey.Disc(S, st.c, n) == d != 0 && BerlekampMassey.Ratio(d, st.disc) == q
    requires BerlekampMassey.Corrected(st.c, st.b, q, st.delay) == c
    ensures BerlekampMassey.Step(S, st, n) ==
      if 2 * st.len <= n then BerlekampMassey.State(c, st.c, n + 1 - st.len, d, 1)
      else st.(c := c, delay := st.delay + 1)
  {
  }

  /** The corrected locator term by term: C[i] plus q B[i - m]. */
  lemma CorrectedAt(C: Poly8.Poly, B: Poly8.Poly, q: GF8.Elem, m: nat, i: nat)
    requires |C| == |B| && i < |C|
    ensures BerlekampMassey.Corrected(C, B, q, m)[i] == GF8.Add(C[i], if i >= m then GF8.Mul(B[i - m], q) else 0)
  {
    Poly8.ShiftUpByAt(Poly8.ScaleBy(B, q), m, i);
  }

  /** C + q x for B = 1. */
  lemma CorrectedLinear(C: Poly8.Poly, B: Poly8.Poly, q: GF8.Elem, a: GF8.Elem, b: GF8.Elem)
    requires Low3(C, a, b, 0) && Low3(B, 1, 0, 0)
    ensures Low3(BerlekampMassey.Corrected(C, B, q, 1), a, GF8.Add(b, q), 0)
  {
    var r := BerlekampMassey.Corrected(C, B, q, 1);
    GF8.MulOne(q);
    GF8.AddZero(a);
    GF8.AddZero(0);
    CorrectedAt(C, B, q, 1, 0);
    CorrectedAt(C, B, q, 1, 1);
    CorrectedAt(C, B, q, 1, 2);
    forall j | 3 <= j < GF8Poly.Terms
      ensures r[j] == 0
    {
      CorrectedAt(C, B, q, 1, j);
    }
  }

  /** C + q x^2 for B = 1. */
  lemma CorrectedQuadratic(C: Poly8.Poly, B: Poly8.Poly, q: GF8.Elem, a: GF8.Elem, b: GF8.Elem)
    requires Low3(C, a, b, 0) && Low3(B, 1, 0, 0)
    ensures Low3(BerlekampMassey.Corrected(C, B, q, 2), a, b, GF8.Add(0, q))
  {
    var r := BerlekampMassey.Corrected(C, B, q, 2);
    GF8.MulOne(q);
    GF8.AddZero(a);
    GF8.AddZero(b);
    GF8.AddZero(0);
    CorrectedAt(C, B, q, 2, 0);
    CorrectedAt(C, B, q, 2, 1);
    CorrectedAt(C, B, q, 2, 2);
    forall j | 3 <= j < GF8Poly.Terms
      ensures r[j] == 0
    {
      CorrectedAt(C, B, q, 2, j);
    }
  }

  /** The field arithmetic of step 0. */
  lemma FirstArithmetic()
    ensures GF8.Mul(3, 1) == 3 && BerlekampMassey.Ratio(3, 1) == 3 && GF8.Add(0, 3) == 3
  {
  }

  /** The field arithmetic of step 1. */
  lemma SecondArithmetic()
    ensures GF8.Add(GF8.Mul(4, 1), GF8.Mul(3, 3)) == 1 && BerlekampMassey.Ratio(1, 3) == 6 && GF8.Add(3, 6) == 5
  {
  }

  /** The field arithmetic of step 2. */
  lemma ThirdArithmetic()
    ensures GF8.Add(GF8.Add(GF8.Mul(0, 1), GF8.Mul(4, 5)), GF8.Mul(3, 0)) == 2
    ensures BerlekampMassey.Ratio(2, 3) == 7 && GF8.Add(0, 7) == 7
  {
  }

  /** Step 0 from the initial state: discrepancy 3, C = 1 + 3x, L = 1. */
  lemma FirstStep(T: Poly8.Poly)
    requires Low3(T, 3, 4, 0)
    ensures var st := BerlekampMassey.Run(T, 1);
      Low3(st.c, 1, 3, 0) && Low3(st.b, 1, 0, 0) && st.len == 1 && st.disc == 3 && st.delay == 1
  {
    var st := BerlekampMassey.Run(T, 0);
    assert Low3(st.c, 1, 0, 0) && Low3(st.b, 1, 0, 0) && st.len == 0 && st.disc == 1 && st.delay == 1;
    LowConvolutions(T, st.c);
    FirstArithmetic();
    CorrectedLinear(st.c, st.b, 3, 1, 0);
    StepCorrects(T, st, 0, 3, 3, BerlekampMassey.Corrected(st.c, st.b, 3, 1));
  }

  /** Step 1: discrepancy 1, C = 1 + 5x, L stays 1. */
  lemma SecondStep(T: Poly8.Poly, st: BerlekampMassey.State)
    requires Low3(T, 3, 4, 0)
    requires Low3(st.c, 1, 3, 0) && Low3(st.b, 1, 0, 0) && st.len == 1 && st.disc == 3 && st.delay == 1
    ensures var r := BerlekampMassey.Step(T, st, 1);
      Low3(r.c, 1, 5, 0) && Low3(r.b, 1, 0, 0) && r.len == 1 && r.disc == 3 && r.delay == 2
  {
    LowConvolutions(T, st.c);
    SecondArithmetic();
    CorrectedLinear(st.c, st.b, 6, 1, 3);
    StepCorrects(T, st, 1, 1, 6, BerlekampMassey.Corrected(st.c, st.b, 6, 1));
  }

  /** Step 2: discrepancy 2, C = 1 + 5x + 7x^2, L = 2. */
  lemma ThirdStep(T: Poly8.Poly, st: BerlekampMassey.State)
    requires Low3(T, 3, 4, 0)
    requires Low3(st.c, 1, 5, 0) && Low3(st.b, 1, 0, 0) && st.len == 1 && st.disc == 3 && st.delay == 2
    ensures var r := BerlekampMassey.Step(T, st, 2);
      Low3(r.c, 1, 5, 7) && r.len == 2
  {
    LowConvolutions(T, st.c);
    ThirdArithmetic();
    CorrectedQuadratic(st.c, st.b, 7, 1, 5);
    StepCorrects(T, st, 2, 2, 7, BerlekampMassey.Corrected(st.c, st.b, 7, 2));
  }

  /** Berlekamp-Massey over all three Forney syndromes 3, 4, 0 ends with 1 + 5x + 7x^2, of order 2. */
  lemma AllThreeLocator(T: Poly8.Poly)
    requires Low3(T, 3, 4, 0)
    ensures Poly8.Order(BerlekampMassey.Run(T, 3).c) == 2
  {
    FirstStep(T);
    SecondStep(T, BerlekampMassey.Run(T, 1));
    ThirdStep(T, BerlekampMassey.Run(T, 2));
    Poly8.OrderOf(BerlekampMassey.Run(T, 3).c, 2);
  }

  // ---------------------------------------------------------------------
  // rs8_decode as written: -2
  // ---------------------------------------------------------------------

  /** The syndromes, the erasure locator and the Forney syndromes of the case. */
  lemma CaseSyndromes()
    ensures var S := RS8.Syndromes(GF8Poly.Coeffs(Received), 3);
      && Low3(S, 3, 0, 3) && S != Poly8.Zero(GF8Poly.Terms)
      && Low3(RS8.Locator(BothErased, RS8.BlockSyms), 1, 5, 1)
      && Low3(RS8Decoder.ForneySyndromes(S, 3, BothErased), 3, 4, 0)
  {
    ReceivedSyndromes();
    NotAllZero(RS8.Syndromes(GF8Poly.Coeffs(Received), 3));
    ErasedLocator();
    CaseForney(RS8.Syndromes(GF8Poly.Coeffs(Received), 3), RS8.Locator(BothErased, RS8.BlockSyms));
  }

  /** A polynomial with constant term 3 is not zero. */
  lemma NotAllZero(S: Poly8.Poly)
    requires Low3(S, 3, 0, 3)
    ensures S != Poly8.Zero(GF8Poly.Terms)
  {
    assert S[0] != Poly8.Zero(GF8Poly.Terms)[0];
  }

  /** The Forney syndromes of the case, through the erasure locator. */
  lemma CaseForney(S: Poly8.Poly, E: Poly8.Poly)
    requires Low3(S, 3, 0, 3) && E == RS8.Locator(BothErased, RS8.BlockSyms) && Low3(E, 1, 5, 1)
    ensures Low3(RS8Decoder.ForneySyndromes(S, 3, BothErased), 3, 4, 0)
  {
    ReceivedForney(S, E);
  }

  /**
    * rs8_decode as written returns -2 for Received with three check
    * symbols and positions 3 and 4 erased, although the two erasures are
    * within what three check symbols repair.
    */
  lemma AsWrittenFails(d: RS8Decode.Decoded)
    ensures RS8Decoder.DecodeOutcome(Received, 3, BothErased, AllSent, d) <==> d == RS8Decode.TooManyErrors
  {
    ErasedPositions();
    CaseSyndromes();
    var S := RS8.Syndromes(GF8Poly.Coeffs(Received), 3);
    var T := RS8Decoder.ForneySyndromes(S, 3, BothErased);
    var E := RS8.Locator(BothErased, RS8.BlockSyms);
    AllThreeLocator(T);
    var C := BerlekampMassey.Run(T, 3).c;
    RS8Decoder.PlanSteps(T, E, 3, 2, BothErased, AllSent, C, 2, RS8Decoder.ErrorsFound(C, AllSent & !BothErased));
  }

  // ---------------------------------------------------------------------
  // Berlekamp-Massey over the syndromes the erasures leave: the repair
  // ---------------------------------------------------------------------

  /** The one syndrome T[2..3) left after two erasures is 0, so the locator stays 1, of order 0. */
  lemma RemainingLocator(T: Poly8.Poly)
    requires Low3(T, 3, 4, 0)
    ensures BerlekampMassey.Run(RS8Decoder.Remaining(T, 2), 1).c == RS8.One()
  {
    var R := RS8Decoder.Remaining(T, 2);
    var st := BerlekampMassey.Run(R, 0);
    LowConvolutions(R, st.c);
    assert BerlekampMassey.Disc(R, st.c, 0) == 0;
    assert BerlekampMassey.Unit(GF8Poly.Terms) == RS8.One();
  }

  /** Times the polynomial 1, p is unchanged. */
  lemma ProductByOne(p: Poly8.Poly)
    ensures Poly8.Product(p, RS8.One()) == p
  {
    ProductByUnit(p, RS8.One());
  }

  /** p times a polynomial whose only nonzero term is the constant 1. */
  lemma ProductByUnit(p: Poly8.Poly, u: Poly8.Poly)
    requires |u| > 0 && u[0] == 1 && forall i :: 0 < i < |u| ==> u[i] == 0
    ensures Poly8.Product(p, u) == p
  {
    Poly8.ProductMonic(p, u);
    Poly8.ProductOfZeros(p, u[1..]);
    forall i | 0 <= i < |p|
      ensures Poly8.Product(p, u)[i] == p[i]
    {
      GF8.AddZero(p[i]);
    }
  }

  /** The polynomial 1 has no root, so the root search finds nothing. */
  lemma NoRootsOfOne(mask: bv8)
    ensures RS8Decoder.ErrorsFound(RS8.One(), mask) == 0
  {
    var h := RS8Decoder.RootHits(RS8.One(), mask);
    forall s | 0 <= s < 8
      ensures !h[s]
    {
      if 1 <= s {
        RS8.EvalOne(GF8.Exp[s]);
      }
    }
    NoVerdicts(h, 7);
  }

  /** Verdicts that are all false pack to 0. */
  lemma {:induction false} NoVerdicts(h: seq<bool>, n: nat)
    requires n < |h| && forall s :: 0 <= s < |h| ==> !h[s]
    ensures RS8Decode.Verdicts(h, n) == 0
  {
    if n > 0 {
      NoVerdicts(h, n - 1);
    }
  }

  /** IntendedErrorPlan, given the locator C, its order and the found positions by name. */
  lemma IntendedSteps(T: Poly8.Poly, E: Poly8.Poly, C: Poly8.Poly, order: int, found: bv8)
    requires Low3(T, 3, 4, 0) && C == BerlekampMassey.Run(RS8Decoder.Remaining(T, 2), 1).c
    requires order == Poly8.Order(C) && found == RS8Decoder.ErrorsFound(C, AllSent & !BothErased)
    ensures RS8Decoder.IntendedErrorPlan(T, E, 3, 2, BothErased, AllSent) ==
      RS8Decoder.SearchPlan(3, 2, order, BothErased, found, RS8Decode.Truncate(Poly8.Product(T, C), 3), Poly8.Product(E, C))
  {
  }

  /** With no error found, the search repairs the erasures alone. */
  lemma NoErrorFound(Omega: Poly8.Poly, Lambda: Poly8.Poly)
    ensures RS8Decoder.SearchPlan(3, 2, 0, BothErased, 0, Omega, Lambda) == RS8Decoder.Repair(BothErased, Omega, Lambda)
  {
    assert RS8Decoder.Popcount(0) == 0;
  }

  /** The intended plan: the erasure repair with evaluator T mod x^3 and the erasure locator. */
  lemma IntendedPlan(S: Poly8.Poly, T: Poly8.Poly, E: Poly8.Poly)
    requires |S| == GF8Poly.Terms && RS8Decoder.Popcount(BothErased) == 2
    requires T == RS8Decoder.ForneySyndromes(S, 3, BothErased) && E == RS8.Locator(BothErased, RS8.BlockSyms)
    requires Low3(T, 3, 4, 0)
    ensures RS8Decoder.IntendedDecodePlan(S, 3, BothErased, AllSent) ==
      RS8Decoder.Repair(BothErased, RS8Decode.Truncate(T, 3), E)
  {
    IntendedSearch(T, E);
    ProductByOne(T);
    ProductByOne(E);
    NoErrorFound(RS8Decode.Truncate(T, 3), E);
  }

  /** The search over T[2..3): locator 1, order 0, no root found. */
  lemma IntendedSearch(T: Poly8.Poly, E: Poly8.Poly)
    requires Low3(T, 3, 4, 0)
    ensures RS8Decoder.IntendedErrorPlan(T, E, 3, 2, BothErased, AllSent) ==
      RS8Decoder.SearchPlan(3, 2, 0, BothErased, 0,
        RS8Decode.Truncate(Poly8.Product(T, RS8.One()), 3), Poly8.Product(E, RS8.One()))
  {
    RemainingLocator(T);
    var C := RS8.One();
    Poly8.OrderOf(C, 0);
    NoRootsOfOne(AllSent & !BothErased);
    IntendedSteps(T, E, C, 0, 0);
  }

  /** The derivative of 1 + 5x + x^2 is the constant 5. */
  lemma LocatorDerivative(L: Poly8.Poly)
    requires Low3(L, 1, 5, 1)
    ensures Low3(Poly8.Derivative(L), 5, 0, 0)
  {
    var D := Poly8.Derivative(L);
    Poly8.DerivativeKeepsOdd(L, 0);
    Poly8.DerivativeKeepsOdd(L, 1);
    Poly8.DerivativeKeepsOdd(L, 2);
    forall j | 3 <= j < GF8Poly.Terms
      ensures D[j] == 0
    {
      Poly8.DerivativeKeepsOdd(L, j);
    }
  }

  /** A polynomial a + bx evaluates to a + b x. */
  lemma EvalLinear(p: Poly8.Poly, a: GF8.Elem, b: GF8.Elem, x: GF8.Elem)
    requires Low3(p, a, b, 0)
    ensures Poly8.Eval(p, x) == GF8.Add(GF8.Mul(b, x), a)
  {
    EvalQuartic(p, x);
    GF8.AddZero(0);
    GF8.AddZero(b);
  }

  /**
    * Forney's values for the evaluator 3 + 4x and the derivative 5 at the
    * erased positions: 7 at position 3 (root 2^4 = 6) and 3 at position 4
    * (root 2^3 = 3), and these are the only solutions.
    */
  lemma ForneyValues(e: GF8.Elem)
    ensures GF8.Mul(e, 5) == GF8.Add(GF8.Mul(4, GF8.Exp[4]), 3) <==> e == 7
    ensures GF8.Mul(e, 5) == GF8.Add(GF8.Mul(4, GF8.Exp[3]), 3) <==> e == 3
  {
    assert GF8.Exp[4] == 6 && GF8.Exp[3] == 3;
    assert GF8.Add(GF8.Mul(4, 6), 3) == 6 == GF8.Mul(7, 5);
    assert GF8.Add(GF8.Mul(4, 3), 3) == 4 == GF8.Mul(3, 5);
    GF8.MulDivRoundTrip(e, 5);
    GF8.MulDivRoundTrip(7, 5);
    GF8.MulDivRoundTrip(3, 5);
  }

  /** The coefficients of the correction word: 7 at term 3, 3 at term 4. */
  lemma RepairCoeffs()
    ensures GF8Poly.Coeffs(Repair) == [0, 0, 0, 7, 3, 0, 0, 0, 0, 0]
    ensures Repair < GF8Poly.Limit && GF8Poly.Fits(Repair, 21)
  {
    GF8Poly.FitsBoundAt7(Repair);
  }

  /** Positions 3 and 4 are the only ones marked. */
  lemma ErasedOnly(p: nat)
    requires p < 8
    ensures RS8.Marked(BothErased, p) <==> p == 3 || p == 4
  {
    if p == 0 {
    } else if p == 1 {
    } else if p == 2 {
    } else if p == 3 {
    } else if p == 4 {
    } else if p == 5 {
    } else if p == 6 {
    }
  }

  /** Term p of a correction for the evaluator 3 + 4x and the derivative 5 is term p of Repair. */
  lemma CorrectionAt(Omega: Poly8.Poly, D: Poly8.Poly, p: nat, e: GF8.Elem)
    requires Low3(Omega, 3, 4, 0) && Low3(D, 5, 0, 0) && p < GF8Poly.Terms
    ensures RS8Magnitude.IsCorrection(Omega, D, BothErased, p, e) <==> e == GF8Poly.Coeffs(Repair)[p]
  {
    RepairCoeffs();
    if p == 3 || p == 4 {
      ErasedCorrection(Omega, D, p, e);
    } else if p < RS8.BlockSyms {
      ErasedOnly(p);
    }
  }

  /** At the erased positions 3 and 4 the correction solves Forney's equation: 7 and 3. */
  lemma ErasedCorrection(Omega: Poly8.Poly, D: Poly8.Poly, p: nat, e: GF8.Elem)
    requires Low3(Omega, 3, 4, 0) && Low3(D, 5, 0, 0) && (p == 3 || p == 4)
    ensures RS8Magnitude.IsCorrection(Omega, D, BothErased, p, e) <==> e == if p == 3 then 7 else 3
  {
    var x := GF8.Exp[7 - p];
    EvalLinear(D, 5, 0, x);
    EvalLinear(Omega, 3, 4, x);
    GF8.AddZero(5);
    GF8.MulCommutes(0, x);
    ForneyValues(e);
    ErasedOnly(p);
  }

  /**
    * For the evaluator 3 + 4x and the derivative 5, the only word that
    * rs8_get_errata_magnitude may return for positions 3 and 4 is Repair.
    */
  lemma MagnitudeIff(Omega: Poly8.Poly, D: Poly8.Poly, mag: bv32)
    requires Low3(Omega, 3, 4, 0) && Low3(D, 5, 0, 0)
    ensures RS8Magnitude.ErrataMagnitudes(Omega, D, BothErased, mag) <==> mag == Repair
  {
    forall x: GF8.Elem
      ensures Poly8.Eval(D, x) == 5
    {
      EvalLinear(D, 5, 0, x);
      GF8.MulCommutes(0, x);
      GF8.AddZero(5);
    }
    assert RS8Magnitude.Divisible(D, BothErased);
    forall p | 0 <= p < GF8Poly.Terms
      ensures RS8Magnitude.IsCorrection(Omega, D, BothErased, p, GF8Poly.Coeffs(mag)[p])
          <==> GF8Poly.Coeffs(mag)[p] == GF8Poly.Coeffs(Repair)[p]
    {
      CorrectionAt(Omega, D, p, GF8Poly.Coeffs(mag)[p]);
    }
    RepairCoeffs();
    if RS8Magnitude.ErrataMagnitudes(Omega, D, BothErased, mag) {
      GF8Poly.FitsBoundAt7(mag);
      assert GF8Poly.Coeffs(mag) == GF8Poly.Coeffs(Repair);
      GF8Poly.CoeffsDetermine(mag, Repair);
    }
  }

  /** Repairing positions 3 and 4 of Received with the evaluator 3 + 4x and the locator 1 + 5x + x^2 gives Sent, and only Sent. */
  lemma RepairedIff(Omega: Poly8.Poly, Lambda: Poly8.Poly, d: RS8Decode.Decoded)
    requires Low3(Omega, 3, 4, 0) && Low3(Lambda, 1, 5, 1)
    ensures RS8Decoder.Repaired(Received, Omega, Lambda, BothErased, d) <==> d == RS8Decode.Corrected(Sent)
  {
    LocatorDerivative(Lambda);
    if d.Corrected? {
      MagnitudeIff(Omega, Poly8.Derivative(Lambda), GF8Poly.Add(Received, d.word));
      assert GF8Poly.Add(Received, d.word) == Repair <==> d.word == Sent;
    } else {
      MagnitudeIff(Omega, Poly8.Derivative(Lambda), Repair);
    }
  }

  /** Past the Singleton bound check and a zero syndrome check, the outcome is what the plan says. */
  lemma OutcomeFollowsPlan(recv: bv32, k: nat, ePos: bv8, txPos: bv8, d: RS8Decode.Decoded, pl: RS8Decoder.Plan)
    requires k <= RS8.MaxChecks && RS8Decoder.Popcount(ePos) <= k
    requires RS8.Syndromes(GF8Poly.Coeffs(recv), k) != Poly8.Zero(GF8Poly.Terms)
    requires pl == RS8Decoder.IntendedDecodePlan(RS8.Syndromes(GF8Poly.Coeffs(recv), k), k, ePos, txPos)
    ensures RS8Decoder.IntendedOutcome(recv, k, ePos, txPos, d) <==> RS8Decoder.Follows(recv, pl, d)
  {
  }

  /** The case's plan: repair positions 3 and 4 with the evaluator 3 + 4x and the locator 1 + 5x + x^2. */
  lemma CasePlan() returns (Omega: Poly8.Poly, Lambda: Poly8.Poly)
    ensures Low3(Omega, 3, 4, 0) && Low3(Lambda, 1, 5, 1)
    ensures RS8Decoder.IntendedDecodePlan(RS8.Syndromes(GF8Poly.Coeffs(Received), 3), 3, BothErased, AllSent)
      == RS8Decoder.Repair(BothErased, Omega, Lambda)
  {
    ErasedPositions();
    CaseSyndromes();
    var S := RS8.Syndromes(GF8Poly.Coeffs(Received), 3);
    var T := RS8Decoder.ForneySyndromes(S, 3, BothErased);
    Lambda := RS8.Locator(BothErased, RS8.BlockSyms);
    IntendedPlan(S, T, Lambda);
    Omega := RS8Decode.Truncate(T, 3);
    TruncateLow3(T);
  }

  /** Keeping the three lowest terms keeps a polynomial that is zero from term 3 up. */
  lemma TruncateLow3(T: Poly8.Poly)
    requires Low3(T, 3, 4, 0)
    ensures Low3(RS8Decode.Truncate(T, 3), 3, 4, 0)
  {
  }

  /**
    * With Berlekamp-Massey over the syndromes the erasures leave, the
    * decoder returns Sent for Received, three check symbols and positions 3
    * and 4 erased, and nothing else.
    */
  lemma IntendedRepairs(d: RS8Decode.Decoded)
    ensures RS8Decoder.IntendedOutcome(Received, 3, BothErased, AllSent, d) <==> d == RS8Decode.Corrected(Sent)
  {
    ErasedPositions();
    CaseSyndromes();
    var Omega, Lambda := CasePlan();
    OutcomeFollowsPlan(Received, 3, BothErased, AllSent, d, RS8Decoder.Repair(BothErased, Omega, Lambda));
    RepairedIff(Omega, Lambda, d);
  }
}
