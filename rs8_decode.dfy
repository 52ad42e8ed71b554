/**
  * The decoder of ReedSolomon/src/rs_gf8.c: errata evaluator (Forney
  * syndromes), Berlekamp-Massey error locator, root search, Forney
  * magnitudes and rs8_decode, which chains them.
  *
  * Positions are numbered as the symbols of a block: position p is
  * coefficient p of the received word, and its locator is 2^p.  A locator
  * polynomial has the roots 2^-p = 2^(7 - p) of its positions.  Position
  * masks are bytes with bit p for position p.
  */
module RS8Decode {
  import GF8
  import Poly8
  import GF8Poly
  import RS8
  import BerlekampMassey

  /** The outcome of rs8_decode: the corrected word, or one of the failures -1, -2, -3. */
  datatype Decoded = Corrected(word: bv32) | BeyondSingletonBound | TooManyErrors | RootCountMismatch

  /** p with every coefficient from n up replaced by 0. */
  function Truncate(p: Poly8.Poly, n: nat): (r: Poly8.Poly)
    ensures |r| == |p|
    ensures forall j :: 0 <= j < |p| ==> r[j] == if j < n then p[j] else 0
  {
    seq(|p|, j requires 0 <= j < |p| => if j < n then p[j] else 0)
  }

  // ---------------------------------------------------------------------
  // rs8_get_errata_evaluator
  // ---------------------------------------------------------------------

  /** ~((gf8_poly)-1 << 3n): the bits of the first n terms. */
  function LowMask(n: nat): bv32
    requires n <= GF8Poly.Terms
  {
    GF8Poly.Bound(n) - 1
  }

  /**
    * rs8_get_errata_evaluator: the product of the syndromes by a locator
    * whose constant term is 1, kept to its first chkSz / 3 terms.  It is the
    * whole product there, although gf8_poly_mul_q0_monic reads only six
    * terms of the locator, because the terms it drops reach no lower degree.
    */
  function ErrataEvaluator(synd: bv32, chkSz: int, loc: bv32): (r: bv32)
    requires 0 <= chkSz <= 3 * RS8.MaxChecks && chkSz % 3 == 0
    requires GF8Poly.Coeff(loc, 0) == 1
    ensures GF8Poly.Fits(r, chkSz) && r < GF8Poly.Limit
    ensures GF8Poly.Coeffs(r) == Truncate(Poly8.Product(GF8Poly.Coeffs(synd), GF8Poly.Coeffs(loc)), chkSz / 3)
  {
    var r := GF8Poly.Common(GF8Poly.MulQ0Monic(synd, loc), LowMask(chkSz / 3));
    EvaluatorTerms(synd, loc, chkSz / 3, r);
    assert chkSz == 3 * (chkSz / 3);
    r
  }

  lemma EvaluatorTerms(synd: bv32, loc: bv32, n: nat, r: bv32)
    requires n <= RS8.MaxChecks && GF8Poly.Coeff(loc, 0) == 1
    requires r == GF8Poly.Common(GF8Poly.MulQ0Monic(synd, loc), LowMask(n))
    ensures GF8Poly.Fits(r, 3 * n) && r < GF8Poly.Limit
    ensures GF8Poly.Coeffs(r) == Truncate(Poly8.Product(GF8Poly.Coeffs(synd), GF8Poly.Coeffs(loc)), n)
  {
    EvaluatorShape(GF8Poly.MulQ0Monic(synd, loc), n, r);
    EvaluatorCoeffs(synd, loc, n, r);
  }

  /** Masking to n terms fits the word in 3n bits, below the limit. */
  lemma EvaluatorShape(w: bv32, n: nat, r: bv32)
    requires n <= RS8.MaxChecks && r == GF8Poly.Common(w, LowMask(n))
    ensures GF8Poly.Fits(r, 3 * n) && r < GF8Poly.Limit
  {
    MaskBelow(w, n);
    GF8Poly.FitsBound(r, n);
    GF8Poly.BelowLimit(r, n);
  }

  lemma EvaluatorCoeffs(synd: bv32, loc: bv32, n: nat, r: bv32)
    requires n <= RS8.MaxChecks && GF8Poly.Coeff(loc, 0) == 1
    requires r == GF8Poly.Common(GF8Poly.MulQ0Monic(synd, loc), LowMask(n))
    ensures GF8Poly.Coeffs(r) == Truncate(Poly8.Product(GF8Poly.Coeffs(synd), GF8Poly.Coeffs(loc)), n)
  {
    var w := GF8Poly.MulQ0Monic(synd, loc);
    var P, Q := GF8Poly.Coeffs(synd), GF8Poly.Coeffs(loc);
    GF8Poly.MulQ0MonicIsProduct(synd, loc);
    var R, PQ := GF8Poly.Coeffs(r), Poly8.Product(P, Q);
    forall j | 0 <= j < GF8Poly.Terms
      ensures R[j] == if j < n then PQ[j] else 0
    {
      EvaluatorTerm(w, n, r, P, Q, j);
    }
    TruncateEq(R, PQ, n);
  }

  /** A sequence that agrees with the truncation of p at every index is that truncation. */
  lemma TruncateEq(R: Poly8.Poly, p: Poly8.Poly, n: nat)
    requires |R| == |p|
    requires forall j :: 0 <= j < |p| ==> R[j] == if j < n then p[j] else 0
    ensures R == Truncate(p, n)
  {
  }

  lemma EvaluatorTerm(w: bv32, n: nat, r: bv32, P: Poly8.Poly, Q: Poly8.Poly, j: nat)
    requires n <= RS8.MaxChecks && j < GF8Poly.Terms && |P| == GF8Poly.Terms && |Q| == GF8Poly.Terms
    requires GF8Poly.Coeffs(w) == Poly8.Product(P, Q[..6])
    requires r == GF8Poly.Common(w, LowMask(n))
    ensures GF8Poly.Coeffs(r)[j] == if j < n then Poly8.Product(P, Q)[j] else 0
  {
    GF8Poly.CoeffsAt(r, j);
    GF8Poly.CoeffAnd(w, LowMask(n), j);
    MaskCoeff(n, j);
    GF8Poly.CoeffsAt(w, j);
    var e := GF8Poly.Coeff(w, j);
    assert e & 7 == e && e & 0 == 0;
    if j < n {
      ProductPrefix(P, Q, Q[..6], j);
    }
  }

  /** Masking with the first n terms leaves a word below 8^n. */
  lemma MaskBelow(w: bv32, n: nat)
    requires n <= RS8.MaxChecks
    ensures GF8Poly.Common(w, LowMask(n)) < GF8Poly.Bound(n)
  {
    if n == 0 {} else if n == 1 {} else if n == 2 {} else if n == 3 {}
    else if n == 4 {} else if n == 5 {} else {}
  }

  /** Term k of the mask of n terms is all ones below n and 0 from n up. */
  lemma MaskCoeff(n: nat, k: nat)
    requires n <= RS8.MaxChecks && k < GF8Poly.Terms
    ensures GF8Poly.Coeff(LowMask(n), k) == if k < n then 7 else 0
  {
    if n == 0 {} else if n == 1 {} else if n == 2 {} else if n == 3 {}
    else if n == 4 {} else if n == 5 {} else {}
  }

  /** Coefficient k of a product reads only the first k + 1 coefficients of the second factor. */
  lemma ProductPrefix(P: Poly8.Poly, Q: Poly8.Poly, Q': Poly8.Poly, k: nat)
    requires k < |Q'| <= |Q| && k < |P|
    requires forall j :: 0 <= j < |Q'| ==> Q'[j] == Q[j]
    ensures Poly8.Product(P, Q')[k] == Poly8.Product(P, Q)[k]
  {
    Poly8.ProductIsConvolution(P, Q', k);
    Poly8.ProductIsConvolution(P, Q, k);
    ConvSumPrefix(P, Q, Q', k, k + 1);
  }

  lemma {:induction false} ConvSumPrefix(P: Poly8.Poly, Q: Poly8.Poly, Q': Poly8.Poly, k: nat, m: nat)
    requires k < |P| && m <= |Q'| <= |Q| && m <= k + 1
    requires forall j :: 0 <= j < |Q'| ==> Q'[j] == Q[j]
    ensures Poly8.ConvolutionSum(P, Q', k, m) == Poly8.ConvolutionSum(P, Q, k, m)
  {
    if m > 0 {
      ConvSumPrefix(P, Q, Q', k, m - 1);
    }
  }

  // ---------------------------------------------------------------------
  // rs8_get_error_locator
  // ---------------------------------------------------------------------

  /** The words of rs8_get_error_locator in bits hold the state st of the recursion. */
  ghost predicate Words(st: BerlekampMassey.State, loc: bv32, last: bv32, errorSz: int, delay: int, discLast: GF8.Elem)
  {
    && loc < GF8Poly.Limit && last < GF8Poly.Limit
    && GF8Poly.Coeffs(loc) == st.c && GF8Poly.Coeffs(last) == st.b
    && errorSz == 3 * st.len && delay == 3 * st.delay && discLast == st.disc
  }

  /** The words of the loop of rs8_get_error_locator hold the state of the recursion after t syndromes. */
  ghost predicate LocatorWords(S: Poly8.Poly, t: nat, loc: bv32, last: bv32, errorSz: int, delay: int, discLast: GF8.Elem)
    requires 0 < |S| && t <= |S|
  {
    var st := BerlekampMassey.Run(S, t);
    && BerlekampMassey.Inv(S, st, t)
    && loc < GF8Poly.Limit && last < GF8Poly.Limit
    && GF8Poly.Coeffs(loc) == st.c && GF8Poly.Coeffs(last) == st.b
    && errorSz == 3 * st.len && delay == 3 * st.delay && discLast == st.disc
  }

  /**
    * rs8_get_error_locator: Berlekamp-Massey over the first sSz / 3
    * syndromes.  C (error_loc), B (error_loc_last), L (error_sz), m (delay)
    * and b (disc_last) are kept in bits, L and m as 3L and 3m.  The
    * discrepancy is summed over the L + 1 terms of C; the result is the
    * locator of the recursion, which generates the syndromes from L on.
    */
  method ErrorLocator(synd: bv32, sSz: int) returns (loc: bv32)
    requires 0 <= sSz <= 3 * RS8.MaxChecks && sSz % 3 == 0
    ensures loc < GF8Poly.Limit
    ensures GF8Poly.Coeffs(loc) == BerlekampMassey.Run(GF8Poly.Coeffs(synd), sSz / 3).c
  {
    ghost var S := GF8Poly.Coeffs(synd);
    loc := 1;
    var last: bv32 := 1;
    var errorSz := 0;
    var delay := 3;
    var discLast: GF8.Elem := 1;
    var n := 0;
    ghost var t: nat := 0;
    ghost var T: nat := sSz / 3;
    assert sSz == 3 * T;
    LocatorStart(S);
    while n < sSz
      invariant n == 3 * t && t <= T
      invariant LocatorWords(S, t, loc, last, errorSz, delay, discLast)
    {
      ghost var st := BerlekampMassey.Run(S, t);
      WordsFacts(synd, S, t, loc, last, errorSz, delay, discLast);
      var disc := Discrepancy(synd, loc, n, errorSz, S, st.c, t, st.len);
      DiscDone(S, st, t, disc);
      loc, last, errorSz, delay, discLast := Correct(loc, last, errorSz, delay, discLast, disc, n, S, t);
      n := n + 3;
      t := t + 1;
    }
    assert sSz / 3 == t;
  }

  /**
    * The rest of the loop body of rs8_get_error_locator: with a nonzero
    * discrepancy C is corrected by x^m B scaled by d / b, and when 2L <= n
    * the old C, the new length, d and m = 0 are kept; m then grows by one term.
    */
  method Correct(loc: bv32, last: bv32, errorSz: int, delay: int, discLast: GF8.Elem, disc: GF8.Elem, n: int,
                 ghost S: Poly8.Poly, ghost t: nat)
      returns (loc': bv32, last': bv32, errorSz': int, delay': int, discLast': GF8.Elem)
    requires |S| == GF8Poly.Terms && t < RS8.MaxChecks && n == 3 * t
    requires LocatorWords(S, t, loc, last, errorSz, delay, discLast)
    requires disc == BerlekampMassey.Disc(S, BerlekampMassey.Run(S, t).c, t)
    ensures LocatorWords(S, t + 1, loc', last', errorSz', delay', discLast')
  {
    loc', last', errorSz', delay', discLast' := loc, last, errorSz, delay, discLast;
    if disc != 0 {
      var temp := loc';
      loc' := GF8Poly.Add(loc', GF8Poly.ShiftUpBy(GF8Poly.Scale(last', BerlekampMassey.Ratio(disc, discLast')), delay' / 3));
      if 2 * errorSz' <= n {
        last' := temp;
        errorSz' := 3 + n - errorSz';
        discLast' := disc;
        delay' := 0;
      }
    }
    delay' := delay' + 3;
    LocatorStep(S, t, t + 1, loc, last, errorSz, delay, discLast, disc, loc', last', errorSz', delay', discLast');
  }

  /**
    * The inner loop of rs8_get_error_locator: term n of the syndromes plus
    * C[i] S[n - i] over the terms i = 1 .. L of the locator C, all in bits.
    */
  method Discrepancy(synd: bv32, loc: bv32, n: int, errorSz: int, ghost S: Poly8.Poly, ghost C: Poly8.Poly, ghost t: nat, ghost L: nat)
      returns (disc: GF8.Elem)
    requires TermsOf(synd, S) && TermsOf(loc, C) && C[0] == 1
    requires n == 3 * t && t < GF8Poly.Terms && errorSz == 3 * L && L <= t
    ensures disc == Poly8.ConvolutionSum(S, C, t, L + 1)
  {
    disc := GF8Poly.Term(synd, n);
    var i := 3;
    ghost var j: nat := 1;
    TermAt(synd, S, n, t);
    ConvSumFirst(S, C, t);
    while i <= errorSz
      invariant i == 3 * j && 1 <= j <= L + 1
      invariant disc == Poly8.ConvolutionSum(S, C, t, j)
    {
      disc := DiscrepancyTerm(synd, loc, n, i, disc, S, C, t, j);
      i := i + 3;
      j := j + 1;
    }
  }

  /** One pass of the inner loop of rs8_get_error_locator: the product term C[j] S[t - j] is added. */
  method DiscrepancyTerm(synd: bv32, loc: bv32, n: int, i: int, disc: GF8.Elem,
                         ghost S: Poly8.Poly, ghost C: Poly8.Poly, ghost t: nat, ghost j: nat)
      returns (disc': GF8.Elem)
    requires TermsOf(synd, S) && TermsOf(loc, C)
    requires n == 3 * t && t < GF8Poly.Terms && i == 3 * j && 1 <= j <= t
    requires disc == Poly8.ConvolutionSum(S, C, t, j)
    ensures disc' == Poly8.ConvolutionSum(S, C, t, j + 1)
  {
    var c := GF8Poly.Term(loc, i);
    var s := GF8Poly.Term(synd, n - i);
    TermAt(loc, C, i, j);
    TermAt(synd, S, n - i, t - j);
    ConvSumNext(S, C, t, j, c, s);
    disc' := GF8.Add(disc, GF8.Mul(c, s));
  }

  lemma LocatorStart(S: Poly8.Poly)
    requires |S| == GF8Poly.Terms
    ensures LocatorWords(S, 0, 1, 1, 0, 3, 1)
  {
    BerlekampMassey.InitInv(S);
    RS8.CoeffsOfOne();
  }

  /** The words p hold the coefficients P: the term at bit 3k is P[k]. */
  ghost predicate TermsOf(p: bv32, P: Poly8.Poly)
  {
    |P| == GF8Poly.Terms && forall k :: 0 <= k < GF8Poly.Terms ==> GF8Poly.Term(p, 3 * k) == P[k]
  }

  lemma CoeffsAreTerms(p: bv32)
    ensures TermsOf(p, GF8Poly.Coeffs(p))
  {
    forall k | 0 <= k < GF8Poly.Terms
      ensures GF8Poly.Term(p, 3 * k) == GF8Poly.Coeffs(p)[k]
    {
      GF8Poly.TermIsCoeff(p, k);
      GF8Poly.CoeffsAt(p, k);
    }
  }

  lemma TermAt(p: bv32, P: Poly8.Poly, i: int, k: nat)
    requires TermsOf(p, P) && k < GF8Poly.Terms && i == 3 * k
    ensures GF8Poly.Term(p, i) == P[k]
  {
  }

  /** The discrepancy sum starts from S[t], since C[0] = 1. */
  lemma ConvSumFirst(S: Poly8.Poly, C: Poly8.Poly, t: nat)
    requires t < |S| && 0 < |C| && C[0] == 1
    ensures Poly8.ConvolutionSum(S, C, t, 1) == S[t]
  {
    GF8.MulOne(S[t]);
    GF8.AddZero(S[t]);
  }

  /** One more term of the discrepancy sum, with the factors in the order the loop multiplies them. */
  lemma ConvSumNext(S: Poly8.Poly, C: Poly8.Poly, t: nat, j: nat, c: GF8.Elem, s: GF8.Elem)
    requires t < |S| && j < |C| && j <= t && c == C[j] && s == S[t - j]
    ensures Poly8.ConvolutionSum(S, C, t, j + 1) == GF8.Add(Poly8.ConvolutionSum(S, C, t, j), GF8.Mul(c, s))
  {
    GF8.MulCommutes(c, s);
  }

  /** The sum over the L + 1 terms of C is the whole discrepancy: C has nothing above degree L. */
  lemma DiscDone(S: Poly8.Poly, st: BerlekampMassey.State, t: nat, disc: GF8.Elem)
    requires t < |S| && BerlekampMassey.Inv(S, st, t)
    requires disc == Poly8.ConvolutionSum(S, st.c, t, st.len + 1)
    ensures disc == BerlekampMassey.Disc(S, st.c, t)
  {
    BerlekampMassey.ConvSumHigh(S, st.c, st.len, t, t + 1);
  }

  /** One pass of the outer loop takes the words from the state after t syndromes to the state after t'. */
  lemma LocatorStep(S: Poly8.Poly, t: nat, t': nat, loc: bv32, last: bv32, errorSz: int, delay: int, discLast: GF8.Elem,
                    disc: GF8.Elem, loc': bv32, last': bv32, errorSz': int, delay': int, discLast': GF8.Elem)
    requires |S| == GF8Poly.Terms && t < RS8.MaxChecks && t' == t + 1
    requires LocatorWords(S, t, loc, last, errorSz, delay, discLast)
    requires disc == BerlekampMassey.Disc(S, BerlekampMassey.Run(S, t).c, t)
    requires disc == 0 ==> loc' == loc && last' == last && errorSz' == errorSz && delay' == delay + 3 && discLast' == discLast
    requires disc != 0 ==>
      loc' == GF8Poly.Add(loc, GF8Poly.ShiftUpBy(GF8Poly.Scale(last, BerlekampMassey.Ratio(disc, discLast)), delay / 3))
    requires disc != 0 && 2 * errorSz <= 3 * t ==>
      last' == loc && errorSz' == 3 + 3 * t - errorSz && discLast' == disc && delay' == 3
    requires disc != 0 && 2 * errorSz > 3 * t ==>
      last' == last && errorSz' == errorSz && discLast' == discLast && delay' == delay + 3
    ensures LocatorWords(S, t', loc', last', errorSz', delay', discLast')
  {
    var st := BerlekampMassey.Run(S, t);
    BerlekampMassey.StepInv(S, st, t);
    var st' := BerlekampMassey.Step(S, st, t);
    assert BerlekampMassey.Run(S, t') == st';
    if disc == 0 {
      StepWordsZero(S, t, st, st', loc, last, errorSz, delay, discLast, disc, loc', last', errorSz', delay', discLast');
    } else if 2 * errorSz <= 3 * t {
      StepWordsLonger(S, t, st, st', loc, last, errorSz, delay, discLast, disc, loc', last', errorSz', delay', discLast');
    } else {
      StepWordsSame(S, t, st, st', loc, last, errorSz, delay, discLast, disc, loc', last', errorSz', delay', discLast');
    }
  }

  /** What the discrepancy loop needs of the words at the start of a pass. */
  lemma WordsFacts(synd: bv32, S: Poly8.Poly, t: nat, loc: bv32, last: bv32, errorSz: int, delay: int, discLast: GF8.Elem)
    requires S == GF8Poly.Coeffs(synd) && t <= |S|
    requires LocatorWords(S, t, loc, last, errorSz, delay, discLast)
    ensures var st := BerlekampMassey.Run(S, t);
      && BerlekampMassey.Inv(S, st, t) && TermsOf(synd, S) && TermsOf(loc, st.c) && st.c[0] == 1
      && errorSz == 3 * st.len && st.len <= t
  {
    CoeffsAreTerms(synd);
    CoeffsAreTerms(loc);
  }

  lemma StepWordsZero(S: Poly8.Poly, t: nat, st: BerlekampMassey.State, st': BerlekampMassey.State,
                      loc: bv32, last: bv32, errorSz: int, delay: int, discLast: GF8.Elem,
                      disc: GF8.Elem, loc': bv32, last': bv32, errorSz': int, delay': int, discLast': GF8.Elem)
    requires |S| == GF8Poly.Terms && t < |S| && Words(st, loc, last, errorSz, delay, discLast)
    requires disc == BerlekampMassey.Disc(S, st.c, t) && st' == BerlekampMassey.Step(S, st, t) && disc == 0
    requires loc' == loc && last' == last && errorSz' == errorSz && delay' == delay + 3 && discLast' == discLast
    ensures Words(st', loc', last', errorSz', delay', discLast')
  {
  }

  lemma StepWordsLonger(S: Poly8.Poly, t: nat, st: BerlekampMassey.State, st': BerlekampMassey.State,
                        loc: bv32, last: bv32, errorSz: int, delay: int, discLast: GF8.Elem,
                        disc: GF8.Elem, loc': bv32, last': bv32, errorSz': int, delay': int, discLast': GF8.Elem)
    requires |S| == GF8Poly.Terms && t < RS8.MaxChecks && BerlekampMassey.Inv(S, st, t) && Words(st, loc, last, errorSz, delay, discLast)
    requires disc == BerlekampMassey.Disc(S, st.c, t) && st' == BerlekampMassey.Step(S, st, t)
    requires disc != 0 && 2 * errorSz <= 3 * t
    requires loc' == GF8Poly.Add(loc, GF8Poly.ShiftUpBy(GF8Poly.Scale(last, BerlekampMassey.Ratio(disc, discLast)), delay / 3))
    requires last' == loc && errorSz' == 3 + 3 * t - errorSz && discLast' == disc && delay' == 3
    ensures Words(st', loc', last', errorSz', delay', discLast')
  {
    assert delay / 3 == st.delay;
    CorrectionWords(loc, last, st.c, st.b, BerlekampMassey.Ratio(disc, discLast), st.delay, st.len, t, loc');
  }

  lemma StepWordsSame(S: Poly8.Poly, t: nat, st: BerlekampMassey.State, st': BerlekampMassey.State,
                      loc: bv32, last: bv32, errorSz: int, delay: int, discLast: GF8.Elem,
                      disc: GF8.Elem, loc': bv32, last': bv32, errorSz': int, delay': int, discLast': GF8.Elem)
    requires |S| == GF8Poly.Terms && t < RS8.MaxChecks && BerlekampMassey.Inv(S, st, t) && Words(st, loc, last, errorSz, delay, discLast)
    requires disc == BerlekampMassey.Disc(S, st.c, t) && st' == BerlekampMassey.Step(S, st, t)
    requires disc != 0 && 2 * errorSz > 3 * t
    requires loc' == GF8Poly.Add(loc, GF8Poly.ShiftUpBy(GF8Poly.Scale(last, BerlekampMassey.Ratio(disc, discLast)), delay / 3))
    requires last' == last && errorSz' == errorSz && discLast' == discLast && delay' == delay + 3
    ensures Words(st', loc', last', errorSz', delay', discLast')
  {
    assert delay / 3 == st.delay;
    CorrectionWords(loc, last, st.c, st.b, BerlekampMassey.Ratio(disc, discLast), st.delay, st.len, t, loc');
  }

  /** The corrected locator in words: below Limit, with the coefficients of the corrected sequence. */
  lemma CorrectionWords(loc: bv32, last: bv32, C: Poly8.Poly, B: Poly8.Poly, q: GF8.Elem, m: nat, L: nat, t: nat, loc': bv32)
    requires loc < GF8Poly.Limit && last < GF8Poly.Limit && t < RS8.MaxChecks
    requires GF8Poly.Coeffs(loc) == C && GF8Poly.Coeffs(last) == B
    requires 1 <= m <= t + 1 - L && BerlekampMassey.ZeroAbove(B, t + 1 - L - m)
    requires loc' == GF8Poly.Add(loc, GF8Poly.ShiftUpBy(GF8Poly.Scale(last, q), m))
    ensures loc' < GF8Poly.Limit
    ensures GF8Poly.Coeffs(loc') == BerlekampMassey.Corrected(C, B, q, m)
  {
    var s := GF8Poly.Scale(last, q);
    GF8Poly.ScaleIsScaleBy(last, q);
    GF8Poly.ScaleBelowLimit(last, q);
    forall k | GF8Poly.Terms - m <= k < GF8Poly.Terms
      ensures GF8Poly.Coeffs(s)[k] == 0
    {
      GF8.MulCommutes(0, q);
    }
    GF8Poly.ShiftUpByBelowLimit(s, m);
    GF8Poly.CoeffsShiftUpBy(s, m);
    GF8Poly.CoeffsAdd(loc, GF8Poly.ShiftUpBy(s, m));
    RS8.AddBelowLimit(loc, GF8Poly.ShiftUpBy(s, m));
  }

  // ---------------------------------------------------------------------
  // rs8_get_error_pos
  // ---------------------------------------------------------------------

  /** The locator vanishes at 2^i, the root of position 7 - i. */
  ghost predicate RootAt(loc: bv32, i: nat)
    requires i < GF8.ExpEntries
  {
    Poly8.Eval(GF8Poly.Coeffs(loc), GF8.Exp[i]) == 0
  }

  /**
    * The verdict of step s of rs8_get_error_pos, for s in 1..7: position
    * 7 - s is allowed by maskPos and 2^s is a root of the locator.
    */
  ghost function Hits(loc: bv32, maskPos: bv8): (h: seq<bool>)
    ensures |h| == 8 && !h[0]
    ensures forall s :: 1 <= s < 8 ==> (h[s] <==> RS8.Marked(maskPos, 7 - s) && RootAt(loc, s))
  {
    seq(8, s => 1 <= s < 8 && RS8.Marked(maskPos, 7 - s) && RootAt(loc, s))
  }

  /** A byte shifted left n times, as the loop of rs8_get_error_pos does. */
  function ShiftedLeft(x: bv8, n: nat): (r: bv8)
    ensures n == 0 ==> r == x
  {
    if n == 0 then x else ShiftedLeft(x, n - 1) << 1
  }

  /** After n shifts, bit 7 of the mask is bit 7 - n of the original. */
  lemma ShiftedLeftTop(x: bv8, n: nat)
    requires 1 <= n < 8
    ensures ShiftedLeft(x, n) & 0x80 != 0 <==> RS8.Marked(x, 7 - n)
  {
    assert ShiftedLeft(x, 1) == x << 1;
    assert ShiftedLeft(x, 2) == (x << 1) << 1;
    assert ShiftedLeft(x, 3) == ((x << 1) << 1) << 1;
    assert ShiftedLeft(x, 4) == (((x << 1) << 1) << 1) << 1;
    assert ShiftedLeft(x, 5) == ((((x << 1) << 1) << 1) << 1) << 1;
    assert ShiftedLeft(x, 6) == (((((x << 1) << 1) << 1) << 1) << 1) << 1;
    assert ShiftedLeft(x, 7) == ((((((x << 1) << 1) << 1) << 1) << 1) << 1) << 1;
    if n == 1 {} else if n == 2 {} else if n == 3 {} else if n == 4 {}
    else if n == 5 {} else if n == 6 {} else {}
  }

  /** The result byte after n steps: the verdict of step s sits in bit n - s. */
  function Verdicts(h: seq<bool>, n: nat): (r: bv8)
    requires n < |h|
    ensures n == 0 ==> r == 0
  {
    if n == 0 then 0 else (Verdicts(h, n - 1) << 1) | (if h[n] then 1 else 0)
  }

  /** After all seven steps, bit p holds the verdict of step 7 - p, and bit 7 is clear. */
  lemma {:induction false} VerdictsBits(h: seq<bool>, p: nat)
    requires |h| == 8 && p < 8
    ensures RS8.Marked(Verdicts(h, 7), p) <==> p < 7 && h[7 - p]
  {
    var b := seq(8, s requires 0 <= s < 8 => if h[s] then 1 as bv8 else 0);
    assert Verdicts(h, 1) == b[1];
    assert Verdicts(h, 2) == (b[1] << 1) | b[2];
    assert Verdicts(h, 3) == (((b[1] << 1) | b[2]) << 1) | b[3];
    assert Verdicts(h, 4) == (((((b[1] << 1) | b[2]) << 1) | b[3]) << 1) | b[4];
    assert Verdicts(h, 5) == (((((((b[1] << 1) | b[2]) << 1) | b[3]) << 1) | b[4]) << 1) | b[5];
    assert Verdicts(h, 6) == (((((((((b[1] << 1) | b[2]) << 1) | b[3]) << 1) | b[4]) << 1) | b[5]) << 1) | b[6];
    assert Verdicts(h, 7) == (((((((((((b[1] << 1) | b[2]) << 1) | b[3]) << 1) | b[4]) << 1) | b[5]) << 1) | b[6]) << 1) | b[7];
    if p == 0 {} else if p == 1 {} else if p == 2 {} else if p == 3 {}
    else if p == 4 {} else if p == 5 {} else if p == 6 {} else {}
  }

  /**
    * rs8_get_error_pos: the positions p below 7 allowed by maskPos whose root
    * 2^(7 - p) is a root of the locator.  Both bytes shift left once per
    * position, so that bit 7 of the mask and bit 0 of the result belong to
    * position 7 - i at step i.
    */
  method ErrorPositions(loc: bv32, maskPos: bv8) returns (errorPos: bv8)
    requires GF8Poly.Fits(loc, 21)
    ensures forall p :: 0 <= p < RS8.BlockSyms ==>
      (RS8.Marked(errorPos, p) <==> RS8.Marked(maskPos, p) && RootAt(loc, 7 - p))
    ensures !RS8.Marked(errorPos, 7)
  {
    ghost var h := Hits(loc, maskPos);
    errorPos := 0;
    var mask := maskPos;
    var i := 1;
    while i <= RS8.BlockSyms
      invariant 1 <= i <= RS8.BlockSyms + 1
      invariant mask == ShiftedLeft(maskPos, i - 1)
      invariant errorPos == Verdicts(h, i - 1)
    {
      mask, errorPos := SearchStep(loc, maskPos, mask, errorPos, i, h);
      i := i + 1;
    }
    forall p | 0 <= p < 8
      ensures RS8.Marked(errorPos, p) <==> p < 7 && RS8.Marked(maskPos, p) && RootAt(loc, 7 - p)
    {
      VerdictsBits(h, p);
    }
  }

  /** One pass of the loop of rs8_get_error_pos, for the root 2^i. */
  method SearchStep(loc: bv32, maskPos: bv8, mask: bv8, errorPos: bv8, i: nat, ghost h: seq<bool>)
    returns (mask': bv8, errorPos': bv8)
    requires GF8Poly.Fits(loc, 21) && 1 <= i < 8
    requires h == Hits(loc, maskPos) && mask == ShiftedLeft(maskPos, i - 1)
    ensures mask' == ShiftedLeft(maskPos, i)
    ensures errorPos' == (errorPos << 1) | (if h[i] then 1 else 0)
  {
    errorPos' := errorPos << 1;
    mask' := mask << 1;
    ShiftedLeftTop(maskPos, i);
    if mask' & 0x80 != 0 {
      var hit := Probe(loc, i);
      assert hit == h[i];
      errorPos' := errorPos' | (if hit then 1 else 0);
    } else {
      assert !h[i];
    }
  }

  /** Whether the locator vanishes at 2^i: the negated evaluation of rs8_get_error_pos. */
  method Probe(loc: bv32, i: nat) returns (hit: bool)
    requires GF8Poly.Fits(loc, 21) && 1 <= i < 8
    ensures hit == RootAt(loc, i)
  {
    GF8.ExpNonZero(i);
    var y := GF8Poly.Eval(loc, 21, GF8.Exp[i]);
    hit := y == 0;
  }
}
