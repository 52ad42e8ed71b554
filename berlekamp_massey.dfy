/**
  * The Berlekamp-Massey recursion of rs8_get_error_locator
  * (ReedSolomon/src/rs_gf8.c), on coefficient sequences.
  *
  * Given syndromes S, the recursion builds a connection polynomial C with
  * C[0] = 1 and a length L such that every syndrome from L on is generated
  * by the L before it: coefficient k of S * C is 0 for L <= k < N.  Its
  * state is the current locator C, the locator B saved at the last length
  * change, the length L, the discrepancy b met at that change and the
  * number m of steps since then (the source keeps L and m multiplied by
  * the symbol width).  `Run` is that recursion; `RunGenerates` proves what
  * it achieves.
  */
module BerlekampMassey {
  import GF8
  import Poly8

  datatype State = State(c: Poly8.Poly, b: Poly8.Poly, len: nat, disc: GF8.Elem, delay: nat)

  /** The polynomial 1 with n coefficients. */
  function Unit(n: nat): (p: Poly8.Poly)
    requires n > 0
    ensures |p| == n && p[0] == 1
    ensures forall j :: 0 < j < n ==> p[j] == 0
  {
    [1] + Poly8.Zero(n - 1)
  }

  /** The discrepancy at k: coefficient k of S * C, that is the sum of S[k - i] * C[i] for i <= k. */
  function Disc(S: Poly8.Poly, C: Poly8.Poly, k: nat): GF8.Elem
    requires k < |S| && k < |C|
  {
    Poly8.ConvolutionSum(S, C, k, k + 1)
  }

  /** The correction factor d / b; a zero b (which the recursion never meets) scales like the sentinel -1, by 7. */
  function Ratio(d: GF8.Elem, b: GF8.Elem): GF8.Elem
  {
    match GF8.Div(d, b)
    case Quot(v) => v
    case DivByZero => 7
  }

  /** C + (d / b) x^m B: the locator corrected by the saved one. */
  function Corrected(C: Poly8.Poly, B: Poly8.Poly, q: GF8.Elem, m: nat): (r: Poly8.Poly)
    requires |C| == |B|
    ensures |r| == |C|
  {
    Poly8.Add(C, Poly8.ShiftUpBy(Poly8.ScaleBy(B, q), m))
  }

  /** The recursion before any syndrome: C = B = 1, L = 0, b = 1, m = 1. */
  function Init(n: nat): State
    requires n > 0
  {
    State(Unit(n), Unit(n), 0, 1, 1)
  }

  /**
    * One step at syndrome n: with a zero discrepancy only m grows; otherwise C
    * is corrected by B, and when 2L <= n the length changes to n + 1 - L and
    * the old C, the discrepancy and m = 1 are saved.
    */
  function Step(S: Poly8.Poly, st: State, n: nat): (r: State)
    requires n < |S| && |st.c| == |S| && |st.b| == |S|
    ensures |r.c| == |S| && |r.b| == |S|
  {
    var d := Disc(S, st.c, n);
    if d == 0 then st.(delay := st.delay + 1)
    else
      var c := Corrected(st.c, st.b, Ratio(d, st.disc), st.delay);
      if 2 * st.len <= n then State(c, st.c, n + 1 - st.len, d, 1)
      else st.(c := c, delay := st.delay + 1)
  }

  /** The state after the first n syndromes. */
  function Run(S: Poly8.Poly, n: nat): (r: State)
    requires 0 < |S| && n <= |S|
    ensures |r.c| == |S| && |r.b| == |S|
  {
    if n == 0 then Init(|S|) else Step(S, Run(S, n - 1), n - 1)
  }

  /** The polynomial p has no non-zero coefficient above degree e. */
  ghost predicate ZeroAbove(p: Poly8.Poly, e: int)
  {
    forall j :: 0 <= j < |p| && e < j ==> p[j] == 0
  }

  /** C generates the syndromes k with lo <= k < hi. */
  ghost predicate Generates(S: Poly8.Poly, C: Poly8.Poly, lo: int, hi: int)
    requires hi <= |S| && |S| == |C|
  {
    forall k :: 0 <= lo <= k < hi ==> Disc(S, C, k) == 0
  }

  /**
    * What holds after n steps.  The saved B had length n - m + 1 - L when it
    * was saved at step n - m, generated the syndromes from that length up to
    * n - m and met the discrepancy b at n - m.  (Before the first length
    * change n - m is -1 and b = 1 stands for a virtual syndrome.)
    */
  ghost predicate Inv(S: Poly8.Poly, st: State, n: nat)
  {
    && n <= |S| && |st.c| == |S| && |st.b| == |S| && 0 < |S|
    && st.c[0] == 1 && st.b[0] == 1 && st.disc != 0
    && 1 <= st.delay <= n + 1 - st.len
    && ZeroAbove(st.c, st.len)
    && ZeroAbove(st.b, n + 1 - st.len - st.delay)
    && Generates(S, st.c, st.len, n)
    && Generates(S, st.b, n - st.delay + 1 - st.len, n - st.delay)
    && (n - st.delay >= 0 ==> Disc(S, st.b, n - st.delay) == st.disc)
  }

  // ---------------------------------------------------------------------
  // The discrepancy is linear in the locator
  // ---------------------------------------------------------------------

  lemma {:induction false} ConvSumAdd(p: Poly8.Poly, q: Poly8.Poly, r: Poly8.Poly, k: nat, n: nat)
    requires k < |p| && |q| == |r| && n <= |q| && n <= k + 1
    ensures Poly8.ConvolutionSum(p, Poly8.Add(q, r), k, n)
         == GF8.Add(Poly8.ConvolutionSum(p, q, k, n), Poly8.ConvolutionSum(p, r, k, n))
  {
    if n > 0 {
      ConvSumAdd(p, q, r, k, n - 1);
      var a := p[k - (n - 1)];
      GF8.MulCommutes(a, GF8.Add(q[n - 1], r[n - 1]));
      GF8.MulDistributes(q[n - 1], r[n - 1], a);
      GF8.MulCommutes(q[n - 1], a);
      GF8.MulCommutes(r[n - 1], a);
      GF8.AddSwapMiddle(Poly8.ConvolutionSum(p, q, k, n - 1), Poly8.ConvolutionSum(p, r, k, n - 1),
                        GF8.Mul(a, q[n - 1]), GF8.Mul(a, r[n - 1]));
    }
  }

  lemma {:induction false} ConvSumScale(p: Poly8.Poly, q: Poly8.Poly, c: GF8.Elem, k: nat, n: nat)
    requires k < |p| && n <= |q| && n <= k + 1
    ensures Poly8.ConvolutionSum(p, Poly8.ScaleBy(q, c), k, n) == GF8.Mul(Poly8.ConvolutionSum(p, q, k, n), c)
  {
    if n > 0 {
      ConvSumScale(p, q, c, k, n - 1);
      var a := p[k - (n - 1)];
      GF8.MulAssociates(a, q[n - 1], c);
      GF8.MulDistributes(Poly8.ConvolutionSum(p, q, k, n - 1), GF8.Mul(a, q[n - 1]), c);
    }
  }

  /** The terms of a sum over a polynomial moved up by m start m places later. */
  lemma {:induction false} ConvSumShift(p: Poly8.Poly, q: Poly8.Poly, m: nat, k: nat, n: nat)
    requires k < |p| && n <= |q| && n <= k + 1
    ensures Poly8.ConvolutionSum(p, Poly8.ShiftUpBy(q, m), k, n)
         == if n <= m then 0 else Poly8.ConvolutionSum(p, q, k - m, n - m)
  {
    if n > 0 {
      ConvSumShift(p, q, m, k, n - 1);
      Poly8.ShiftUpByAt(q, m, n - 1);
      if n <= m {
        GF8.MulCommutes(p[k - (n - 1)], 0);
        GF8.AddZero(0);
      } else if n - 1 == m {
        GF8.AddZero(GF8.Mul(p[k - (n - 1)], q[0]));
      }
    }
  }

  /** Coefficients of q above degree e add nothing: the sum stops at e + 1 terms. */
  lemma {:induction false} ConvSumHigh(p: Poly8.Poly, q: Poly8.Poly, e: nat, k: nat, n: nat)
    requires k < |p| && n <= |q| && e + 1 <= n <= k + 1 && ZeroAbove(q, e)
    ensures Poly8.ConvolutionSum(p, q, k, n) == Poly8.ConvolutionSum(p, q, k, e + 1)
  {
    if n > e + 1 {
      ConvSumHigh(p, q, e, k, n - 1);
      GF8.MulCommutes(p[k - (n - 1)], 0);
      GF8.AddZero(Poly8.ConvolutionSum(p, q, k, n - 1));
    }
  }

  /** The discrepancy of the corrected locator: that of C plus q times that of B, m places back. */
  lemma DiscCorrected(S: Poly8.Poly, C: Poly8.Poly, B: Poly8.Poly, q: GF8.Elem, m: nat, k: nat)
    requires k < |S| && |C| == |S| && |B| == |S|
    ensures Disc(S, Corrected(C, B, q, m), k)
         == GF8.Add(Disc(S, C, k), if k >= m then GF8.Mul(Disc(S, B, k - m), q) else 0)
  {
    var T := Poly8.ShiftUpBy(Poly8.ScaleBy(B, q), m);
    ConvSumAdd(S, C, T, k, k + 1);
    DiscMovedBack(S, B, q, m, k);
  }

  /** The discrepancy sum over q B moved up by m: q times that of B, m places back. */
  lemma DiscMovedBack(S: Poly8.Poly, B: Poly8.Poly, q: GF8.Elem, m: nat, k: nat)
    requires k < |S| && |B| == |S|
    ensures Poly8.ConvolutionSum(S, Poly8.ShiftUpBy(Poly8.ScaleBy(B, q), m), k, k + 1)
         == if k >= m then GF8.Mul(Disc(S, B, k - m), q) else 0
  {
    ConvSumShift(S, Poly8.ScaleBy(B, q), m, k, k + 1);
    if k >= m {
      ConvSumScale(S, B, q, k - m, k - m + 1);
    }
  }

  // ---------------------------------------------------------------------
  // The invariant
  // ---------------------------------------------------------------------

  lemma InitInv(S: Poly8.Poly)
    requires 0 < |S|
    ensures Inv(S, Init(|S|), 0)
  {
  }

  /** Each step keeps the invariant. */
  lemma StepInv(S: Poly8.Poly, st: State, n: nat)
    requires n < |S| && Inv(S, st, n)
    ensures Inv(S, Step(S, st, n), n + 1)
  {
    if Disc(S, st.c, n) == 0 {
      StepZero(S, st, n);
    } else {
      StepNonZero(S, st, n);
    }
  }

  lemma StepNonZero(S: Poly8.Poly, st: State, n: nat)
    requires n < |S| && Inv(S, st, n) && Disc(S, st.c, n) != 0
    ensures Inv(S, Step(S, st, n), n + 1)
  {
    var d := Disc(S, st.c, n);
    var q := Ratio(d, st.disc);
    GF8.DivMulRoundTrip(d, st.disc);
    var c := Corrected(st.c, st.b, q, st.delay);
    CorrectedShape(st.c, st.b, q, st.delay, st.len, n + 1 - st.len - st.delay);
    if 2 * st.len <= n {
      StepLonger(S, st, n, d, q, c);
      assert Step(S, st, n) == State(c, st.c, n + 1 - st.len, d, 1);
    } else {
      StepSame(S, st, n, d, q, c);
      assert Step(S, st, n) == st.(c := c, delay := st.delay + 1);
    }
  }

  /** A zero discrepancy: C already generates syndrome n. */
  lemma StepZero(S: Poly8.Poly, st: State, n: nat)
    requires n < |S| && Inv(S, st, n) && Disc(S, st.c, n) == 0
    ensures Inv(S, st.(delay := st.delay + 1), n + 1)
  {
    assert (n + 1) - (st.delay + 1) == n - st.delay;
    assert (n + 1) + 1 - st.len - (st.delay + 1) == n + 1 - st.len - st.delay;
  }

  /** The corrected locator keeps the constant 1 and has degree at most max(L, deg B + m). */
  lemma CorrectedShape(C: Poly8.Poly, B: Poly8.Poly, q: GF8.Elem, m: nat, e: int, f: int)
    requires |C| == |B| && 0 < |C| && C[0] == 1 && 1 <= m
    requires ZeroAbove(C, e) && ZeroAbove(B, f)
    ensures Corrected(C, B, q, m)[0] == 1
    ensures ZeroAbove(Corrected(C, B, q, m), if e >= f + m then e else f + m)
  {
    var T := Poly8.ShiftUpBy(Poly8.ScaleBy(B, q), m);
    Poly8.ShiftUpByAt(Poly8.ScaleBy(B, q), m, 0);
    GF8.AddZero(1);
    var top := if e >= f + m then e else f + m;
    forall j | top < j < |C|
      ensures Corrected(C, B, q, m)[j] == 0
    {
      Poly8.ShiftUpByAt(Poly8.ScaleBy(B, q), m, j);
      GF8.AddZero(0);
    }
  }

  /** The new discrepancy at n cancels: d + (d / b) b = 0. */
  lemma Cancels(d: GF8.Elem, b: GF8.Elem, q: GF8.Elem)
    requires b != 0 && GF8.Div(d, b).Quot? && q == GF8.Div(d, b).value && GF8.Mul(q, b) == d
    ensures GF8.Add(d, GF8.Mul(b, q)) == 0
  {
    GF8.MulCommutes(b, q);
    GF8.AddSelf(d);
  }

  /**
    * The corrected locator has a zero discrepancy at n and at every k from lo
    * up, for any lo at least L and at least n + 1 - L.
    */
  lemma CorrectedDiscs(S: Poly8.Poly, st: State, n: nat, d: GF8.Elem, q: GF8.Elem, c: Poly8.Poly, lo: int)
    requires n < |S| && Inv(S, st, n) && d == Disc(S, st.c, n) && d != 0
    requires GF8.Div(d, st.disc).Quot? && q == Ratio(d, st.disc) && GF8.Mul(q, st.disc) == d
    requires c == Corrected(st.c, st.b, q, st.delay)
    requires st.len <= lo && n + 1 - st.len <= lo
    ensures forall k :: lo <= k < n + 1 ==> Disc(S, c, k) == 0
  {
    var m := st.delay;
    forall k | lo <= k < n + 1
      ensures Disc(S, c, k) == 0
    {
      DiscCorrected(S, st.c, st.b, q, m, k);
      if k == n {
        Cancels(d, st.disc, q);
      } else {
        GF8.MulCommutes(0, q);
        GF8.AddZero(0);
      }
    }
  }

  /** A non-zero discrepancy with 2L <= n: the length becomes n + 1 - L and C is saved as B. */
  lemma StepLonger(S: Poly8.Poly, st: State, n: nat, d: GF8.Elem, q: GF8.Elem, c: Poly8.Poly)
    requires n < |S| && Inv(S, st, n) && d == Disc(S, st.c, n) && d != 0 && 2 * st.len <= n
    requires GF8.Div(d, st.disc).Quot? && q == Ratio(d, st.disc) && GF8.Mul(q, st.disc) == d
    requires c == Corrected(st.c, st.b, q, st.delay)
    requires c[0] == 1 && ZeroAbove(c, if st.len >= n + 1 - st.len then st.len else n + 1 - st.len)
    ensures Inv(S, State(c, st.c, n + 1 - st.len, d, 1), n + 1)
  {
    var L, m := st.len, st.delay;
    var L' := n + 1 - L;
    assert ZeroAbove(c, L');
    assert (n + 1) + 1 - L' - 1 == L;
    assert (n + 1) - 1 + 1 - L' == L && (n + 1) - 1 == n;
    CorrectedDiscs(S, st, n, d, q, c, L');
  }

  /** A non-zero discrepancy with 2L > n: C is corrected and the length stays. */
  lemma StepSame(S: Poly8.Poly, st: State, n: nat, d: GF8.Elem, q: GF8.Elem, c: Poly8.Poly)
    requires n < |S| && Inv(S, st, n) && d == Disc(S, st.c, n) && d != 0 && 2 * st.len > n
    requires GF8.Div(d, st.disc).Quot? && q == Ratio(d, st.disc) && GF8.Mul(q, st.disc) == d
    requires c == Corrected(st.c, st.b, q, st.delay)
    requires c[0] == 1 && ZeroAbove(c, if st.len >= n + 1 - st.len then st.len else n + 1 - st.len)
    ensures Inv(S, st.(c := c, delay := st.delay + 1), n + 1)
  {
    var L, m := st.len, st.delay;
    var st' := st.(c := c, delay := m + 1);
    assert st'.c == c && st'.b == st.b && st'.len == L && st'.disc == st.disc && st'.delay == m + 1;
    assert ZeroAbove(c, L);
    assert (n + 1) - (m + 1) == n - m;
    assert (n + 1) + 1 - L - (m + 1) == n + 1 - L - m;
    CorrectedDiscs(S, st, n, d, q, c, L);
    assert Generates(S, c, L, n + 1);
    assert Generates(S, st.b, (n + 1) - (m + 1) + 1 - L, (n + 1) - (m + 1));
  }

  /** The invariant holds after every number of steps. */
  lemma {:induction false} RunInv(S: Poly8.Poly, n: nat)
    requires 0 < |S| && n <= |S|
    ensures Inv(S, Run(S, n), n)
  {
    if n == 0 {
      InitInv(S);
    } else {
      RunInv(S, n - 1);
      StepInv(S, Run(S, n - 1), n - 1);
    }
  }

  /**
    * What the recursion achieves after N syndromes: a locator with constant
    * term 1, of degree at most L <= N, that generates every syndrome from L
    * to N - 1 from the L before it.
    */
  lemma RunGenerates(S: Poly8.Poly, N: nat)
    requires 0 < |S| && N <= |S|
    ensures Run(S, N).c[0] == 1 && Run(S, N).len <= N
    ensures forall j :: Run(S, N).len < j < |S| ==> Run(S, N).c[j] == 0
    ensures forall k :: Run(S, N).len <= k < N ==> Disc(S, Run(S, N).c, k) == 0
  {
    RunInv(S, N);
  }
}
