/**
  * The Reed-Solomon codec of ReedSolomon/src/rs_gf8.c: blocks of seven 3-bit
  * symbols over GF(8), systematic encoding with up to six check symbols, and
  * a decoder for erasures (positions the caller marks as unreliable) and
  * errors (positions it has to find).
  *
  * A block is a packed GF8Poly word: the symbol at position j is coefficient
  * j.  The generator for k check symbols is (x + 2^1)(x + 2^2)...(x + 2^k),
  * so the first consecutive root is 2^1, and a word is a codeword exactly
  * when it vanishes at those k powers of two.  The syndrome j of a received
  * word is its value at 2^(j+1).
  */
module RS8 {
  import GF8
  import Poly8
  import GF8Poly

  const BlockMask: bv32 := 0x1F_FFFF   // RS8_BLOCK_MASK = 07777777: the seven symbol positions of a block
  const BlockSyms: nat := 7            // GF8_MAX symbols per block
  const MaxChecks: nat := 6            // the largest check symbol count the generator table covers

  /**
    * rs8_G_polys: entry k is the generator for k check symbols, monic of
    * degree k.  In octal as in the source: 01, 012, 0163, 01525, 013123,
    * 0143562, 01111111.
    */
  const GPolys: seq<bv32> := [0x1, 0xA, 0x73, 0x355, 0x1653, 0xC772, 0x49249]

  // ---------------------------------------------------------------------
  // Word facts used by the codec
  // ---------------------------------------------------------------------

  /** The terms of w from n up are all 0. */
  ghost predicate ClearFrom(w: bv32, n: nat)
  {
    forall j :: n <= j < GF8Poly.Terms ==> GF8Poly.Coeffs(w)[j] == 0
  }

  /** A word below 8^n has its terms from n up clear. */
  lemma ClearFromBound(w: bv32, n: nat)
    requires n <= GF8Poly.Terms && w < GF8Poly.Bound(n)
    ensures ClearFrom(w, n)
  {
    forall j | n <= j < GF8Poly.Terms
      ensures GF8Poly.Coeffs(w)[j] == 0
    {
      GF8Poly.CoeffAbove(w, n, j);
      GF8Poly.CoeffsAt(w, j);
    }
  }

  /** A word below Limit whose terms from n up are clear lies below 8^n. */
  lemma {:induction false} BelowBoundOfCoeffs(w: bv32, n: nat)
    requires n <= GF8Poly.Terms && w < GF8Poly.Limit && ClearFrom(w, n)
    ensures w < GF8Poly.Bound(n)
    decreases GF8Poly.Terms - n
  {
    if n < GF8Poly.Terms {
      BelowBoundOfCoeffs(w, n + 1);
      if w >= GF8Poly.Bound(n) {
        GF8Poly.CoeffTop(w, n);
        GF8Poly.CoeffsAt(w, n);
        assert false;
      }
    }
  }

  /** A word below Limit is 0 exactly when all its coefficients are. */
  lemma ZeroIffNoCoeffs(w: bv32)
    requires w < GF8Poly.Limit
    ensures w == 0 <==> ClearFrom(w, 0)
  {
    if ClearFrom(w, 0) {
      BelowBoundOfCoeffs(w, 0);
    }
    if w == 0 {
      GF8Poly.CoeffsOfZero();
    }
  }

  /** A word that fits in a bits fits in any b >= a bits. */
  lemma {:induction false} FitsMonotone(w: bv32, a: int, b: int)
    requires a <= b && GF8Poly.Fits(w, a)
    ensures GF8Poly.Fits(w, b)
    decreases b
  {
    if a <= 0 {
      FitsZero(b);
    } else {
      FitsMonotone(GF8Poly.ShiftDown(w), a - 3, b - 3);
    }
  }

  /** The word 0 fits in any size. */
  lemma {:induction false} FitsZero(b: int)
    ensures GF8Poly.Fits(0, b)
    decreases b
  {
    if b > 0 {
      assert GF8Poly.ShiftDown(0) == 0;
      FitsZero(b - 3);
    }
  }

  /** Or-ing two words below Limit that have no non-zero term in common adds them. */
  lemma DisjointOr(a: bv32, c: bv32)
    requires a < GF8Poly.Limit && c < GF8Poly.Limit
    requires forall j :: 0 <= j < GF8Poly.Terms ==> GF8Poly.Coeffs(a)[j] == 0 || GF8Poly.Coeffs(c)[j] == 0
    ensures a | c == GF8Poly.Add(a, c)
  {
    var d := GF8Poly.Common(a, c);
    forall j | 0 <= j < GF8Poly.Terms
      ensures GF8Poly.Coeffs(d)[j] == 0
    {
      GF8Poly.CoeffsAt(d, j);
      GF8Poly.CoeffAnd(a, c, j);
      GF8Poly.CoeffsAt(a, j);
      GF8Poly.CoeffsAt(c, j);
    }
    CommonBelowLimit(a, c);
    ZeroIffNoCoeffs(d);
    NoCommonBits(a, c);
  }

  /** The common bits of a word below Limit lie below Limit. */
  lemma CommonBelowLimit(a: bv32, c: bv32)
    requires a < GF8Poly.Limit
    ensures GF8Poly.Common(a, c) < GF8Poly.Limit
  {
  }

  /** Words with no common bits: or and exclusive or agree. */
  lemma NoCommonBits(a: bv32, c: bv32)
    requires GF8Poly.Common(a, c) == 0
    ensures a | c == GF8Poly.Add(a, c)
  {
  }

  /** Exclusive or keeps bits 30 and 31 clear. */
  lemma AddBelowLimit(a: bv32, c: bv32)
    requires a < GF8Poly.Limit && c < GF8Poly.Limit
    ensures GF8Poly.Add(a, c) < GF8Poly.Limit
  {
  }

  // ---------------------------------------------------------------------
  // The generator table
  // ---------------------------------------------------------------------

  /** The polynomial 1. */
  function One(): (p: Poly8.Poly)
    ensures |p| == GF8Poly.Terms && p[0] == 1
    ensures forall i :: 0 < i < GF8Poly.Terms ==> p[i] == 0
  {
    [1] + Poly8.Zero(GF8Poly.Terms - 1)
  }

  /** The generator for k check symbols, built one root at a time: g_k = (x + 2^k) g_(k-1). */
  function Generator(k: nat): (g: Poly8.Poly)
    requires k <= MaxChecks
    ensures |g| == GF8Poly.Terms
  {
    if k == 0 then One()
    else Poly8.Add(Poly8.ScaleBy(Generator(k - 1), GF8.Exp[k]), Poly8.ShiftUp(Generator(k - 1)))
  }

  /** Every entry of rs8_G_polys is the product of its roots. */
  lemma {:induction false} GPolysAreGenerators(k: nat)
    requires k <= MaxChecks
    ensures GF8Poly.Coeffs(GPolys[k]) == Generator(k)
  {
    if k == 0 {
      CoeffsOfOne();
    } else {
      var e := GF8.Exp[k];
      GPolysAreGenerators(k - 1);
      GeneratorStep(k);
      TimesRootWord(GPolys[k - 1], e, Generator(k - 1));
      assert Generator(k) == Poly8.Add(Poly8.ScaleBy(Generator(k - 1), e), Poly8.ShiftUp(Generator(k - 1)));
    }
  }

  /** Multiplying a word by (x + e) in words multiplies its coefficients by (x + e). */
  lemma TimesRootWord(g: bv32, e: GF8.Elem, G: Poly8.Poly)
    requires GF8Poly.Coeffs(g) == G
    ensures GF8Poly.Coeffs(GF8Poly.Add(GF8Poly.Scale(g, e), GF8Poly.ShiftUp(g)))
         == Poly8.Add(Poly8.ScaleBy(G, e), Poly8.ShiftUp(G))
  {
    GF8Poly.CoeffsAdd(GF8Poly.Scale(g, e), GF8Poly.ShiftUp(g));
    GF8Poly.ScaleIsScaleBy(g, e);
    GF8Poly.CoeffsShiftUp(g);
  }

  /** The coefficients of the word 1. */
  lemma CoeffsOfOne()
    ensures GF8Poly.Coeffs(1) == One()
  {
    forall j | 0 <= j < GF8Poly.Terms
      ensures GF8Poly.Coeffs(1)[j] == One()[j]
    {
      GF8Poly.CoeffsAt(1, j);
      if j > 0 {
        GF8Poly.CoeffAbove(1, 1, j);
      }
    }
  }

  /** Entry k of rs8_G_polys is (x + 2^k) times entry k - 1, in words. */
  lemma GeneratorStep(k: nat)
    requires 0 < k <= MaxChecks
    ensures GPolys[k] == GF8Poly.Add(GF8Poly.Scale(GPolys[k - 1], GF8.Exp[k]), GF8Poly.ShiftUp(GPolys[k - 1]))
  {
    if k == 1 {
      assert GF8Poly.Scale(0x1, 2) == 0x2;
    } else if k == 2 {
      assert GF8Poly.Scale(0xA, 4) == 0x23;
    } else if k == 3 {
      assert GF8Poly.Scale(0x73, 3) == 0xCD;
    } else if k == 4 {
      assert GF8Poly.Scale(0x355, 6) == 0xCFB;
    } else if k == 5 {
      assert GF8Poly.Scale(0x1653, 7) == 0x75EA;
    } else {
      assert GF8Poly.Scale(0xC772, 5) == 0x2A9D9;
    }
  }

  /** The table entry for k check symbols has degree k and top coefficient 1. */
  lemma GeneratorShape(k: nat)
    requires k <= MaxChecks
    ensures GPolys[k] < GF8Poly.Bound(k + 1)
    ensures GF8Poly.Coeffs(GPolys[k])[k] == 1
  {
    GF8Poly.CoeffsAt(GPolys[k], k);
  }

  /** The top coefficient of every generator in the table is 0. */
  lemma GeneratorTopClear(k: nat)
    requires k <= MaxChecks
    ensures Generator(k)[GF8Poly.Terms - 1] == 0
  {
    GPolysAreGenerators(k);
    GPolyTopClear(k);
  }

  lemma GPolyTopClear(k: nat)
    requires k <= MaxChecks
    ensures GF8Poly.Coeffs(GPolys[k])[GF8Poly.Terms - 1] == 0
  {
    var g := GPolys[k];
    GF8Poly.CoeffsAt(g, GF8Poly.Terms - 1);
    GF8Poly.CoeffAboveAt9(g);
  }

  /** r is one of the roots 2^1 .. 2^k of the generator for k check symbols. */
  predicate IsRoot(k: nat, r: GF8.Elem)
  {
    exists i :: 1 <= i <= k && i < GF8.ExpEntries && r == GF8.Exp[i]
  }

  /** The roots for k check symbols are those for k - 1 and 2^k. */
  lemma IsRootStep(k: nat, r: GF8.Elem)
    requires 0 < k < GF8.ExpEntries
    ensures IsRoot(k, r) <==> IsRoot(k - 1, r) || r == GF8.Exp[k]
  {
    if IsRoot(k, r) && r != GF8.Exp[k] {
      var i :| 1 <= i <= k && i < GF8.ExpEntries && r == GF8.Exp[i];
      assert i < k;
    }
  }

  /** The value of the generator at r is 0 exactly at its roots 2^1 .. 2^k. */
  lemma {:induction false} GeneratorRoots(k: nat, r: GF8.Elem)
    requires k <= MaxChecks
    ensures Poly8.Eval(Generator(k), r) == 0 <==> IsRoot(k, r)
  {
    if k == 0 {
      EvalOne(r);
    } else {
      GeneratorRoots(k - 1, r);
      GeneratorEvalStep(k, r);
      IsRootStep(k, r);
      ProductZero(Poly8.Eval(Generator(k - 1), r), GF8.Exp[k], r);
    }
  }

  /** The value of the generator for k check symbols is the value for k - 1 times (2^k + r). */
  lemma GeneratorEvalStep(k: nat, r: GF8.Elem)
    requires 0 < k <= MaxChecks
    ensures Poly8.Eval(Generator(k), r) == GF8.Mul(Poly8.Eval(Generator(k - 1), r), GF8.Add(GF8.Exp[k], r))
  {
    GeneratorTopClear(k - 1);
    EvalTimesLinear(Generator(k - 1), GF8.Exp[k], r);
  }

  /** E (e + r) is 0 exactly when E is 0 or r is e. */
  lemma ProductZero(E: GF8.Elem, e: GF8.Elem, r: GF8.Elem)
    ensures GF8.Mul(E, GF8.Add(e, r)) == 0 <==> E == 0 || r == e
  {
    AddZeroIffEqual(e, r);
  }

  /** Two field elements add to 0 exactly when they are equal. */
  lemma AddZeroIffEqual(a: GF8.Elem, b: GF8.Elem)
    ensures GF8.Add(a, b) == 0 <==> a == b
  {
    GF8.AddSelf(a);
  }

  /** Multiplying a polynomial with a clear top coefficient by (x + e) multiplies its values by (e + r). */
  lemma EvalTimesLinear(G: Poly8.Poly, e: GF8.Elem, r: GF8.Elem)
    requires |G| > 0 && G[|G| - 1] == 0
    ensures Poly8.Eval(Poly8.Add(Poly8.ScaleBy(G, e), Poly8.ShiftUp(G)), r) == GF8.Mul(Poly8.Eval(G, r), GF8.Add(e, r))
  {
    var E := Poly8.Eval(G, r);
    Poly8.EvalAdd(Poly8.ScaleBy(G, e), Poly8.ShiftUp(G), r);
    Poly8.EvalScaleBy(G, e, r);
    Poly8.EvalShiftUp(G, r);
    GF8.MulDistributes(e, r, E);
    GF8.MulCommutes(E, GF8.Add(e, r));
    GF8.MulCommutes(e, E);
    GF8.MulCommutes(r, E);
  }

  /** The polynomial 1 evaluates to 1 everywhere. */
  lemma EvalOne(r: GF8.Elem)
    ensures Poly8.Eval(One(), r) == 1
  {
    var c := One();
    Poly8.EvalFront(c, r);
    assert c[1..] == Poly8.Zero(GF8Poly.Terms - 1);
    Poly8.EvalZero(GF8Poly.Terms - 1, r);
    GF8.MulCommutes(0, r);
    GF8.AddZero(1);
  }

  // ---------------------------------------------------------------------
  // Codewords and rs8_encode
  // ---------------------------------------------------------------------

  /** w vanishes at 2^1 .. 2^k, the roots of the generator for k check symbols. */
  ghost predicate IsCodeword(w: bv32, k: nat)
    requires k <= MaxChecks
  {
    forall i :: 1 <= i <= k ==> Poly8.Eval(GF8Poly.Coeffs(w), GF8.Exp[i]) == 0
  }

  /** The message part of raw that rs8_encode keeps: raw & (RS8_BLOCK_MASK >> 3k). */
  function Message(raw: bv32, chkSyms: nat): bv32
    requires chkSyms <= MaxChecks
  {
    raw & (BlockMask >> (chkSyms * 3))
  }

  /** The message fits in the 7 - k positions above the check symbols. */
  lemma MessageBound(raw: bv32, k: nat)
    requires k <= MaxChecks
    ensures Message(raw, k) < GF8Poly.Bound(BlockSyms - k)
  {
  }

  /** The message in the forms the encoder needs: below Limit, in 7 - k terms, its terms from 7 - k up clear. */
  lemma MessageFits(raw: bv32, k: nat)
    requires k <= MaxChecks
    ensures Message(raw, k) < GF8Poly.Limit
    ensures GF8Poly.Fits(Message(raw, k), 3 * (BlockSyms - k))
    ensures ClearFrom(Message(raw, k), BlockSyms - k)
  {
    MessageBelowLimit(raw, k);
    MessageSizeFits(raw, k);
    MessageClear(raw, k);
  }

  lemma MessageBelowLimit(raw: bv32, k: nat)
    requires k <= MaxChecks
    ensures Message(raw, k) < GF8Poly.Limit
  {
    MessageBound(raw, k);
    GF8Poly.BelowLimit(Message(raw, k), BlockSyms - k);
  }

  lemma MessageSizeFits(raw: bv32, k: nat)
    requires k <= MaxChecks
    ensures GF8Poly.Fits(Message(raw, k), 3 * (BlockSyms - k))
  {
    MessageBound(raw, k);
    GF8Poly.FitsBound(Message(raw, k), BlockSyms - k);
  }

  lemma MessageClear(raw: bv32, k: nat)
    requires k <= MaxChecks
    ensures ClearFrom(Message(raw, k), BlockSyms - k)
  {
    MessageBound(raw, k);
    ClearFromBound(Message(raw, k), BlockSyms - k);
  }

  /**
    * rs8_encode: keeps the 7 - k message symbols of raw, appends k check
    * symbols below them, and returns a codeword of the block: it vanishes at
    * 2^1 .. 2^k, fits in seven symbols, and from position k up it is the
    * message unchanged.  The message must not be 0: gf8_poly_get_size gives
    * it size 0 and gf8_poly_mod would then shift by a negative amount.
    */
  method Encode(raw: bv32, chkSyms: int) returns (cw: bv32)
    requires 0 <= chkSyms <= MaxChecks
    requires Message(raw, chkSyms) != 0
    ensures IsCodeword(cw, chkSyms)
    ensures forall j :: chkSyms <= j < GF8Poly.Terms ==>
      GF8Poly.Coeffs(cw)[j] == GF8Poly.Coeffs(Message(raw, chkSyms))[j - chkSyms]
    ensures GF8Poly.Fits(cw, 3 * BlockSyms)
  {
    var chkSz := chkSyms * 3;
    var msg := Message(raw, chkSyms);                // raw &= RS8_BLOCK_MASK >> chk_sz
    MessageFits(raw, chkSyms);
    var msgSz := GF8Poly.GetSize(msg);
    MessageSize(msg, msgSz, chkSyms);
    chkSz := chkSz + 3;
    GeneratorFits(chkSyms, chkSz);
    var chk := GF8Poly.Mod(msg, msgSz, GPolys[chkSyms], chkSz);
    var high := GF8Poly.ShiftUpBy(msg, chkSyms);    // raw <<= chk_sz - GF8_SYM_SZ
    cw := high | chk;
    CheckedWord(msg, chkSyms, chk, high, cw);
    CheckedRoots(msg, chkSyms, chk, cw);
  }

  /** The size gf8_poly_get_size reports for a non-zero message leaves room for the check symbols. */
  lemma MessageSize(msg: bv32, sz: int, k: nat)
    requires k <= MaxChecks && msg != 0 && GF8Poly.Fits(msg, 3 * (BlockSyms - k))
    requires sz == 3 * (Poly8.Order(GF8Poly.Coeffs(msg)) + 1)
    requires GF8Poly.Fits(msg, sz) && (sz > 0 ==> !GF8Poly.Fits(msg, sz - 3))
    ensures 3 <= sz <= 3 * (BlockSyms - k) && sz % 3 == 0
  {
    if 3 * (BlockSyms - k) <= sz - 3 {
      FitsMonotone(msg, 3 * (BlockSyms - k), sz - 3);
    }
  }

  /** The table entry for k check symbols fits in k + 1 terms and is monic of degree k. */
  lemma GeneratorFits(k: nat, qSz: int)
    requires k <= MaxChecks && qSz == 3 * k + 3
    ensures GF8Poly.Fits(GPolys[k], qSz) && qSz / 3 - 1 == k
    ensures GF8Poly.Coeffs(GPolys[k])[k] == 1
  {
    GeneratorShape(k);
    assert qSz == 3 * (k + 1);
    GF8Poly.FitsBound(GPolys[k], k + 1);
  }

  /**
    * The remainder gf8_poly_mod leaves has its terms from k up clear, so
    * or-ing it below the message moved up k terms adds the two, and the
    * block carries the message from position k up.
    */
  lemma CheckedWord(msg: bv32, k: nat, chk: bv32, high: bv32, cw: bv32)
    requires k <= MaxChecks && msg < GF8Poly.Limit && ClearFrom(msg, BlockSyms - k)
    requires chk < GF8Poly.Limit && ClearFrom(chk, k)
    requires high == GF8Poly.ShiftUpBy(msg, k) && cw == high | chk
    ensures cw == GF8Poly.Add(high, chk)
    ensures forall j :: k <= j < GF8Poly.Terms ==> GF8Poly.Coeffs(cw)[j] == GF8Poly.Coeffs(msg)[j - k]
    ensures GF8Poly.Fits(cw, 3 * BlockSyms)
  {
    var M := GF8Poly.Coeffs(msg);
    MovedMessage(msg, k);
    DisjointOr(high, chk);
    AddBelowLimit(high, chk);
    GF8Poly.CoeffsAdd(high, chk);
    forall j | k <= j < GF8Poly.Terms
      ensures GF8Poly.Coeffs(cw)[j] == M[j - k]
    {
      GF8.AddZero(M[j - k]);
    }
    BlockFits(cw);
  }

  /** A word below Limit with its terms from 7 up clear fits in a block. */
  lemma BlockFits(w: bv32)
    requires w < GF8Poly.Limit && ClearFrom(w, BlockSyms)
    ensures GF8Poly.Fits(w, 3 * BlockSyms)
  {
    BelowBoundOfCoeffs(w, BlockSyms);
    GF8Poly.FitsBound(w, BlockSyms);
  }

  /** The message moved up k terms: k clear terms below it, nothing above position 6. */
  lemma MovedMessage(msg: bv32, k: nat)
    requires k <= MaxChecks && msg < GF8Poly.Limit && ClearFrom(msg, BlockSyms - k)
    ensures GF8Poly.ShiftUpBy(msg, k) < GF8Poly.Limit
    ensures forall j :: 0 <= j < GF8Poly.Terms ==>
      GF8Poly.Coeffs(GF8Poly.ShiftUpBy(msg, k))[j] == if j < k then 0 else GF8Poly.Coeffs(msg)[j - k]
    ensures ClearFrom(GF8Poly.ShiftUpBy(msg, k), BlockSyms)
  {
    var M := GF8Poly.Coeffs(msg);
    GF8Poly.ShiftUpByBelowLimit(msg, k);
    forall j | 0 <= j < GF8Poly.Terms
      ensures GF8Poly.Coeffs(GF8Poly.ShiftUpBy(msg, k))[j] == if j < k then 0 else M[j - k]
    {
      GF8Poly.CoeffsShiftUpBy(msg, k);
      Poly8.ShiftUpByAt(M, k, j);
    }
  }

  /**
    * gf8_poly_mod leaves msg x^k modulo the generator, so adding it to msg
    * x^k gives a multiple of the generator: a word that vanishes at its roots.
    */
  lemma CheckedRoots(msg: bv32, k: nat, chk: bv32, cw: bv32)
    requires k <= MaxChecks && ClearFrom(msg, BlockSyms - k)
    requires forall r: GF8.Elem :: Poly8.Eval(GF8Poly.Coeffs(GPolys[k]), r) == 0 ==>
      Poly8.Eval(GF8Poly.Coeffs(chk), r) == GF8.Mul(Poly8.Eval(GF8Poly.Coeffs(msg), r), GF8.Power(r, k))
    requires cw == GF8Poly.Add(GF8Poly.ShiftUpBy(msg, k), chk)
    ensures IsCodeword(cw, k)
  {
    var M, K := GF8Poly.Coeffs(msg), GF8Poly.Coeffs(chk);
    var H := GF8Poly.Coeffs(GF8Poly.ShiftUpBy(msg, k));
    GF8Poly.CoeffsShiftUpBy(msg, k);
    GF8Poly.CoeffsAdd(GF8Poly.ShiftUpBy(msg, k), chk);
    GPolysAreGenerators(k);
    forall i | 1 <= i <= k
      ensures Poly8.Eval(GF8Poly.Coeffs(cw), GF8.Exp[i]) == 0
    {
      var r := GF8.Exp[i];
      GeneratorRoots(k, r);
      assert IsRoot(k, r);
      Poly8.EvalShiftUpBy(M, k, r);
      Poly8.EvalAdd(H, K, r);
      GF8.AddSelf(GF8.Mul(Poly8.Eval(M, r), GF8.Power(r, k)));
    }
  }

  // ---------------------------------------------------------------------
  // rs8_get_syndromes
  // ---------------------------------------------------------------------

  /** The first n syndromes of the word with coefficients R: term j is its value at 2^(j+1). */
  function Syndromes(R: Poly8.Poly, n: nat): (s: Poly8.Poly)
    ensures |s| == GF8Poly.Terms
  {
    seq(GF8Poly.Terms, j requires 0 <= j < GF8Poly.Terms => if j < n then Poly8.Eval(R, GF8.Exp[j + 1]) else 0)
  }

  /** All k syndromes are 0 exactly when the word is a codeword for k check symbols. */
  lemma SyndromesZeroIffCodeword(w: bv32, k: nat)
    requires k <= MaxChecks
    ensures Syndromes(GF8Poly.Coeffs(w), k) == Poly8.Zero(GF8Poly.Terms) <==> IsCodeword(w, k)
  {
    var S := Syndromes(GF8Poly.Coeffs(w), k);
    if IsCodeword(w, k) {
      forall j | 0 <= j < GF8Poly.Terms
        ensures S[j] == 0
      {
        if j < k {
          assert 1 <= j + 1 <= k;
        }
      }
    }
    if S == Poly8.Zero(GF8Poly.Terms) {
      forall i | 1 <= i <= k
        ensures Poly8.Eval(GF8Poly.Coeffs(w), GF8.Exp[i]) == 0
      {
        assert S[i - 1] == 0;
      }
    }
  }

  /** The loop state of rs8_get_syndromes: syndromes n+1 .. nsyms at terms 0 .. nsyms-n-1. */
  ghost predicate SyndromeState(synd: bv32, P: Poly8.Poly, nsyms: nat, n: nat)
    requires n <= nsyms <= GF8Poly.Terms
  {
    synd < GF8Poly.Limit &&
    ShiftedSyndromes(GF8Poly.Coeffs(synd), Syndromes(P, nsyms), nsyms - n, n)
  }

  /** c holds the k syndromes S[n] .. S[n+k-1] at terms 0 .. k-1 and nothing above. */
  ghost predicate ShiftedSyndromes(c: seq<GF8.Elem>, S: seq<GF8.Elem>, k: nat, n: nat)
    requires |c| == |S| == GF8Poly.Terms && n + k <= GF8Poly.Terms
  {
    forall j :: 0 <= j < GF8Poly.Terms ==> c[j] == if j < k then S[j + n] else 0
  }

  /**
    * rs8_get_syndromes: the first nsyms syndromes of the word p of size pSz,
    * packed with syndrome j at term j.  They are computed from the last one
    * down, each shifted in at the bottom.
    */
  method GetSyndromes(p: bv32, pSz: int, nsyms: int) returns (synd: bv32)
    requires 0 <= nsyms <= GF8Poly.Terms
    requires nsyms > 0 ==> 3 <= pSz <= 3 * GF8Poly.Terms && pSz % 3 == 0 && GF8Poly.Fits(p, pSz)
    ensures synd < GF8Poly.Limit
    ensures GF8Poly.Coeffs(synd) == Syndromes(GF8Poly.Coeffs(p), nsyms)
  {
    ghost var P := GF8Poly.Coeffs(p);
    synd := 0;
    var n := nsyms;
    SyndromeStart(P, nsyms);
    while n > 0
      invariant 0 <= n <= nsyms && SyndromeState(synd, P, nsyms, n)
      decreases n
    {
      synd := SyndromeShiftIn(p, pSz, synd, P, nsyms, n);
      n := n - 1;
    }
    SyndromeDone(synd, P, nsyms);
  }

  /** One pass of rs8_get_syndromes: syndrome n is shifted in at the bottom. */
  method SyndromeShiftIn(p: bv32, pSz: int, synd: bv32, ghost P: Poly8.Poly, nsyms: int, n: int) returns (synd': bv32)
    requires 0 < n <= nsyms <= GF8Poly.Terms
    requires 3 <= pSz <= 3 * GF8Poly.Terms && pSz % 3 == 0 && GF8Poly.Fits(p, pSz) && P == GF8Poly.Coeffs(p)
    requires SyndromeState(synd, P, nsyms, n)
    ensures SyndromeState(synd', P, nsyms, n - 1)
  {
    var y := GF8Poly.Eval(p, pSz, GF8.Exp[n]);
    synd' := GF8Poly.ShiftUp(synd) | y as bv32;
    SyndromeStep(synd, P, nsyms, n, y, synd');
  }

  lemma SyndromeStart(P: Poly8.Poly, nsyms: nat)
    requires nsyms <= GF8Poly.Terms
    ensures SyndromeState(0, P, nsyms, nsyms)
  {
    GF8Poly.CoeffsOfZero();
  }

  lemma SyndromeStep(synd: bv32, P: Poly8.Poly, nsyms: nat, n: nat, y: GF8.Elem, synd': bv32)
    requires 0 < n <= nsyms <= GF8Poly.Terms && SyndromeState(synd, P, nsyms, n)
    requires y == Poly8.Eval(P, GF8.Exp[n]) && synd' == GF8Poly.ShiftUp(synd) | y as bv32
    ensures SyndromeState(synd', P, nsyms, n - 1)
  {
    var S := Syndromes(P, nsyms);
    assert y == S[n - 1];
    assert GF8Poly.Coeffs(synd)[GF8Poly.Terms - 1] == 0;
    PushTerm(synd, y, synd');
    SyndromeTermsStep(GF8Poly.Coeffs(synd), GF8Poly.Coeffs(synd'), S, nsyms - n, n, y);
  }

  /** The term-wise content of SyndromeStep, free of the packed words. */
  lemma SyndromeTermsStep(c: seq<GF8.Elem>, c': seq<GF8.Elem>, S: seq<GF8.Elem>, k: nat, n: nat, y: GF8.Elem)
    requires 0 < n && n + k <= GF8Poly.Terms && |c| == |c'| == |S| == GF8Poly.Terms
    requires ShiftedSyndromes(c, S, k, n) && y == S[n - 1]
    requires forall j :: 0 <= j < GF8Poly.Terms ==> c'[j] == if j == 0 then y else c[j - 1]
    ensures ShiftedSyndromes(c', S, k + 1, n - 1)
  {
    forall j | 0 <= j < GF8Poly.Terms
      ensures c'[j] == if j < k + 1 then S[j + n - 1] else 0
    {
      if j > 0 {
        assert c'[j] == c[j - 1];
      }
    }
  }

  lemma SyndromeDone(synd: bv32, P: Poly8.Poly, nsyms: nat)
    requires nsyms <= GF8Poly.Terms && SyndromeState(synd, P, nsyms, 0)
    ensures GF8Poly.Coeffs(synd) == Syndromes(P, nsyms)
  {
    var c, S := GF8Poly.Coeffs(synd), Syndromes(P, nsyms);
    forall j | 0 <= j < GF8Poly.Terms
      ensures c[j] == S[j]
    {
    }
  }

  /** Shifting a word up one term and or-ing a field element into the freed term. */
  lemma PushTerm(w: bv32, y: GF8.Elem, w': bv32)
    requires w < GF8Poly.Limit && GF8Poly.Coeffs(w)[GF8Poly.Terms - 1] == 0
    requires w' == GF8Poly.ShiftUp(w) | y as bv32
    ensures w' < GF8Poly.Limit
    ensures forall j :: 0 <= j < GF8Poly.Terms ==>
      GF8Poly.Coeffs(w')[j] == if j == 0 then y else GF8Poly.Coeffs(w)[j - 1]
  {
    ElemWord(y);
    PushTermAdds(w, y as bv32, w');
    ShiftedBelowLimit(w);
    AddBelowLimit(GF8Poly.ShiftUp(w), y as bv32);
    GF8Poly.CoeffsShiftUp(w);
    GF8Poly.CoeffsAdd(GF8Poly.ShiftUp(w), y as bv32);
    forall j | 0 <= j < GF8Poly.Terms
      ensures GF8Poly.Coeffs(w')[j] == if j == 0 then y else GF8Poly.Coeffs(w)[j - 1]
    {
      if j == 0 {
        GF8.AddZero(y);
        GF8.AddCommutes(0, y);
      } else {
        GF8.AddZero(GF8Poly.Coeffs(w)[j - 1]);
      }
    }
  }

  /** The or of PushTerm is an exclusive or, and stays below Limit. */
  lemma PushTermAdds(w: bv32, v: bv32, w': bv32)
    requires w < GF8Poly.Limit && GF8Poly.Coeffs(w)[GF8Poly.Terms - 1] == 0
    requires v < GF8Poly.Limit && ClearFrom(v, 1)
    requires w' == GF8Poly.ShiftUp(w) | v
    ensures w' == GF8Poly.Add(GF8Poly.ShiftUp(w), v)
  {
    var u := GF8Poly.ShiftUp(w);
    ShiftedBelowLimit(w);
    GF8Poly.CoeffsShiftUp(w);
    DisjointOr(u, v);
    assert u | v == GF8Poly.Add(u, v);
    assert w' == u | v;
  }

  /** Shifting up a word below Limit with a clear top term stays below Limit. */
  lemma ShiftedBelowLimit(w: bv32)
    requires w < GF8Poly.Limit && GF8Poly.Coeffs(w)[GF8Poly.Terms - 1] == 0
    ensures GF8Poly.ShiftUp(w) < GF8Poly.Limit
  {
    GF8Poly.CoeffsAt(w, GF8Poly.Terms - 1);
    GF8Poly.ShiftUpBelowLimit(w);
  }

  /** A field element as a word: term 0 is the element, the others are 0. */
  lemma ElemWord(y: GF8.Elem)
    ensures y as bv32 < GF8Poly.Limit
    ensures GF8Poly.Coeffs(y as bv32)[0] == y
    ensures ClearFrom(y as bv32, 1)
  {
    ElemWordBound(y);
    GF8Poly.CoeffsAt(y as bv32, 0);
    ClearFromBound(y as bv32, 1);
  }

  lemma ElemWordBound(y: GF8.Elem)
    ensures y as bv32 < 8
  {
  }

  // ---------------------------------------------------------------------
  // rs8_get_erasure_locator
  // ---------------------------------------------------------------------

  /** Bit i of a position byte: the symbol at position i is erased (or in error). */
  predicate Marked(pos: bv8, i: nat)
    requires i < 8
  {
    (pos >> i) & 1 != 0
  }

  /** The number of marked positions below n. */
  function MarkedCount(pos: bv8, n: nat): (c: nat)
    requires n <= 8
    ensures c <= n
  {
    if n == 0 then 0 else MarkedCount(pos, n - 1) + (if Marked(pos, n - 1) then 1 else 0)
  }

  /** L (1 + e x): the polynomial L with the root 1/e added. */
  function TimesBinomial(L: Poly8.Poly, e: GF8.Elem): (r: Poly8.Poly)
    ensures |r| == |L|
  {
    Poly8.Add(L, Poly8.ShiftUp(Poly8.ScaleBy(L, e)))
  }

  /**
    * The erasure locator of the positions marked below n: the product of
    * (1 + 2^i x) over the marked positions i, whose roots are the inverses
    * of the erased positions' locators 2^i.
    */
  function Locator(pos: bv8, n: nat): (L: Poly8.Poly)
    requires n <= BlockSyms
    ensures |L| == GF8Poly.Terms
  {
    if n == 0 then One()
    else if Marked(pos, n - 1) then TimesBinomial(Locator(pos, n - 1), GF8.Exp[n - 1])
    else Locator(pos, n - 1)
  }

  /**
    * The locator has constant term 1 and degree exactly the number of marked
    * positions: its top coefficient, the product of the 2^i of the marked
    * positions, is not 0.
    */
  lemma {:induction false} LocatorShape(pos: bv8, n: nat)
    requires n <= BlockSyms
    ensures Locator(pos, n)[0] == 1
    ensures Locator(pos, n)[MarkedCount(pos, n)] != 0
    ensures forall j :: MarkedCount(pos, n) < j < GF8Poly.Terms ==> Locator(pos, n)[j] == 0
  {
    if n > 0 {
      LocatorShape(pos, n - 1);
      if Marked(pos, n - 1) {
        var L, e, c := Locator(pos, n - 1), GF8.Exp[n - 1], MarkedCount(pos, n - 1);
        assert Locator(pos, n) == TimesBinomial(L, e) && MarkedCount(pos, n) == c + 1;
        GF8.ExpNonZero(n - 1);
        BinomialShape(L, e, c);
      }
    }
  }

  /**
    * Multiplying by 1 + e x, e not 0, keeps the constant term 1 and raises the
    * degree by exactly one.
    */
  lemma BinomialShape(L: Poly8.Poly, e: GF8.Elem, c: nat)
    requires c + 1 < |L| && L[0] == 1 && L[c] != 0 && e != 0
    requires forall j :: c < j < |L| ==> L[j] == 0
    ensures TimesBinomial(L, e)[0] == 1
    ensures TimesBinomial(L, e)[c + 1] != 0
    ensures forall j :: c + 1 < j < |L| ==> TimesBinomial(L, e)[j] == 0
  {
    GF8.AddZero(1);
    assert TimesBinomial(L, e)[c + 1] == GF8.Add(0, GF8.Mul(L[c], e));
    GF8.AddZero(GF8.Mul(L[c], e));
    forall j | c + 1 < j < |L|
      ensures TimesBinomial(L, e)[j] == 0
    {
      assert TimesBinomial(L, e)[j] == GF8.Add(0, GF8.Mul(0, e));
      GF8.AddZero(0);
    }
  }

  /** The locator vanishes at r exactly when r is the inverse of 2^i for a marked position i. */
  lemma {:induction false} LocatorRoots(pos: bv8, n: nat, r: GF8.Elem)
    requires n <= BlockSyms
    ensures Poly8.Eval(Locator(pos, n), r) == 0 <==>
      exists i :: 0 <= i < n && Marked(pos, i) && GF8.Mul(GF8.Exp[i], r) == 1
  {
    if n == 0 {
      EvalOne(r);
    } else {
      var L := Locator(pos, n - 1);
      var e := GF8.Exp[n - 1];
      LocatorRoots(pos, n - 1, r);
      if Marked(pos, n - 1) {
        assert Locator(pos, n) == TimesBinomial(L, e);
        LocatorShape(pos, n - 1);
        EvalTimesBinomial(L, e, r);
        BinomialZero(Poly8.Eval(L, r), e, r);
        LocatorRootsStep(pos, n, r, true);
      } else {
        assert Locator(pos, n) == L;
        LocatorRootsStep(pos, n, r, false);
      }
    }
  }

  /** The inverse roots below n are those below n - 1 and, when n - 1 is marked, 1/2^(n-1). */
  lemma LocatorRootsStep(pos: bv8, n: nat, r: GF8.Elem, marked: bool)
    requires 0 < n <= BlockSyms && marked == Marked(pos, n - 1)
    ensures (exists i :: 0 <= i < n && Marked(pos, i) && GF8.Mul(GF8.Exp[i], r) == 1) <==>
      (exists i :: 0 <= i < n - 1 && Marked(pos, i) && GF8.Mul(GF8.Exp[i], r) == 1) ||
      (marked && GF8.Mul(GF8.Exp[n - 1], r) == 1)
  {
    if exists i :: 0 <= i < n && Marked(pos, i) && GF8.Mul(GF8.Exp[i], r) == 1 {
      var i :| 0 <= i < n && Marked(pos, i) && GF8.Mul(GF8.Exp[i], r) == 1;
      if i < n - 1 {
        assert 0 <= i < n - 1 && Marked(pos, i) && GF8.Mul(GF8.Exp[i], r) == 1;
      }
    }
    if marked && GF8.Mul(GF8.Exp[n - 1], r) == 1 {
      assert 0 <= n - 1 < n && Marked(pos, n - 1) && GF8.Mul(GF8.Exp[n - 1], r) == 1;
    }
  }

  /** Multiplying by (1 + e x) multiplies the value at r by 1 + e r. */
  lemma EvalTimesBinomial(L: Poly8.Poly, e: GF8.Elem, r: GF8.Elem)
    requires |L| > 0 && L[|L| - 1] == 0
    ensures Poly8.Eval(TimesBinomial(L, e), r) == GF8.Mul(Poly8.Eval(L, r), GF8.Add(1, GF8.Mul(e, r)))
  {
    var E := Poly8.Eval(L, r);
    var S := Poly8.ScaleBy(L, e);
    Poly8.EvalAdd(L, Poly8.ShiftUp(S), r);
    Poly8.EvalScaleBy(L, e, r);
    Poly8.EvalShiftUp(S, r);
    GF8.MulAssociates(E, e, r);
    GF8.MulCommutes(E, GF8.Add(1, GF8.Mul(e, r)));
    GF8.MulDistributes(1, GF8.Mul(e, r), E);
    GF8.MulOne(E);
    GF8.MulCommutes(GF8.Mul(e, r), E);
  }

  /** E (1 + e r) is 0 exactly when E is 0 or e r is 1. */
  lemma BinomialZero(E: GF8.Elem, e: GF8.Elem, r: GF8.Elem)
    ensures GF8.Mul(E, GF8.Add(1, GF8.Mul(e, r))) == 0 <==> E == 0 || GF8.Mul(e, r) == 1
  {
    AddZeroIffEqual(1, GF8.Mul(e, r));
  }

  /** `pos >>= 1` on an int8: the sign bit is copied into bit 7. */
  function ShiftPosRight(pos: bv8): bv8
  {
    (pos >> 1) | (pos & 0x80)
  }

  /** After i signed shifts, bit 0 of the position byte is its original bit i, for i below 7. */
  lemma ShiftedPos(pos: bv8, cur: bv8, i: nat)
    requires i < BlockSyms
    requires forall k :: 0 <= k < 8 - i ==> Marked(cur, k) == Marked(pos, k + i)
    ensures forall k :: 0 <= k < 8 - (i + 1) ==> Marked(ShiftPosRight(cur), k) == Marked(pos, k + i + 1)
  {
    forall k | 0 <= k < 8 - (i + 1)
      ensures Marked(ShiftPosRight(cur), k) == Marked(pos, k + i + 1)
    {
      ShiftPosBit(cur, k);
    }
  }

  /** Bit k below 7 of a signed shift right is bit k + 1. */
  lemma ShiftPosBit(cur: bv8, k: nat)
    requires k < 7
    ensures Marked(ShiftPosRight(cur), k) == Marked(cur, k + 1)
  {
  }

  /**
    * rs8_get_erasure_locator: the product of (1 + 2^i x) over the positions
    * i = 0 .. 6 marked in erasePos, built by multiplying in one binomial
    * per marked position (gf8_poly_scale, shifted up a term, added in).
    */
  method GetErasureLocator(erasePos: bv8) returns (loc: bv32)
    ensures loc < GF8Poly.Limit
    ensures GF8Poly.Coeffs(loc) == Locator(erasePos, BlockSyms)
  {
    loc := 1;
    var pos := erasePos;
    var i := 0;
    CoeffsOfOne();
    while i < BlockSyms
      invariant 0 <= i <= BlockSyms && LocatorState(erasePos, pos, i, loc)
    {
      ghost var prev := loc;
      if pos & 1 != 0 {
        loc := GF8Poly.Add(loc, GF8Poly.ShiftUp(GF8Poly.Scale(loc, GF8.Exp[i])));
      }
      LocatorLoopStep(erasePos, pos, i, prev, loc);
      pos := ShiftPosRight(pos);
      i := i + 1;
    }
  }

  /** The loop state of rs8_get_erasure_locator after i positions. */
  ghost predicate LocatorState(erasePos: bv8, pos: bv8, i: nat, loc: bv32)
    requires i <= BlockSyms
  {
    (forall k :: 0 <= k < 8 - i ==> Marked(pos, k) == Marked(erasePos, k + i)) &&
    loc < GF8Poly.Limit && GF8Poly.Coeffs(loc) == Locator(erasePos, i)
  }

  lemma LocatorLoopStep(erasePos: bv8, pos: bv8, i: nat, loc: bv32, loc': bv32)
    requires i < BlockSyms && LocatorState(erasePos, pos, i, loc)
    requires loc' == if pos & 1 != 0 then GF8Poly.Add(loc, GF8Poly.ShiftUp(GF8Poly.Scale(loc, GF8.Exp[i]))) else loc
    ensures LocatorState(erasePos, ShiftPosRight(pos), i + 1, loc')
  {
    assert Marked(pos, 0) <==> pos & 1 != 0;
    if pos & 1 != 0 {
      LocatorStep(erasePos, i, loc, loc');
    }
    ShiftedPos(erasePos, pos, i);
  }

  /** One binomial multiplied into the word keeps it equal to the locator. */
  lemma LocatorStep(pos: bv8, i: nat, loc: bv32, loc': bv32)
    requires i < BlockSyms && Marked(pos, i)
    requires loc < GF8Poly.Limit && GF8Poly.Coeffs(loc) == Locator(pos, i)
    requires loc' == GF8Poly.Add(loc, GF8Poly.ShiftUp(GF8Poly.Scale(loc, GF8.Exp[i])))
    ensures loc' < GF8Poly.Limit && GF8Poly.Coeffs(loc') == Locator(pos, i + 1)
  {
    var e := GF8.Exp[i];
    var s := GF8Poly.Scale(loc, e);
    LocatorShape(pos, i);
    GF8Poly.ScaleIsScaleBy(loc, e);
    GF8Poly.CoeffsShiftUp(s);
    GF8Poly.CoeffsAdd(loc, GF8Poly.ShiftUp(s));
    assert GF8Poly.Coeffs(s)[GF8Poly.Terms - 1] == 0 by {
      GF8.MulCommutes(0, e);
    }
    GF8Poly.ScaleBelowLimit(loc, e);
    ShiftedBelowLimit(s);
    AddBelowLimit(loc, GF8Poly.ShiftUp(s));
  }
}
