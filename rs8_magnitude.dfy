/**
  * The Forney step of the GF(8) Reed-Solomon decoder, rs8_get_errata_magnitude:
  * the value of every errata symbol, from the errata evaluator Omega and the
  * formal derivative of the errata locator, packed one term per position.
  */
module RS8Magnitude {
  import GF8
  import Poly8
  import GF8Poly
  import RS8
  import RS8Decode

  /**
    * Forney's formula at the root 2^i of position 7 - i: Omega(2^i) / D(2^i),
    * with gf8_div's sentinel when the derivative D vanishes there.
    */
  function Forney(Omega: Poly8.Poly, D: Poly8.Poly, i: nat): (q: GF8.Quotient)
    requires 1 <= i < 8
    ensures q.DivByZero? <==> Poly8.Eval(D, GF8.Exp[i]) == 0
    ensures q.Quot? ==> GF8.Mul(q.value, Poly8.Eval(D, GF8.Exp[i])) == Poly8.Eval(Omega, GF8.Exp[i])
  {
    var e, d := Poly8.Eval(Omega, GF8.Exp[i]), Poly8.Eval(D, GF8.Exp[i]);
    if d == 0 then GF8.Div(e, d)
    else GF8.DivMulRoundTrip(e, d); GF8.Div(e, d)
  }

  /** The quotients of all seven passes, at index i the one for the root 2^i. */
  function Quotients(Omega: Poly8.Poly, D: Poly8.Poly): (q: seq<GF8.Quotient>)
    ensures |q| == 8
    ensures forall i :: 1 <= i < 8 ==> q[i] == Forney(Omega, D, i)
  {
    seq(8, i requires 0 <= i < 8 => if i == 0 then GF8.DivByZero else Forney(Omega, D, i))
  }

  /** The passes the position byte selects: pass i where position 7 - i is marked. */
  function Selected(pos: bv8): (sel: seq<bool>)
    ensures |sel| == 8 && !sel[0]
    ensures forall i :: 1 <= i < 8 ==> (sel[i] <==> RS8.Marked(pos, 7 - i))
  {
    seq(8, i requires 0 <= i < 8 => 1 <= i && RS8.Marked(pos, 7 - i))
  }

  /** The int8 that gf8_div returns, widened to a gf8_poly: the sentinel -1 becomes all ones. */
  function QuotientWord(q: GF8.Quotient): bv32
  {
    match q
    case Quot(v) => v as bv32
    case DivByZero => 0xFFFF_FFFF
  }

  /** What pass n ors into errata_mag: its quotient where it is selected, nothing elsewhere. */
  function Pass(Q: seq<GF8.Quotient>, sel: seq<bool>, n: nat): bv32
    requires 1 <= n < |Q| == |sel| == 8
  {
    if sel[n] then QuotientWord(Q[n]) else 0
  }

  /** The value pass i contributes: its quotient where it is selected, 0 elsewhere. */
  function Slot(Q: seq<GF8.Quotient>, sel: seq<bool>, i: nat): GF8.Elem
    requires 1 <= i < |Q| == |sel| == 8
  {
    if sel[i] && Q[i].Quot? then Q[i].value else 0
  }

  /** No selected pass up to n divides by zero. */
  ghost predicate NoneBlocked(Q: seq<GF8.Quotient>, sel: seq<bool>, n: nat)
    requires n < |Q| == |sel| == 8
  {
    forall i :: 1 <= i <= n ==> sel[i] ==> Q[i].Quot?
  }

  /** All ones from bit 3k up, for k = 0 .. 7: the sentinel after k further passes. */
  const OnesFrom: seq<bv32> := [0xFFFF_FFFF, 0xFFFF_FFF8, 0xFFFF_FFC0, 0xFFFF_FE00,
                                0xFFFF_F000, 0xFFFF_8000, 0xFFFC_0000, 0xFFE0_0000]

  /**
    * errata_mag after n passes, with b the pass whose division by zero set
    * every bit (0 when none did).  Until such a pass, term j holds the value
    * of pass n - j; after it, the later passes shift the ones up but keep them.
    */
  ghost predicate MagState(Q: seq<GF8.Quotient>, sel: seq<bool>, n: nat, b: nat, mag: bv32)
    requires n < |Q| == |sel| == 8
  {
    && b <= n
    && (b == 0 ==> NoneBlocked(Q, sel, n) && Packed(Q, sel, n, mag))
    && (b != 0 ==> sel[b] && Q[b].DivByZero? && mag & OnesFrom[n - b] == OnesFrom[n - b])
  }

  lemma MagStart(Q: seq<GF8.Quotient>, sel: seq<bool>)
    requires |Q| == |sel| == 8
    ensures MagState(Q, sel, 0, 0, 0)
  {
    GF8Poly.CoeffsOfZero();
    assert GF8Poly.Coeffs(0) == PackedTerms(Q, sel, 0);
  }

  /** One pass: errata_mag shifted up a term with the pass's quotient or'ed in. */
  lemma MagStep(Q: seq<GF8.Quotient>, sel: seq<bool>, n: nat, b: nat, mag: bv32, v: bv32, mag': bv32)
    returns (b': nat)
    requires 1 <= n < |Q| == |sel| == 8
    requires MagState(Q, sel, n - 1, b, mag) && v == Pass(Q, sel, n) && mag' == GF8Poly.ShiftUp(mag) | v
    ensures MagState(Q, sel, n, b', mag')
  {
    if b != 0 {
      b' := b;
      SaturatedStep(mag, OnesFrom[n - 1 - b], v, mag', n - 1 - b);
    } else if sel[n] && Q[n].DivByZero? {
      b' := n;
      SaturatedStart(mag, v, mag');
    } else {
      b' := 0;
      PackedStep(Q, sel, n, mag, v, mag');
    }
  }

  /** Ones that reach pass n - 1 are shifted up but kept by pass n. */
  lemma SaturatedStep(w: bv32, h: bv32, v: bv32, w': bv32, k: nat)
    requires k < 7 && h == OnesFrom[k]
    requires w & h == h && w' == GF8Poly.ShiftUp(w) | v
    ensures w' & OnesFrom[k + 1] == OnesFrom[k + 1]
  {
    OnesFromShift(k);
    OnesShift(w, h, v, w');
  }

  lemma OnesFromShift(k: nat)
    requires k < 7
    ensures OnesFrom[k + 1] == GF8Poly.ShiftUp(OnesFrom[k])
  {
    if k == 0 {
    } else if k == 1 {
    } else if k == 2 {
    } else if k == 3 {
    } else if k == 4 {
    } else if k == 5 {
    } else {
    }
  }

  /** The sentinel of gf8_div sets every bit. */
  lemma SaturatedStart(w: bv32, v: bv32, w': bv32)
    requires v == 0xFFFF_FFFF && w' == GF8Poly.ShiftUp(w) | v
    ensures w' & OnesFrom[0] == OnesFrom[0]
  {
  }

  /** The terms of errata_mag after n passes that all found a quotient: term j holds pass n - j. */
  function PackedTerms(Q: seq<GF8.Quotient>, sel: seq<bool>, n: nat): (t: seq<GF8.Elem>)
    requires n < |Q| == |sel| == 8
    ensures |t| == GF8Poly.Terms
    ensures forall j :: 0 <= j < GF8Poly.Terms ==> t[j] == if j < n then Slot(Q, sel, n - j) else 0
  {
    seq(GF8Poly.Terms, j requires 0 <= j < GF8Poly.Terms => if j < n then Slot(Q, sel, n - j) else 0)
  }

  ghost predicate Packed(Q: seq<GF8.Quotient>, sel: seq<bool>, n: nat, mag: bv32)
    requires n < |Q| == |sel| == 8
  {
    mag < GF8Poly.Limit && GF8Poly.Coeffs(mag) == PackedTerms(Q, sel, n)
  }

  lemma PackedStep(Q: seq<GF8.Quotient>, sel: seq<bool>, n: nat, mag: bv32, v: bv32, mag': bv32)
    requires 1 <= n < |Q| == |sel| == 8 && NoneBlocked(Q, sel, n - 1) && !(sel[n] && Q[n].DivByZero?)
    requires Packed(Q, sel, n - 1, mag) && v == Pass(Q, sel, n) && mag' == GF8Poly.ShiftUp(mag) | v
    ensures NoneBlocked(Q, sel, n) && Packed(Q, sel, n, mag')
  {
    PassIsSlot(Q, sel, n);
    PackedPush(Q, sel, n, mag, Slot(Q, sel, n), mag');
  }

  lemma PackedPush(Q: seq<GF8.Quotient>, sel: seq<bool>, n: nat, mag: bv32, y: GF8.Elem, mag': bv32)
    requires 1 <= n < |Q| == |sel| == 8
    requires Packed(Q, sel, n - 1, mag) && y == Slot(Q, sel, n) && mag' == GF8Poly.ShiftUp(mag) | y as bv32
    ensures Packed(Q, sel, n, mag')
  {
    var t, t' := PackedTerms(Q, sel, n - 1), PackedTerms(Q, sel, n);
    assert GF8Poly.Coeffs(mag)[GF8Poly.Terms - 1] == t[GF8Poly.Terms - 1] == 0;
    RS8.PushTerm(mag, y, mag');
    var c := GF8Poly.Coeffs(mag');
    forall j | 0 <= j < GF8Poly.Terms
      ensures c[j] == t'[j]
    {
      if j > 0 {
        assert c[j] == t[j - 1];
      }
    }
    assert c == t';
  }

  /** The word a selected pass with a quotient ors in is that quotient. */
  lemma PassIsSlot(Q: seq<GF8.Quotient>, sel: seq<bool>, n: nat)
    requires 1 <= n < |Q| == |sel| == 8 && (sel[n] ==> Q[n].Quot?)
    ensures Pass(Q, sel, n) == Slot(Q, sel, n) as bv32
  {
  }

  lemma OnesShift(w: bv32, h: bv32, v: bv32, w': bv32)
    requires w & h == h && w' == GF8Poly.ShiftUp(w) | v
    ensures w' & GF8Poly.ShiftUp(h) == GF8Poly.ShiftUp(h)
  {
  }

  /**
    * Term p of a correction word: at a marked position below 7, a value e with
    * e * D(X^-1) == Omega(X^-1) at the root X^-1 = 2^(7-p) of that position;
    * 0 everywhere else.
    */
  ghost predicate IsCorrection(Omega: Poly8.Poly, D: Poly8.Poly, pos: bv8, p: nat, e: GF8.Elem)
  {
    if p < RS8.BlockSyms && RS8.Marked(pos, p) then
      GF8.Mul(e, Poly8.Eval(D, GF8.Exp[7 - p])) == Poly8.Eval(Omega, GF8.Exp[7 - p])
    else e == 0
  }

  /** The passes are free of zero divisors exactly when D vanishes at no marked position's root. */
  ghost predicate Divisible(D: Poly8.Poly, pos: bv8)
  {
    forall p :: 0 <= p < RS8.BlockSyms ==> RS8.Marked(pos, p) ==> Poly8.Eval(D, GF8.Exp[7 - p]) != 0
  }

  /**
    * What rs8_get_errata_magnitude promises.  When D vanishes at no marked
    * position's root, the word is the corrections packed by position: it fits
    * in the seven block terms and term p solves Forney's equation at the root
    * of position p.  Otherwise gf8_div's sentinel makes the word negative.
    */
  ghost predicate ErrataMagnitudes(Omega: Poly8.Poly, D: Poly8.Poly, pos: bv8, mag: bv32)
  {
    && (Divisible(D, pos) ==>
          GF8Poly.Fits(mag, 21) &&
          forall p :: 0 <= p < GF8Poly.Terms ==> IsCorrection(Omega, D, pos, p, GF8Poly.Coeffs(mag)[p]))
    && (!Divisible(D, pos) ==> GF8Poly.Negative(mag))
  }

  /** After the seven passes the loop state is what rs8_get_errata_magnitude promises. */
  lemma MagDone(Omega: Poly8.Poly, D: Poly8.Poly, pos: bv8, b: nat, mag: bv32)
    requires MagState(Quotients(Omega, D), Selected(pos), 7, b, mag)
    ensures ErrataMagnitudes(Omega, D, pos, mag)
  {
    if b == 0 {
      PackedDone(Omega, D, pos, mag);
    } else {
      assert RS8.Marked(pos, 7 - b);
      OnesTop(mag, OnesFrom[7 - b]);
    }
  }

  /** Seven passes that all found a quotient pack the corrections by position. */
  lemma PackedDone(Omega: Poly8.Poly, D: Poly8.Poly, pos: bv8, mag: bv32)
    requires NoneBlocked(Quotients(Omega, D), Selected(pos), 7)
    requires Packed(Quotients(Omega, D), Selected(pos), 7, mag)
    ensures Divisible(D, pos) && GF8Poly.Fits(mag, 21)
    ensures forall p :: 0 <= p < GF8Poly.Terms ==> IsCorrection(Omega, D, pos, p, GF8Poly.Coeffs(mag)[p])
  {
    var Q, sel := Quotients(Omega, D), Selected(pos);
    forall p | 0 <= p < RS8.BlockSyms && RS8.Marked(pos, p)
      ensures Poly8.Eval(D, GF8.Exp[7 - p]) != 0
    {
      assert sel[7 - p];
    }
    GF8Poly.FitsFromCoeffs(mag, 7);
    forall p | 0 <= p < GF8Poly.Terms
      ensures IsCorrection(Omega, D, pos, p, GF8Poly.Coeffs(mag)[p])
    {
      if p < RS8.BlockSyms {
        assert 7 - (7 - p) == p;
      }
    }
  }

  lemma OnesTop(w: bv32, h: bv32)
    requires w & h == h && h & 0x8000_0000 != 0
    ensures GF8Poly.Negative(w)
  {
  }

  // ---------------------------------------------------------------------
  // rs8_get_errata_magnitude
  // ---------------------------------------------------------------------

  /**
    * rs8_get_errata_magnitude: for i = 1 .. 7 the word is shifted up a term
    * and, where position 7 - i of pos is marked, gf8_div of the evaluator and
    * the locator's formal derivative at 2^i is or'ed in.  Both are evaluated
    * over chkSz bits, so both must fit in them.
    */
  method ErrataMagnitude(eval: bv32, chkSz: int, loc: bv32, pos: bv8) returns (mag: bv32)
    requires 3 <= chkSz <= 3 * GF8Poly.Terms && chkSz % 3 == 0
    requires GF8Poly.Fits(eval, chkSz) && GF8Poly.Fits(GF8Poly.FormalDerivative(loc), chkSz)
    ensures ErrataMagnitudes(GF8Poly.Coeffs(eval), Poly8.Derivative(GF8Poly.Coeffs(loc)), pos, mag)
  {
    var locPrime := GF8Poly.FormalDerivative(loc);
    GF8Poly.FormalDerivativeIsDerivative(loc);
    mag := MagnitudeLoop(eval, chkSz, locPrime, pos);
  }

  /** The loop of rs8_get_errata_magnitude, over the formal derivative locPrime. */
  method MagnitudeLoop(eval: bv32, chkSz: int, locPrime: bv32, pos: bv8) returns (mag: bv32)
    requires 3 <= chkSz <= 3 * GF8Poly.Terms && chkSz % 3 == 0
    requires GF8Poly.Fits(eval, chkSz) && GF8Poly.Fits(locPrime, chkSz)
    ensures ErrataMagnitudes(GF8Poly.Coeffs(eval), GF8Poly.Coeffs(locPrime), pos, mag)
  {
    ghost var Q, sel := Quotients(GF8Poly.Coeffs(eval), GF8Poly.Coeffs(locPrime)), Selected(pos);
    mag := 0;
    var mask := pos;
    var i := 1;
    ghost var b := 0;
    MagStart(Q, sel);
    while i <= RS8.BlockSyms
      invariant 1 <= i <= RS8.BlockSyms + 1
      invariant mask == RS8Decode.ShiftedLeft(pos, i - 1)
      invariant MagState(Q, sel, i - 1, b, mag)
    {
      mag, mask, b := MagnitudeStep(eval, chkSz, locPrime, pos, mag, mask, i, Q, sel, b);
      i := i + 1;
    }
    MagDone(GF8Poly.Coeffs(eval), GF8Poly.Coeffs(locPrime), pos, b, mag);
  }

  /**
    * One pass of the loop of rs8_get_errata_magnitude, for the root 2^i: the
    * word moves up a term, the mask up a position, and a selected pass ors in
    * its quotient.
    */
  method MagnitudeStep(eval: bv32, chkSz: int, locPrime: bv32, pos: bv8, mag: bv32, mask: bv8, i: nat,
                       ghost Q: seq<GF8.Quotient>, ghost sel: seq<bool>, ghost b: nat)
    returns (mag': bv32, mask': bv8, ghost b': nat)
    requires 3 <= chkSz <= 3 * GF8Poly.Terms && chkSz % 3 == 0
    requires GF8Poly.Fits(eval, chkSz) && GF8Poly.Fits(locPrime, chkSz)
    requires 1 <= i < 8 && mask == RS8Decode.ShiftedLeft(pos, i - 1)
    requires Q == Quotients(GF8Poly.Coeffs(eval), GF8Poly.Coeffs(locPrime)) && sel == Selected(pos)
    requires MagState(Q, sel, i - 1, b, mag)
    ensures mask' == RS8Decode.ShiftedLeft(pos, i)
    ensures MagState(Q, sel, i, b', mag')
  {
    mask' := mask << 1;
    RS8Decode.ShiftedLeftTop(pos, i);
    var v := PassWord(eval, chkSz, locPrime, mask' & 0x80 != 0, i, Q, sel);
    mag' := GF8Poly.ShiftUp(mag) | v;
    b' := MagStep(Q, sel, i, b, mag, v, mag');
  }

  /** What one pass ors in: the quotient when the pass is selected, nothing otherwise. */
  method PassWord(eval: bv32, chkSz: int, locPrime: bv32, selected: bool, i: nat,
                  ghost Q: seq<GF8.Quotient>, ghost sel: seq<bool>)
    returns (v: bv32)
    requires 3 <= chkSz <= 3 * GF8Poly.Terms && chkSz % 3 == 0
    requires GF8Poly.Fits(eval, chkSz) && GF8Poly.Fits(locPrime, chkSz)
    requires 1 <= i < 8 && |sel| == 8 && selected == sel[i]
    requires Q == Quotients(GF8Poly.Coeffs(eval), GF8Poly.Coeffs(locPrime))
    ensures v == Pass(Q, sel, i)
  {
    if selected {
      var q := ForneyAt(eval, chkSz, locPrime, i);
      v := QuotientWord(q);
    } else {
      v := 0;
    }
  }

  /** The quotient of one pass: both polynomials evaluated at 2^i, then gf8_div. */
  method ForneyAt(eval: bv32, chkSz: int, locPrime: bv32, i: nat) returns (q: GF8.Quotient)
    requires 3 <= chkSz <= 3 * GF8Poly.Terms && chkSz % 3 == 0
    requires GF8Poly.Fits(eval, chkSz) && GF8Poly.Fits(locPrime, chkSz)
    requires 1 <= i < 8
    ensures q == Forney(GF8Poly.Coeffs(eval), GF8Poly.Coeffs(locPrime), i)
  {
    GF8.ExpNonZero(i);
    var root := GF8.Exp[i];
    var ee := GF8Poly.Eval(eval, chkSz, root);
    var lp := GF8Poly.Eval(locPrime, chkSz, root);
    q := GF8.Div(ee, lp);
  }
}
