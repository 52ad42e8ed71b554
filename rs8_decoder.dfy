/**
  * rs8_decode (ReedSolomon/src/rs_gf8.c): the decoder pipeline.  The
  * syndromes of the received word decide whether there is anything to do;
  * erasures given by position are folded into the Forney syndromes,
  * Berlekamp-Massey finds the locator of the remaining errors, the root
  * search their positions, and Forney's formula the value of every errata
  * symbol, which is added to the received word.
  *
  * DecodeOutcome states the result over the coefficient sequences of the
  * words and the recursion of BerlekampMassey; Decode is the pipeline on
  * packed words, proved against it.
  */
module RS8Decoder {
  import GF8
  import Poly8
  import GF8Poly
  import RS8
  import RS8Decode
  import RS8Magnitude
  import BerlekampMassey

  /**
    * __builtin_popcount of an int8 position byte.  The byte is widened to
    * 32 bits first, so a set bit 7 stands for 25 one bits.
    */
  function Popcount(pos: bv8): (c: nat)
    ensures c <= RS8.BlockSyms <==> !RS8.Marked(pos, 7)
    ensures !RS8.Marked(pos, 7) ==> c == RS8.MarkedCount(pos, RS8.BlockSyms)
  {
    RS8.MarkedCount(pos, 8) + if RS8.Marked(pos, 7) then 24 else 0
  }

  // ---------------------------------------------------------------------
  // What rs8_decode computes
  // ---------------------------------------------------------------------

  /**
    * The syndromes with the erasures' roots taken out (the Forney
    * syndromes): the syndromes times the erasure locator, kept to k terms.
    * With nothing erased they are the syndromes themselves.
    */
  ghost function ForneySyndromes(S: Poly8.Poly, k: nat, ePos: bv8): (T: Poly8.Poly)
    requires |S| == GF8Poly.Terms && k <= RS8.MaxChecks
    ensures |T| == GF8Poly.Terms
  {
    if ePos == 0 then S
    else RS8Decode.Truncate(Poly8.Product(S, RS8.Locator(ePos, RS8.BlockSyms)), k)
  }

  /** Step s of the root search, s = 1 .. 7: position 7 - s is in mask and C vanishes at 2^s. */
  ghost function RootHits(C: Poly8.Poly, mask: bv8): (h: seq<bool>)
    ensures |h| == 8
  {
    seq(8, s requires 0 <= s < 8 => 1 <= s && RS8.Marked(mask, 7 - s) && Poly8.Eval(C, GF8.Exp[s]) == 0)
  }

  /** The positions the root search reports: those p in mask whose root 2^(7 - p) is a root of C (FoundBits). */
  ghost function ErrorsFound(C: Poly8.Poly, mask: bv8): (found: bv8)
  {
    RS8Decode.Verdicts(RootHits(C, mask), 7)
  }

  /**
    * The word d holds the received word plus the errata values Forney's
    * formula gives at the positions pos, for the evaluator Omega and the
    * locator Lambda.
    */
  ghost predicate Repaired(recv: bv32, Omega: Poly8.Poly, Lambda: Poly8.Poly, pos: bv8, d: RS8Decode.Decoded)
  {
    d.Corrected? && RS8Magnitude.ErrataMagnitudes(Omega, Poly8.Derivative(Lambda), pos, GF8Poly.Add(recv, d.word))
  }

  /**
    * What rs8_decode settles on once some syndrome is non-zero: a failure
    * code, or the positions pos to repair with the evaluator Omega and the
    * locator Lambda.
    */
  datatype Plan = Fail(outcome: RS8Decode.Decoded) | Repair(pos: bv8, Omega: Poly8.Poly, Lambda: Poly8.Poly)

  /**
    * The error search over the Forney syndromes T with the erasure locator E:
    * -2 when the Berlekamp-Massey locator C has a degree too high for the
    * k - erased syndromes left, -3 when the root search over the transmitted
    * positions not erased does not find that many roots; otherwise the
    * erased and the found positions, with the evaluator T C mod x^k and the
    * locator E C.
    */
  ghost function ErrorPlan(T: Poly8.Poly, E: Poly8.Poly, k: nat, erased: nat, ePos: bv8, txPos: bv8): (pl: Plan)
    requires |T| == GF8Poly.Terms && k <= RS8.MaxChecks
  {
    var C := BerlekampMassey.Run(T, k).c;
    SearchPlan(k, erased, Poly8.Order(C), ePos, ErrorsFound(C, txPos & !ePos),
      RS8Decode.Truncate(Poly8.Product(T, C), k), Poly8.Product(E, C))
  }

  /**
    * The verdict of the error search once the locator degree errors and the
    * found positions are known: too many errors for the k - erased syndromes
    * left, a root count that differs from the degree, or the repair.
    */
  ghost function SearchPlan(k: nat, erased: nat, errors: int, ePos: bv8, found: bv8, Omega: Poly8.Poly, Lambda: Poly8.Poly): (pl: Plan)
  {
    if 2 * errors > k - erased then Fail(RS8Decode.TooManyErrors)
    else if Popcount(found) != errors then Fail(RS8Decode.RootCountMismatch)
    else Repair(ePos | found, Omega, Lambda)
  }

  /**
    * With as many erasures as check symbols only the erasures are repaired,
    * with the Forney syndromes as evaluator and the erasure locator;
    * otherwise the error search decides.
    */
  ghost function DecodePlan(S: Poly8.Poly, k: nat, ePos: bv8, txPos: bv8): (pl: Plan)
    requires |S| == GF8Poly.Terms && k <= RS8.MaxChecks
  {
    var T := ForneySyndromes(S, k, ePos);
    var E := RS8.Locator(ePos, RS8.BlockSyms);
    if Popcount(ePos) == k then Repair(ePos, T, E)
    else ErrorPlan(T, E, k, Popcount(ePos), ePos, txPos)
  }

  /** The result d carries out the plan pl for the received word recv. */
  ghost predicate Follows(recv: bv32, pl: Plan, d: RS8Decode.Decoded)
  {
    if pl.Fail? then d == pl.outcome else Repaired(recv, pl.Omega, pl.Lambda, pl.pos, d)
  }

  /**
    * The outcome of rs8_decode for the received word recv with k check
    * symbols, the erased positions ePos and the transmitted positions txPos:
    * -1 beyond the Singleton bound, recv itself when every syndrome is 0,
    * otherwise what DecodePlan settles on.
    */
  ghost predicate DecodeOutcome(recv: bv32, k: nat, ePos: bv8, txPos: bv8, d: RS8Decode.Decoded)
    requires k <= RS8.MaxChecks
  {
    if Popcount(ePos) > k then d == RS8Decode.BeyondSingletonBound
    else if RS8.Syndromes(GF8Poly.Coeffs(recv), k) == Poly8.Zero(GF8Poly.Terms) then d == RS8Decode.Corrected(recv)
    else Follows(recv, DecodePlan(RS8.Syndromes(GF8Poly.Coeffs(recv), k), k, ePos, txPos), d)
  }

  // ---------------------------------------------------------------------
  // rs8_decode
  // ---------------------------------------------------------------------

  /** How the error search of rs8_decode ends: a failure, or the errata positions, locator and evaluator. */
  datatype Search = Failed(failure: RS8Decode.Decoded) | Errata(pos: bv8, loc: bv32, eval: bv32)

  /**
    * rs8_decode: the received word recv of rSz bits with chkSyms check
    * symbols, the erasures ePos and the transmitted positions txPos.
    */
  method Decode(recv: bv32, rSz: int, chkSyms: int, ePos: bv8, txPos: bv8) returns (d: RS8Decode.Decoded)
    requires 0 <= chkSyms <= RS8.MaxChecks
    requires 3 <= rSz <= 3 * GF8Poly.Terms && rSz % 3 == 0 && GF8Poly.Fits(recv, rSz)
    ensures DecodeOutcome(recv, chkSyms, ePos, txPos, d)
  {
    var eraseCnt := Popcount(ePos);
    if eraseCnt > chkSyms {
      return RS8Decode.BeyondSingletonBound;
    }
    var eEval := RS8.GetSyndromes(recv, rSz, chkSyms);
    WordZeroIff(eEval);
    if eEval == 0 {
      return RS8Decode.Corrected(recv);
    }
    SomeChecks(recv, chkSyms);
    d := CorrectErrata(recv, eEval, chkSyms, ePos, txPos, eraseCnt);
  }

  /**
    * The part of rs8_decode after a non-zero syndrome: the erasure part, the
    * error part when erasures do not use up the check symbols, then Forney's
    * formula and the correction of the received word.
    */
  method CorrectErrata(recv: bv32, synd: bv32, chkSyms: int, ePos: bv8, txPos: bv8, eraseCnt: nat)
    returns (d: RS8Decode.Decoded)
    requires 1 <= chkSyms <= RS8.MaxChecks && eraseCnt == Popcount(ePos) && eraseCnt <= chkSyms
    requires GF8Poly.Coeffs(synd) == RS8.Syndromes(GF8Poly.Coeffs(recv), chkSyms)
    ensures Follows(recv, DecodePlan(GF8Poly.Coeffs(synd), chkSyms, ePos, txPos), d)
  {
    ErasureFacts(ePos, chkSyms);
    var eLoc, eEval := ErasureStage(synd, chkSyms, ePos);
    ghost var T, E := ForneySyndromes(GF8Poly.Coeffs(synd), chkSyms, ePos), RS8.Locator(ePos, RS8.BlockSyms);
    assert GF8Poly.Coeffs(eEval) == T && GF8Poly.Coeffs(eLoc) == E;
    d := ErrataStage(recv, eEval, chkSyms, eLoc, ePos, txPos, eraseCnt, DecodePlan(GF8Poly.Coeffs(synd), chkSyms, ePos, txPos));
  }

  /**
    * rs8_decode after the erasure stage: the error part when the erasures
    * leave syndromes over, then the magnitudes, carrying out the plan pl.
    */
  method ErrataStage(recv: bv32, eEval: bv32, chkSyms: int, eLoc: bv32, ePos: bv8, txPos: bv8, eraseCnt: nat, ghost pl: Plan)
    returns (d: RS8Decode.Decoded)
    requires 1 <= chkSyms <= RS8.MaxChecks && eraseCnt <= chkSyms
    requires eLoc < GF8Poly.Limit && GF8Poly.Coeffs(eLoc)[0] == 1
    requires forall j :: eraseCnt < j < GF8Poly.Terms ==> GF8Poly.Coeffs(eLoc)[j] == 0
    requires eraseCnt == chkSyms ==> pl == Repair(ePos, GF8Poly.Coeffs(eEval), GF8Poly.Coeffs(eLoc)) && GF8Poly.Fits(eEval, chkSyms * 3)
    requires eraseCnt != chkSyms ==> pl == ErrorPlan(GF8Poly.Coeffs(eEval), GF8Poly.Coeffs(eLoc), chkSyms, eraseCnt, ePos, txPos)
    ensures Follows(recv, pl, d)
  {
    var search := Errata(ePos, eLoc, eEval);
    if eraseCnt != chkSyms {
      search := ErrorStage(eEval, chkSyms, eLoc, ePos, txPos, eraseCnt);
      if search.Failed? {
        return search.failure;
      }
    }
    d := ApplyErrata(recv, search.eval, chkSyms, search.loc, search.pos, pl);
  }

  /** The errata evaluator and locator at the positions pos are those of the plan pl, for k check symbols. */
  ghost predicate Ready(pl: Plan, pos: bv8, eval: bv32, loc: bv32, k: int)
  {
    && 1 <= k <= RS8.MaxChecks
    && pl == Repair(pos, GF8Poly.Coeffs(eval), GF8Poly.Coeffs(loc))
    && GF8Poly.Fits(eval, k * 3)
    && forall j :: k < j < GF8Poly.Terms ==> GF8Poly.Coeffs(loc)[j] == 0
  }

  /** The last lines of rs8_decode: Forney's formula, then the errata values added to the received word. */
  method ApplyErrata(recv: bv32, eEval: bv32, chkSyms: int, eLoc: bv32, pos: bv8, ghost pl: Plan) returns (d: RS8Decode.Decoded)
    requires Ready(pl, pos, eEval, eLoc, chkSyms)
    ensures Follows(recv, pl, d)
  {
    var chkSz := chkSyms * 3;
    DerivativeFits(eLoc, chkSyms);
    var mag := RS8Magnitude.ErrataMagnitude(eEval, chkSz, eLoc, pos);
    d := RS8Decode.Corrected(recv ^ mag);
    Concludes(recv, pl, pos, eEval, eLoc, mag);
  }

  /** Adding the Forney values to the received word carries out a Repair plan. */
  lemma Concludes(recv: bv32, pl: Plan, pos: bv8, eval: bv32, loc: bv32, mag: bv32)
    requires pl == Repair(pos, GF8Poly.Coeffs(eval), GF8Poly.Coeffs(loc))
    requires RS8Magnitude.ErrataMagnitudes(GF8Poly.Coeffs(eval), Poly8.Derivative(GF8Poly.Coeffs(loc)), pos, mag)
    ensures Follows(recv, pl, RS8Decode.Corrected(recv ^ mag))
  {
    assert GF8Poly.Add(recv, recv ^ mag) == mag;
  }

  /**
    * The erasure part of rs8_decode: with erasures, their locator and the
    * Forney syndromes; without, the locator 1 and the syndromes unchanged.
    */
  method ErasureStage(synd: bv32, chkSyms: int, ePos: bv8) returns (eLoc: bv32, eEval: bv32)
    requires 1 <= chkSyms <= RS8.MaxChecks
    ensures eLoc < GF8Poly.Limit && GF8Poly.Coeffs(eLoc) == RS8.Locator(ePos, RS8.BlockSyms)
    ensures GF8Poly.Coeffs(eEval) == if ePos == 0 then GF8Poly.Coeffs(synd)
      else RS8Decode.Truncate(Poly8.Product(GF8Poly.Coeffs(synd), RS8.Locator(ePos, RS8.BlockSyms)), chkSyms)
    ensures ePos != 0 ==> GF8Poly.Fits(eEval, chkSyms * 3)
  {
    var chkSz := chkSyms * 3;
    assert chkSz / 3 == chkSyms;
    eLoc, eEval := 1, synd;
    if ePos != 0 {
      eLoc := RS8.GetErasureLocator(ePos);
      RS8.LocatorShape(ePos, RS8.BlockSyms);
      GF8Poly.CoeffsAt(eLoc, 0);
      eEval := RS8Decode.ErrataEvaluator(eEval, chkSz, eLoc);
    } else {
      RS8.CoeffsOfOne();
      LocatorOfNone(RS8.BlockSyms);
    }
  }

  /**
    * The error part of rs8_decode: Berlekamp-Massey over the Forney
    * syndromes, the degree check against the syndromes left, the root search
    * over the transmitted positions not erased and the root count check;
    * then the errata positions, locator and evaluator.
    */
  method ErrorStage(eEval: bv32, chkSyms: int, eLoc: bv32, ePos: bv8, txPos: bv8, eraseCnt: nat) returns (r: Search)
    requires 1 <= chkSyms <= RS8.MaxChecks && eraseCnt < chkSyms
    requires eLoc < GF8Poly.Limit && GF8Poly.Coeffs(eLoc)[0] == 1
    requires forall j :: eraseCnt < j < GF8Poly.Terms ==> GF8Poly.Coeffs(eLoc)[j] == 0
    ensures Matches(ErrorPlan(GF8Poly.Coeffs(eEval), GF8Poly.Coeffs(eLoc), chkSyms, eraseCnt, ePos, txPos), r, chkSyms)
  {
    var chkSz := chkSyms * 3;
    assert chkSz / 3 == chkSyms;
    ghost var T, E := GF8Poly.Coeffs(eEval), GF8Poly.Coeffs(eLoc);
    var errorLoc := RS8Decode.ErrorLocator(eEval, chkSz);
    ghost var C := BerlekampMassey.Run(T, chkSyms).c;
    assert GF8Poly.Coeffs(errorLoc) == C;
    var order := GF8Poly.GetOrder(errorLoc);
    PlanSteps(T, E, chkSyms, eraseCnt, ePos, txPos, C, order, ErrorsFound(C, txPos & !ePos));
    if 2 * order > chkSyms - eraseCnt {
      return Failed(RS8Decode.TooManyErrors);
    }
    LocatorWordShape(errorLoc, T, chkSyms, order);
    r := RootStage(eEval, chkSyms, eLoc, errorLoc, order, ePos, txPos, eraseCnt);
  }

  /**
    * What a search result says of a plan: the same failure, or the repair
    * with the positions, the evaluator (of degree below k) and the locator
    * (of degree at most k) the magnitudes need.
    */
  ghost predicate Matches(pl: Plan, r: Search, k: int)
  {
    match r
    case Failed(failure) => pl == Fail(failure)
    case Errata(pos, loc, eval) => Ready(pl, pos, eval, loc, k)
  }

  /**
    * The root search of rs8_decode's error part, once the error locator
    * errorLoc has passed the degree check: the root count check, then the
    * errata positions, locator and evaluator.
    */
  method RootStage(eEval: bv32, chkSyms: int, eLoc: bv32, errorLoc: bv32, order: int, ePos: bv8, txPos: bv8, eraseCnt: nat)
    returns (r: Search)
    requires 1 <= chkSyms <= RS8.MaxChecks && 0 <= order && eraseCnt < chkSyms && 2 * order <= chkSyms - eraseCnt
    requires eLoc < GF8Poly.Limit && forall j :: eraseCnt < j < GF8Poly.Terms ==> GF8Poly.Coeffs(eLoc)[j] == 0
    requires errorLoc < GF8Poly.Limit && GF8Poly.Fits(errorLoc, 21) && GF8Poly.Coeffs(errorLoc)[0] == 1
    requires forall j :: order < j < GF8Poly.Terms ==> GF8Poly.Coeffs(errorLoc)[j] == 0
    ensures Matches(SearchPlan(chkSyms, eraseCnt, order, ePos, ErrorsFound(GF8Poly.Coeffs(errorLoc), txPos & !ePos),
      RS8Decode.Truncate(Poly8.Product(GF8Poly.Coeffs(eEval), GF8Poly.Coeffs(errorLoc)), chkSyms),
      Poly8.Product(GF8Poly.Coeffs(eLoc), GF8Poly.Coeffs(errorLoc))), r, chkSyms)
  {
    var errorPos := RS8Decode.ErrorPositions(errorLoc, txPos & !ePos);
    SearchFound(errorPos, errorLoc, txPos & !ePos);
    var errorCnt := Popcount(errorPos);
    if errorCnt != order {
      return Failed(RS8Decode.RootCountMismatch);
    }
    r := MergeErrata(eEval, chkSyms, eLoc, errorLoc, ePos | errorPos, eraseCnt, order);
  }

  /**
    * The tail of rs8_decode's error part: the errata locator (the erasure
    * locator times the error locator), the errata evaluator and the union of
    * the erased and the found positions.
    */
  method MergeErrata(eEval: bv32, chkSyms: int, eLoc: bv32, errorLoc: bv32, pos: bv8, eraseCnt: nat, order: int)
    returns (r: Search)
    requires 1 <= chkSyms <= RS8.MaxChecks && 0 <= order && eraseCnt < chkSyms && eraseCnt + 2 * order <= chkSyms
    requires eLoc < GF8Poly.Limit && forall j :: eraseCnt < j < GF8Poly.Terms ==> GF8Poly.Coeffs(eLoc)[j] == 0
    requires errorLoc < GF8Poly.Limit && GF8Poly.Coeffs(errorLoc)[0] == 1
    requires forall j :: order < j < GF8Poly.Terms ==> GF8Poly.Coeffs(errorLoc)[j] == 0
    ensures Matches(Repair(pos, RS8Decode.Truncate(Poly8.Product(GF8Poly.Coeffs(eEval), GF8Poly.Coeffs(errorLoc)), chkSyms),
      Poly8.Product(GF8Poly.Coeffs(eLoc), GF8Poly.Coeffs(errorLoc))), r, chkSyms)
  {
    var chkSz := chkSyms * 3;
    assert chkSz / 3 == chkSyms;
    GF8Poly.MulIsProduct(eLoc, errorLoc);
    ErrataLocator(GF8Poly.Coeffs(eLoc), GF8Poly.Coeffs(errorLoc), eraseCnt, order, chkSyms);
    GF8Poly.CoeffsAt(errorLoc, 0);
    var eval := RS8Decode.ErrataEvaluator(eEval, chkSz, errorLoc);
    SixTerms(eLoc, eraseCnt);
    GF8Poly.MulBelowLimit(eLoc, errorLoc);
    r := Errata(pos, GF8Poly.Mul(eLoc, errorLoc), eval);
  }

  /** ErrorPlan, given the locator C, its order and the found positions by name. */
  lemma PlanSteps(T: Poly8.Poly, E: Poly8.Poly, k: nat, erased: nat, ePos: bv8, txPos: bv8, C: Poly8.Poly, order: int, found: bv8)
    requires |T| == GF8Poly.Terms && k <= RS8.MaxChecks && C == BerlekampMassey.Run(T, k).c
    requires order == Poly8.Order(C) && found == ErrorsFound(C, txPos & !ePos)
    ensures ErrorPlan(T, E, k, erased, ePos, txPos) ==
      SearchPlan(k, erased, order, ePos, found, RS8Decode.Truncate(Poly8.Product(T, C), k), Poly8.Product(E, C))
  {
  }

  // ---------------------------------------------------------------------
  // What the outcome guarantees
  // ---------------------------------------------------------------------

  /** A codeword comes back unchanged whenever the erasures are within the Singleton bound. */
  lemma CodewordUnchanged(recv: bv32, k: nat, ePos: bv8, txPos: bv8, d: RS8Decode.Decoded)
    requires k <= RS8.MaxChecks && RS8.IsCodeword(recv, k) && Popcount(ePos) <= k
    requires DecodeOutcome(recv, k, ePos, txPos, d)
    ensures d == RS8Decode.Corrected(recv)
  {
    RS8.SyndromesZeroIffCodeword(recv, k);
  }

  /** -1 comes back exactly when there are more erasures than check symbols. */
  lemma BeyondBoundIff(recv: bv32, k: nat, ePos: bv8, txPos: bv8, d: RS8Decode.Decoded)
    requires k <= RS8.MaxChecks && DecodeOutcome(recv, k, ePos, txPos, d)
    ensures d == RS8Decode.BeyondSingletonBound <==> Popcount(ePos) > k
  {
    if Popcount(ePos) <= k && RS8.Syndromes(GF8Poly.Coeffs(recv), k) != Poly8.Zero(GF8Poly.Terms) {
      PlanFailures(RS8.Syndromes(GF8Poly.Coeffs(recv), k), k, ePos, txPos);
    }
  }

  /** A plan fails only with -2 or -3. */
  lemma PlanFailures(S: Poly8.Poly, k: nat, ePos: bv8, txPos: bv8)
    requires |S| == GF8Poly.Terms && k <= RS8.MaxChecks
    ensures var pl := DecodePlan(S, k, ePos, txPos);
      pl.Fail? ==> pl.outcome == RS8Decode.TooManyErrors || pl.outcome == RS8Decode.RootCountMismatch
  {
    var T, E := ForneySyndromes(S, k, ePos), RS8.Locator(ePos, RS8.BlockSyms);
    if Popcount(ePos) != k {
      ErrorPlanFailures(T, E, k, Popcount(ePos), ePos, txPos);
    }
  }

  lemma ErrorPlanFailures(T: Poly8.Poly, E: Poly8.Poly, k: nat, erased: nat, ePos: bv8, txPos: bv8)
    requires |T| == GF8Poly.Terms && k <= RS8.MaxChecks
    ensures var pl := ErrorPlan(T, E, k, erased, ePos, txPos);
      pl.Fail? ==> pl.outcome == RS8Decode.TooManyErrors || pl.outcome == RS8Decode.RootCountMismatch
  {
  }

  /** The positions rs8_decode repairs: none when every syndrome is 0, those of the plan otherwise. */
  ghost function ErrataPositions(recv: bv32, k: nat, ePos: bv8, txPos: bv8): (pos: bv8)
    requires k <= RS8.MaxChecks
  {
    if Popcount(ePos) > k || RS8.Syndromes(GF8Poly.Coeffs(recv), k) == Poly8.Zero(GF8Poly.Terms) then 0
    else var pl := DecodePlan(RS8.Syndromes(GF8Poly.Coeffs(recv), k), k, ePos, txPos); if pl.Repair? then pl.pos else 0
  }

  /**
    * A non-negative corrected word differs from the received word only in
    * symbols of the block at the errata positions.  (A negative word is the
    * error value rs8_get_errata_magnitude signals with, passed on by the
    * final XOR.)
    */
  lemma OnlyErrataChange(recv: bv32, k: nat, ePos: bv8, txPos: bv8, d: RS8Decode.Decoded)
    requires k <= RS8.MaxChecks && recv < GF8Poly.Limit && DecodeOutcome(recv, k, ePos, txPos, d)
    requires d.Corrected? && !GF8Poly.Negative(d.word)
    ensures forall p :: 0 <= p < GF8Poly.Terms && GF8Poly.Coeffs(d.word)[p] != GF8Poly.Coeffs(recv)[p] ==>
      p < RS8.BlockSyms && RS8.Marked(ErrataPositions(recv, k, ePos, txPos), p)
  {
    if Popcount(ePos) <= k && RS8.Syndromes(GF8Poly.Coeffs(recv), k) != Poly8.Zero(GF8Poly.Terms) {
      var S := RS8.Syndromes(GF8Poly.Coeffs(recv), k);
      var pl := DecodePlan(S, k, ePos, txPos);
      PlanFailures(S, k, ePos, txPos);
      FollowsOnlyAt(recv, pl, d);
    }
  }

  /** Carrying out a Repair plan changes only the plan's positions, or leaves a negative word. */
  lemma FollowsOnlyAt(recv: bv32, pl: Plan, d: RS8Decode.Decoded)
    requires recv < GF8Poly.Limit && Follows(recv, pl, d) && d.Corrected? && !GF8Poly.Negative(d.word)
    requires pl.Fail? ==> !pl.outcome.Corrected?
    ensures pl.Repair?
    ensures forall p :: 0 <= p < GF8Poly.Terms && GF8Poly.Coeffs(d.word)[p] != GF8Poly.Coeffs(recv)[p] ==>
      p < RS8.BlockSyms && RS8.Marked(pl.pos, p)
  {
    RepairOnlyAt(recv, pl.Omega, Poly8.Derivative(pl.Lambda), pl.pos, d.word, GF8Poly.Add(recv, d.word));
  }

  /** Adding a magnitude word to recv changes only the marked symbols, or leaves a negative word. */
  lemma RepairOnlyAt(recv: bv32, Omega: Poly8.Poly, D: Poly8.Poly, pos: bv8, w: bv32, mag: bv32)
    requires recv < GF8Poly.Limit && mag == GF8Poly.Add(recv, w) && !GF8Poly.Negative(w)
    requires RS8Magnitude.ErrataMagnitudes(Omega, D, pos, mag)
    ensures forall p :: 0 <= p < GF8Poly.Terms && GF8Poly.Coeffs(w)[p] != GF8Poly.Coeffs(recv)[p] ==>
      p < RS8.BlockSyms && RS8.Marked(pos, p)
  {
    assert w == GF8Poly.Add(recv, mag);
    if !RS8Magnitude.Divisible(D, pos) {
      // the magnitude word is then negative, and so would be w
      assert false;
    } else {
      GF8Poly.CoeffsAdd(recv, mag);
      forall p | 0 <= p < GF8Poly.Terms && GF8Poly.Coeffs(w)[p] != GF8Poly.Coeffs(recv)[p]
        ensures p < RS8.BlockSyms && RS8.Marked(pos, p)
      {
        assert RS8Magnitude.IsCorrection(Omega, D, pos, p, GF8Poly.Coeffs(mag)[p]);
        GF8.AddZero(GF8Poly.Coeffs(recv)[p]);
      }
    }
  }

  /**
    * A repair keeps every erasure and finds errors only within what the
    * check symbols can correct: erasures plus twice the errors is at most k.
    */
  ghost predicate WithinBound(pl: Plan, ePos: bv8, k: nat)
  {
    pl.Repair? ==>
      && ePos & pl.pos == ePos
      && Popcount(ePos) <= Popcount(pl.pos)
      && Popcount(ePos) + 2 * (Popcount(pl.pos) - Popcount(ePos)) <= k
  }

  /** Every repair the decoder plans is within the bound. */
  lemma RepairWithinBound(S: Poly8.Poly, k: nat, ePos: bv8, txPos: bv8)
    requires |S| == GF8Poly.Terms && k <= RS8.MaxChecks && Popcount(ePos) <= k
    ensures WithinBound(DecodePlan(S, k, ePos, txPos), ePos, k)
  {
    var T, E := ForneySyndromes(S, k, ePos), RS8.Locator(ePos, RS8.BlockSyms);
    if Popcount(ePos) != k {
      assert DecodePlan(S, k, ePos, txPos) == ErrorPlan(T, E, k, Popcount(ePos), ePos, txPos);
      ErrorPlanWithinBound(T, E, k, Popcount(ePos), ePos, txPos);
    } else {
      assert DecodePlan(S, k, ePos, txPos) == Repair(ePos, T, E);
    }
  }

  /** The same for the error search. */
  lemma ErrorPlanWithinBound(T: Poly8.Poly, E: Poly8.Poly, k: nat, erased: nat, ePos: bv8, txPos: bv8)
    requires |T| == GF8Poly.Terms && k <= RS8.MaxChecks && erased == Popcount(ePos) <= k
    ensures WithinBound(ErrorPlan(T, E, k, erased, ePos, txPos), ePos, k)
  {
    var C := BerlekampMassey.Run(T, k).c;
    var found := ErrorsFound(C, txPos & !ePos);
    var Omega, Lambda := RS8Decode.Truncate(Poly8.Product(T, C), k), Poly8.Product(E, C);
    PlanSteps(T, E, k, erased, ePos, txPos, C, Poly8.Order(C), found);
    FoundInMask(C, txPos & !ePos);
    DisjointUnion(ePos, found, txPos & !ePos);
    SearchWithinBound(k, erased, Poly8.Order(C), ePos, found, Omega, Lambda);
  }

  /** The same for the verdict, given how the found positions combine with the erasures. */
  lemma SearchWithinBound(k: nat, erased: nat, errors: int, ePos: bv8, found: bv8, Omega: Poly8.Poly, Lambda: Poly8.Poly)
    requires erased == Popcount(ePos) <= k
    requires ePos & (ePos | found) == ePos && Popcount(ePos | found) == Popcount(ePos) + Popcount(found)
    ensures WithinBound(SearchPlan(k, erased, errors, ePos, found, Omega, Lambda), ePos, k)
  {
  }

  /** The root search reports only positions of its mask, and never position 7. */
  lemma FoundInMask(C: Poly8.Poly, mask: bv8)
    ensures ErrorsFound(C, mask) & mask == ErrorsFound(C, mask) && !RS8.Marked(ErrorsFound(C, mask), 7)
  {
    FoundBits(C, mask);
    InMask(ErrorsFound(C, mask), mask);
  }

  /** A byte whose marked positions are all in mask lies inside mask. */
  lemma InMask(b: bv8, mask: bv8)
    requires forall p :: 0 <= p < 8 ==> RS8.Marked(b, p) ==> RS8.Marked(mask, p)
    ensures b & mask == b
  {
    assert RS8.Marked(b, 0) ==> RS8.Marked(mask, 0);
    assert RS8.Marked(b, 1) ==> RS8.Marked(mask, 1);
    assert RS8.Marked(b, 2) ==> RS8.Marked(mask, 2);
    assert RS8.Marked(b, 3) ==> RS8.Marked(mask, 3);
    assert RS8.Marked(b, 4) ==> RS8.Marked(mask, 4);
    assert RS8.Marked(b, 5) ==> RS8.Marked(mask, 5);
    assert RS8.Marked(b, 6) ==> RS8.Marked(mask, 6);
    assert RS8.Marked(b, 7) ==> RS8.Marked(mask, 7);
  }

  /** Bytes with no marked position in common: the count of the union is the sum of the counts. */
  lemma DisjointUnion(a: bv8, b: bv8, mask: bv8)
    requires b & mask == b && mask & a == 0 && !RS8.Marked(a, 7) && !RS8.Marked(b, 7)
    ensures a & (a | b) == a && !RS8.Marked(a | b, 7)
    ensures Popcount(a | b) == Popcount(a) + Popcount(b)
  {
    assert a & b == 0;
    CountUnion(a, b);
  }

  /** Counting the marked positions of a union of disjoint bytes. */
  lemma CountUnion(a: bv8, b: bv8)
    requires a & b == 0
    ensures RS8.MarkedCount(a | b, 8) == RS8.MarkedCount(a, 8) + RS8.MarkedCount(b, 8)
  {
    CountUnionMid(a, b);
    UnionBits(a, b);
    assert RS8.MarkedCount(a | b, 7) == RS8.MarkedCount(a, 7) + RS8.MarkedCount(b, 7);
    assert RS8.MarkedCount(a | b, 8) == RS8.MarkedCount(a, 8) + RS8.MarkedCount(b, 8);
  }

  /** The same below position 6. */
  lemma CountUnionMid(a: bv8, b: bv8)
    requires a & b == 0
    ensures RS8.MarkedCount(a | b, 6) == RS8.MarkedCount(a, 6) + RS8.MarkedCount(b, 6)
  {
    CountUnionLow(a, b);
    UnionBits(a, b);
    assert RS8.MarkedCount(a | b, 5) == RS8.MarkedCount(a, 5) + RS8.MarkedCount(b, 5);
    assert RS8.MarkedCount(a | b, 6) == RS8.MarkedCount(a, 6) + RS8.MarkedCount(b, 6);
  }

  /** The same below position 4. */
  lemma CountUnionLow(a: bv8, b: bv8)
    requires a & b == 0
    ensures RS8.MarkedCount(a | b, 4) == RS8.MarkedCount(a, 4) + RS8.MarkedCount(b, 4)
  {
    UnionBits(a, b);
    assert RS8.MarkedCount(a | b, 1) == RS8.MarkedCount(a, 1) + RS8.MarkedCount(b, 1);
    assert RS8.MarkedCount(a | b, 2) == RS8.MarkedCount(a, 2) + RS8.MarkedCount(b, 2);
    assert RS8.MarkedCount(a | b, 3) == RS8.MarkedCount(a, 3) + RS8.MarkedCount(b, 3);
    assert RS8.MarkedCount(a | b, 4) == RS8.MarkedCount(a, 4) + RS8.MarkedCount(b, 4);
  }

  /** The bits of the union of disjoint bytes, position by position. */
  lemma UnionBits(a: bv8, b: bv8)
    requires a & b == 0
    ensures (RS8.Marked(a | b, 0) <==> RS8.Marked(a, 0) || RS8.Marked(b, 0)) && !(RS8.Marked(a, 0) && RS8.Marked(b, 0))
    ensures (RS8.Marked(a | b, 1) <==> RS8.Marked(a, 1) || RS8.Marked(b, 1)) && !(RS8.Marked(a, 1) && RS8.Marked(b, 1))
    ensures (RS8.Marked(a | b, 2) <==> RS8.Marked(a, 2) || RS8.Marked(b, 2)) && !(RS8.Marked(a, 2) && RS8.Marked(b, 2))
    ensures (RS8.Marked(a | b, 3) <==> RS8.Marked(a, 3) || RS8.Marked(b, 3)) && !(RS8.Marked(a, 3) && RS8.Marked(b, 3))
    ensures (RS8.Marked(a | b, 4) <==> RS8.Marked(a, 4) || RS8.Marked(b, 4)) && !(RS8.Marked(a, 4) && RS8.Marked(b, 4))
    ensures (RS8.Marked(a | b, 5) <==> RS8.Marked(a, 5) || RS8.Marked(b, 5)) && !(RS8.Marked(a, 5) && RS8.Marked(b, 5))
    ensures (RS8.Marked(a | b, 6) <==> RS8.Marked(a, 6) || RS8.Marked(b, 6)) && !(RS8.Marked(a, 6) && RS8.Marked(b, 6))
    ensures (RS8.Marked(a | b, 7) <==> RS8.Marked(a, 7) || RS8.Marked(b, 7)) && !(RS8.Marked(a, 7) && RS8.Marked(b, 7))
  {
  }

  // ---------------------------------------------------------------------
  // Facts the decoding stages need
  // ---------------------------------------------------------------------

  /** Within the Singleton bound bit 7 is clear, and the erasure locator has constant term 1 and degree at most the count. */
  lemma ErasureFacts(ePos: bv8, k: nat)
    requires k <= RS8.MaxChecks && Popcount(ePos) <= k
    ensures !RS8.Marked(ePos, 7) && Popcount(ePos) == RS8.MarkedCount(ePos, RS8.BlockSyms)
    ensures RS8.Locator(ePos, RS8.BlockSyms)[0] == 1
    ensures forall j :: Popcount(ePos) < j < GF8Poly.Terms ==> RS8.Locator(ePos, RS8.BlockSyms)[j] == 0
    ensures ePos == 0 ==> Popcount(ePos) == 0
  {
    RS8.LocatorShape(ePos, RS8.BlockSyms);
    if ePos == 0 {
      NoneMarked(RS8.BlockSyms);
    }
  }

  /** Nothing is marked in the zero byte. */
  lemma {:induction false} NoneMarked(n: nat)
    requires n <= 8
    ensures RS8.MarkedCount(0, n) == 0
  {
    if n > 0 {
      NoneMarked(n - 1);
      assert !RS8.Marked(0, n - 1);
    }
  }

  /** With nothing marked the locator is 1. */
  lemma {:induction false} LocatorOfNone(n: nat)
    requires n <= RS8.BlockSyms
    ensures RS8.Locator(0, n) == RS8.One()
  {
    if n > 0 {
      LocatorOfNone(n - 1);
      assert !RS8.Marked(0, n - 1);
    }
  }

  /** A word below Limit is 0 exactly when its coefficients are. */
  lemma WordZeroIff(w: bv32)
    requires w < GF8Poly.Limit
    ensures w == 0 <==> GF8Poly.Coeffs(w) == Poly8.Zero(GF8Poly.Terms)
  {
    RS8.ZeroIffNoCoeffs(w);
    if RS8.ClearFrom(w, 0) {
      Poly8.AllZero(GF8Poly.Coeffs(w));
    }
  }

  /** Some syndrome is non-zero only when there are check symbols. */
  lemma SomeChecks(recv: bv32, k: nat)
    requires k <= RS8.MaxChecks && RS8.Syndromes(GF8Poly.Coeffs(recv), k) != Poly8.Zero(GF8Poly.Terms)
    ensures k >= 1
  {
    if k == 0 {
      Poly8.AllZero(RS8.Syndromes(GF8Poly.Coeffs(recv), k));
    }
  }

  /**
    * The Berlekamp-Massey locator word: constant term 1, nothing above its
    * order, and within 21 bits when the order is at most 3.
    */
  lemma LocatorWordShape(w: bv32, T: Poly8.Poly, k: nat, order: int)
    requires |T| == GF8Poly.Terms && k <= RS8.MaxChecks
    requires w < GF8Poly.Limit && GF8Poly.Coeffs(w) == BerlekampMassey.Run(T, k).c
    requires order == Poly8.Order(GF8Poly.Coeffs(w)) && order <= 3
    ensures GF8Poly.Coeffs(w)[0] == 1 && 0 <= order && GF8Poly.Fits(w, 21)
    ensures forall j :: order < j < GF8Poly.Terms ==> GF8Poly.Coeffs(w)[j] == 0
  {
    BerlekampMassey.RunGenerates(T, k);
    Poly8.OrderIsTop(GF8Poly.Coeffs(w));
    SmallOrderFits(w, order);
  }

  /** A locator word of order at most 3 fits in the 21 bits the root search reads. */
  lemma SmallOrderFits(w: bv32, order: int)
    requires w < GF8Poly.Limit && order == Poly8.Order(GF8Poly.Coeffs(w)) && order <= 3
    ensures GF8Poly.Fits(w, 21)
  {
    Poly8.OrderIsTop(GF8Poly.Coeffs(w));
    GF8Poly.FitsFromCoeffs(w, 4);
    GF8Poly.FitsMonotone(w, 12, 21);
  }

  /** A word with no term above erased <= 5 has at most six coefficients. */
  lemma SixTerms(w: bv32, erased: int)
    requires w < GF8Poly.Limit && 0 <= erased <= 5
    requires forall j :: erased < j < GF8Poly.Terms ==> GF8Poly.Coeffs(w)[j] == 0
    ensures w < GF8Poly.Bound(6)
  {
    GF8Poly.FitsFromCoeffs(w, 6);
    GF8Poly.FitsBoundAt6(w);
  }

  /** What the root search reports is ErrorsFound of the locator's coefficients. */
  lemma SearchFound(errorPos: bv8, loc: bv32, mask: bv8)
    requires forall p :: 0 <= p < RS8.BlockSyms ==>
      (RS8.Marked(errorPos, p) <==> RS8.Marked(mask, p) && RS8Decode.RootAt(loc, 7 - p))
    requires !RS8.Marked(errorPos, 7)
    ensures errorPos == ErrorsFound(GF8Poly.Coeffs(loc), mask)
  {
    FoundBits(GF8Poly.Coeffs(loc), mask);
    SameBits(errorPos, ErrorsFound(GF8Poly.Coeffs(loc), mask));
  }

  /** Bytes with the same marked positions are equal. */
  lemma SameBits(a: bv8, b: bv8)
    requires forall p :: 0 <= p < 8 ==> (RS8.Marked(a, p) <==> RS8.Marked(b, p))
    ensures a == b
  {
    assert RS8.Marked(a, 0) == RS8.Marked(b, 0) && RS8.Marked(a, 1) == RS8.Marked(b, 1);
    assert RS8.Marked(a, 2) == RS8.Marked(b, 2) && RS8.Marked(a, 3) == RS8.Marked(b, 3);
    assert RS8.Marked(a, 4) == RS8.Marked(b, 4) && RS8.Marked(a, 5) == RS8.Marked(b, 5);
    assert RS8.Marked(a, 6) == RS8.Marked(b, 6) && RS8.Marked(a, 7) == RS8.Marked(b, 7);
  }

  /** The positions ErrorsFound reports, bit by bit. */
  lemma FoundBits(C: Poly8.Poly, mask: bv8)
    ensures forall p :: 0 <= p < 8 ==>
      (RS8.Marked(ErrorsFound(C, mask), p) <==>
       p < RS8.BlockSyms && RS8.Marked(mask, p) && Poly8.Eval(C, GF8.Exp[7 - p]) == 0)
  {
    var h := RootHits(C, mask);
    forall p | 0 <= p < 8
      ensures RS8.Marked(RS8Decode.Verdicts(h, 7), p) <==>
              p < RS8.BlockSyms && RS8.Marked(mask, p) && Poly8.Eval(C, GF8.Exp[7 - p]) == 0
    {
      RS8Decode.VerdictsBits(h, p);
    }
  }

  /**
    * The errata locator: the erasure locator E (degree at most erased) times
    * the error locator C (degree errors).  The product by the five terms
    * gf8_poly_mul reads is the whole product, and it has degree at most k.
    */
  lemma ErrataLocator(E: Poly8.Poly, C: Poly8.Poly, erased: nat, errors: int, k: nat)
    requires |E| == |C| == GF8Poly.Terms && 0 <= errors && erased + 2 * errors <= k <= RS8.MaxChecks
    requires forall j :: erased < j < GF8Poly.Terms ==> E[j] == 0
    requires forall j :: errors < j < GF8Poly.Terms ==> C[j] == 0
    ensures Poly8.Product(E, C[..5]) == Poly8.Product(E, C)
    ensures forall j :: k < j < GF8Poly.Terms ==> Poly8.Product(E, C)[j] == 0
  {
    ProductFirstFive(E, C, C[..5]);
    ProductDegree(E, C, erased, errors);
  }

  /** Coefficients of Q are 0 from 5 up: the product by its first five terms Q5 is the product by Q. */
  lemma ProductFirstFive(P: Poly8.Poly, Q: Poly8.Poly, Q5: Poly8.Poly)
    requires |P| == |Q| == GF8Poly.Terms && |Q5| == 5 && forall j :: 0 <= j < 5 ==> Q5[j] == Q[j]
    requires BerlekampMassey.ZeroAbove(Q, 4)
    ensures Poly8.Product(P, Q5) == Poly8.Product(P, Q)
  {
    forall k | 0 <= k < GF8Poly.Terms
      ensures Poly8.Product(P, Q5)[k] == Poly8.Product(P, Q)[k]
    {
      if k < 5 {
        RS8Decode.ProductPrefix(P, Q, Q5, k);
      } else {
        ProductFirstFiveAt(P, Q, Q5, k);
      }
    }
  }

  /** One coefficient of degree at least 5 of the product by the first five terms. */
  lemma ProductFirstFiveAt(P: Poly8.Poly, Q: Poly8.Poly, Q5: Poly8.Poly, k: nat)
    requires |P| == |Q| == GF8Poly.Terms && 5 <= k < GF8Poly.Terms
    requires |Q5| == 5 && forall j :: 0 <= j < 5 ==> Q5[j] == Q[j]
    requires BerlekampMassey.ZeroAbove(Q, 4)
    ensures Poly8.Product(P, Q5)[k] == Poly8.Product(P, Q)[k]
  {
    Poly8.ProductIsConvolution(P, Q5, k);
    Poly8.ProductIsConvolution(P, Q, k);
    BerlekampMassey.ConvSumHigh(P, Q, 4, k, k + 1);
    RS8Decode.ConvSumPrefix(P, Q, Q5, k, 5);
  }

  /** A product of polynomials of degrees at most a and b has degree at most a + b. */
  lemma ProductDegree(P: Poly8.Poly, Q: Poly8.Poly, a: nat, b: nat)
    requires forall j :: a < j < |P| ==> P[j] == 0
    requires forall j :: b < j < |Q| ==> Q[j] == 0
    ensures forall k :: a + b < k < |P| ==> Poly8.Product(P, Q)[k] == 0
  {
    forall k | a + b < k < |P|
      ensures Poly8.Product(P, Q)[k] == 0
    {
      Poly8.ProductIsConvolution(P, Q, k);
      ConvSumZero(P, Q, a, b, k, if |Q| < k + 1 then |Q| else k + 1);
    }
  }

  /** Every term p[k - j] q[j] of the sum vanishes when k > a + b. */
  lemma {:induction false} ConvSumZero(P: Poly8.Poly, Q: Poly8.Poly, a: nat, b: nat, k: nat, n: nat)
    requires k < |P| && n <= |Q| && n <= k + 1 && a + b < k
    requires forall j :: a < j < |P| ==> P[j] == 0
    requires forall j :: b < j < |Q| ==> Q[j] == 0
    ensures Poly8.ConvolutionSum(P, Q, k, n) == 0
  {
    if n > 0 {
      ConvSumZero(P, Q, a, b, k, n - 1);
      if n - 1 > b {
        assert Q[n - 1] == 0;
      } else {
        assert P[k - (n - 1)] == 0;
      }
      GF8.AddZero(0);
    }
  }

  /** The formal derivative of a word with no term above k fits in 3k bits. */
  lemma DerivativeFits(w: bv32, k: nat)
    requires 1 <= k <= GF8Poly.Terms
    requires forall j :: k < j < GF8Poly.Terms ==> GF8Poly.Coeffs(w)[j] == 0
    ensures GF8Poly.Fits(GF8Poly.FormalDerivative(w), k * 3)
  {
    var d := GF8Poly.FormalDerivative(w);
    GF8Poly.FormalDerivativeIsDerivative(w);
    forall j | k <= j < GF8Poly.Terms
      ensures GF8Poly.Coeffs(d)[j] == 0
    {
      Poly8.DerivativeKeepsOdd(GF8Poly.Coeffs(w), j);
    }
    assert d < GF8Poly.Limit;
    GF8Poly.FitsFromCoeffs(d, k);
  }

  // ---------------------------------------------------------------------
  // The error search over the syndromes the erasures leave
  // ---------------------------------------------------------------------

  /** The Forney syndromes from index f on, moved down to index 0 (zeros fill the top). */
  ghost function Remaining(T: Poly8.Poly, f: nat): (R: Poly8.Poly)
    requires f <= |T|
    ensures |R| == |T|
    ensures forall j :: 0 <= j < |T| - f ==> R[j] == T[j + f]
  {
    T[f..] + Poly8.Zero(f)
  }

  /**
    * The error search as the comment above rs8_get_error_locator describes
    * it: Berlekamp-Massey over the k - erased Forney syndromes T[erased..k)
    * that the erasures leave, everything else as in ErrorPlan.
    */
  ghost function IntendedErrorPlan(T: Poly8.Poly, E: Poly8.Poly, k: nat, erased: nat, ePos: bv8, txPos: bv8): (pl: Plan)
    requires |T| == GF8Poly.Terms && erased <= k <= RS8.MaxChecks
  {
    var C := BerlekampMassey.Run(Remaining(T, erased), k - erased).c;
    SearchPlan(k, erased, Poly8.Order(C), ePos, ErrorsFound(C, txPos & !ePos),
      RS8Decode.Truncate(Poly8.Product(T, C), k), Poly8.Product(E, C))
  }

  /** DecodePlan with the error search of IntendedErrorPlan. */
  ghost function IntendedDecodePlan(S: Poly8.Poly, k: nat, ePos: bv8, txPos: bv8): (pl: Plan)
    requires |S| == GF8Poly.Terms && k <= RS8.MaxChecks && Popcount(ePos) <= k
  {
    var T := ForneySyndromes(S, k, ePos);
    var E := RS8.Locator(ePos, RS8.BlockSyms);
    if Popcount(ePos) == k then Repair(ePos, T, E)
    else IntendedErrorPlan(T, E, k, Popcount(ePos), ePos, txPos)
  }

  /** DecodeOutcome with IntendedDecodePlan in place of DecodePlan. */
  ghost predicate IntendedOutcome(recv: bv32, k: nat, ePos: bv8, txPos: bv8, d: RS8Decode.Decoded)
    requires k <= RS8.MaxChecks
  {
    if Popcount(ePos) > k then d == RS8Decode.BeyondSingletonBound
    else if RS8.Syndromes(GF8Poly.Coeffs(recv), k) == Poly8.Zero(GF8Poly.Terms) then d == RS8Decode.Corrected(recv)
    else Follows(recv, IntendedDecodePlan(RS8.Syndromes(GF8Poly.Coeffs(recv), k), k, ePos, txPos), d)
  }
}
