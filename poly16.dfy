/**
  * Polynomials over GF(16) as coefficient sequences, lowest degree first.
  *
  * This is the reference meaning of the packed polynomials of
  * ReedSolomon/src/gf16.c: a packed value is read as the sequence of its 4-bit
  * slots (see GF16Poly.Coeffs), and every packed operation is proved equal to the
  * operation defined here.  A sequence of length n stands for a polynomial of
  * degree below n; operations that could raise the degree (the shift by x, the
  * product) keep the length and drop what falls off the top, as the fixed-width
  * packed forms do.
  */
module Poly16 {
  import GF16

  type Poly = seq<GF16.Elem>

  function Zero(n: nat): (r: Poly)
    ensures |r| == n
    ensures forall i :: 0 <= i < n ==> r[i] == 0
  {
    seq(n, i => 0)
  }

  /** Coefficient-wise sum (XOR). */
  function Add(p: Poly, q: Poly): (r: Poly)
    requires |p| == |q|
    ensures |r| == |p|
    ensures forall i :: 0 <= i < |p| ==> r[i] == GF16.Add(p[i], q[i])
  {
    seq(|p|, i requires 0 <= i < |p| => GF16.Add(p[i], q[i]))
  }

  /** Every coefficient multiplied by the element x. */
  function ScaleBy(p: Poly, x: GF16.Elem): (r: Poly)
    ensures |r| == |p|
    ensures forall i :: 0 <= i < |p| ==> r[i] == GF16.Mul(p[i], x)
  {
    seq(|p|, i requires 0 <= i < |p| => GF16.Mul(p[i], x))
  }

  /** Scaling by the unit element changes nothing. */
  lemma ScaleByOne(p: Poly)
    ensures ScaleBy(p, 1) == p
  {
    forall i | 0 <= i < |p|
      ensures ScaleBy(p, 1)[i] == p[i]
    {
      GF16.MulOne(p[i]);
    }
  }

  /** Multiplication by x: every coefficient moves up one degree and the top one falls off. */
  function ShiftUp(p: Poly): (r: Poly)
    ensures |r| == |p|
    ensures |p| > 0 ==> r[0] == 0
    ensures forall i :: 0 < i < |p| ==> r[i] == p[i - 1]
  {
    if |p| == 0 then [] else [0] + p[..|p| - 1]
  }

  /** Division by x: every coefficient moves down one degree, the constant one is dropped and a zero enters at the top. */
  function ShiftDown(p: Poly): (r: Poly)
    ensures |r| == |p|
    ensures |p| > 0 ==> r[|p| - 1] == 0
    ensures forall i :: 0 <= i < |p| - 1 ==> r[i] == p[i + 1]
  {
    if |p| == 0 then [] else p[1..] + [0]
  }

  /**
    * The product p * q kept to |p| coefficients, built one coefficient of q at
    * a time: p * (q0 + x * q') = q0 * p + x * (p * q').
    */
  function Product(p: Poly, q: Poly): (r: Poly)
    ensures |r| == |p|
    decreases |q|
  {
    if |q| == 0 then Zero(|p|)
    else Add(ScaleBy(p, q[0]), ShiftUp(Product(p, q[1..])))
  }

  /** The schoolbook sum of p[k - j] * q[j] over j < n. */
  function ConvolutionSum(p: Poly, q: Poly, k: nat, n: nat): GF16.Elem
    requires k < |p|
    requires n <= |q| && n <= k + 1
  {
    if n == 0 then 0
    else GF16.Add(ConvolutionSum(p, q, k, n - 1), GF16.Mul(p[k - (n - 1)], q[n - 1]))
  }

  /** Coefficient k of the schoolbook product: the sum of p[k - j] * q[j] over all j <= k with j < |q|. */
  function Convolution(p: Poly, q: Poly, k: nat): GF16.Elem
    requires k < |p|
  {
    ConvolutionSum(p, q, k, if |q| < k + 1 then |q| else k + 1)
  }

  lemma ConvolutionConstant(p: Poly, q: Poly)
    requires |p| > 0 && |q| > 0
    ensures Convolution(p, q, 0) == GF16.Mul(p[0], q[0])
  {
    assert Convolution(p, q, 0) == ConvolutionSum(p, q, 0, 1);
    GF16.AddZero(GF16.Mul(p[0], q[0]));
  }

  /** Splitting off the first term of q from the schoolbook sum. */
  lemma {:induction false} ConvolutionSumFirst(p: Poly, q: Poly, k: nat, n: nat)
    requires 0 < k < |p|
    requires 0 < n <= |q| && n <= k + 1
    ensures ConvolutionSum(p, q, k, n)
         == GF16.Add(GF16.Mul(p[k], q[0]), ConvolutionSum(p, q[1..], k - 1, n - 1))
  {
    if n > 1 {
      var j := n - 1;
      ConvolutionSumFirst(p, q, k, j);
      var q' := q[1..];
      var i := j - 1;
      assert q'[i] == q[j];
      ConvolutionSumStep(p, q, k, j);
      ConvolutionSumStep(p, q', k - 1, i);
      GF16.AddAssociates(GF16.Mul(p[k], q[0]), ConvolutionSum(p, q', k - 1, i), GF16.Mul(p[k - j], q[j]));
    } else {
      ConvolutionSumStep(p, q, k, 0);
      GF16.AddZero(GF16.Mul(p[k], q[0]));
    }
  }

  /** One more term of the schoolbook sum. */
  lemma ConvolutionSumStep(p: Poly, q: Poly, k: nat, j: nat)
    requires k < |p|
    requires j + 1 <= |q| && j + 1 <= k + 1
    ensures ConvolutionSum(p, q, k, j + 1) == GF16.Add(ConvolutionSum(p, q, k, j), GF16.Mul(p[k - j], q[j]))
  {
  }

  /** A factor with constant term 1 contributes p itself plus the product by its other terms, one place up. */
  lemma ProductMonic(p: Poly, q: Poly)
    requires |q| > 0 && q[0] == 1
    ensures Product(p, q) == Add(p, ShiftUp(Product(p, q[1..])))
  {
    ScaleByOne(p);
  }

  /** The constant coefficient of a product is the product of the constant coefficients. */
  lemma ProductConstant(p: Poly, q: Poly)
    requires |p| > 0 && |q| > 0
    ensures Product(p, q)[0] == GF16.Mul(p[0], q[0])
  {
    GF16.AddZero(GF16.Mul(p[0], q[0]));
  }

  /** Coefficient k > 0 of a product, one step of the recursion: q0 * p[k] plus coefficient k - 1 of p * q'. */
  lemma ProductCoeff(p: Poly, q: Poly, k: nat)
    requires 0 < k < |p| && |q| > 0
    ensures Product(p, q)[k] == GF16.Add(GF16.Mul(p[k], q[0]), Product(p, q[1..])[k - 1])
  {
  }

  /** Coefficient k of the schoolbook product, with the term of q[0] split off. */
  lemma ConvolutionFirst(p: Poly, q: Poly, k: nat)
    requires 0 < k < |p| && |q| > 0
    ensures Convolution(p, q, k) == GF16.Add(GF16.Mul(p[k], q[0]), Convolution(p, q[1..], k - 1))
  {
    var n := if |q| < k + 1 then |q| else k + 1;
    assert Convolution(p, q[1..], k - 1) == ConvolutionSum(p, q[1..], k - 1, n - 1);
    ConvolutionSumFirst(p, q, k, n);
  }

  /** With no terms in q, both the product and the schoolbook sum are 0. */
  lemma ConvolutionEmpty(p: Poly, q: Poly, k: nat)
    requires k < |p| && |q| == 0
    ensures Product(p, q)[k] == Convolution(p, q, k)
  {
    assert Convolution(p, q, k) == ConvolutionSum(p, q, k, 0);
    assert Product(p, q) == Zero(|p|);
  }

  /** The recursive product has the schoolbook coefficients (truncated to |p| terms). */
  lemma {:induction false} ProductIsConvolution(p: Poly, q: Poly, k: nat)
    requires k < |p|
    ensures Product(p, q)[k] == Convolution(p, q, k)
    decreases |q|
  {
    if |q| == 0 {
      ConvolutionEmpty(p, q, k);
    } else {
      if k == 0 {
        ProductConstant(p, q);
        ConvolutionConstant(p, q);
      } else {
        ProductCoeff(p, q, k);
        ProductIsConvolution(p, q[1..], k - 1);
        ConvolutionFirst(p, q, k);
      }
    }
  }

  lemma ProductByZeroCoeff(p: Poly, i: nat)
    requires i < |p|
    ensures Product(p, [0])[i] == 0
  {
    GF16.MulCommutes(p[i], 0);
    if i == 0 {
      ProductConstant(p, [0]);
    } else {
      ProductCoeff(p, [0], i);
      GF16.AddZero(0);
    }
  }

  /** A product with the constant 0 is zero. */
  lemma ProductByZero(p: Poly)
    ensures Product(p, [0]) == Zero(|p|)
  {
    forall i | 0 <= i < |p|
      ensures Product(p, [0])[i] == 0
    {
      ProductByZeroCoeff(p, i);
    }
    AllZero(Product(p, [0]));
  }

  /** A sequence whose every coefficient is 0 is the zero polynomial of its length. */
  lemma AllZero(s: Poly)
    requires forall i :: 0 <= i < |s| ==> s[i] == 0
    ensures s == Zero(|s|)
  {
  }

  /** Trailing zero coefficients of the second factor change nothing. */
  lemma {:induction false} ProductPadded(p: Poly, q: Poly)
    ensures Product(p, q + [0]) == Product(p, q)
    decreases |q|
  {
    if |q| == 0 {
      assert q + [0] == [0];
      ProductByZero(p);
    } else {
      assert (q + [0])[1..] == q[1..] + [0];
      ProductPadded(p, q[1..]);
    }
  }

  /** A second factor with every coefficient 0 gives the zero product. */
  lemma {:induction false} ProductOfZeros(p: Poly, a: Poly)
    requires forall i :: 0 <= i < |a| ==> a[i] == 0
    ensures Product(p, a) == Zero(|p|)
    decreases |a|
  {
    if |a| > 0 {
      ProductOfZeros(p, a[1..]);
      forall i | 0 <= i < |p|
        ensures Product(p, a)[i] == 0
      {
        GF16.MulCommutes(p[i], 0);
      }
      AllZero(Product(p, a));
    }
  }

  /** The product is additive in its second factor: p * (a + b) = p * a + p * b. */
  lemma {:induction false} ProductAddRight(p: Poly, a: Poly, b: Poly)
    requires |a| == |b|
    ensures Product(p, Add(a, b)) == Add(Product(p, a), Product(p, b))
    decreases |a|
  {
    var s := Add(a, b);
    if |a| == 0 {
      AllZero(Add(Zero(|p|), Zero(|p|)));
    } else {
      assert s[1..] == Add(a[1..], b[1..]);
      ProductAddRight(p, a[1..], b[1..]);
      var ra, rb := Product(p, a[1..]), Product(p, b[1..]);
      var us, ua, ub := ShiftUp(Product(p, s[1..])), ShiftUp(ra), ShiftUp(rb);
      forall i | 0 <= i < |p|
        ensures Product(p, s)[i] == GF16.Add(Product(p, a)[i], Product(p, b)[i])
      {
        var x, y := GF16.Mul(p[i], a[0]), GF16.Mul(p[i], b[0]);
        assert Product(p, s)[i] == GF16.Add(GF16.Mul(p[i], s[0]), us[i]);
        assert Product(p, a)[i] == GF16.Add(x, ua[i]);
        assert Product(p, b)[i] == GF16.Add(y, ub[i]);
        assert us[i] == GF16.Add(ua[i], ub[i]) by {
          if i == 0 {
            GF16.AddZero(0);
          } else {
            assert us[i] == Product(p, s[1..])[i - 1];
          }
        }
        assert GF16.Mul(p[i], s[0]) == GF16.Add(x, y) by {
          GF16.MulCommutes(p[i], s[0]);
          GF16.MulCommutes(p[i], a[0]);
          GF16.MulCommutes(p[i], b[0]);
          GF16.MulDistributes(a[0], b[0], p[i]);
        }
        GF16.AddSwapMiddle(x, y, ua[i], ub[i]);
      }
    }
  }

  /**
    * Setting a zero coefficient j of the second factor to c adds p scaled by c
    * and moved up j places: the term c * x^j of a quotient contributes
    * c * x^j * p.
    */
  lemma {:induction false} ProductSetTerm(p: Poly, a: Poly, j: nat, c: GF16.Elem)
    requires j < |a| && a[j] == 0
    ensures Product(p, a[j := c]) == Add(Product(p, a), ScaleBy(ShiftUpBy(p, j), c))
    decreases j
  {
    if j == 0 {
      SetConstantTerm(p, a, c);
    } else {
      assert a[j := c][1..] == a[1..][j - 1 := c];
      ProductSetTerm(p, a[1..], j - 1, c);
      SetHigherTerm(p, a, j, c);
    }
  }

  /** The constant term of the second factor: c * p is added. */
  lemma SetConstantTerm(p: Poly, a: Poly, c: GF16.Elem)
    requires 0 < |a| && a[0] == 0
    ensures Product(p, a[0 := c]) == Add(Product(p, a), ScaleBy(ShiftUpBy(p, 0), c))
  {
    var a' := a[0 := c];
    assert a'[1..] == a[1..];
    forall i | 0 <= i < |p|
      ensures Product(p, a')[i] == GF16.Add(Product(p, a)[i], ScaleBy(p, c)[i])
    {
      GF16.MulCommutes(p[i], 0);
    }
  }

  /** A higher term of the second factor: its contribution one place down, moved up by one. */
  lemma SetHigherTerm(p: Poly, a: Poly, j: nat, c: GF16.Elem)
    requires 0 < j < |a|
    requires Product(p, a[j := c][1..]) == Add(Product(p, a[1..]), ScaleBy(ShiftUpBy(p, j - 1), c))
    ensures Product(p, a[j := c]) == Add(Product(p, a), ScaleBy(ShiftUpBy(p, j), c))
  {
    var a' := a[j := c];
    var u, u' := ShiftUp(Product(p, a[1..])), ShiftUp(Product(p, a'[1..]));
    var w := ShiftUpBy(p, j - 1);
    forall i | 0 <= i < |p|
      ensures Product(p, a')[i] == GF16.Add(Product(p, a)[i], ScaleBy(ShiftUpBy(p, j), c)[i])
    {
      var x := GF16.Mul(p[i], a[0]);
      assert Product(p, a')[i] == GF16.Add(x, u'[i]);
      assert Product(p, a)[i] == GF16.Add(x, u[i]);
      if i == 0 {
        assert u'[i] == 0 && u[i] == 0 && ShiftUpBy(p, j)[i] == 0;
        GF16.AddZero(x);
      } else {
        assert u'[i] == GF16.Add(u[i], GF16.Mul(w[i - 1], c));
        assert ShiftUpBy(p, j)[i] == w[i - 1];
        GF16.AddAssociates(x, u[i], GF16.Mul(w[i - 1], c));
      }
    }
  }

  /**
    * With nothing above degree d in p and nothing above degree e in a, the
    * product has nothing above degree d + e, and its coefficient d + e is the
    * product of the two top coefficients.
    */
  lemma ProductTop(p: Poly, a: Poly, d: nat, e: nat)
    requires e < |a| && d + e < |p|
    requires forall k :: d < k < |p| ==> p[k] == 0
    requires forall k :: e < k < |a| ==> a[k] == 0
    ensures Product(p, a)[d + e] == GF16.Mul(p[d], a[e])
    ensures forall k :: d + e < k < |p| ==> Product(p, a)[k] == 0
  {
    ProductTopAt(p, a, d, e, d + e);
    ProductAboveTop(p, a, d, e);
  }

  /** The second half of ProductTop: nothing above degree d + e. */
  lemma ProductAboveTop(p: Poly, a: Poly, d: nat, e: nat)
    requires e < |a| && d + e < |p|
    requires forall k :: d < k < |p| ==> p[k] == 0
    requires forall k :: e < k < |a| ==> a[k] == 0
    ensures forall k :: d + e < k < |p| ==> Product(p, a)[k] == 0
  {
    forall k | d + e < k < |p|
      ensures Product(p, a)[k] == 0
    {
      ProductTopAt(p, a, d, e, k);
    }
  }

  /** ProductTop at one coefficient k from d + e up, through the schoolbook sum. */
  lemma ProductTopAt(p: Poly, a: Poly, d: nat, e: nat, k: nat)
    requires e < |a| && d + e <= k < |p|
    requires forall j :: d < j < |p| ==> p[j] == 0
    requires forall j :: e < j < |a| ==> a[j] == 0
    ensures k == d + e ==> Product(p, a)[k] == GF16.Mul(p[d], a[e])
    ensures k > d + e ==> Product(p, a)[k] == 0
  {
    ProductIsConvolution(p, a, k);
    ConvolutionTop(p, a, d, e, k, if |a| < k + 1 then |a| else k + 1);
  }

  /**
    * In the sum of p[k - j] * a[j] over j < n, every term but j = e, k = d + e
    * has a zero factor.
    */
  lemma {:induction false} ConvolutionTop(p: Poly, a: Poly, d: nat, e: nat, k: nat, n: nat)
    requires e < |a| && d + e <= k < |p| && n <= |a| && n <= k + 1
    requires forall j :: d < j < |p| ==> p[j] == 0
    requires forall j :: e < j < |a| ==> a[j] == 0
    ensures ConvolutionSum(p, a, k, n) == if k == d + e && e < n then GF16.Mul(p[d], a[e]) else 0
  {
    if n > 0 {
      var j := n - 1;
      ConvolutionTop(p, a, d, e, k, j);
      var t := GF16.Mul(p[k - j], a[j]);
      if j == e && k == d + e {
        GF16.AddZero(t);
      } else {
        assert t == 0 by {
          if j > e {
            assert a[j] == 0;
          } else {
            assert p[k - j] == 0;
          }
        }
        GF16.AddZero(ConvolutionSum(p, a, k, j));
      }
    }
  }

  /**
    * Long division by a divisor with top coefficient 1 has one outcome: two
    * ways of writing the same polynomial as a * q + m, with quotients short
    * enough that nothing falls off the top and remainders of degree below that
    * of q, have the same quotient and the same remainder.
    */
  lemma DivisionUnique(q: Poly, d: nat, a: Poly, b: Poly, m: Poly, n: Poly)
    requires d < |q| && q[d] == 1 && forall k :: d < k < |q| ==> q[k] == 0
    requires |a| == |q| - d && |b| == |q| - d && |m| == |q| && |n| == |q|
    requires forall k :: d <= k < |q| ==> m[k] == 0 && n[k] == 0
    requires Add(Product(q, a), m) == Add(Product(q, b), n)
    ensures a == b && m == n
  {
    DifferenceProduct(q, a, b, m, n);
    NoLowMultiple(q, d, Add(a, b), m, n);
    SameRemainder(q, a, b, m, n);
  }

  /**
    * The only multiple s * q of q, with s short enough that nothing falls off
    * the top, whose terms from d up are all 0 is the zero one: the top term of
    * s times the top term 1 of q would sit at or above d.
    */
  lemma NoLowMultiple(q: Poly, d: nat, s: Poly, m: Poly, n: Poly)
    requires d < |q| && q[d] == 1 && forall k :: d < k < |q| ==> q[k] == 0
    requires |s| == |q| - d && |m| == |q| && |n| == |q|
    requires forall k :: d <= k < |q| ==> m[k] == 0 && n[k] == 0
    requires forall k :: 0 <= k < |q| ==> Product(q, s)[k] == GF16.Add(m[k], n[k])
    ensures forall i :: 0 <= i < |s| ==> s[i] == 0
  {
    OrderIsTop(s);
    var e := Order(s);
    if e >= 0 {
      ProductTop(q, s, d, e);
      GF16.MulOne(s[e]);
      assert false;
    }
  }

  /** a * q + m = b * q + n gives (a + b) * q = m + n. */
  lemma DifferenceProduct(q: Poly, a: Poly, b: Poly, m: Poly, n: Poly)
    requires |a| == |b| && |m| == |q| && |n| == |q|
    requires Add(Product(q, a), m) == Add(Product(q, b), n)
    ensures forall k :: 0 <= k < |q| ==> Product(q, Add(a, b))[k] == GF16.Add(m[k], n[k])
  {
    ProductAddRight(q, a, b);
    forall k | 0 <= k < |q|
      ensures Product(q, Add(a, b))[k] == GF16.Add(m[k], n[k])
    {
      assert GF16.Add(Product(q, a)[k], m[k]) == GF16.Add(Product(q, b)[k], n[k]);
    }
  }

  /** With a + b zero, a = b, and then a * q + m = b * q + n gives m = n. */
  lemma SameRemainder(q: Poly, a: Poly, b: Poly, m: Poly, n: Poly)
    requires |a| == |b| && |m| == |q| && |n| == |q|
    requires forall i :: 0 <= i < |a| ==> Add(a, b)[i] == 0
    requires Add(Product(q, a), m) == Add(Product(q, b), n)
    ensures a == b && m == n
  {
    SumZero(a, b);
    forall k | 0 <= k < |q|
      ensures m[k] == n[k]
    {
      assert GF16.Add(Product(q, a)[k], m[k]) == GF16.Add(Product(q, b)[k], n[k]);
    }
  }

  /** Two sequences whose sum is zero are equal. */
  lemma SumZero(a: Poly, b: Poly)
    requires |a| == |b|
    requires forall i :: 0 <= i < |a| ==> Add(a, b)[i] == 0
    ensures a == b
  {
    forall i | 0 <= i < |a|
      ensures a[i] == b[i]
    {
      assert Add(a, b)[i] == GF16.Add(a[i], b[i]) == 0;
    }
  }

  // ---------------------------------------------------------------------
  // Evaluation
  // ---------------------------------------------------------------------

  /** The value of p at x: the sum of p[i] * x^i. */
  function Eval(p: Poly, x: GF16.Elem): GF16.Elem
  {
    if |p| == 0 then 0
    else GF16.Add(Eval(p[..|p| - 1], x), GF16.Mul(p[|p| - 1], GF16.Power(x, |p| - 1)))
  }

  /** Horner's rule on the terms of p from i up: ((p[n-1] x + p[n-2]) x + ...) x + p[i]. */
  function Horner(p: Poly, i: nat, x: GF16.Elem): GF16.Elem
    decreases |p| - i
  {
    if i >= |p| then 0 else GF16.Add(GF16.Mul(Horner(p, i + 1, x), x), p[i])
  }

  /** The value at x is the constant term plus x times the value of the rest. */
  lemma {:induction false} EvalFront(p: Poly, x: GF16.Elem)
    requires |p| > 0
    ensures Eval(p, x) == GF16.Add(p[0], GF16.Mul(Eval(p[1..], x), x))
    decreases |p|
  {
    var n := |p|;
    if n == 1 {
      GF16.MulOne(p[0]);
      assert p[1..] == [];
      GF16.MulCommutes(0, x);
    } else {
      var init := p[..n - 1];
      EvalFront(init, x);
      assert init[1..] == p[1..][..n - 2];
      FrontStep(p[0], Eval(init[1..], x), p[n - 1], GF16.Power(x, n - 2), x);
    }
  }

  /** One more top term: (a + e x) + c (t x) == a + (e + c t) x. */
  lemma FrontStep(a: GF16.Elem, e: GF16.Elem, c: GF16.Elem, t: GF16.Elem, x: GF16.Elem)
    ensures GF16.Add(GF16.Add(a, GF16.Mul(e, x)), GF16.Mul(c, GF16.Mul(t, x)))
         == GF16.Add(a, GF16.Mul(GF16.Add(e, GF16.Mul(c, t)), x))
  {
    GF16.MulDistributes(e, GF16.Mul(c, t), x);
    GF16.MulAssociates(c, t, x);
    GF16.AddAssociates(a, GF16.Mul(e, x), GF16.Mul(c, GF16.Mul(t, x)));
  }

  /** Horner's rule from i computes the value of the terms from i up. */
  lemma {:induction false} HornerIsEval(p: Poly, i: nat, x: GF16.Elem)
    requires i <= |p|
    ensures Horner(p, i, x) == Eval(p[i..], x)
    decreases |p| - i
  {
    if i < |p| {
      HornerIsEval(p, i + 1, x);
      EvalFront(p[i..], x);
      assert p[i..][1..] == p[i + 1..];
      GF16.AddCommutes(GF16.Mul(Eval(p[i + 1..], x), x), p[i]);
    } else {
      assert p[i..] == [];
    }
  }

  /** Zero terms from n up add nothing to Horner's rule. */
  lemma {:induction false} HornerOfZeros(p: Poly, n: nat, x: GF16.Elem)
    requires forall j :: n <= j < |p| ==> p[j] == 0
    ensures Horner(p, n, x) == 0
    decreases |p| - n
  {
    if n < |p| {
      HornerOfZeros(p, n + 1, x);
      GF16.AddZero(0);
    }
  }

  /** The sum of two prefixes is the prefix of the sum. */
  lemma AddPrefix(p: Poly, q: Poly, n: nat)
    requires |p| == |q| && n <= |p|
    ensures Add(p, q)[..n] == Add(p[..n], q[..n])
  {
  }

  /** Evaluation is additive. */
  lemma {:induction false} EvalAdd(p: Poly, q: Poly, x: GF16.Elem)
    requires |p| == |q|
    ensures Eval(Add(p, q), x) == GF16.Add(Eval(p, x), Eval(q, x))
    decreases |p|
  {
    var n := |p|;
    if n > 0 {
      var s := Add(p, q);
      var p', q', s' := p[..n - 1], q[..n - 1], s[..n - 1];
      AddPrefix(p, q, n - 1);
      EvalAdd(p', q', x);
      var t := GF16.Power(x, n - 1);
      assert s[n - 1] == GF16.Add(p[n - 1], q[n - 1]);
      assert Eval(p, x) == GF16.Add(Eval(p', x), GF16.Mul(p[n - 1], t));
      assert Eval(q, x) == GF16.Add(Eval(q', x), GF16.Mul(q[n - 1], t));
      assert Eval(s, x) == GF16.Add(Eval(s', x), GF16.Mul(s[n - 1], t));
      AddTermStep(Eval(p', x), Eval(q', x), p[n - 1], q[n - 1], t);
    }
  }

  /** Adding two partial values and their next terms: (a + b) + (c + d) t == (a + c t) + (b + d t). */
  lemma AddTermStep(a: GF16.Elem, b: GF16.Elem, c: GF16.Elem, d: GF16.Elem, t: GF16.Elem)
    ensures GF16.Add(GF16.Add(a, b), GF16.Mul(GF16.Add(c, d), t))
         == GF16.Add(GF16.Add(a, GF16.Mul(c, t)), GF16.Add(b, GF16.Mul(d, t)))
  {
    GF16.MulDistributes(c, d, t);
    GF16.AddSwapMiddle(a, b, GF16.Mul(c, t), GF16.Mul(d, t));
  }

  /** Evaluation commutes with scaling by an element. */
  lemma {:induction false} EvalScaleBy(p: Poly, c: GF16.Elem, x: GF16.Elem)
    ensures Eval(ScaleBy(p, c), x) == GF16.Mul(Eval(p, x), c)
    decreases |p|
  {
    var n := |p|;
    if n == 0 {
      GF16.MulCommutes(0, c);
    } else {
      var s := ScaleBy(p, c);
      assert s[..n - 1] == ScaleBy(p[..n - 1], c);
      EvalScaleBy(p[..n - 1], c, x);
      var t := GF16.Power(x, n - 1);
      GF16.MulDistributes(Eval(p[..n - 1], x), GF16.Mul(p[n - 1], t), c);
      MulSwap(p[n - 1], c, t);
    }
  }

  lemma MulSwap(a: GF16.Elem, b: GF16.Elem, c: GF16.Elem)
    ensures GF16.Mul(GF16.Mul(a, b), c) == GF16.Mul(GF16.Mul(a, c), b)
  {
    GF16.MulAssociates(a, b, c);
    GF16.MulCommutes(b, c);
    GF16.MulAssociates(a, c, b);
  }

  /** A value with a zero top coefficient evaluates like the value without it. */
  lemma EvalDropTop(p: Poly, x: GF16.Elem)
    requires |p| > 0 && p[|p| - 1] == 0
    ensures Eval(p[..|p| - 1], x) == Eval(p, x)
  {
    GF16.MulCommutes(0, GF16.Power(x, |p| - 1));
  }

  /** Shifting up multiplies the value by x, provided nothing falls off the top. */
  lemma EvalShiftUp(p: Poly, x: GF16.Elem)
    requires |p| > 0 && p[|p| - 1] == 0
    ensures Eval(ShiftUp(p), x) == GF16.Mul(Eval(p, x), x)
  {
    var s := ShiftUp(p);
    EvalFront(s, x);
    assert s[1..] == p[..|p| - 1];
    EvalDropTop(p, x);
  }

  /** Multiplication by x^j: j shifts up, each dropping the top coefficient. */
  function ShiftUpBy(p: Poly, j: nat): (r: Poly)
    ensures |r| == |p|
  {
    if j == 0 then p else ShiftUp(ShiftUpBy(p, j - 1))
  }

  /** After j shifts up, coefficient k is the one that was j places lower, or 0 below degree j. */
  lemma {:induction false} ShiftUpByAt(p: Poly, j: nat, k: nat)
    requires k < |p|
    ensures ShiftUpBy(p, j)[k] == if k >= j then p[k - j] else 0
  {
    if j > 0 && k > 0 {
      ShiftUpByAt(p, j - 1, k - 1);
    }
  }

  /** Shifting up by j multiplies the value by x^j, provided the top j coefficients are 0. */
  lemma {:induction false} EvalShiftUpBy(p: Poly, j: nat, x: GF16.Elem)
    requires j <= |p|
    requires forall k :: |p| - j <= k < |p| ==> p[k] == 0
    ensures Eval(ShiftUpBy(p, j), x) == GF16.Mul(Eval(p, x), GF16.Power(x, j))
  {
    if j == 0 {
      GF16.MulOne(Eval(p, x));
    } else {
      var s := ShiftUpBy(p, j - 1);
      EvalShiftUpBy(p, j - 1, x);
      ShiftUpByAt(p, j - 1, |p| - 1);
      EvalShiftUp(s, x);
      GF16.MulAssociates(Eval(p, x), GF16.Power(x, j - 1), x);
    }
  }

  /** Shifting down undoes a shift up when nothing fell off the top. */
  lemma ShiftDownShiftUp(p: Poly)
    requires |p| > 0 && p[|p| - 1] == 0
    ensures ShiftDown(ShiftUp(p)) == p
  {
  }

  /** The zero polynomial evaluates to zero. */
  lemma {:induction false} EvalZero(n: nat, x: GF16.Elem)
    ensures Eval(Zero(n), x) == 0
  {
    if n > 0 {
      assert Zero(n)[..n - 1] == Zero(n - 1);
      EvalZero(n - 1, x);
      GF16.MulCommutes(0, GF16.Power(x, n - 1));
    }
  }

  // ---------------------------------------------------------------------
  // Formal derivative and degree
  // ---------------------------------------------------------------------

  /** n * a: the sum of n copies of a. */
  function Times(n: nat, a: GF16.Elem): GF16.Elem
  {
    if n == 0 then 0 else GF16.Add(Times(n - 1, a), a)
  }

  /** In characteristic 2, n * a is a for odd n and 0 for even n. */
  lemma {:induction false} TimesParity(n: nat, a: GF16.Elem)
    ensures Times(n, a) == if n % 2 == 1 then a else 0
  {
    if n > 0 {
      TimesParity(n - 1, a);
    }
  }

  /** The formal derivative: coefficient i is (i + 1) * p[i + 1]; the top coefficient is 0. */
  function Derivative(p: Poly): (r: Poly)
    ensures |r| == |p|
  {
    seq(|p|, i requires 0 <= i < |p| => if i + 1 < |p| then Times(i + 1, p[i + 1]) else 0)
  }

  /** The derivative keeps the odd-degree coefficients, each moved down one place. */
  lemma DerivativeKeepsOdd(p: Poly, i: nat)
    requires i < |p|
    ensures Derivative(p)[i] == if i % 2 == 0 && i + 1 < |p| then p[i + 1] else 0
  {
    if i + 1 < |p| {
      TimesParity(i + 1, p[i + 1]);
    }
  }

  /** The index of the highest non-zero coefficient, or -1 when every coefficient is 0. */
  function Order(p: Poly): (r: int)
    ensures -1 <= r < |p|
  {
    if |p| == 0 then -1
    else if p[|p| - 1] != 0 then |p| - 1
    else Order(p[..|p| - 1])
  }

  /** A coefficient m that is non-zero with only zeros above it (or m = -1 over all zeros) is the order. */
  lemma {:induction false} OrderOf(p: Poly, m: int)
    requires -1 <= m < |p|
    requires m >= 0 ==> p[m] != 0
    requires forall i :: m < i < |p| ==> p[i] == 0
    ensures Order(p) == m
  {
    if |p| > 0 && m < |p| - 1 {
      OrderOf(p[..|p| - 1], m);
    }
  }

  /** Order names the top non-zero coefficient: it is non-zero and everything above it is zero. */
  lemma {:induction false} OrderIsTop(p: Poly)
    ensures Order(p) >= 0 ==> p[Order(p)] != 0
    ensures forall i :: Order(p) < i < |p| ==> p[i] == 0
  {
    if |p| > 0 && p[|p| - 1] == 0 {
      OrderIsTop(p[..|p| - 1]);
    }
  }
}
