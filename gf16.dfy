/**
  * The field GF(16) = GF(2)[x] / (x^4 + x + 1) of ReedSolomon/src/gf16.c.
  *
  * An element is a 4-bit value; bit i is the coefficient of x^i, addition is XOR
  * and the primitive element 2 (the polynomial x) generates the fifteen
  * non-zero elements.  Multiplication, division, powers and inverses go through
  * a pair of constant exponent/logarithm tables.  The table product is proved
  * against an independent, table-free one: multiplying by 2^k is doubling k
  * times with gf16_mul2_noLUT.
  *
  * The numbers 15 (GF16_MAX, the order of the multiplicative group) and 30
  * (GF16_EXP_ENTRIES) are written out as literals in the definitions below.
  */
module GF16 {

  const SymSz: nat := 4        // GF16_SYM_SZ: bits per symbol

  /** An element: a value 0 .. GF16_MAX = 15. */
  type Elem = x: bv8 | x <= 15

  /** The fifteen powers 2^0 .. 2^14 of the primitive element. */
  const ExpCycle: seq<Elem> := [0x1, 0x2, 0x4, 0x8, 0x3, 0x6, 0xC, 0xB, 0x5, 0xA, 0x7, 0xE, 0xF, 0xD, 0x9]

  /** gf16_exp: exp[i] = 2^i for i < 30, the cycle written out twice so that sums of two logarithms need no reduction. */
  const Exp: seq<Elem> := ExpCycle + ExpCycle

  /** gf16_log: log[v] is the discrete logarithm of v; the entry for 0 is the byte 0xFF, which an int8 reads as -1. */
  const Log: seq<int> := [-1, 0x0, 0x1, 0x4, 0x2, 0x8, 0x5, 0xA, 0x3, 0xE, 0x9, 0x7, 0x6, 0xD, 0xB, 0xC]

  /** gf16_mul2_noLUT: multiplication by x, reducing by PRIME_GF16 = 0b10011 when the degree reaches 4. */
  function Mul2NoLut(x: Elem): (r: Elem)
    ensures r == 0 <==> x == 0
  {
    var y := x << 1;
    if y > 15 then y ^ 0x13 else y
  }

  /** a doubled k times: a * x^k computed without tables. */
  function Doubled(a: Elem, k: nat): Elem
  {
    if k == 0 then a else Mul2NoLut(Doubled(a, k - 1))
  }

  /** Field addition (and subtraction): XOR. */
  function Add(a: Elem, b: Elem): Elem
  {
    a ^ b
  }

  /** An exponent below 30 reduced below 15, i.e. modulo the group order. */
  function Wrap(s: int): int
  {
    if s < 15 then s else s - 15
  }

  // ---------------------------------------------------------------------
  // The tables
  // ---------------------------------------------------------------------

  /** Every non-zero element has a logarithm in 0..14. */
  lemma LogRange(v: Elem)
    requires v != 0
    ensures 0 <= Log[v as int] < 15
  {
    if v == 1 {} else if v == 2 {} else if v == 3 {} else if v == 4 {}
    else if v == 5 {} else if v == 6 {} else if v == 7 {} else if v == 8 {}
    else if v == 9 {} else if v == 10 {} else if v == 11 {} else if v == 12 {}
    else if v == 13 {} else if v == 14 {} else {}
  }

  /** exp undoes log on the non-zero elements. */
  lemma ExpOfLog(v: Elem)
    requires v != 0
    ensures 0 <= Log[v as int] < 15
    ensures Exp[Log[v as int]] == v
  {
    if v == 1 {} else if v == 2 {} else if v == 3 {} else if v == 4 {}
    else if v == 5 {} else if v == 6 {} else if v == 7 {} else if v == 8 {}
    else if v == 9 {} else if v == 10 {} else if v == 11 {} else if v == 12 {}
    else if v == 13 {} else if v == 14 {} else {}
  }

  /** The table has period 15. */
  lemma ExpPeriod(s: int)
    requires 0 <= s < 15
    ensures Exp[s + 15] == Exp[s]
  {
  }

  /** log undoes exp on the first cycle. */
  lemma LogOfExpCycle(s: int)
    requires 0 <= s < 15
    ensures Exp[s] != 0 && Log[Exp[s] as int] == s
  {
    if s == 0 {} else if s == 1 {} else if s == 2 {} else if s == 3 {}
    else if s == 4 {} else if s == 5 {} else if s == 6 {} else if s == 7 {}
    else if s == 8 {} else if s == 9 {} else if s == 10 {} else if s == 11 {}
    else if s == 12 {} else if s == 13 {} else {}
  }

  /** Every entry of exp is non-zero and log reads its exponent back modulo 15. */
  lemma LogOfExp(s: int)
    requires 0 <= s < 30
    ensures Exp[s] != 0
    ensures Log[Exp[s] as int] == Wrap(s)
  {
    if s < 15 {
      LogOfExpCycle(s);
    } else {
      LogOfExpCycle(s - 15);
      ExpPeriod(s - 15);
    }
  }

  /** The exponent table is the orbit of 1 under table-free doubling (gen_LUTs.c builds it so). */
  lemma ExpIsOrbit(i: nat)
    requires i + 1 < 30
    ensures Exp[0] == 1
    ensures Exp[i + 1] == Mul2NoLut(Exp[i])
  {
    if i < 15 {
      ExpCycleIsOrbit(i);
      if i < 14 {
      } else {
        ExpPeriod(0);
      }
    } else {
      ExpCycleIsOrbit(i - 15);
      ExpPeriod(i - 15);
      ExpPeriod(i - 14);
    }
  }

  /** Doubling steps through the first cycle. */
  lemma ExpCycleIsOrbit(i: nat)
    requires i < 15
    ensures Exp[i + 1] == Mul2NoLut(Exp[i])
  {
    if i == 0 {} else if i == 1 {} else if i == 2 {} else if i == 3 {}
    else if i == 4 {} else if i == 5 {} else if i == 6 {} else if i == 7 {}
    else if i == 8 {} else if i == 9 {} else if i == 10 {} else if i == 11 {}
    else if i == 12 {} else if i == 13 {} else {}
  }

  // ---------------------------------------------------------------------
  // Doubling
  // ---------------------------------------------------------------------

  /** Doubling is linear: it distributes over addition. */
  lemma Mul2NoLutLinear(a: Elem, b: Elem)
    ensures Mul2NoLut(Add(a, b)) == Add(Mul2NoLut(a), Mul2NoLut(b))
  {
  }

  lemma {:induction false} DoubledLinear(a: Elem, b: Elem, k: nat)
    ensures Doubled(Add(a, b), k) == Add(Doubled(a, k), Doubled(b, k))
  {
    if k > 0 {
      DoubledLinear(a, b, k - 1);
      Mul2NoLutLinear(Doubled(a, k - 1), Doubled(b, k - 1));
    }
  }

  lemma {:induction false} DoubledZero(k: nat)
    ensures Doubled(0, k) == 0
  {
    if k > 0 {
      DoubledZero(k - 1);
    }
  }

  // ---------------------------------------------------------------------
  // Table-driven operations of gf16.c
  // ---------------------------------------------------------------------

  /** gf16_mul: zero if either factor is zero, otherwise exp[log a + log b]. */
  function Mul(a: Elem, b: Elem): (r: Elem)
    ensures r == 0 <==> a == 0 || b == 0
  {
    if a == 0 || b == 0 then 0
    else
      LogRange(a); LogRange(b);
      LogOfExp(Log[a as int] + Log[b as int]);
      Exp[Log[a as int] + Log[b as int]]
  }

  /** A product of non-zero elements, given their logarithms. */
  lemma MulOfLogs(x: Elem, y: Elem, lx: int, ly: int)
    requires x != 0 && y != 0
    requires Log[x as int] == lx && Log[y as int] == ly
    requires 0 <= lx < 15 && 0 <= ly < 15
    ensures Mul(x, y) == Exp[lx + ly]
  {
    assert Mul(x, y) == Exp[Log[x as int] + Log[y as int]];
  }

  /** log(a * b) is log a + log b modulo 15. */
  lemma MulLog(a: Elem, b: Elem)
    requires a != 0 && b != 0
    ensures Log[Mul(a, b) as int] == Wrap(Log[a as int] + Log[b as int])
  {
    LogRange(a);
    LogRange(b);
    MulOfLogs(a, b, Log[a as int], Log[b as int]);
    LogOfExp(Log[a as int] + Log[b as int]);
  }

  /** log(x * y), given the logarithms of x and y. */
  lemma MulLogOf(x: Elem, y: Elem, lx: int, ly: int)
    requires x != 0 && y != 0
    requires Log[x as int] == lx && Log[y as int] == ly
    ensures Log[Mul(x, y) as int] == Wrap(lx + ly)
  {
    MulLog(x, y);
  }

  lemma MulCommutes(a: Elem, b: Elem)
    ensures Mul(a, b) == Mul(b, a)
  {
  }

  lemma MulAssociates(a: Elem, b: Elem, c: Elem)
    ensures Mul(Mul(a, b), c) == Mul(a, Mul(b, c))
  {
    if a == 0 {
      assert Mul(a, b) == 0 && Mul(a, Mul(b, c)) == 0;
    } else if b == 0 {
      assert Mul(a, b) == 0 && Mul(b, c) == 0;
    } else if c == 0 {
      assert Mul(b, c) == 0;
    } else {
      MulAssociatesNonZero(a, b, c);
    }
  }

  lemma MulAssociatesNonZero(a: Elem, b: Elem, c: Elem)
    requires a != 0 && b != 0 && c != 0
    ensures Mul(Mul(a, b), c) == Mul(a, Mul(b, c))
  {
    LogRange(a); LogRange(b); LogRange(c);
    MulLogLeft(a, b, c);
    MulLogRight(a, b, c);
    WrapAssociates(Log[a as int], Log[b as int], Log[c as int]);
    LogInjective(Mul(Mul(a, b), c), Mul(a, Mul(b, c)));
  }

  /** Different non-zero elements have different logarithms. */
  lemma LogInjective(u: Elem, v: Elem)
    requires u != 0 && v != 0
    requires Log[u as int] == Log[v as int]
    ensures u == v
  {
    ExpOfLog(u);
    ExpOfLog(v);
  }

  /** The logarithm of (a * b) * c. */
  lemma MulLogLeft(a: Elem, b: Elem, c: Elem)
    requires a != 0 && b != 0 && c != 0
    ensures Log[Mul(Mul(a, b), c) as int] == Wrap(Wrap(Log[a as int] + Log[b as int]) + Log[c as int])
  {
    MulLog(a, b);
    MulLog(Mul(a, b), c);
  }

  /** The logarithm of a * (b * c). */
  lemma MulLogRight(a: Elem, b: Elem, c: Elem)
    requires a != 0 && b != 0 && c != 0
    ensures Log[Mul(a, Mul(b, c)) as int] == Wrap(Log[a as int] + Wrap(Log[b as int] + Log[c as int]))
  {
    MulLog(b, c);
    MulLog(a, Mul(b, c));
  }

  /** Sums of exponents reduced in either order agree modulo 15. */
  lemma WrapAssociates(x: int, y: int, z: int)
    requires 0 <= x < 15 && 0 <= y < 15 && 0 <= z < 15
    ensures 0 <= Wrap(x + y) + z < 30 && 0 <= x + Wrap(y + z) < 30
    ensures Wrap(Wrap(x + y) + z) == Wrap(x + Wrap(y + z))
  {
  }

  lemma MulOne(a: Elem)
    ensures Mul(a, 1) == a && Mul(1, a) == a
  {
    if a != 0 {
      ExpOfLog(a);
      MulOfLogs(a, 1, Log[a as int], 0);
    }
  }

  /** The table product by 2^k, k < 15, is k doublings. */
  lemma MulByExp(a: Elem, k: nat)
    requires a != 0 && k < 15
    ensures Mul(a, Exp[k]) == Doubled(a, k)
  {
    var la := Log[a as int];
    LogRange(a);
    ExpAtLog(a, la);
    LogOfExpCycle(k);
    MulOfLogs(a, Exp[k], la, k);
    OrbitDoubled(la, k);
  }

  /** Doubling walks along the exponent table: 2^s doubled k times is 2^(s + k). */
  lemma {:induction false} OrbitDoubled(s: nat, k: nat)
    requires s + k < 30
    ensures Doubled(Exp[s], k) == Exp[s + k]
  {
    if k > 0 {
      var j := k - 1;
      OrbitDoubled(s, j);
      OrbitStep(s, j, k);
    }
  }

  /** One more doubling is one more step along the exponent table. */
  lemma OrbitStep(s: nat, j: nat, k: nat)
    requires k == j + 1 && s + k < 30
    requires Doubled(Exp[s], j) == Exp[s + j]
    ensures Doubled(Exp[s], k) == Exp[s + k]
  {
    DoubledStep(Exp[s], j, k);
    ExpStep(s + j, s + k);
  }

  /** Doubling k = j + 1 times is doubling once after j times. */
  lemma DoubledStep(a: Elem, j: nat, k: nat)
    requires k == j + 1
    ensures Doubled(a, k) == Mul2NoLut(Doubled(a, j))
  {
  }

  /** Consecutive exponent-table entries, named by their indices. */
  lemma ExpStep(i: nat, j: nat)
    requires j == i + 1 && j < 30
    ensures Exp[j] == Mul2NoLut(Exp[i])
  {
    ExpIsOrbit(i);
  }

  /** exp undoes log, given the logarithm. */
  lemma ExpAtLog(v: Elem, l: int)
    requires v != 0 && Log[v as int] == l
    ensures Exp[l] == v
  {
    ExpOfLog(v);
  }

  /** The table product is the table-free one: a * b is a doubled log b times. */
  lemma MulIsDoubled(a: Elem, b: Elem)
    requires b != 0
    ensures Mul(a, b) == Doubled(a, Log[b as int] as nat)
  {
    ExpOfLog(b);
    if a == 0 {
      DoubledZero(Log[b as int]);
    } else {
      MulByExp(a, Log[b as int]);
    }
  }

  lemma MulDistributes(a: Elem, b: Elem, c: Elem)
    ensures Mul(Add(a, b), c) == Add(Mul(a, c), Mul(b, c))
  {
    if c != 0 {
      LogRange(c);
      MulIsDoubled(Add(a, b), c);
      MulIsDoubled(a, c);
      MulIsDoubled(b, c);
      DoubledLinear(a, b, Log[c as int]);
    }
  }

  /** Multiplying by 2 through the tables is the table-free doubling. */
  lemma MulByTwo(a: Elem)
    ensures Mul(a, 2) == Mul2NoLut(a)
  {
    MulIsDoubled(a, 2);
  }

  /** The outcome of gf16_div: the quotient, or the divide-by-zero sentinel -1. */
  datatype Quotient = Quot(value: Elem) | DivByZero

  /** gf16_div: the sentinel for a zero divisor, 0 for a zero dividend, otherwise exp[log a - log b + 15]. */
  function Div(a: Elem, b: Elem): (r: Quotient)
    ensures r.DivByZero? <==> b == 0
    ensures r.Quot? ==> (r.value == 0 <==> a == 0)
  {
    if b == 0 then DivByZero
    else if a == 0 then Quot(0)
    else
      LogRange(a); LogRange(b);
      LogOfExp(Log[a as int] - Log[b as int] + 15);
      Quot(Exp[Log[a as int] - Log[b as int] + 15])
  }

  /** A quotient of non-zero elements, given their logarithms. */
  lemma DivOfLogs(x: Elem, y: Elem, lx: int, ly: int)
    requires x != 0 && y != 0
    requires Log[x as int] == lx && Log[y as int] == ly
    requires 0 <= lx < 15 && 0 <= ly < 15
    ensures Div(x, y) == Quot(Exp[lx - ly + 15])
  {
    assert Div(x, y) == Quot(Exp[Log[x as int] - Log[y as int] + 15]);
  }

  /** The exponent of a quotient: log(a / b) is log a - log b modulo 15. */
  lemma DivLog(a: Elem, b: Elem)
    requires a != 0 && b != 0
    ensures Div(a, b).Quot? && Div(a, b).value != 0
    ensures Log[Div(a, b).value as int] == Wrap(Log[a as int] - Log[b as int] + 15)
  {
    LogRange(a);
    LogRange(b);
    DivOfLogs(a, b, Log[a as int], Log[b as int]);
    LogOfExp(Log[a as int] - Log[b as int] + 15);
  }

  /** Division undoes multiplication: (a / b) * b == a for every non-zero b. */
  lemma DivMulRoundTrip(a: Elem, b: Elem)
    requires b != 0
    ensures Div(a, b).Quot?
    ensures Mul(Div(a, b).value, b) == a
  {
    if a != 0 {
      var la, lb := Log[a as int], Log[b as int];
      LogRange(a);
      LogRange(b);
      DivMulLog(a, b);
      WrapCancels(la, lb);
      LogInjective(Mul(Div(a, b).value, b), a);
    }
  }

  /** The logarithm of (a / b) * b. */
  lemma DivMulLog(a: Elem, b: Elem)
    requires a != 0 && b != 0
    ensures Div(a, b).Quot? && Mul(Div(a, b).value, b) != 0
    ensures Log[Mul(Div(a, b).value, b) as int] == Wrap(Wrap(Log[a as int] - Log[b as int] + 15) + Log[b as int])
  {
    DivLog(a, b);
    MulLog(Div(a, b).value, b);
  }

  /** Multiplication undoes division: (a * b) / b == a for every non-zero b. */
  lemma MulDivRoundTrip(a: Elem, b: Elem)
    requires b != 0
    ensures Div(Mul(a, b), b) == Quot(a)
  {
    if a != 0 {
      var la, lb := Log[a as int], Log[b as int];
      LogRange(a);
      LogRange(b);
      MulDivLog(a, b);
      WrapCancels(la, lb);
      LogInjective(Div(Mul(a, b), b).value, a);
    }
  }

  /** The logarithm of (a * b) / b. */
  lemma MulDivLog(a: Elem, b: Elem)
    requires a != 0 && b != 0
    ensures Div(Mul(a, b), b).Quot? && Div(Mul(a, b), b).value != 0
    ensures Log[Div(Mul(a, b), b).value as int] == Wrap(Wrap(Log[a as int] + Log[b as int]) - Log[b as int] + 15)
  {
    MulLog(a, b);
    DivLog(Mul(a, b), b);
  }

  /** Adding and then subtracting an exponent modulo 15 gives the original back. */
  lemma WrapCancels(x: int, y: int)
    requires 0 <= x < 15 && 0 <= y < 15
    ensures Wrap(Wrap(x + y) - y + 15) == x
    ensures Wrap(Wrap(x - y + 15) + y) == x
  {
  }

  /** gf16_inverse: exp[15 - log x].  For x = 0 the sentinel -1 makes this exp[16] = 2. */
  function Inverse(x: Elem): (r: Elem)
  {
    LogBounds(x); Exp[15 - Log[x as int]]
  }

  /** Every log-table entry, the sentinel included, lies in [-1, 15). */
  lemma LogBounds(v: Elem)
    ensures -1 <= Log[v as int] < 15
  {
    if v != 0 {
      LogRange(v);
    }
  }

  /** With the sentinel log[0] = -1, gf16_inverse(0) reads exp[16] = 2 rather than failing. */
  lemma InverseOfZero(z: Elem)
    requires z == 0
    ensures Inverse(z) == 2
  {
    InverseOfLog(z, 16);
  }

  lemma InverseIsInverse(x: Elem)
    requires x != 0
    ensures Mul(x, Inverse(x)) == 1
  {
    var l := Log[x as int];
    LogRange(x);
    InverseLog(x);
    MulLogOf(x, Inverse(x), l, Wrap(15 - l));
    WrapNegates(l);
    LogZero(Mul(x, Inverse(x)));
  }

  /** The only element with logarithm 0 is 1. */
  lemma LogZero(u: Elem)
    requires u != 0 && Log[u as int] == 0
    ensures u == 1
  {
    ExpOfLog(u);
  }

  /** An exponent plus its negation is 0 modulo 15. */
  lemma WrapNegates(x: int)
    requires 0 <= x < 15
    ensures Wrap(x + Wrap(15 - x)) == 0
  {
  }

  /** log(1 / x) is -log x modulo 15. */
  lemma InverseLog(x: Elem)
    requires x != 0
    ensures Log[Inverse(x) as int] == Wrap(15 - Log[x as int])
  {
    var l := Log[x as int];
    LogRange(x);
    InverseOfLog(x, 15 - l);
    LogOfExp(15 - l);
  }

  /** The inverse of a non-zero element, given its logarithm. */
  lemma InverseOfLog(x: Elem, m: int)
    requires m == 15 - Log[x as int] && 0 <= m < 30
    ensures Inverse(x) == Exp[m]
  {
  }

  /** x^n by repeated multiplication (x^0 = 1): the meaning of a power. */
  function Power(x: Elem, n: nat): Elem
  {
    if n == 0 then 1 else Mul(Power(x, n - 1), x)
  }

  /**
    * gf16_pow as evidently intended: exp[(log x * power) % 30].  A zero base
    * with a positive power would index the table with a negative number, and
    * so would a negative power.
    */
  function Pow(x: Elem, power: int): (r: Elem)
    requires 0 <= power < 128
    requires x != 0 || power == 0
    ensures x != 0 ==> r != 0
  {
    if x == 0 then Exp[0]
    else
      LogRange(x);
      LogOfExp((Log[x as int] * power) % 30);
      Exp[(Log[x as int] * power) % 30]
  }

  /** A power of a non-zero element, given its logarithm. */
  lemma PowOfLog(x: Elem, n: nat, l: int)
    requires x != 0 && n < 128
    requires Log[x as int] == l && 0 <= l < 15
    ensures Pow(x, n) == Exp[(l * n) % 30]
  {
    assert Pow(x, n) == Exp[(Log[x as int] * n) % 30];
  }

  /** n * l modulo 15, accumulated one addend at a time as the exponents of a product add. */
  function LogTimes(l: int, n: nat): (r: int)
    requires 0 <= l < 15
    ensures 0 <= r < 15
  {
    if n == 0 then 0 else Wrap(LogTimes(l, n - 1) + l)
  }

  /** The accumulated exponent is the product l * n reduced modulo 15. */
  lemma {:induction false} LogTimesIsMod(l: int, n: nat)
    requires 0 <= l < 15
    ensures LogTimes(l, n) == (l * n) % 15
  {
    if n > 0 {
      LogTimesIsMod(l, n - 1);
      ModStep(l, n);
    }
  }

  /** The logarithm of x^n, computed by repeated multiplication, accumulates log x n times. */
  lemma {:induction false} PowerLog(x: Elem, n: nat, l: int)
    requires x != 0
    requires Log[x as int] == l && 0 <= l < 15
    ensures Power(x, n) != 0
    ensures Log[Power(x, n) as int] == LogTimes(l, n)
  {
    if n == 0 {
      PowerLogZero(x, n, l);
    } else {
      var j := n - 1;
      PowerLog(x, j, l);
      PowerLogStep(x, j, n, l);
    }
  }

  /** x^0 is 1, whose logarithm is 0. */
  lemma PowerLogZero(x: Elem, n: nat, l: int)
    requires n == 0 && 0 <= l < 15
    ensures Power(x, n) != 0
    ensures Log[Power(x, n) as int] == LogTimes(l, n)
  {
    LogOne(Power(x, n));
  }

  /** One more factor adds log x to the logarithm of the power. */
  lemma PowerLogStep(x: Elem, j: nat, n: nat, l: int)
    requires n == j + 1 && x != 0
    requires Log[x as int] == l && 0 <= l < 15
    requires Power(x, j) != 0 && Log[Power(x, j) as int] == LogTimes(l, j)
    ensures Power(x, n) != 0
    ensures Log[Power(x, n) as int] == LogTimes(l, n)
  {
    PowerUnfold(x, j, n);
    LogTimesUnfold(l, j, n);
    MulLogOf(Power(x, j), x, LogTimes(l, j), l);
  }

  /** x^(j + 1) is x^j * x. */
  lemma PowerUnfold(x: Elem, j: nat, n: nat)
    requires n == j + 1
    ensures Power(x, n) == Mul(Power(x, j), x)
  {
  }

  /** The accumulated exponent of j + 1 factors is that of j factors plus one more. */
  lemma LogTimesUnfold(l: int, j: nat, n: nat)
    requires n == j + 1 && 0 <= l < 15
    ensures LogTimes(l, n) == Wrap(LogTimes(l, j) + l)
  {
  }

  lemma LogOne(u: Elem)
    requires u == 1
    ensures Log[u as int] == 0
  {
  }

  /** The exponent arithmetic of one more factor: l * (n - 1) + l is l * n, modulo 15. */
  lemma ModStep(l: int, n: int)
    requires 0 <= l < 15 && 0 < n
    ensures Wrap((l * (n - 1)) % 15 + l) == (l * n) % 15
  {
    var t := l * (n - 1);
    assert l * n == t + l;
    ModShift15(t % 15 + l, t / 15);
  }

  /** Residues modulo 15 are unchanged by adding multiples of 15. */
  lemma ModShift15(x: int, q: int)
    ensures (x + 15 * q) % 15 == x % 15
  {
  }

  /** The logarithm of the table power: log x * n modulo 15. */
  lemma PowLog(x: Elem, n: nat, l: int)
    requires x != 0 && n < 128
    requires Log[x as int] == l && 0 <= l < 15
    ensures Log[Pow(x, n) as int] == (l * n) % 15
  {
    PowOfLog(x, n, l);
    LogOfExp((l * n) % 30);
    WrapMod(l * n);
  }

  /** Reducing modulo 30 and then wrapping is reducing modulo 15. */
  lemma WrapMod(t: int)
    requires 0 <= t
    ensures Wrap(t % 30) == t % 15
  {
    ModShift15(t % 30, 2 * (t / 30));
  }

  /** gf16_pow, as intended, computes the power. */
  lemma PowIsPower(x: Elem, n: nat)
    requires n < 128
    requires x != 0 || n == 0
    ensures Pow(x, n) == Power(x, n)
  {
    if x != 0 {
      var l := Log[x as int];
      LogRange(x);
      PowerLog(x, n, l);
      LogTimesIsMod(l, n);
      PowLog(x, n, l);
      LogInjective(Pow(x, n), Power(x, n));
    }
  }

  /**
    * gf16_pow as the preprocessor expands it.  GF16_EXP_ENTRIES is
    * `2 * GF16_MAX` without parentheses, so `% GF16_EXP_ENTRIES` reads
    * `% 2 * 15`: the index is 0 or 15, and both entries hold 1.
    */
  function PowAsWritten(x: Elem, power: int): (r: Elem)
    requires 0 <= power < 128
    requires x != 0 || power == 0
    ensures r == 1
  {
    var t := Log[x as int] * power;
    ParityIndex(t);
    Exp[t % 2 * 15]
  }

  /** `t % 2 * 15` is 0 or 15, and the exponent table holds 1 at both. */
  lemma ParityIndex(t: int)
    ensures t % 2 * 15 == 0 || t % 2 * 15 == 15
    ensures Exp[0] == 1 && Exp[15] == 1
  {
  }

  /** 2^1 is 2, but gf16_pow as written returns 1 for it. */
  lemma PowAsWrittenCounterexample()
    ensures PowAsWritten(2, 1) == 1
    ensures Pow(2, 1) == Power(2, 1) == 2
  {
    PowIsPower(2, 1);
    TwoPowIsPower(1);
  }

  /** gf16_2pow: exp[power], the power-th power of the primitive element 2. */
  function TwoPow(power: int): (r: Elem)
    requires 0 <= power < 30
    ensures r != 0
  {
    LogOfExp(power);
    Exp[power]
  }

  /** gf16_2pow(i) is 2 multiplied by itself i times. */
  lemma TwoPowIsPower(i: nat)
    requires i < 30
    ensures TwoPow(i) == Power(2, i)
  {
    LogTwo(2);
    PowerLog(2, i, 1);
    LogTimesIsMod(1, i);
    LogOfExp(i);
    WrapOnce(i);
    LogInjective(TwoPow(i), Power(2, i));
  }

  /** Below 30, wrapping an exponent is reducing it modulo 15. */
  lemma WrapOnce(i: int)
    requires 0 <= i < 30
    ensures Wrap(i) == (1 * i) % 15
  {
  }

  lemma LogTwo(u: Elem)
    requires u == 2
    ensures Log[u as int] == 1
  {
  }
  lemma AddCommutes(a: Elem, b: Elem)
    ensures Add(a, b) == Add(b, a)
  {
  }

  lemma AddAssociates(a: Elem, b: Elem, c: Elem)
    ensures Add(Add(a, b), c) == Add(a, Add(b, c))
  {
  }

  lemma AddZero(a: Elem)
    ensures Add(a, 0) == a && Add(0, a) == a
  {
  }

  lemma AddSwapMiddle(a: Elem, b: Elem, c: Elem, d: Elem)
    ensures Add(Add(a, b), Add(c, d)) == Add(Add(a, c), Add(b, d))
  {
  }

  /** Every element is its own additive inverse. */
  lemma AddSelf(a: Elem)
    ensures Add(a, a) == 0
  {
  }

  // ---------------------------------------------------------------------
  // The table-free product used by the packed polynomial operations
  // ---------------------------------------------------------------------

  /** The carry-less product of a and b, below x^7: a shifted up by i for every bit i of b. */
  function CarrylessMul(a: Elem, b: Elem): (r: bv8)
    ensures r < 128
  {
    (if b & 1 != 0 then a else 0) ^ (if b & 2 != 0 then a << 1 else 0)
    ^ (if b & 4 != 0 then a << 2 else 0) ^ (if b & 8 != 0 then a << 3 else 0)
  }

  /**
    * Reduction of a value below x^7 modulo x^4 + x + 1 in one step: x^4, x^5 and
    * x^6 fold onto x + 1, x^2 + x and x^3 + x^2, i.e. the bits above the low four
    * are added back shifted down by 3 and by 4.
    */
  function ReduceModPrime(w: bv8): (r: Elem)
    ensures w < 16 ==> r == w
  {
    var o := w & 0x70;
    (w & 0xF) ^ (o >> 3) ^ (o >> 4)
  }

  /** The reduction is linear: reducing a sum is adding the reductions. */
  lemma ReduceModPrimeLinear(p: bv8, q: bv8)
    ensures ReduceModPrime(p ^ q) == ReduceModPrime(p) ^ ReduceModPrime(q)
  {
  }

  /** The product of a and b as a carry-less product reduced modulo the field polynomial. */
  function FieldMul(a: Elem, b: Elem): Elem
  {
    ReduceModPrime(CarrylessMul(a, b))
  }

  /** The table product is the carry-less product reduced modulo x^4 + x + 1. */
  lemma MulIsFieldMul(a: Elem, b: Elem)
    ensures Mul(a, b) == FieldMul(a, b)
  {
    FieldMulIsDoublings(a, b);
    MulSplit(a, b, b & 1, b & 2, b & 4, b & 8);
    MulByBits(a, b);
  }

  /** The table products by the four bits of b, as doublings of a. */
  lemma MulByBits(a: Elem, b: Elem)
    ensures Mul(a, b & 1) == if b & 1 != 0 then a else 0
    ensures Mul(a, b & 2) == if b & 2 != 0 then Mul2NoLut(a) else 0
    ensures Mul(a, b & 4) == if b & 4 != 0 then Mul2NoLut(Mul2NoLut(a)) else 0
    ensures Mul(a, b & 8) == if b & 8 != 0 then Mul2NoLut(Mul2NoLut(Mul2NoLut(a))) else 0
  {
    DoubledStep(a, 0, 1);
    DoubledStep(a, 1, 2);
    DoubledStep(a, 2, 3);
    MulByBit(a, b & 1, 0);
    MulByBit(a, b & 2, 1);
    MulByBit(a, b & 4, 2);
    MulByBit(a, b & 8, 3);
  }

  /** The reduced carry-less product by b adds up a doubled i times for every bit i of b. */
  lemma FieldMulIsDoublings(a: Elem, b: Elem)
    ensures FieldMul(a, b)
         == (if b & 1 != 0 then a else 0) ^ (if b & 2 != 0 then Mul2NoLut(a) else 0)
          ^ (if b & 4 != 0 then Mul2NoLut(Mul2NoLut(a)) else 0)
          ^ (if b & 8 != 0 then Mul2NoLut(Mul2NoLut(Mul2NoLut(a))) else 0)
  {
  }

  /** The table product distributes over the bits of its second factor. */
  lemma MulSplit(a: Elem, b: Elem, b0: Elem, b1: Elem, b2: Elem, b3: Elem)
    requires b0 == b & 1 && b1 == b & 2 && b2 == b & 4 && b3 == b & 8
    ensures Mul(a, b) == Mul(a, b0) ^ Mul(a, b1) ^ Mul(a, b2) ^ Mul(a, b3)
  {
    var c01 := Add(b0, b1);
    var c012 := Add(c01, b2);
    assert b == Add(c012, b3);
    MulDistributesLeft(a, c012, b3);
    MulDistributesLeft(a, c01, b2);
    MulDistributesLeft(a, b0, b1);
  }

  /** Distributivity with the sum in the second factor. */
  lemma MulDistributesLeft(a: Elem, b: Elem, c: Elem)
    ensures Mul(a, Add(b, c)) == Add(Mul(a, b), Mul(a, c))
  {
    MulCommutes(a, Add(b, c));
    MulDistributes(b, c, a);
    MulCommutes(b, a);
    MulCommutes(c, a);
  }

  /** The table product by the bit 2^k (or by 0) is a doubled k times (or 0). */
  lemma MulByBit(a: Elem, e: Elem, k: nat)
    requires k < 4
    requires k == 0 ==> e == 0 || e == 1
    requires k == 1 ==> e == 0 || e == 2
    requires k == 2 ==> e == 0 || e == 4
    requires k == 3 ==> e == 0 || e == 8
    ensures Mul(a, e) == if e != 0 then Doubled(a, k) else 0
  {
    if e != 0 {
      MulIsDoubled(a, e);
      LogOfBit(e, Log[e as int], k);
    }
  }

  /** The logarithm of the bit 2^k is k. */
  lemma LogOfBit(e: Elem, l: int, k: nat)
    requires l == Log[e as int]
    requires k == 0 ==> e == 1
    requires k == 1 ==> e == 2
    requires k == 2 ==> e == 4
    requires k == 3 ==> e == 8
    requires k < 4
    ensures l == k
  {
  }
}
