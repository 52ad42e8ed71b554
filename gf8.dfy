/**
  * The field GF(8) = GF(2)[x] / (x^3 + x + 1) of ReedSolomon/src/gf8.c.
  *
  * An element is a 3-bit value; bit i is the coefficient of x^i, addition is XOR
  * and the primitive element 2 (the polynomial x) generates the seven non-zero
  * elements.  Multiplication, division, powers and inverses go through a pair of
  * constant exponent/logarithm tables; `FieldMul` is an independent, table-free
  * definition of the product against which the tables are proved.
  */
module GF8 {

  const SymSz: nat := 3        // GF8_SYM_SZ: bits per symbol
  const Max: bv8 := 7          // GF8_MAX: the largest element
  const Order: nat := 7        // GF8_MAX used as an index offset: order of the multiplicative group
  const ExpEntries: nat := 14  // GF8_EXP_ENTRIES = 2 * GF8_MAX
  const Prime: bv8 := 0xB      // PRIME_GF8 = 0b1011, the polynomial x^3 + x + 1

  type Elem = x: bv8 | x <= 7

  /** gf8_exp: exp[i] = 2^i, written out twice so that sums of two logarithms need no reduction. */
  const Exp: seq<Elem> := [1, 2, 4, 3, 6, 7, 5,
                           1, 2, 4, 3, 6, 7, 5]

  /** gf8_log: log[v] is the discrete logarithm of v; the entry for 0 is the byte 0xFF, which an int8 reads as -1. */
  const Log: seq<int> := [-1, 0, 1, 3, 2, 6, 4, 5]

  /** gf8_mul2_noLUT: multiplication by x, reducing by the prime polynomial when the degree reaches 3. */
  function Mul2NoLut(x: Elem): (r: Elem)
    ensures r == 0 <==> x == 0
  {
    var y := x << 1;
    if y > Max then y ^ Prime else y
  }

  /**
    * The carry-less (GF(2)[x]) product of two elements, of degree at most 4:
    * the XOR of a * x^j over the set bits j of b.
    */
  function CarrylessMul(a: Elem, b: Elem): (r: bv8)
    ensures r < 32
  {
    (if b & 1 != 0 then a else 0)
    ^ (if b & 2 != 0 then a << 1 else 0)
    ^ (if b & 4 != 0 then a << 2 else 0)
  }

  /** Reduction of a polynomial of degree at most 4 modulo x^3 + x + 1. */
  function ReduceModPrime(p: bv8): (r: Elem)
    requires p < 32
  {
    var q := if p & 0x10 != 0 then p ^ (Prime << 1) else p;
    if q & 0x8 != 0 then q ^ Prime else q
  }

  /** The field product, defined without tables: the carry-less product reduced modulo the prime polynomial. */
  function FieldMul(a: Elem, b: Elem): Elem
  {
    ReduceModPrime(CarrylessMul(a, b))
  }

  /** Field addition (and subtraction): XOR. */
  function Add(a: Elem, b: Elem): Elem
  {
    a ^ b
  }

  lemma AddCommutes(a: Elem, b: Elem)
    ensures Add(a, b) == Add(b, a)
  {
  }

  lemma AddAssociates(a: Elem, b: Elem, c: Elem)
    ensures Add(Add(a, b), c) == Add(a, Add(b, c))
  {
  }

  lemma AddZero(a: Elem)
    ensures Add(a, 0) == a && Add(0, a) == a
  {
  }

  lemma AddSwapMiddle(a: Elem, b: Elem, c: Elem, d: Elem)
    ensures Add(Add(a, b), Add(c, d)) == Add(Add(a, c), Add(b, d))
  {
  }

  /** Every element is its own negative. */
  lemma AddSelf(a: Elem)
    ensures Add(a, a) == 0
  {
  }

  // ---------------------------------------------------------------------
  // The tables
  // ---------------------------------------------------------------------

  /** Every non-zero element has a logarithm in 0..6 and exp undoes log. */
  lemma ExpOfLog(v: Elem)
    requires v != 0
    ensures 0 <= Log[v as int] < Order
    ensures Exp[Log[v as int]] == v
  {
    if v == 1 {} else if v == 2 {} else if v == 3 {} else if v == 4 {}
    else if v == 5 {} else if v == 6 {} else {}
  }

  /** Every entry of exp is non-zero. */
  lemma ExpNonZero(s: int)
    requires 0 <= s < ExpEntries
    ensures Exp[s] != 0
  {
  }

  /** Every entry of exp is non-zero, log reads its exponent back modulo 7, and the table has period 7. */
  lemma LogOfExp(s: int)
    requires 0 <= s < ExpEntries
    ensures Exp[s] != 0
    ensures Log[Exp[s] as int] == s % Order
    ensures Exp[s] == Exp[s % Order]
  {
    if s == 0 {} else if s == 1 {} else if s == 2 {} else if s == 3 {}
    else if s == 4 {} else if s == 5 {} else if s == 6 {} else if s == 7 {}
    else if s == 8 {} else if s == 9 {} else if s == 10 {} else if s == 11 {}
    else if s == 12 {} else {}
  }

  /** The exponent table is the orbit of 1 under table-free doubling (gen_LUTs.c builds it so). */
  lemma ExpIsOrbit(i: nat)
    requires i + 1 < ExpEntries
    ensures Exp[0] == 1
    ensures Exp[i + 1] == Mul2NoLut(Exp[i])
  {
    if i == 0 {} else if i == 1 {} else if i == 2 {} else if i == 3 {}
    else if i == 4 {} else if i == 5 {} else if i == 6 {} else if i == 7 {}
    else if i == 8 {} else if i == 9 {} else if i == 10 {} else if i == 11 {}
    else {}
  }

  // ---------------------------------------------------------------------
  // Algebra of the reference product
  // ---------------------------------------------------------------------

  lemma FieldMulCommutes(a: Elem, b: Elem)
    ensures FieldMul(a, b) == FieldMul(b, a)
  {
  }

  /** Doubling is multiplication by x. */
  lemma FieldMulByTwo(a: Elem)
    ensures FieldMul(a, 2) == Mul2NoLut(a)
  {
  }

  lemma CarrylessMulLinear(a: Elem, b: Elem, c: Elem)
    ensures CarrylessMul(a ^ b, c) == CarrylessMul(a, c) ^ CarrylessMul(b, c)
  {
  }

  lemma ReduceModPrimeLinear(p: bv8, q: bv8)
    requires p < 32 && q < 32
    ensures ReduceModPrime(p ^ q) == ReduceModPrime(p) ^ ReduceModPrime(q)
  {
  }

  /** Associativity, checked bit by bit in four slices of the third factor. */
  lemma FieldMulAssociates(a: Elem, b: Elem, c: Elem)
    ensures FieldMul(FieldMul(a, b), c) == FieldMul(a, FieldMul(b, c))
  {
    if c < 2 {
      FieldMulAssociatesC01(a, b, c);
    } else if c < 4 {
      FieldMulAssociatesC23(a, b, c);
    } else if c < 6 {
      FieldMulAssociatesC45(a, b, c);
    } else {
      FieldMulAssociatesC67(a, b, c);
    }
  }

  lemma FieldMulAssociatesC01(a: Elem, b: Elem, c: Elem)
    requires c < 2
    ensures FieldMul(FieldMul(a, b), c) == FieldMul(a, FieldMul(b, c))
  {
  }

  lemma FieldMulAssociatesC23(a: Elem, b: Elem, c: Elem)
    requires 2 <= c < 4
    ensures FieldMul(FieldMul(a, b), c) == FieldMul(a, FieldMul(b, c))
  {
  }

  lemma FieldMulAssociatesC45(a: Elem, b: Elem, c: Elem)
    requires 4 <= c < 6
    ensures FieldMul(FieldMul(a, b), c) == FieldMul(a, FieldMul(b, c))
  {
  }

  lemma FieldMulAssociatesC67(a: Elem, b: Elem, c: Elem)
    requires 6 <= c
    ensures FieldMul(FieldMul(a, b), c) == FieldMul(a, FieldMul(b, c))
  {
  }

  lemma FieldMulDistributes(a: Elem, b: Elem, c: Elem)
    ensures FieldMul(Add(a, b), c) == Add(FieldMul(a, c), FieldMul(b, c))
  {
    CarrylessMulLinear(a, b, c);
    ReduceModPrimeLinear(CarrylessMul(a, c), CarrylessMul(b, c));
  }

  // ---------------------------------------------------------------------
  // Table-driven operations of gf8.c
  // ---------------------------------------------------------------------

  /** gf8_mul: zero if either factor is zero, otherwise exp[log a + log b]. */
  function Mul(a: Elem, b: Elem): (r: Elem)
    ensures r == 0 <==> a == 0 || b == 0
  {
    if a == 0 || b == 0 then 0
    else
      ExpOfLog(a); ExpOfLog(b);
      ExpNonZero(Log[a as int] + Log[b as int]);
      Exp[Log[a as int] + Log[b as int]]
  }

  /** The table product is the field product (checked element by element). */
  lemma MulIsFieldMul(a: Elem, b: Elem)
    ensures Mul(a, b) == FieldMul(a, b)
  {
    if a == 0 {} else if a == 1 {} else if a == 2 {} else if a == 3 {}
    else if a == 4 {} else if a == 5 {} else if a == 6 {} else {}
  }

  lemma MulCommutes(a: Elem, b: Elem)
    ensures Mul(a, b) == Mul(b, a)
  {
  }

  lemma MulAssociates(a: Elem, b: Elem, c: Elem)
    ensures Mul(Mul(a, b), c) == Mul(a, Mul(b, c))
  {
    MulIsFieldMul(a, b);
    MulIsFieldMul(b, c);
    MulIsFieldMul(Mul(a, b), c);
    MulIsFieldMul(a, Mul(b, c));
    FieldMulAssociates(a, b, c);
  }

  lemma MulDistributes(a: Elem, b: Elem, c: Elem)
    ensures Mul(Add(a, b), c) == Add(Mul(a, c), Mul(b, c))
  {
    MulIsFieldMul(Add(a, b), c);
    MulIsFieldMul(a, c);
    MulIsFieldMul(b, c);
    FieldMulDistributes(a, b, c);
  }

  lemma MulOne(a: Elem)
    ensures Mul(a, 1) == a && Mul(1, a) == a
  {
    if a != 0 {
      ExpOfLog(a);
    }
  }

  /** Multiplying by 2 through the tables is the table-free doubling. */
  lemma MulByTwo(a: Elem)
    ensures Mul(a, 2) == Mul2NoLut(a)
  {
    MulIsFieldMul(a, 2);
    FieldMulByTwo(a);
  }

  /** The outcome of gf8_div: the quotient, or the divide-by-zero sentinel -1. */
  datatype Quotient = Quot(value: Elem) | DivByZero

  /** gf8_div: the sentinel for a zero divisor, 0 for a zero dividend, otherwise exp[log a - log b + 7]. */
  function Div(a: Elem, b: Elem): (r: Quotient)
    ensures r.DivByZero? <==> b == 0
    ensures r.Quot? ==> (r.value == 0 <==> a == 0)
  {
    if b == 0 then DivByZero
    else if a == 0 then Quot(0)
    else
      ExpOfLog(a); ExpOfLog(b);
      ExpNonZero(Log[a as int] - Log[b as int] + Order);
      Quot(Exp[Log[a as int] - Log[b as int] + Order])
  }

  /** Division undoes multiplication: (a / b) * b == a for every non-zero b. */
  lemma DivMulRoundTrip(a: Elem, b: Elem)
    requires b != 0
    ensures Div(a, b).Quot?
    ensures Mul(Div(a, b).value, b) == a
  {
    if b == 1 {} else if b == 2 {} else if b == 3 {} else if b == 4 {}
    else if b == 5 {} else if b == 6 {} else {}
  }

  /** Multiplication undoes division: (a * b) / b == a for every non-zero b. */
  lemma MulDivRoundTrip(a: Elem, b: Elem)
    requires b != 0
    ensures Div(Mul(a, b), b) == Quot(a)
  {
    if b == 1 {} else if b == 2 {} else if b == 3 {} else if b == 4 {}
    else if b == 5 {} else if b == 6 {} else {}
  }

  /** gf8_inverse: exp[7 - log x].  For x = 0 the sentinel -1 makes this exp[8] = 2. */
  function Inverse(x: Elem): (r: Elem)
    ensures x == 0 ==> r == 2
    ensures x != 0 ==> r != 0
  {
    if x == 0 then Exp[Order + 1]
    else ExpOfLog(x); ExpNonZero(Order - Log[x as int]); Exp[Order - Log[x as int]]
  }

  lemma InverseIsInverse(x: Elem)
    requires x != 0
    ensures Mul(x, Inverse(x)) == 1
  {
    if x == 1 {} else if x == 2 {} else if x == 3 {} else if x == 4 {}
    else if x == 5 {} else if x == 6 {} else {}
  }

  /** x^n by repeated multiplication (x^0 = 1): the meaning of a power. */
  function Power(x: Elem, n: nat): Elem
  {
    if n == 0 then 1 else Mul(Power(x, n - 1), x)
  }

  /**
    * gf8_pow: exp[(log x * power) % 14].  A zero base with a positive power would
    * index the table with a negative number, and so would a negative power.
    */
  function Pow(x: Elem, power: int): (r: Elem)
    requires 0 <= power < 128
    requires x != 0 || power == 0
    ensures x != 0 ==> r != 0
  {
    if x == 0 then Exp[0]
    else
      ExpOfLog(x);
      ExpNonZero((Log[x as int] * power) % ExpEntries);
      Exp[(Log[x as int] * power) % ExpEntries]
  }

  /** One more factor of x: the table power steps like the repeated product. */
  lemma PowStep(x: Elem, n: nat)
    requires 0 < n < 128
    requires x != 0
    ensures Pow(x, n) == Mul(Pow(x, n - 1), x)
  {
    var m := Log[x as int] * (n - 1);
    ExpOfLog(x);
    MulSucc(Log[x as int], n);
    LogOfExp(m % ExpEntries);
    LogOfExp(m % ExpEntries % Order + Log[x as int]);
    LogOfExp((m + Log[x as int]) % ExpEntries);
    SumModOrder(m, Log[x as int]);
  }

  lemma MulSucc(a: int, n: int)
    ensures a * n == a * (n - 1) + a
  {
  }

  /** Adding to a residue modulo 7 and reducing again is reducing the sum; residues modulo 14 agree modulo 7. */
  lemma SumModOrder(m: nat, l: nat)
    ensures (m % ExpEntries % Order + l) % Order == (m + l) % ExpEntries % Order
  {
    var r := m % ExpEntries;
    var t := (m + l) % ExpEntries;
    ModOrderShift(r % Order + l, r / Order);
    ModOrderShift(r + l, 2 * (m / ExpEntries));
    ModOrderShift(t, 2 * ((m + l) / ExpEntries));
  }

  /** Adding a multiple of 7 does not change a residue modulo 7. */
  lemma ModOrderShift(x: int, k: int)
    ensures (x + Order * k) % Order == x % Order
  {
  }

  /** gf8_pow computes the power. */
  lemma {:induction false} PowIsPower(x: Elem, n: nat)
    requires n < 128
    requires x != 0 || n == 0
    ensures Pow(x, n) == Power(x, n)
  {
    if n > 0 {
      PowIsPower(x, n - 1);
      PowStep(x, n);
    }
  }

  /**
    * gf8_pow as the preprocessor expands it.  GF8_EXP_ENTRIES is `2 * GF8_MAX`
    * without parentheses, so `% GF8_EXP_ENTRIES` reads `% 2 * 7`: the index
    * is 0 or 7, and both entries hold 1.
    */
  function PowAsWritten(x: Elem, power: int): (r: Elem)
    requires 0 <= power < 128
    requires x != 0 || power == 0
    ensures r == 1
  {
    Exp[(Log[x as int] * power) % 2 * Order]
  }

  /** 2^1 is 2, but gf8_pow as written returns 1 for it. */
  lemma PowAsWrittenCounterexample()
    ensures PowAsWritten(2, 1) == 1
    ensures Pow(2, 1) == Power(2, 1) == 2
  {
    MulOne(2);
  }

  /** gf8_2pow: exp[power], the power-th power of the primitive element 2. */
  function TwoPow(power: int): (r: Elem)
    requires 0 <= power < ExpEntries
    ensures r != 0
  {
    ExpNonZero(power);
    Exp[power]
  }

  /** gf8_2pow(i) is 2 multiplied by itself i times. */
  lemma TwoPowIsPower(i: nat)
    requires i < ExpEntries
    ensures TwoPow(i) == Power(2, i)
  {
    if i == 0 {
      assert TwoPow(0) == Power(2, 0);
    } else {
      TwoPowIsPowerFrom1(i);
    }
  }

  lemma {:induction false} TwoPowIsPowerFrom1(i: nat)
    requires 0 < i < ExpEntries
    ensures TwoPow(i) == Power(2, i)
  {
    if i > 1 {
      TwoPowIsPowerFrom1(i - 1);
    } else {
      assert TwoPow(0) == Power(2, 0);
    }
    TwoPowStep(i);
  }

  /** One more doubling: the next exp entry is the previous one times 2. */
  lemma TwoPowStep(i: nat)
    requires 0 < i < ExpEntries
    ensures TwoPow(i) == Mul(TwoPow(i - 1), 2)
  {
    ExpIsOrbit(i - 1);
    MulByTwo(Exp[i - 1]);
  }
}
