/** Doubling in GF(2^128) (crypto/gf128mul.h). A polynomial over GF(2) is a number whose bit i is
    the coefficient of x^i: addition is exclusive or, and multiplication by x is doubling. The
    three functions are multiplication by x modulo x^128 + x^7 + x^2 + x + 1, each in its own
    bit order. */
module Gf128 {
  import opened Words
  import opened Padding

  const TWO128: int := TWO64 * TWO64
  const TWO127: int := TWO64 * TWO63

  // ----- the code -----

  /** A block once byte-swapped into two words. */
  datatype Block = Block(a: U64, b: U64)

  /** `gf128mul_mask_from_bit`: the shift left puts the bit at the sign, the arithmetic shift
      right copies it everywhere. */
  function MaskFromBit(x: U64, which: nat): U64
    requires which <= 63
  {
    if Wrap64(x * Pow2(63 - which)) >= TWO63 then TWO64 - 1 else 0
  }

  /** `gf128mul_x_lle`. */
  function XLle(v: Block): Block {
    var tt := And(MaskFromBit(v.b, 0), 0xe1 * 0x100_0000_0000_0000);
    Block(Xor64(v.a / 2, tt), Or64(v.b / 2, Wrap64(v.a * TWO63)))
  }

  /** `gf128mul_x_bbe` and `gf128mul_x_ble`, which differ only in the bytes in memory. */
  function XBbe(v: Block): Block {
    var tt := And(MaskFromBit(v.a, 63), 0x87);
    Block(Or64(Wrap64(2 * v.a), v.b / TWO63), Xor64(Wrap64(2 * v.b), tt))
  }

  // ----- exclusive or -----

  lemma XorDouble(x: nat, y: nat)
    ensures Xor(2 * x, 2 * y) == 2 * Xor(x, y)
  {
    XorStep(2 * x, 2 * y);
  }

  /** Equal to zero exactly when equal. */
  lemma XorZero(x: nat, y: nat)
    requires Xor(x, y) == 0
    ensures x == y
  {
    XorAssociates(x, y, y);
    XorSelf(y);
  }

  /** The middle two of a sum of four may trade places. */
  lemma XorExchange(a: nat, b: nat, c: nat, d: nat)
    ensures Xor(Xor(a, b), Xor(c, d)) == Xor(Xor(a, c), Xor(b, d))
  {
    XorAssociates(a, b, Xor(c, d));
    XorAssociates(b, c, d);
    XorCommutes(b, c);
    XorAssociates(c, b, d);
    XorAssociates(a, c, Xor(b, d));
  }

  // ----- polynomials -----

  /** The product of two polynomials over GF(2), with no reduction. */
  function Product(q: nat, p: nat): nat {
    if q == 0 then 0 else Xor(2 * Product(q / 2, p), if q % 2 == 1 then p else 0)
  }

  /** x^128 + x^7 + x^2 + x + 1. */
  const MODULUS: nat := TWO128 + 0x87

  /** Its coefficients: those of x^0, x^1, x^2, x^7 and x^128. */
  lemma ModulusCoefficients(i: nat)
    ensures TestBit(MODULUS, i) <==> i in {0, 1, 2, 7, 128}
  {
    Pow2Of128();
    OneTimes(TWO128, 0x87);
    PartBit(MODULUS, 1, 0x87, 128, i);
    if i < 128 { LowCoefficients(i); } else if i > 128 { ZeroTests(i - 129); }
  }

  lemma LowCoefficients(i: nat)
    ensures TestBit(0x87, i) <==> i in {0, 1, 2, 7}
  {
    TestStep(0x87, 0x43, 1, i);
    if i > 0 { TestStep(0x43, 0x21, 1, i - 1); }
    if i > 1 { TestStep(0x21, 0x10, 1, i - 2); }
    if i > 2 { TestStep(0x10, 0x8, 0, i - 3); }
    if i > 3 { TestStep(0x8, 0x4, 0, i - 4); }
    if i > 4 { TestStep(0x4, 0x2, 0, i - 5); }
    if i > 5 { TestStep(0x2, 0x1, 0, i - 6); }
    if i > 6 { TestStep(0x1, 0x0, 1, i - 7); }
    if i > 7 { ZeroTests(i - 8); }
  }

  /** The doubling all three functions compute, on a polynomial of degree below 128. */
  function Double(v: nat): nat
    requires v < TWO128
  {
    if v < TWO127 then 2 * v else Xor(2 * v, MODULUS)
  }

  /** Doubling stays below degree 128, and spelled out removes the top bit and adds 0x87. */
  lemma DoubleBelow(v: nat)
    requires v < TWO128
    ensures Double(v) < TWO128
    ensures v >= TWO127 ==> Double(v) == Xor(2 * v - TWO128, 0x87)
  {
    if v >= TWO127 {
      var low := 2 * v - TWO128;
      Pow2Of128();
      XorBelow(1, 0x87, low, 128);
      XorCommutes(MODULUS, TWO128 + low);
      XorTop(low, 0x87);
      BitwiseBelow(low, 0x87, 128);
    }
  }

  lemma Pow2Of128()
    ensures Pow2(128) == TWO128 && Pow2(127) == TWO127 && 0x87 < TWO128
  {
    Pow2Values();
    Pow2Sum(64, 64);
    Pow2Sum(64, 63);
  }

  /** Two top bits cancel. */
  lemma XorTop(x: nat, y: nat)
    requires x < TWO128 && y < TWO128
    ensures Xor(TWO128 + x, TWO128 + y) == Xor(x, y)
  {
    Pow2Of128();
    XorBelow(1, x, 0, 128);
    XorTopBits(x, y, 128);
  }

  lemma {:induction false} XorTopBits(x: nat, y: nat, k: nat)
    requires x < Pow2(k) && y < Pow2(k)
    ensures Xor(Pow2(k) + x, Pow2(k) + y) == Xor(x, y)
  {
    if k > 0 {
      XorTopBits(x / 2, y / 2, k - 1);
      XorTopStep(x, y, Pow2(k - 1));
    } else {
      XorSelf(1);
    }
  }

  lemma XorTopStep(x: nat, y: nat, p: nat)
    requires Xor(p + x / 2, p + y / 2) == Xor(x / 2, y / 2)
    ensures Xor(2 * p + x, 2 * p + y) == Xor(x, y)
  {
    assert (2 * p + x) / 2 == p + x / 2 && (2 * p + y) / 2 == p + y / 2;
    XorStep(2 * p + x, 2 * p + y);
    XorStep(x, y);
  }

  /** Remainder modulo the modulus, by Horner's rule from the top coefficient down. */
  function Remainder(n: nat): (r: nat)
    ensures r < TWO128
  {
    if n == 0 then 0
    else
      DoubleBelow(Remainder(n / 2));
      DoubleThenBit(Remainder(n / 2), n % 2);
      Xor(Double(Remainder(n / 2)), n % 2)
  }

  lemma DoubleThenBit(v: nat, bit: nat)
    requires v < TWO128 && bit < 2
    ensures Double(v) < TWO128 && Xor(Double(v), bit) < TWO128
  {
    DoubleBelow(v);
    Pow2Of128();
    BitwiseBelow(Double(v), bit, 128);
  }

  /** The quotient that goes with it. */
  function Quotient(n: nat): nat {
    if n == 0 then 0 else 2 * Quotient(n / 2) + (if Remainder(n / 2) >= TWO127 then 1 else 0)
  }

  /** Division with remainder: n = Quotient(n) * modulus + Remainder(n). */
  lemma {:induction false} DivisionLaw(n: nat)
    ensures n == Xor(Product(Quotient(n), MODULUS), Remainder(n))
  {
    if n > 0 {
      DivisionLaw(n / 2);
      var q, r, bit := Quotient(n / 2), Remainder(n / 2), n % 2;
      var p := Product(q, MODULUS);
      var m := if r >= TWO127 then MODULUS else 0;
      ProductOfOdd(q, if r >= TWO127 then 1 else 0);
      assert Product(Quotient(n), MODULUS) == Xor(2 * p, m);
      // 2n' + bit = (2p + m) + ((2r + m) + bit)
      DoubleAsSum(r);
      OneStep(p, r, m, bit);
      OddBit(n);
    }
  }

  lemma DoubleAsSum(r: nat)
    requires r < TWO128
    ensures Double(r) == Xor(2 * r, if r >= TWO127 then MODULUS else 0)
  {
    XorZeroRight(2 * r);
  }

  lemma OneStep(p: nat, r: nat, m: nat, bit: nat)
    requires bit < 2
    ensures Xor(Xor(2 * p, m), Xor(Xor(2 * r, m), bit)) == Xor(2 * Xor(p, r), bit)
  {
    XorAssociates(Xor(2 * p, m), Xor(2 * r, m), bit);
    XorExchange(2 * p, m, 2 * r, m);
    XorSelf(m);
    XorZeroRight(Xor(2 * p, 2 * r));
    XorDouble(p, r);
  }

  lemma OddBit(n: nat)
    ensures Xor(2 * (n / 2), n % 2) == n
  {
    XorStep(2 * (n / 2), n % 2);
  }

  lemma ProductOfOdd(q: nat, bit: nat)
    requires bit < 2
    ensures Product(2 * q + bit, MODULUS) == Xor(2 * Product(q, MODULUS), if bit == 1 then MODULUS else 0)
  {
  }

  lemma {:induction false} ProductAdds(q: nat, q': nat, p: nat)
    ensures Product(Xor(q, q'), p) == Xor(Product(q, p), Product(q', p))
    decreases q + q'
  {
    if q != 0 && q' != 0 {
      ProductAdds(q / 2, q' / 2, p);
      XorStep(q, q');
      ProductStep(q, p);
      ProductStep(q', p);
      ProductStep(Xor(q, q'), p);
      SumOfSteps(Product(q / 2, p), Product(q' / 2, p), p, q % 2 == 1, q' % 2 == 1);
    }
  }

  lemma SumOfSteps(x: nat, x': nat, p: nat, t: bool, t': bool)
    ensures Xor(Xor(2 * x, if t then p else 0), Xor(2 * x', if t' then p else 0))
         == Xor(2 * Xor(x, x'), if t != t' then p else 0)
  {
    XorExchange(2 * x, if t then p else 0, 2 * x', if t' then p else 0);
    XorDouble(x, x');
    XorSelf(p);
    XorZeroRight(p);
  }

  lemma ProductStep(q: nat, p: nat)
    ensures Product(q, p) == Xor(2 * Product(q / 2, p), if q % 2 == 1 then p else 0)
  {
  }

  /** A nonzero multiple of the modulus has degree at least 128. */
  lemma {:induction false} MultipleIsLarge(q: nat)
    requires q >= 1
    ensures Product(q, MODULUS) >= TWO128
  {
    ProductStep(q, MODULUS);
    if q >= 2 {
      MultipleIsLarge(q / 2);
      Pow2Of128();
      XorKeepsTop(Product(q / 2, MODULUS), if q % 2 == 1 then MODULUS else 0);
    }
  }

  lemma XorKeepsTop(x: nat, y: nat)
    requires x >= TWO128 && y < 2 * TWO128
    ensures Xor(2 * x, y) >= 2 * TWO128
  {
    Pow2Of128();
    XorKeepsTopAt(x, y, TWO128, 128);
  }

  lemma XorKeepsTopAt(x: nat, y: nat, p: nat, k: nat)
    requires p == Pow2(k) && x >= p && y < 2 * p
    ensures Xor(2 * x, y) >= 2 * p
  {
    var h, l := x / p, x % p;
    DoubleParts(x, p, h, l);
    XorBelow(h, 2 * l, y, k + 1);
  }

  lemma DoubleParts(x: nat, p: nat, h: int, l: int)
    requires 1 <= p <= x && h == x / p && l == x % p
    ensures 2 * x == h * (2 * p) + 2 * l && h >= 1 && 0 <= l < p && h * (2 * p) >= 2 * p
  {
    MulDouble(h, p);
    if h < 1 { MulStep(h, 1, p); }
    MulBound(1, 2 * p, h, 2 * p);
  }

  /** The remainder is the only one of degree below 128. */
  lemma RemainderUnique(n: nat, q: nat, r: nat)
    requires r < TWO128 && n == Xor(Product(q, MODULUS), r)
    ensures r == Remainder(n) && q == Quotient(n)
  {
    var q', r' := Quotient(n), Remainder(n);
    var x, x' := Product(q, MODULUS), Product(q', MODULUS);
    DivisionLaw(n);
    XorExchange(x, r, x', r');
    XorSelf(n);
    XorZero(Xor(x, x'), Xor(r, r'));
    ProductAdds(q, q', MODULUS);
    Pow2Of128();
    BitwiseBelow(r, r', 128);
    if Xor(q, q') >= 1 { MultipleIsLarge(Xor(q, q')); }
    XorZero(q, q');
    XorZero(r, r');
  }

  /** Doubling is multiplication by x modulo the modulus, and doubling i times is multiplication
      by x^i. */
  lemma {:induction false} DoublingIsTimesX(v: nat, i: nat)
    requires v < TWO128
    ensures Doubled(v, i) == Remainder(Product(Pow2(i), v))
  {
    if i == 0 {
      ProductOfOne(v);
      RemainderUnique(v, 0, v);
    } else {
      DoublingIsTimesX(v, i - 1);
      ProductOfPower(v, Pow2(i - 1));
      RemainderOfDouble(Product(Pow2(i - 1), v));
    }
  }

  lemma ProductOfOne(v: nat)
    ensures Product(1, v) == v
  {
    ProductStep(1, v);
  }

  lemma ProductOfPower(v: nat, p: nat)
    ensures Product(2 * p, v) == 2 * Product(p, v)
  {
    ProductStep(2 * p, v);
    XorZeroRight(2 * Product(p, v));
  }

  function Doubled(v: nat, i: nat): (r: nat)
    requires v < TWO128
    ensures r < TWO128
  {
    if i == 0 then v
    else
      DoubleBelow(Doubled(v, i - 1));
      Double(Doubled(v, i - 1))
  }

  lemma RemainderOfDouble(n: nat)
    ensures Remainder(2 * n) == Double(Remainder(n))
  {
    if n > 0 {
      RemainderStep(2 * n);
      assert (2 * n) / 2 == n && (2 * n) % 2 == 0;
      XorZeroRight(Double(Remainder(n)));
    }
  }

  lemma RemainderStep(n: nat)
    requires n > 0
    ensures Remainder(n) == Xor(Double(Remainder(n / 2)), n % 2)
  {
  }

  // ----- linear and injective -----

  /** Exclusive or, top bit and the rest. */
  lemma XorTopPart(t: bool, l: nat, t': bool, l': nat, k: nat)
    requires l < Pow2(k) && l' < Pow2(k)
    ensures Xor(TopBit(t, k) + l, TopBit(t', k) + l') == TopBit(t != t', k) + Xor(l, l')
  {
    if t && t' {
      XorTopBits(l, l', k);
    } else if t {
      XorOneTop(l, l', k);
    } else if t' {
      XorOneTop(l', l, k);
    }
  }

  lemma XorOneTop(l: nat, l': nat, k: nat)
    requires l < Pow2(k) && l' < Pow2(k)
    ensures Xor(Pow2(k) + l, l') == Pow2(k) + Xor(l, l')
    ensures Xor(l', Pow2(k) + l) == Pow2(k) + Xor(l', l)
  {
    XorUnderTop(l, l', k);
    XorCommutes(l, l');
    XorCommutes(l', Pow2(k) + l);
  }

  function TopBit(t: bool, k: nat): nat { if t then Pow2(k) else 0 }

  /** Which of two sums has the top coefficient. */
  lemma TopOfSum(v: nat, w: nat)
    requires v < TWO128 && w < TWO128
    ensures Xor(v, w) < TWO128
    ensures Xor(v, w) >= TWO127 <==> (v >= TWO127) != (w >= TWO127)
  {
    Pow2Of128();
    BitwiseBelow(v, w, 128);
    var t, t' := v >= TWO127, w >= TWO127;
    var l, l' := v - TopBit(t, 127), w - TopBit(t', 127);
    XorTopPart(t, l, t', l', 127);
    BitwiseBelow(l, l', 127);
  }

  lemma DoubleLinear(v: nat, w: nat)
    requires v < TWO128 && w < TWO128
    ensures Xor(v, w) < TWO128 && Double(Xor(v, w)) == Xor(Double(v), Double(w))
  {
    TopOfSum(v, w);
    DoubleAsSum(v);
    DoubleAsSum(w);
    DoubleAsSum(Xor(v, w));
    SumOfSteps(v, w, MODULUS, v >= TWO127, w >= TWO127);
  }

  lemma DoubleInjective(v: nat, w: nat)
    requires v < TWO128 && w < TWO128 && Double(v) == Double(w)
    ensures v == w
  {
    DoubleLinear(v, w);
    XorSelf(Double(v));
    if Xor(v, w) > 0 { DoubleNonzero(Xor(v, w)); }
    XorZero(v, w);
  }

  lemma DoubleNonzero(d: nat)
    requires 0 < d < TWO128
    ensures Double(d) > 0
  {
    DoubleBelow(d);
    if d >= TWO127 { XorStep(2 * d - TWO128, 0x87); }
  }

  // ----- the code computes it -----

  /** The block as one polynomial, word a above word b. */
  function Number(v: Block): (n: nat)
    ensures n < TWO128
  {
    v.a * TWO64 + v.b
  }

  /** Shifted left until bit `which` is on top, a word is at least 2^63 exactly if the bit is set. */
  lemma BitToTop(x: nat, p: nat, q: nat)
    requires p * q == TWO63 && p >= 1
    ensures Wrap64(x * q) >= TWO63 <==> (x / p) % 2 == 1
  {
    var c, l := x / p, x % p;
    var h, b := c / 2, c % 2;
    Distribute(c, p, l, q);
    MulStep(l, p, q);
    MulBound(0, 0, l, q);
    DivideUnique(x * q, TWO64, h, b * TWO63 + l * q);
  }

  lemma Distribute(c: int, p: int, l: int, q: int)
    ensures (c * p + l) * q == c * (p * q) + l * q
  {
  }

  /** A mask keeps all of a word or nothing, as the bit says. */
  lemma MaskSelects(x: U64, which: nat, c: U64)
    requires which <= 63
    ensures MaskFromBit(x, which) == if (x / Pow2(which)) % 2 == 1 then TWO64 - 1 else 0
    ensures And(MaskFromBit(x, which), c) == if (x / Pow2(which)) % 2 == 1 then c else 0
  {
    Pow2Values();
    Pow2Sum(which, 63 - which);
    BitToTop(x, Pow2(which), Pow2(63 - which));
    AllOnes(c);
  }

  lemma TopBit63(x: U64)
    ensures (x / Pow2(63)) % 2 == 1 <==> x >= TWO63
  {
    Pow2Values();
  }

  lemma LowBit0(x: U64)
    ensures (x / Pow2(0)) % 2 == x % 2
  {
  }

  lemma LowBitToTop(x: U64)
    ensures Wrap64(x * TWO63) == (x % 2) * TWO63
  {
    var h, b := x / 2, x % 2;
    DivideUnique(x * TWO63, TWO64, h, b * TWO63);
  }

  lemma AllOnes(c: U64)
    ensures And(TWO64 - 1, c) == c && And(0, c) == 0
  {
    Pow2Values();
    AndLowMask(c, 64);
    AndCommutes(TWO64 - 1, c);
  }

  lemma OrLowBit(x: nat, bit: nat)
    requires bit < 2
    ensures Or(2 * x, bit) == 2 * x + bit
  {
  }

  /** Doubling in bbe and ble order is multiplication by x. */
  lemma BbeDoubles(v: Block)
    ensures Number(XBbe(v)) == Double(Number(v))
  {
    var top := v.a >= TWO63;
    var tt := if top then 0x87 else 0;
    MaskSelects(v.a, 63, 0x87);
    TopBit63(v.a);
    var hi, lo := Wrap64(2 * v.a) + v.b / TWO63, Wrap64(2 * v.b);
    BbeWords(v, tt, hi, lo);
    XorLowWord(hi, lo, tt);
    ShiftedNumber(v, hi, lo);
    DoubleBelow(Number(v));
    XorZeroRight(2 * Number(v));
  }

  lemma XorLowWord(hi: nat, lo: U64, tt: U64)
    ensures Xor(hi * TWO64 + lo, tt) == hi * TWO64 + Xor(lo, tt)
  {
    Pow2Values();
    XorBelow(hi, lo, tt, 64);
  }

  lemma BbeWords(v: Block, tt: U64, hi: nat, lo: nat)
    requires tt == And(MaskFromBit(v.a, 63), 0x87)
    requires hi == Wrap64(2 * v.a) + v.b / TWO63 && lo == Wrap64(2 * v.b)
    ensures XBbe(v).a == hi && XBbe(v).b == Xor(lo, tt)
  {
    OrShifted(v.a, v.b / TWO63);
  }

  lemma OrShifted(a: U64, bit: nat)
    requires bit < 2
    ensures Or(Wrap64(2 * a), bit) == Wrap64(2 * a) + bit
  {
    OrLowBit(a % TWO63, bit);
    assert Wrap64(2 * a) == 2 * (a % TWO63);
  }

  lemma ShiftedNumber(v: Block, hi: nat, lo: nat)
    requires hi == Wrap64(2 * v.a) + v.b / TWO63 && lo == Wrap64(2 * v.b)
    ensures Number(v) >= TWO127 <==> v.a >= TWO63
    ensures hi * TWO64 + lo == 2 * Number(v) - (if v.a >= TWO63 then TWO128 else 0)
  {
  }

  // ----- the reversed order -----

  /** The low w bits, in reverse. */
  function Reverse(n: nat, w: nat): (r: nat)
    ensures r < Pow2(w)
  {
    if w == 0 then 0 else TopBit(n % 2 == 1, w - 1) + Reverse(n / 2, w - 1)
  }

  /** A spare zero at the top comes out as a spare zero at the bottom. */
  lemma {:induction false} ReverseSpare(n: nat, w: nat)
    requires n < Pow2(w)
    ensures Reverse(n, w + 1) == 2 * Reverse(n, w)
  {
    if w > 0 { ReverseSpare(n / 2, w - 1); }
  }

  lemma {:induction false} ReverseTop(t: bool, l: nat, w: nat)
    requires l < Pow2(w)
    ensures Reverse(TopBit(t, w) + l, w + 1) == 2 * Reverse(l, w) + (if t then 1 else 0)
  {
    if w > 0 {
      var n := TopBit(t, w) + l;
      assert n % 2 == l % 2 && n / 2 == TopBit(t, w - 1) + l / 2;
      ReverseTop(t, l / 2, w - 1);
    }
  }

  lemma {:induction false} ReverseTwice(n: nat, w: nat)
    requires n < Pow2(w)
    ensures Reverse(Reverse(n, w), w) == n
  {
    if w > 0 {
      ReverseTwice(n / 2, w - 1);
      ReverseTop(n % 2 == 1, Reverse(n / 2, w - 1), w - 1);
    }
  }

  lemma ReverseXor(x: nat, y: nat, w: nat)
    ensures Reverse(Xor(x, y), w) == Xor(Reverse(x, w), Reverse(y, w))
  {
    ReverseSum(x, y, Xor(x, y), w);
  }

  lemma {:induction false} ReverseSum(x: nat, y: nat, z: nat, w: nat)
    requires z == Xor(x, y)
    ensures Reverse(z, w) == Xor(Reverse(x, w), Reverse(y, w))
  {
    if w > 0 {
      HalvesOfXor(x, y, z);
      ReverseSum(x / 2, y / 2, z / 2, w - 1);
      JoinTops(Reverse(x, w), x % 2 == 1, Reverse(x / 2, w - 1), Reverse(y, w), y % 2 == 1, Reverse(y / 2, w - 1),
        Reverse(z, w), z % 2 == 1, Reverse(z / 2, w - 1), w - 1);
    }
  }

  lemma HalvesOfXor(x: nat, y: nat, z: nat)
    requires z == Xor(x, y)
    ensures z / 2 == Xor(x / 2, y / 2) && ((z % 2 == 1) <==> (x % 2 == 1) != (y % 2 == 1))
  {
    XorStep(x, y);
  }

  lemma JoinTops(x: nat, tx: bool, lx: nat, y: nat, ty: bool, ly: nat, z: nat, tz: bool, lz: nat, k: nat)
    requires x == TopBit(tx, k) + lx && y == TopBit(ty, k) + ly && z == TopBit(tz, k) + lz
    requires lx < Pow2(k) && ly < Pow2(k) && lz == Xor(lx, ly) && (tz <==> tx != ty)
    ensures z == Xor(x, y)
  {
    XorTopPart(tx, lx, ty, ly, k);
  }

  lemma {:induction false} ReverseShifted(c: nat, k: nat, w: nat)
    ensures Reverse(c * Pow2(k), w + k) == Reverse(c, w)
  {
    if k > 0 {
      MulDouble(c, Pow2(k - 1));
      ReverseShifted(c, k - 1, w);
    } else {
      assert c * Pow2(0) == c;
    }
  }

  /** A block with its 128 bits in reverse. */
  function ReverseBlock(n: nat): (r: nat)
    ensures r < TWO128
  {
    Pow2Of128();
    Reverse(n, 128)
  }

  /** Doubling in lle order is multiplication by x with the bits of the block reversed: bit 0 of
      the polynomial is the first bit of the block, as in section 6.3 of NIST SP 800-38D. */
  lemma LleDoublesReversed(v: Block)
    ensures ReverseBlock(Number(XLle(v))) == Double(ReverseBlock(Number(v)))
    ensures Number(XLle(v)) == ReverseBlock(Double(ReverseBlock(Number(v))))
  {
    LleNumber(v);
    ReversedAt(Number(v), Number(XLle(v)), 127);
  }

  /** What lle adds after halving when the last coefficient was set: the modulus, reversed. */
  function LlePoly(odd: bool): (n: nat)
    ensures n < TWO128
  {
    if odd then 0xe1 * 0x100_0000_0000_0000 * TWO64 else 0
  }

  lemma ReversedAt(n: nat, n': nat, w: nat)
    requires w == 127 && n < TWO128 && n' < TWO128 && n' == Xor(n / 2, LlePoly(n % 2 == 1))
    ensures ReverseBlock(n') == Double(ReverseBlock(n))
    ensures n' == ReverseBlock(Double(ReverseBlock(n)))
  {
    Pow2Of128();
    ReversedPolynomial(n % 2 == 1);
    ReversedHalf(n, n % 2 == 1, LlePoly(n % 2 == 1), w);
    ReverseTwice(n', w + 1);
  }

  /** Halving, read backwards, is doubling. */
  lemma ReversedHalf(n: nat, odd: bool, c: nat, w: nat)
    requires Pow2(w) == TWO127 && n < TWO128 && (odd <==> n % 2 == 1)
    requires Reverse(c, w + 1) == if odd then 0x87 else 0
    ensures Reverse(n, w + 1) < TWO128
    ensures Reverse(Xor(n / 2, c), w + 1) == Double(Reverse(n, w + 1))
  {
    ReverseXor(n / 2, c, w + 1);
    ReverseSpare(n / 2, w);
    ReverseStep(n, w);
    DoubleOfTop(Reverse(n / 2, w), odd, TopBit(odd, w));
  }

  lemma ReverseStep(n: nat, w: nat)
    ensures Reverse(n, w + 1) == TopBit(n % 2 == 1, w) + Reverse(n / 2, w)
  {
  }

  lemma DoubleOfTop(low: nat, odd: bool, top: nat)
    requires low < TWO127 && top == if odd then TWO127 else 0
    ensures Double(top + low) == Xor(2 * low, if odd then 0x87 else 0)
  {
    DoubleBelow(top + low);
    XorZeroRight(2 * low);
  }

  lemma ReversedPolynomial(odd: bool)
    ensures Reverse(LlePoly(odd), 128) == if odd then 0x87 else 0
  {
    if odd {
      Pow2Of120();
      ReverseShifted(0xe1, 120, 8);
      ReverseByte();
    } else {
      ReverseShifted(0, 128, 0);
    }
  }

  lemma Pow2Of120()
    ensures Pow2(120) == 0x100_0000_0000_0000 * TWO64
  {
    Pow2Values();
    Pow2Sum(56, 64);
    assert Pow2(56) == 0x100_0000_0000_0000;
  }

  lemma ReverseByte()
    ensures Reverse(0xe1, 8) == 0x87
  {
    ReverseLow();
    ReverseStep(0xe1, 7);
    ReverseStep(0x70, 6);
    ReverseStep(0x38, 5);
    ReverseStep(0x1c, 4);
    assert Pow2(7) == 128;
  }

  lemma ReverseLow()
    ensures Reverse(0x0e, 4) == 7
  {
    ReverseStep(0x0e, 3);
    ReverseStep(7, 2);
    ReverseStep(3, 1);
    ReverseStep(1, 0);
    assert Pow2(2) == 4 && Pow2(1) == 2 && Pow2(0) == 1;
  }

  lemma LleNumber(v: Block)
    ensures Number(XLle(v)) == Xor(Number(v) / 2, LlePoly(Number(v) % 2 == 1))
  {
    var odd := v.b % 2 == 1;
    MaskSelects(v.b, 0, 0xe1 * 0x100_0000_0000_0000);
    LowBit0(v.b);
    var low := v.b / 2 + Wrap64(v.a * TWO63);
    LowWordOfLle(v);
    HalvedNumber(v, low);
    XorHighWord(v.a / 2, low, if odd then 0xe1 * 0x100_0000_0000_0000 else 0);
  }

  lemma LowWordOfLle(v: Block)
    ensures Or(v.b / 2, Wrap64(v.a * TWO63)) == v.b / 2 + Wrap64(v.a * TWO63)
  {
    LowBitToTop(v.a);
    OrAtTop(v.b / 2, v.a % 2 == 1);
  }

  lemma OrAtTop(l: nat, t: bool)
    requires l < TWO63
    ensures var top := if t then TWO63 else 0; Or(l, top) == l + top
  {
    Pow2Values();
    OrAbove(l, if t then 1 else 0, 63);
  }

  lemma HalvedNumber(v: Block, low: nat)
    requires low == v.b / 2 + Wrap64(v.a * TWO63)
    ensures low < TWO64 && Number(v) / 2 == (v.a / 2) * TWO64 + low
    ensures Number(v) % 2 == v.b % 2
  {
    LowBitToTop(v.a);
  }

  lemma XorHighWord(x: nat, low: nat, t: nat)
    requires low < TWO64
    ensures Xor(x * TWO64 + low, t * TWO64) == Xor(x, t) * TWO64 + low
  {
    Pow2Values();
    XorAbove(x, low, t, 64);
  }

  // ----- many times -----

  function XLleTimes(v: Block, i: nat): Block { if i == 0 then v else XLle(XLleTimes(v, i - 1)) }

  function XBbeTimes(v: Block, i: nat): Block { if i == 0 then v else XBbe(XBbeTimes(v, i - 1)) }

  /** i calls multiply by x^i modulo the modulus, in the reversed order and in the plain one. */
  lemma {:induction false} LleTimesPower(v: Block, i: nat)
    ensures ReverseBlock(Number(XLleTimes(v, i))) == Doubled(ReverseBlock(Number(v)), i)
    ensures ReverseBlock(Number(XLleTimes(v, i))) == Remainder(Product(Pow2(i), ReverseBlock(Number(v))))
  {
    if i > 0 {
      LleTimesPower(v, i - 1);
      LleDoublesReversed(XLleTimes(v, i - 1));
    }
    DoublingIsTimesX(ReverseBlock(Number(v)), i);
  }

  lemma {:induction false} BbeTimesPower(v: Block, i: nat)
    ensures Number(XBbeTimes(v, i)) == Doubled(Number(v), i)
    ensures Number(XBbeTimes(v, i)) == Remainder(Product(Pow2(i), Number(v)))
  {
    if i > 0 {
      BbeTimesPower(v, i - 1);
      BbeDoubles(XBbeTimes(v, i - 1));
    }
    DoublingIsTimesX(Number(v), i);
  }

  // ----- blocks in memory -----

  /** Sixteen bytes as `be128` (word a first, both big-endian) and as `le128` (word b first, both
      little-endian). */
  function BeBlock(m: seq<Byte>): Block
    requires |m| == 16
  {
    Block(BeWord(m[..8]), BeWord(m[8..]))
  }

  function LeBlock(m: seq<Byte>): Block
    requires |m| == 16
  {
    Block(LeWord(m[8..]), LeWord(m[..8]))
  }

  function BeWord(m: seq<Byte>): U64
    requires |m| == 8
  {
    ValueBelow(m);
    assert Pow256(8) == TWO64;
    Value(m)
  }

  function LeWord(m: seq<Byte>): U64
    requires |m| == 8
  {
    BeWord(Reversed(m))
  }

  function BeBytes(v: Block): (m: seq<Byte>)
    ensures |m| == 16
  {
    BigEndian(v.a, 8) + BigEndian(v.b, 8)
  }

  function LeBytes(v: Block): (m: seq<Byte>)
    ensures |m| == 16
  {
    LittleEndian(v.b, 8) + LittleEndian(v.a, 8)
  }

  function LittleEndian(x: nat, n: nat): (m: seq<Byte>)
    ensures |m| == n
  {
    Reversed(BigEndian(x, n))
  }

  function Reversed(m: seq<Byte>): (r: seq<Byte>)
    ensures |r| == |m|
  {
    seq(|m|, k requires 0 <= k < |m| => m[|m| - 1 - k])
  }

  lemma {:induction false} ValueBelow(m: seq<Byte>)
    ensures Value(m) < Pow256(|m|)
  {
    if m != [] { ValueBelow(m[..|m| - 1]); }
  }

  lemma WordBack(x: U64)
    ensures BeWord(BigEndian(x, 8)) == x && LeWord(LittleEndian(x, 8)) == x
  {
    assert Pow256(8) == TWO64;
    BigEndianRoundTrip(x, 8);
    assert Reversed(LittleEndian(x, 8)) == BigEndian(x, 8);
  }

  /** Storing a block and loading it gives it back. */
  lemma BlockBack(v: Block)
    ensures BeBlock(BeBytes(v)) == v && LeBlock(LeBytes(v)) == v
  {
    WordBack(v.a);
    WordBack(v.b);
    assert BeBytes(v)[..8] == BigEndian(v.a, 8) && BeBytes(v)[8..] == BigEndian(v.b, 8);
    assert LeBytes(v)[..8] == LittleEndian(v.b, 8) && LeBytes(v)[8..] == LittleEndian(v.a, 8);
  }

  /** All sixteen bytes lie the other way round in the little-endian form. */
  lemma LeIsReversedBe(v: Block, m: seq<Byte>)
    requires |m| == 16
    ensures LeBytes(v) == Reversed(BeBytes(v)) && LeBlock(m) == BeBlock(Reversed(m))
  {
    assert Reversed(m)[..8] == Reversed(m[8..]) && Reversed(m)[8..] == Reversed(m[..8]);
  }

  // ----- the functions as code -----

  /** The store of a 64-bit word into a block in memory. */
  method StoreWord(r: array<Byte>, at: nat, bytes: seq<Byte>)
    requires r.Length == 16 && at + 8 <= 16 && |bytes| == 8
    modifies r
    ensures r[..] == old(r[..])[..at] + bytes + old(r[..])[at + 8..]
  {
    forall k | 0 <= k < 8 {
      r[at + k] := bytes[k];
    }
  }

  /** `gf128mul_x_lle`; r may be x itself. */
  method MulXLle(r: array<Byte>, x: array<Byte>)
    requires r.Length == x.Length == 16
    modifies r
    ensures ReverseBlock(Number(BeBlock(r[..]))) == Double(ReverseBlock(Number(BeBlock(old(x[..])))))
  {
    ghost var v := BeBlock(x[..]);
    assert x[0..8] == x[..][..8] && x[8..16] == x[..][8..];
    LleDoublesReversed(v);
    BlockBack(XLle(v));
    var a: int, b: int := BeWord(x[0..8]), BeWord(x[8..16]);
    var tt := And(MaskFromBit(b, 0), 0xe1 * 0x100_0000_0000_0000);
    StoreWord(r, 8, BigEndian(Or64(b / 2, Wrap64(a * TWO63)), 8));
    StoreWord(r, 0, BigEndian(Xor64(a / 2, tt), 8));
    assert r[..] == BeBytes(XLle(v));
  }

  /** `gf128mul_x_bbe`. */
  method MulXBbe(r: array<Byte>, x: array<Byte>)
    requires r.Length == x.Length == 16
    modifies r
    ensures r[..] == BbeOf(old(x[..]))
    ensures Number(BeBlock(r[..])) == Double(Number(BeBlock(old(x[..]))))
  {
    ghost var v := BeBlock(x[..]);
    assert x[0..8] == x[..][..8] && x[8..16] == x[..][8..];
    BbeDoubles(v);
    BlockBack(XBbe(v));
    var a: int, b: int := BeWord(x[0..8]), BeWord(x[8..16]);
    var tt := And(MaskFromBit(a, 63), 0x87);
    StoreWord(r, 0, BigEndian(Or64(Wrap64(2 * a), b / TWO63), 8));
    StoreWord(r, 8, BigEndian(Xor64(Wrap64(2 * b), tt), 8));
    assert r[..] == BeBytes(XBbe(v));
  }

  /** What `gf128mul_x_bbe` makes of sixteen bytes. */
  function BbeOf(m: seq<Byte>): (r: seq<Byte>)
    requires |m| == 16
    ensures |r| == 16
  {
    BeBytes(XBbe(BeBlock(m)))
  }

  /** `gf128mul_x_ble`: it does to the bytes read backwards what the other does to them forwards. */
  method MulXBle(r: array<Byte>, x: array<Byte>)
    requires r.Length == x.Length == 16
    modifies r
    ensures r[..] == Reversed(BbeOf(Reversed(old(x[..]))))
    ensures Number(BeBlock(Reversed(r[..]))) == Double(Number(BeBlock(Reversed(old(x[..])))))
  {
    ghost var v := LeBlock(x[..]);
    assert x[0..8] == x[..][..8] && x[8..16] == x[..][8..];
    LeIsReversedBe(XBbe(v), x[..]);
    LeIsReversedBe(XBbe(v), LeBytes(XBbe(v)));
    BbeDoubles(v);
    BlockBack(XBbe(v));
    var a: int, b: int := LeWord(x[8..16]), LeWord(x[0..8]);
    var tt := And(MaskFromBit(a, 63), 0x87);
    StoreWord(r, 8, LittleEndian(Or64(Wrap64(2 * a), b / TWO63), 8));
    StoreWord(r, 0, LittleEndian(Xor64(Wrap64(2 * b), tt), 8));
    assert r[..] == LeBytes(XBbe(v));
  }
}
