/** Machine words as numbers: powers of two, wrap-around, and the C bit operators
    (`&`, `|`, `~`, `-`, `ilog2`) on them. Code that mixes bit tricks with division
    is modelled on numbers, so every wrap is an explicit `%`. */
module Words {
  const TWO16: int := 0x1_0000
  const TWO31: int := 0x8000_0000
  const TWO32: int := 0x1_0000_0000
  const TWO63: int := 0x8000_0000_0000_0000
  const TWO64: int := 0x1_0000_0000_0000_0000

  type Byte = x: int | 0 <= x < 256
  type U16 = x: int | 0 <= x < 0x1_0000
  type U32 = x: int | 0 <= x < 0x1_0000_0000
  type U64 = x: int | 0 <= x < 0x1_0000_0000_0000_0000

  function Wrap32(x: int): U32 { x % 0x1_0000_0000 }

  function Wrap64(x: int): U64 { x % 0x1_0000_0000_0000_0000 }

  /** Two's-complement negation of a word. */
  function Neg32(x: U32): U32 { Wrap32(0x1_0000_0000 - x) }

  function Neg64(x: U64): U64 { Wrap64(0x1_0000_0000_0000_0000 - x) }

  function Pow2(n: nat): (r: nat)
    ensures r >= 1
  {
    if n == 0 then 1 else 2 * Pow2(n - 1)
  }

  /** Index of the highest set bit: the kernel's `ilog2`. */
  function Ilog2(x: nat): (r: nat)
    requires x >= 1
    ensures Pow2(r) <= x < 2 * Pow2(r)
  {
    if x == 1 then 0 else 1 + Ilog2(x / 2)
  }

  /** Bitwise and of two numbers. */
  function And(x: nat, y: nat): (r: nat)
    ensures r <= x && r <= y
  {
    if x == 0 || y == 0 then 0 else 2 * And(x / 2, y / 2) + (x % 2) * (y % 2)
  }

  /** Bitwise or of two numbers. */
  function Or(x: nat, y: nat): (r: nat)
    ensures r >= x && r >= y
  {
    if x == 0 then y else if y == 0 then x
    else 2 * Or(x / 2, y / 2) + (if x % 2 == 1 || y % 2 == 1 then 1 else 0)
  }

  /** Bitwise exclusive or of two numbers. */
  function Xor(x: nat, y: nat): nat {
    if x == 0 then y else if y == 0 then x
    else 2 * Xor(x / 2, y / 2) + (if x % 2 != y % 2 then 1 else 0)
  }

  lemma Pow2Values()
    ensures Pow2(16) == TWO16 && Pow2(31) == TWO31 && Pow2(32) == TWO32
    ensures Pow2(63) == TWO63 && Pow2(64) == TWO64
  {
    assert Pow2(8) == 0x100;
    assert Pow2(16) == 0x1_0000;
    assert Pow2(24) == 0x100_0000;
    Pow2Sum(16, 16);
    Pow2Sum(16, 15);
    assert Pow2(15) == 0x8000;
    Pow2Sum(32, 32);
    Pow2Sum(32, 31);
  }

  lemma {:induction false} Pow2Sum(a: nat, b: nat)
    ensures Pow2(a + b) == Pow2(a) * Pow2(b)
  {
    if a > 0 {
      Pow2Sum(a - 1, b);
      assert Pow2(a + b) == 2 * (Pow2(a - 1) * Pow2(b));
    }
  }

  lemma {:induction false} Pow2Monotone(a: nat, b: nat)
    requires a <= b
    ensures Pow2(a) <= Pow2(b)
  {
    if a < b { Pow2Monotone(a, b - 1); }
  }

  lemma {:induction false} Pow2Below(a: nat, b: nat)
    requires Pow2(a) < Pow2(b)
    ensures a < b
  {
    if a >= b { Pow2Monotone(b, a); }
  }

  /** A number and its complement share no bit. */
  lemma {:induction false} AndComplement(x: nat, w: nat)
    requires x < Pow2(w)
    ensures And(x, Pow2(w) - 1 - x) == 0
  {
    if w > 0 && x > 0 {
      AndComplement(x / 2, w - 1);
      assert (Pow2(w) - 1 - x) / 2 == Pow2(w - 1) - 1 - x / 2;
      assert (x % 2) * ((Pow2(w) - 1 - x) % 2) == 0;
    }
  }

  /** Number of trailing zero bits. */
  function TrailingZeros(x: nat): (v: nat)
    requires x >= 1
    ensures Pow2(v) <= x
    decreases x
  {
    if x % 2 == 1 then 0 else 1 + TrailingZeros(x / 2)
  }

  /** `x & -x` isolates the lowest set bit, in words of any width. */
  lemma {:induction false} LowestBit(x: nat, w: nat)
    requires 1 <= x < Pow2(w)
    ensures And(x, Pow2(w) - x) == Pow2(TrailingZeros(x))
  {
    if x % 2 == 1 {
      AndComplement(x / 2, w - 1);
      assert (Pow2(w) - x) / 2 == Pow2(w - 1) - 1 - x / 2;
      assert (Pow2(w) - x) % 2 == 1;
      assert And(x, Pow2(w) - x) == 2 * And(x / 2, (Pow2(w) - x) / 2) + 1;
    } else {
      LowestBit(x / 2, w - 1);
      assert (Pow2(w) - x) / 2 == Pow2(w - 1) - x / 2;
      assert And(x, Pow2(w) - x) == 2 * And(x / 2, (Pow2(w) - x) / 2);
    }
  }

  /** What is left of a number once its trailing zeros are shifted out. */
  function OddPart(x: nat): (o: nat)
    requires x >= 1
    ensures o % 2 == 1
    decreases x
  {
    if x % 2 == 1 then x else OddPart(x / 2)
  }

  /** Shifting out the trailing zeros is exact. */
  lemma {:induction false} OddPartTimesEvenPart(x: nat)
    requires x >= 1
    ensures x == OddPart(x) * Pow2(TrailingZeros(x))
    ensures x / Pow2(TrailingZeros(x)) == OddPart(x)
  {
    if x % 2 == 0 {
      OddPartTimesEvenPart(x / 2);
      MulDouble(OddPart(x), Pow2(TrailingZeros(x / 2)));
    }
    DivideExact(x, Pow2(TrailingZeros(x)), OddPart(x));
  }

  lemma DivideExact(x: nat, d: nat, q: nat)
    requires d >= 1 && x == q * d
    ensures x / d == q && x % d == 0
  {
    DivideUnique(x, d, q, 0);
  }

  lemma DivideUnique(x: int, d: int, q: int, r: int)
    requires 0 <= r < d && x == q * d + r
    ensures x / d == q && x % d == r
  {
    if x / d < q {
      MulStep(x / d, q, d);
    } else if x / d > q {
      MulStep(q, x / d, d);
    }
  }

  /** Wrapping a part of a sum first changes nothing. */
  lemma WrapOfSum(x: int, y: int)
    ensures Wrap32(Wrap32(x) as int + y) == Wrap32(x + y)
  {
    WrapShift(x + y, x / TWO32);
  }

  lemma WrapShift(x: int, q: int)
    ensures Wrap32(x - q * TWO32) == Wrap32(x)
  {
    DivideUnique(x - q * TWO32, TWO32, x / TWO32 - q, x % TWO32);
  }

  lemma MulStep(a: int, b: int, d: int)
    requires a < b && d >= 0
    ensures a * d + d <= b * d
  {
    assert b * d == (a + 1) * d + (b - a - 1) * d;
  }

  lemma MulBound(a: int, b: int, x: int, y: int)
    requires 0 <= a <= x && 0 <= b <= y
    ensures 0 <= a * b <= x * y
  {
    assert x * y == a * b + a * (y - b) + (x - a) * y;
  }

  lemma ModByDouble(x: nat, p: nat)
    requires p >= 1
    ensures x % (2 * p) == 2 * ((x / 2) % p) + x % 2
    ensures x / (2 * p) == (x / 2) / p
  {
    var q, r := (x / 2) / p, (x / 2) % p;
    assert x / 2 == p * q + r;
    assert q * (2 * p) == 2 * (p * q);
    DivideUnique(x, 2 * p, q, 2 * r + x % 2);
  }

  lemma AndOdd(x: nat, m: nat)
    requires m % 2 == 1
    ensures And(x, m) == 2 * And(x / 2, m / 2) + x % 2
  {
  }

  lemma OddBelow(p: nat)
    ensures (2 * p - 1) / 2 == p - 1 && (2 * p - 1) % 2 == 1
  {
  }

  /** Masking with 2^k - 1 is the remainder by 2^k. */
  lemma {:induction false} AndLowMask(x: nat, k: nat)
    ensures And(x, Pow2(k) - 1) == x % Pow2(k)
  {
    if k == 0 {
    } else if x == 0 {
    } else {
      var p := Pow2(k - 1);
      AndLowMask(x / 2, k - 1);
      OddBelow(p);
      AndOdd(x, 2 * p - 1);
      ModByDouble(x, p);
    }
  }

  /** A word with no bit in common with 2^k, and below 2^(k+1), is below 2^k. */
  lemma {:induction false} TopBitClear(x: nat, k: nat)
    requires x < 2 * Pow2(k) && And(x, Pow2(k)) == 0
    ensures x < Pow2(k)
  {
    if k > 0 && x > 0 {
      assert Pow2(k) / 2 == Pow2(k - 1) && Pow2(k) % 2 == 0;
      TopBitClear(x / 2, k - 1);
    }
  }

  lemma AndStep(x: nat, y: nat)
    ensures And(x, y) == 2 * And(x / 2, y / 2) + (x % 2) * (y % 2)
  {
  }

  lemma MulDouble(a: int, p: int)
    ensures a * (2 * p) == 2 * (a * p)
  {
  }

  lemma TimesPow2(a: int, k: nat)
    requires k > 0
    ensures a * Pow2(k) == 2 * (a * Pow2(k - 1))
  {
    MulDouble(a, Pow2(k - 1));
  }

  lemma TimesOne(a: int)
    ensures a * Pow2(0) == a
  {
  }

  /** Halving a number halves the power of two between its parts. */
  lemma HalveAt(x: nat, high: nat, low: nat, k: nat)
    requires k > 0 && x == high * Pow2(k) + low && low < Pow2(k)
    ensures x / 2 == high * Pow2(k - 1) + low / 2 && x % 2 == low % 2 && low / 2 < Pow2(k - 1)
  {
    TimesPow2(high, k);
  }

  /** `&` works on the part above bit k and the part below it separately. */
  lemma AndSplit(xh: nat, xl: nat, yh: nat, yl: nat, k: nat)
    requires xl < Pow2(k) && yl < Pow2(k)
    ensures And(xh * Pow2(k) + xl, yh * Pow2(k) + yl) == And(xh, yh) * Pow2(k) + And(xl, yl)
  {
    AndParts(xh * Pow2(k) + xl, xh, xl, yh * Pow2(k) + yl, yh, yl, k);
  }

  lemma {:induction false} AndParts(x: nat, xh: nat, xl: nat, y: nat, yh: nat, yl: nat, k: nat)
    requires x == xh * Pow2(k) + xl && y == yh * Pow2(k) + yl && xl < Pow2(k) && yl < Pow2(k)
    ensures And(x, y) == And(xh, yh) * Pow2(k) + And(xl, yl)
  {
    if k > 0 {
      HalveAt(x, xh, xl, k);
      HalveAt(y, yh, yl, k);
      AndParts(x / 2, xh, xl / 2, y / 2, yh, yl / 2, k - 1);
      AndStep(x, y);
      AndStep(xl, yl);
      TimesPow2(And(xh, yh), k);
    } else {
      TimesOne(xh);
      TimesOne(yh);
      TimesOne(And(xh, yh));
    }
  }

  lemma OrStep(x: nat, y: nat)
    ensures Or(x, y) == 2 * Or(x / 2, y / 2) + (if x % 2 == 1 || y % 2 == 1 then 1 else 0)
  {
  }

  /** So do `|` and `^`. */
  lemma OrSplit(xh: nat, xl: nat, yh: nat, yl: nat, k: nat)
    requires xl < Pow2(k) && yl < Pow2(k)
    ensures Or(xh * Pow2(k) + xl, yh * Pow2(k) + yl) == Or(xh, yh) * Pow2(k) + Or(xl, yl)
  {
    OrParts(xh * Pow2(k) + xl, xh, xl, yh * Pow2(k) + yl, yh, yl, k);
  }

  lemma {:induction false} OrParts(x: nat, xh: nat, xl: nat, y: nat, yh: nat, yl: nat, k: nat)
    requires x == xh * Pow2(k) + xl && y == yh * Pow2(k) + yl && xl < Pow2(k) && yl < Pow2(k)
    ensures Or(x, y) == Or(xh, yh) * Pow2(k) + Or(xl, yl)
  {
    if k > 0 {
      HalveAt(x, xh, xl, k);
      HalveAt(y, yh, yl, k);
      OrParts(x / 2, xh, xl / 2, y / 2, yh, yl / 2, k - 1);
      OrStep(x, y);
      OrStep(xl, yl);
      TimesPow2(Or(xh, yh), k);
    } else {
      TimesOne(xh);
      TimesOne(yh);
      TimesOne(Or(xh, yh));
    }
  }

  lemma XorSplit(xh: nat, xl: nat, yh: nat, yl: nat, k: nat)
    requires xl < Pow2(k) && yl < Pow2(k)
    ensures Xor(xh * Pow2(k) + xl, yh * Pow2(k) + yl) == Xor(xh, yh) * Pow2(k) + Xor(xl, yl)
  {
    XorParts(xh * Pow2(k) + xl, xh, xl, yh * Pow2(k) + yl, yh, yl, k);
  }

  lemma {:induction false} XorParts(x: nat, xh: nat, xl: nat, y: nat, yh: nat, yl: nat, k: nat)
    requires x == xh * Pow2(k) + xl && y == yh * Pow2(k) + yl && xl < Pow2(k) && yl < Pow2(k)
    ensures Xor(x, y) == Xor(xh, yh) * Pow2(k) + Xor(xl, yl)
  {
    if k > 0 {
      HalveAt(x, xh, xl, k);
      HalveAt(y, yh, yl, k);
      XorParts(x / 2, xh, xl / 2, y / 2, yh, yl / 2, k - 1);
      XorStep(x, y);
      XorStep(xl, yl);
      TimesPow2(Xor(xh, yh), k);
    } else {
      TimesOne(xh);
      TimesOne(yh);
      TimesOne(Xor(xh, yh));
    }
  }

  /** A number below bit k changes nothing above it, and one above bit k nothing below. */
  lemma XorBelow(h: nat, l: nat, y: nat, k: nat)
    requires l < Pow2(k) && y < Pow2(k)
    ensures Xor(h * Pow2(k) + l, y) == h * Pow2(k) + Xor(l, y)
  {
    ZeroTimes(Pow2(k), y);
    XorSplit(h, l, 0, y, k);
    XorZeroRight(h);
  }

  lemma XorAbove(h: nat, l: nat, y: nat, k: nat)
    requires l < Pow2(k)
    ensures Xor(h * Pow2(k) + l, y * Pow2(k)) == Xor(h, y) * Pow2(k) + l
  {
    XorSplit(h, l, y, 0, k);
    XorZeroRight(l);
  }

  /** `|` with a number that lies above is addition. */
  lemma OrAbove(l: nat, y: nat, k: nat)
    requires l < Pow2(k)
    ensures Or(l, y * Pow2(k)) == y * Pow2(k) + l
  {
    ZeroTimes(Pow2(k), l);
    OrSplit(0, l, y, 0, k);
  }

  lemma XorUnderTop(l: nat, y: nat, k: nat)
    requires l < Pow2(k) && y < Pow2(k)
    ensures Xor(Pow2(k) + l, y) == Pow2(k) + Xor(l, y)
  {
    OneTimes(Pow2(k), l);
    OneTimes(Pow2(k), Xor(l, y));
    XorBelow(1, l, y, k);
  }

  lemma ZeroTimes(p: int, y: int)
    ensures 0 * p + y == y
  {
  }

  lemma OneTimes(p: int, y: int)
    ensures 1 * p + y == p + y
  {
  }

  lemma {:induction false} AndCommutes(x: nat, y: nat)
    ensures And(x, y) == And(y, x)
  {
    if x != 0 && y != 0 { AndCommutes(x / 2, y / 2); }
  }

  lemma OrZero(x: nat)
    ensures Or(x, 0) == x && Or(0, x) == x
  {
  }

  /** `x & (x - 1) == 0` says exactly that x is a power of two. */
  lemma {:induction false} PowerOfTwoTest(x: nat)
    requires x >= 1
    ensures And(x, x - 1) == 0 <==> x == Pow2(Ilog2(x))
  {
    var y := x - 1;
    if x % 2 == 0 {
      PowerOfTwoTest(x / 2);
      assert y / 2 == x / 2 - 1 && y % 2 == 1;
      AndStep(x, y);
    } else if x > 1 {
      assert y / 2 == x / 2;
      AndSelf(x / 2);
      AndStep(x, y);
      assert Pow2(Ilog2(x)) == 2 * Pow2(Ilog2(x / 2));
    }
  }

  lemma {:induction false} AndSelf(x: nat)
    ensures And(x, x) == x
  {
    if x > 0 { AndSelf(x / 2); }
  }

  /** Or and exclusive or of two words are words. */
  lemma {:induction false} BitwiseBelow(x: nat, y: nat, w: nat)
    requires x < Pow2(w) && y < Pow2(w)
    ensures Or(x, y) < Pow2(w) && Xor(x, y) < Pow2(w)
  {
    if x != 0 && y != 0 { BitwiseBelow(x / 2, y / 2, w - 1); }
  }

  lemma BitwiseOfWords(x: U32, y: U32)
    ensures Or(x, y) < TWO32 && Xor(x, y) < TWO32
  {
    Pow2Values();
    BitwiseBelow(x, y, 32);
  }

  lemma XorStep(x: nat, y: nat)
    ensures Xor(x, y) == 2 * Xor(x / 2, y / 2) + (if x % 2 != y % 2 then 1 else 0)
    ensures Xor(x, y) / 2 == Xor(x / 2, y / 2)
    ensures Xor(x, y) % 2 == if x % 2 != y % 2 then 1 else 0
  {
  }

  lemma {:induction false} XorCommutes(x: nat, y: nat)
    ensures Xor(x, y) == Xor(y, x)
  {
    if x != 0 && y != 0 { XorCommutes(x / 2, y / 2); }
  }

  lemma {:induction false} XorAssociates(x: nat, y: nat, z: nat)
    ensures Xor(Xor(x, y), z) == Xor(x, Xor(y, z))
    decreases x + y + z
  {
    if x + y + z > 0 {
      XorAssociates(x / 2, y / 2, z / 2);
      XorStep(x, y);
      XorStep(y, z);
      var xy, yz := Xor(x, y), Xor(y, z);
      XorStep(xy, z);
      XorStep(x, yz);
    }
  }

  lemma {:induction false} XorSelf(x: nat)
    ensures Xor(x, x) == 0
  {
    if x != 0 { XorSelf(x / 2); }
  }

  lemma XorZeroRight(x: nat)
    ensures Xor(x, 0) == x
  {
  }

  /** `^` and `|` on 64-bit words. */
  function Xor64(x: U64, y: U64): U64 {
    Pow2Values();
    BitwiseBelow(x, y, 64);
    Xor(x, y)
  }

  function Or64(x: U64, y: U64): U64 {
    Pow2Values();
    BitwiseBelow(x, y, 64);
    Or(x, y)
  }

  function XorByte(x: Byte, y: Byte): Byte {
    XorOfBytes(x, y);
    Xor(x, y)
  }

  lemma XorOfBytes(x: Byte, y: Byte)
    ensures Xor(x, y) < 256
  {
    assert Pow2(8) == 256;
    BitwiseBelow(x, y, 8);
  }

  // ----- bit by bit -----

  /** Bit number o. */
  predicate TestBit(b: nat, o: nat) {
    if o == 0 then b % 2 == 1 else TestBit(b / 2, o - 1)
  }

  lemma {:induction false} ZeroTests(p: nat)
    ensures !TestBit(0, p)
  {
    if p > 0 { ZeroTests(p - 1); }
  }

  lemma TestStep(x: nat, h: nat, bit: nat, o: nat)
    requires x == 2 * h + bit && bit < 2
    ensures TestBit(x, o) <==> if o == 0 then bit == 1 else TestBit(h, o - 1)
  {
  }

  /** A bit of a number is a bit of its part above k or of its part below. */
  lemma {:induction false} PartBit(x: nat, high: nat, low: nat, k: nat, o: nat)
    requires x == high * Pow2(k) + low && low < Pow2(k)
    ensures TestBit(x, o) <==> if o < k then TestBit(low, o) else TestBit(high, o - k)
  {
    if k > 0 {
      HalveAt(x, high, low, k);
      if o > 0 { PartBit(x / 2, high, low / 2, k - 1, o - 1); }
    } else {
      TimesOne(high);
    }
  }

  lemma {:induction false} AndBit(x: nat, y: nat, o: nat)
    ensures TestBit(And(x, y), o) <==> TestBit(x, o) && TestBit(y, o)
  {
    if x == 0 || y == 0 {
      ZeroTests(o);
    } else {
      TestStep(And(x, y), And(x / 2, y / 2), (x % 2) * (y % 2), o);
      if o > 0 { AndBit(x / 2, y / 2, o - 1); }
    }
  }

  lemma {:induction false} OrBit(x: nat, y: nat, o: nat)
    ensures TestBit(Or(x, y), o) <==> TestBit(x, o) || TestBit(y, o)
  {
    if x == 0 || y == 0 {
      ZeroTests(o);
    } else {
      TestStep(Or(x, y), Or(x / 2, y / 2), if x % 2 == 1 || y % 2 == 1 then 1 else 0, o);
      if o > 0 { OrBit(x / 2, y / 2, o - 1); }
    }
  }

  lemma {:induction false} XorBit(x: nat, y: nat, o: nat)
    ensures TestBit(Xor(x, y), o) <==> TestBit(x, o) != TestBit(y, o)
  {
    if x == 0 || y == 0 {
      ZeroTests(o);
    } else {
      TestStep(Xor(x, y), Xor(x / 2, y / 2), if x % 2 != y % 2 then 1 else 0, o);
      if o > 0 { XorBit(x / 2, y / 2, o - 1); }
    }
  }
}
