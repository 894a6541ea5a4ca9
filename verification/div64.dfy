/** 64-by-32-bit division by a multiplier, a shift and an optional bias
    (asm-generic/div64.h, the 32-bit branch). Every intermediate value is a C word:
    where the code may wrap, the model wraps. */
module Div64 {
  import opened Words

  const MAX64: int := TWO64 - 1

  // ----- the 128-bit product, high half -----

  /** Largest product of two 32-bit words. */
  const MAXPROD: int := (TWO32 - 1) * (TWO32 - 1)

  lemma WordProduct(a: U32, b: U32)
    ensures 0 <= a * b <= MAXPROD
  {
    MulBound(a, b, TWO32 - 1, TWO32 - 1);
  }

  /** Schoolbook split of a product into its four 32-bit pieces. */
  lemma ProductSplit(mh: int, ml: int, nh: int, nl: int)
    ensures (mh * TWO32 + ml) * (nh * TWO32 + nl)
         == mh * nh * TWO64 + (ml * nh + mh * nl) * TWO32 + ml * nl
  {
    var m, n := mh * TWO32 + ml, nh * TWO32 + nl;
    assert m * n == mh * TWO32 * n + ml * n;
    assert ml * n == ml * nh * TWO32 + ml * nl;
    assert mh * n == mh * nh * TWO32 + mh * nl;
    assert mh * TWO32 * n == (mh * n) * TWO32;
  }

  /** The code's `res_lo | (u64)res_hi << 32`: the high word of a sum that may have wrapped,
      with bit 32 set when it came out below the high word of one addend. */
  function Recarry(sum: U64, addendHigh: U32): U64 {
    var resLo: U32 := sum / TWO32;
    if resLo < addendHigh then resLo + TWO32 else resLo
  }

  /** That test recovers exactly the lost carry, as long as the other addend is a 32 x 32 product. */
  lemma CarryDetected(a: U64, product: nat)
    requires product <= MAXPROD
    ensures Recarry(Wrap64(a + product), a / TWO32) == (a + product) / TWO32
  {
  }

  lemma BiasTest(m: U64)
    requires And(m, TWO63 + TWO31) == 0
    ensures m / TWO32 < TWO31 && m % TWO32 < TWO31
  {
    Pow2Values();
    var mh, ml := m / TWO32, m % TWO32;
    HighLow(m);
    HighLow(TWO63 + TWO31);
    AndSplit(mh, ml, TWO31, TWO31, 32);
    TopBitClear(mh, 31);
    TopBitClear(ml, 31);
  }

  lemma HighLow(m: int)
    ensures m == (m / TWO32) * TWO32 + m % TWO32
  {
  }

  /** The partial products: their sizes, smaller on the fast path, and their total. */
  lemma Pieces(m: U64, n: U64, fast: bool, bias: bool, ll: int, lh: int, hl: int, hh: int)
    requires fast <==> And(m, TWO63 + TWO31) == 0
    requires ll == (m % TWO32) * (n % TWO32) && lh == (m % TWO32) * (n / TWO32)
    requires hl == (m / TWO32) * (n % TWO32) && hh == (m / TWO32) * (n / TWO32)
    ensures 0 <= ll <= MAXPROD && 0 <= lh <= MAXPROD && 0 <= hl <= MAXPROD && 0 <= hh <= MAXPROD
    ensures fast ==> m < TWO63 && m / TWO32 < TWO31
    ensures fast ==> ll <= FASTPROD && lh <= FASTPROD && hl <= FASTPROD
    ensures Product(m, n, bias) / TWO64 <= MAX64
    ensures Product(m, n, bias) / TWO64
         == hh + ((ll + if bias then m else 0) / TWO32 + lh + hl) / TWO32
  {
    WordProduct(m % TWO32, n % TWO32);
    WordProduct(m % TWO32, n / TWO32);
    WordProduct(m / TWO32, n % TWO32);
    WordProduct(m / TWO32, n / TWO32);
    if fast {
      BiasTest(m);
      MulBound(m % TWO32, n % TWO32, TWO31 - 1, TWO32 - 1);
      MulBound(m % TWO32, n / TWO32, TWO31 - 1, TWO32 - 1);
      MulBound(m / TWO32, n % TWO32, TWO31 - 1, TWO32 - 1);
    }
    ProductSplit(m / TWO32, m % TWO32, n / TWO32, n % TWO32);
    HighLow(m);
    HighLow(n);
    HighFits(m, n, bias);
    Assemble(Product(m, n, bias), hh, lh + hl, ll + if bias then m else 0);
  }

  lemma HighFits(m: U64, n: U64, bias: bool)
    ensures 0 <= Product(m, n, bias) / TWO64 <= MAX64
  {
    MulBound(m, n, MAX64, MAX64);
  }

  /** What the high half is taken of. */
  function Product(m: U64, n: U64, bias: bool): int { m * n + if bias then m else 0 }

  const FASTPROD: int := (TWO31 - 1) * (TWO32 - 1)

  lemma Assemble(total: int, hh: int, cross: int, low: int)
    requires total == hh * TWO64 + cross * TWO32 + low
    ensures total / TWO64 == hh + (low / TWO32 + cross) / TWO32
  {
  }

  /** First block of `__arch_xprod_64`: the low product, biased, shifted down one word. */
  method LowBlock(m: U64, ll: U64, bias: bool, fast: bool) returns (res: U64)
    requires ll <= MAXPROD
    requires fast ==> m < TWO63 && ll <= FASTPROD
    ensures res == (ll + if bias then m else 0) / TWO32
    ensures res <= 2 * TWO32 - 2 && (fast ==> res < TWO32)
  {
    if !bias {
      res := ll / TWO32;
    } else if fast {
      res := Wrap64(m + ll) / TWO32;
    } else {
      CarryDetected(m, ll);
      res := Wrap64(m + ll);
      res := Recarry(res, m / TWO32);
    }
  }

  /** Second block: both cross products added, shifted down one word. */
  method CrossBlock(low: U64, lh: U64, hl: U64, fast: bool) returns (res: U64)
    requires low <= 2 * TWO32 - 2 && lh <= MAXPROD && hl <= MAXPROD
    requires fast ==> low < TWO32 && lh <= FASTPROD && hl <= FASTPROD
    ensures res == (low + lh + hl) / TWO32
  {
    if fast {
      res := Wrap64(low + lh);
      res := Wrap64(res + hl);
      res := res / TWO32;
    } else {
      res := Wrap64(low + lh);
      CarryDetected(res, hl);
      var tmp: U32 := res / TWO32;
      res := Wrap64(res + hl);
      res := Recarry(res, tmp);
    }
  }

  /** High half of `m * n`, or of `m * n + m` when biased: `__arch_xprod_64`.
      `fast` is its test on bits 63 and 31 of m, after which no partial sum can wrap. */
  method XProd64(m: U64, n: U64, bias: bool) returns (res: U64)
    ensures res == Product(m, n, bias) / TWO64
  {
    var mLo: U32, mHi: U32 := m % TWO32, m / TWO32;
    var nLo: U32, nHi: U32 := n % TWO32, n / TWO32;
    var fast := And(m, TWO63 + TWO31) == 0;
    var ll, lh, hl, hh := mLo * nLo, mLo * nHi, mHi * nLo, mHi * nHi;
    Pieces(m, n, fast, bias, ll, lh, hl, hh);
    res := LowBlock(m, ll, bias, fast);
    res := CrossBlock(res, lh, hl, fast);
    LastAddition(res, hh, Product(m, n, bias) / TWO64);
    res := Wrap64(res + hh);
  }

  lemma LastAddition(x: int, y: int, sum: int)
    requires sum == x + y && 0 <= sum <= MAX64
    ensures Wrap64(x + y) == sum
  {
  }

  // ----- the three multipliers -----

  /** `m * b` misses `p * 2^64` by e: the multiplier m stands for p / b with that error. */
  ghost predicate Approximates(m: int, b: int, p: int, e: int) {
    m * b == p * TWO64 + e
  }

  lemma CancelLess(a: int, c: int, b: int)
    requires b > 0 && a * b < c * b
    ensures a < c
  {
    if a > c { MulStep(c, a, b); }
  }

  lemma CancelLessEqual(a: int, c: int, b: int)
    requires b > 0 && a * b <= c * b
    ensures a <= c
  {
    if a > c { MulStep(c, a, b); }
  }

  /** A number between k * p * 2^64 and (k + 1) * p * 2^64 shifts and divides down to k. */
  lemma ShiftThenDivide(x: nat, p: nat, k: nat)
    requires p >= 1
    requires k * (p * TWO64) <= x < (k + 1) * (p * TWO64)
    ensures (x / TWO64) / p == k
  {
    assert k * (p * TWO64) == (k * p) * TWO64;
    assert (k + 1) * (p * TWO64) == (k * p + p) * TWO64;
    assert k * p <= x / TWO64 < k * p + p;
    DivideUnique(x / TWO64, p, k, x / TWO64 - k * p);
  }

  /** The bracket that makes a multiplier right for one dividend, up to the common factor b. */
  lemma BracketGivesQuotient(x: nat, b: nat, p: nat, k: nat)
    requires b >= 1 && p >= 1
    requires k * (p * TWO64) * b <= x * b < (k + 1) * (p * TWO64) * b
    ensures (x / TWO64) / p == k
  {
    CancelLessEqual(k * (p * TWO64), x, b);
    CancelLess(x, (k + 1) * (p * TWO64), b);
    ShiftThenDivide(x, p, k);
  }

  /** Rounded-down multiplier with the bias: right for every dividend if the error is at most p. */
  lemma BiasedQuotient(m: nat, b: nat, p: nat, d: int, n: U64)
    requires b >= 1 && Approximates(m, b, p, -d) && 1 <= d <= p
    ensures ((m * n + m) / TWO64) / p == n / b
  {
    var k, s, w := n / b, n % b, p * TWO64;
    MulBound(0, 0, m, n);
    var x: nat := m * n + m;
    BiasedProduct(m, n, b, w, d, x);
    DivisionOf(n, b, k, s);
    Spread(k, b, s + 1, w);
    Spread(k, b, b, w);
    MulBound(d, n + 1, p, TWO64);
    MulBound(1, 1, d, n + 1);
    MulBound(1, w, s + 1, w);
    MulBound(s + 1, w, b, w);
    WithinBracket(x * b, (n + 1) * d, w, k * w * b, (s + 1) * w, b * w, (n + 1) * w);
    BracketGivesQuotient(x, b, p, k);
  }

  lemma BiasedProduct(m: int, n: int, b: int, w: int, d: int, x: int)
    requires m * b == w - d && x == m * n + m
    ensures x * b == (n + 1) * w - (n + 1) * d
  {
    assert x == m * (n + 1);
    Rearrange(m, n + 1, b);
    assert (n + 1) * (w - d) == (n + 1) * w - (n + 1) * d;
  }

  /** The error is positive and at most w, and the upper end of the bracket is no lower than the part. */
  lemma WithinBracket(product: int, error: int, w: int, low: int, part: int, width: int, all: int)
    requires product == all - error && all == low + part
    requires 1 <= error <= w <= part <= width
    ensures low <= product < low + width
  {
  }

  /** Rounded-up multiplier without bias: right for n if the scaled error stays below the
      distance to the next multiple of b. */
  lemma UnbiasedQuotient(m: nat, b: nat, p: nat, e: nat, n: U64)
    requires b >= 1 && p >= 1 && Approximates(m, b, p, e)
    requires e * n < (b - n % b) * (p * TWO64)
    ensures ((m * n) / TWO64) / p == n / b
  {
    var k, s, w := n / b, n % b, p * TWO64;
    assert n == k * b + s;
    assert (m * n) * b == n * (m * b) by { Rearrange(m, n, b); }
    assert n * (w + e) == n * w + e * n;
    assert n * w == k * w * b + s * w by { Spread(k, b, s, w); }
    assert s * w >= 0 && e * n >= 0;
    assert (b - s) * w == b * w - s * w;
    assert (k + 1) * w * b == k * w * b + b * w by { Spread(k, b, b, w); }
    BracketGivesQuotient(m * n, b, p, k);
  }

  lemma Rearrange(m: int, n: int, b: int)
    ensures (m * n) * b == n * (m * b)
  {
  }

  lemma Spread(k: int, b: int, s: int, w: int)
    ensures (k * b + s) * w == k * w * b + s * w
    ensures (k + 1) * w * b == k * w * b + b * w
  {
    assert (k * b + s) * w == (k * b) * w + s * w;
    assert (k * b) * w == k * w * b;
    assert (k + 1) * w == k * w + w;
    assert (k * w + w) * b == k * w * b + w * b;
  }

  // ----- how the multipliers come about -----

  /** p * 2^64 / b rounded up, as the code computes it from the quotient and remainder of
      2^64 - 1: the error is below b, and the result fits a word unless b is p. */
  lemma RoundedUp(b: U32, p: U32)
    requires 1 <= p <= b < 2 * p
    ensures var q, r := MAX64 / b, MAX64 % b + 1;
      var up := q * p + (r * p + b - 1) / b;
      0 <= up && Approximates(up, b, p, up * b - p * TWO64)
      && 0 <= up * b - p * TWO64 < b
      && (b != p ==> up < TWO64)
  {
    var q, r := MAX64 / b, MAX64 % b + 1;
    var c := (r * p + b - 1) / b;
    DivisionOf(MAX64, b, q, r - 1);
    MulBound(r, p, b, p);
    CeilBounds(r * p, b);
    ScaledQuotient(q, b, p, c, r);
    MulBound(0, 0, q, p);
    if b != p { FitsWord(q * p + c, b, p); }
  }

  lemma FitsWord(up: int, b: int, p: int)
    requires 0 <= p < b < TWO32 && up * b - p * TWO64 < b
    ensures up < TWO64
  {
    if up >= TWO64 { MulBound(p + 1, TWO64, b, up); }
  }

  /** p * 2^64 / b rounded down is the rounded-up one, less 1 unless the division is exact. */
  lemma RoundedDown(b: U32, p: U32)
    requires 1 <= p <= b < 2 * p
    ensures var q, r := MAX64 / b, MAX64 % b + 1;
      var up, down := q * p + (r * p + b - 1) / b, q * p + (r * p) / b;
      down == if up * b == p * TWO64 then up else up - 1
  {
    var q, r := MAX64 / b, MAX64 % b + 1;
    assert q * b + r == TWO64;
    MulBound(r, p, b, p);
    CeilBounds(r * p, b);
    var c, f := (r * p + b - 1) / b, (r * p) / b;
    ScaledQuotient(q, b, p, c, r);
    ScaledQuotient(q, b, p, f, r);
  }

  lemma ScaledQuotient(q: int, b: int, p: int, c: int, r: int)
    requires q * b + r == TWO64
    ensures (q * p + c) * b - p * TWO64 == c * b - r * p
  {
    assert p * TWO64 == p * (q * b) + p * r;
  }

  lemma CeilBounds(x: nat, b: nat)
    requires b >= 1
    ensures x <= ((x + b - 1) / b) * b < x + b
    ensures (x / b) * b <= x < (x / b) * b + b
    ensures (x + b - 1) / b == if (x / b) * b == x then x / b else x / b + 1
  {
    var q, r := x / b, x % b;
    assert x == q * b + r;
    if r == 0 {
      DivideUnique(x + b - 1, b, q, b - 1);
    } else {
      DivideUnique(x + b - 1, b, q + 1, r - 1);
    }
  }

  // ----- the probe -----

  /** The code tries the rounded-up multiplier at one dividend, the largest one of the form
      j * b - 1. It gives the right quotient there exactly when its scaled error is below
      p * 2^64. */
  lemma ProbeMeaning(m: nat, b: nat, p: nat, e: nat, q: nat)
    requires b >= 1 && p >= 1 && q >= 1 && Approximates(m, b, p, e)
    requires e < b
    requires 0 <= q * b - 1 < TWO64
    ensures m * (q * b - 1) >= 0
    ensures (m * (q * b - 1) / TWO64) / p == (q * b - 1) / b <==> e * (q * b - 1) < p * TWO64
  {
    var x: nat, w := q * b - 1, p * TWO64;
    assert x == (q - 1) * b + (b - 1) by { assert q * b == (q - 1) * b + b; }
    DivideUnique(x, b, q - 1, b - 1);
    MulBound(0, 0, m, x);
    if e * x < w {
      UnbiasedQuotient(m, b, p, e, x);
    } else {
      assert (m * x) * b == x * (m * b) by { Rearrange(m, x, b); }
      assert x * (w + e) == x * w + e * x;
      assert (x + 1) * w == q * w * b by { Rearrange(q, w, b); }
      CancelLessEqual(q * w, m * x, b);
      assert q * w == (q * p) * TWO64;
      assert q * p <= m * x / TWO64;
      QuotientAtLeast(m * x / TWO64, p, q);
    }
  }

  lemma QuotientAtLeast(y: nat, p: nat, q: nat)
    requires p >= 1 && q * p <= y
    ensures y / p >= q
  {
    if y / p < q { MulStep(y / p, q, p); }
  }

  /** That one dividend decides for all: the divisors that do not divide 2^64. */
  lemma ProbeDecides(b: U32, p: U32, e: nat, n: U64)
    requires 1 <= p <= b < 2 * p && e < b
    requires MAX64 % b + 1 < b
    requires e * ((MAX64 / b) * b - 1) < p * TWO64
    ensures e * n < (b - n % b) * (p * TWO64)
  {
    var q, w := MAX64 / b, p * TWO64;
    var x := q * b - 1;
    var k, s := n / b, n % b;
    assert n == k * b + s;
    if n <= x {
      MulBound(e, n, e, x);
      MulBound(1, w, b - s, w);
    } else {
      if k < q { MulStep(k, q, b); }
      if k > q { MulStep(q, k, b); }
      assert s <= b - 2;
      MulBound(2, w, b - s, w);
      MulBound(e, n, b - 1, TWO64);
      assert (b - 1) * TWO64 < 2 * w;
    }
  }

  /** When the probe fails, the rounded-down multiplier is within p of exact. */
  lemma ProbeFailureBoundsError(b: U32, p: U32, e: nat)
    requires 1 <= p <= b < 2 * p && e < b
    requires e * ((MAX64 / b) * b - 1) >= p * TWO64
    ensures 1 <= b - e <= p && e >= 1
  {
    var x := (MAX64 / b) * b - 1;
    assert x < TWO64;
    if e <= p { MulBound(e, x, p, x); MulStep(x, TWO64, p); }
  }

  // ----- odd parts -----

  lemma {:induction false} OddFactorOfPowerOfTwo(o: nat, y: nat, w: nat)
    requires o % 2 == 1 && o * y == Pow2(w)
    ensures o == 1
  {
    if w > 0 {
      assert y % 2 == 0 by { if y % 2 == 1 { OddTimesOdd(o, y); } }
      assert o * (2 * (y / 2)) == 2 * (o * (y / 2));
      OddFactorOfPowerOfTwo(o, y / 2, w - 1);
    } else if o > 1 {
      if y == 0 { assert false; }
      MulBound(2, 1, o, y);
    }
  }

  lemma OddTimesOdd(a: int, b: int)
    requires a % 2 == 1 && b % 2 == 1
    ensures (a * b) % 2 == 1
  {
    var i, j := a / 2, b / 2;
    assert a * b == 2 * (i * b + j) + 1;
  }

  lemma LowestBit32(b: U32, n: nat)
    requires b >= 1 && n == TWO32 - b
    ensures And(b, n) == Pow2(TrailingZeros(b))
  {
    Pow2Values();
    LowestBit(b, 32);
  }

  lemma LowestBit64(m: U64, n: nat)
    requires m >= 1 && n == TWO64 - m
    ensures And(m, n) == Pow2(TrailingZeros(m))
  {
    Pow2Values();
    LowestBit(m, 64);
  }

  lemma NegIsComplement(b: U32, m: U64)
    requires b >= 1 && m >= 1
    ensures Neg32(b) == TWO32 - b && Neg64(m) == TWO64 - m
  {
  }

  /** `b & -b` is the even part of b, for 32-bit and for 64-bit words. */
  lemma EvenPart32(b: U32)
    requires b >= 1
    ensures And(b, Neg32(b)) == Pow2(TrailingZeros(b))
  {
    NegIsComplement(b, 1);
    LowestBit32(b, Neg32(b));
  }

  lemma EvenPart64(m: U64)
    requires m >= 1
    ensures And(m, Neg64(m)) == Pow2(TrailingZeros(m))
  {
    NegIsComplement(1, m);
    LowestBit64(m, Neg64(m));
  }

  /** A divisor with an odd part above 1 divides no power of two. */
  lemma DividesNoPowerOfTwo(b: nat, y: nat, w: nat)
    requires b >= 1 && OddPart(b) != 1
    ensures b * y != Pow2(w)
  {
    OddPartTimesEvenPart(b);
    var low := Pow2(TrailingZeros(b));
    Regroup(OddPart(b), low, y);
    MulBound(0, 0, low, y);
    if b * y == Pow2(w) {
      OddFactorOfPowerOfTwo(OddPart(b), low * y, w);
    }
  }

  lemma Regroup(a: int, b: int, c: int)
    ensures (a * b) * c == a * (b * c)
  {
  }

  lemma OddPartAboveOne(b: U32, p: nat)
    requires b >= 1 && p == Pow2(Ilog2(b)) && OddPart(b) != 1
    ensures b != p && MAX64 % b + 1 < b
  {
    var q, r := MAX64 / b, MAX64 % b;
    DivisionOf(MAX64, b, q, r);
    DividesNoPowerOfTwo(b, 1, Ilog2(b));
    DoesNotDivideTwo64(b, q + 1);
    LastRemainder(b, q, r);
  }

  lemma DivisionOf(x: nat, b: nat, q: int, r: int)
    requires b >= 1 && q == x / b && r == x % b
    ensures b * q + r == x && q >= 0 && 0 <= r < b
  {
  }

  lemma LastRemainder(b: int, q: int, r: int)
    requires b * q + r == MAX64 && 0 <= r < b && b * (q + 1) != TWO64
    ensures r + 1 < b
  {
    assert b * (q + 1) == b * q + b;
  }

  lemma DoesNotDivideTwo64(b: nat, y: nat)
    requires b >= 1 && OddPart(b) != 1
    ensures b * y != TWO64
  {
    Pow2Values();
    DividesNoPowerOfTwo(b, y, 64);
  }

  // ----- reducing the multiplier -----

  /** A rounded-up multiplier has at most as many trailing zeros as its scale p = 2^k: the
      reduction can never shift p out. */
  lemma TrailingZerosFitScale(m: U64, b: nat, k: nat, e: nat)
    requires m >= 1 && b < 2 * Pow2(k) && e < b
    requires Approximates(m, b, Pow2(k), e)
    requires OddPart(b) != 1
    ensures TrailingZeros(m) <= k
  {
    var v := TrailingZeros(m);
    if v > k { ErrorOfManyZeros(m, b, k, e, v, Pow2(k)); }
  }

  /** With more zeros the error would be at least 2 * p. */
  lemma ErrorOfManyZeros(m: U64, b: nat, k: nat, e: nat, v: nat, p: nat)
    requires m >= 1 && p == Pow2(k) && Approximates(m, b, p, e) && OddPart(b) != 1 && b >= 1
    requires v == TrailingZeros(m) && v > k
    ensures e >= 2 * p
  {
    ScaledWord(k);
    DividesNoPowerOfTwo(b, m, 64 + k);
    TrailingZerosOfWord(m);
    Pow2Sum(v, 64 + k - v);
    OddPartTimesEvenPart(m);
    ErrorAtLeast(m, b, e, OddPart(m), Pow2(v), Pow2(64 + k - v), p);
    Pow2Monotone(k + 1, v);
  }

  /** An inexact product of a multiple of t differs from another multiple of t by at least t. */
  lemma ErrorAtLeast(m: int, b: int, e: int, odd: int, t: nat, q: int, p: int)
    requires m == odd * t && m * b == p * TWO64 + e && t * q == TWO64 * p && b * m != TWO64 * p && e >= 0
    ensures e >= t
  {
    MultipleOf(t, odd, b, q, e);
  }

  lemma ScaledWord(k: nat)
    ensures Pow2(64 + k) == TWO64 * Pow2(k)
  {
    Pow2Values();
    Pow2Sum(64, k);
  }

  lemma TrailingZerosOfWord(m: U64)
    requires m >= 1
    ensures TrailingZeros(m) < 64
  {
    Pow2Values();
    Pow2Below(TrailingZeros(m), 64);
  }

  /** A positive difference of two multiples of t is at least t. */
  lemma MultipleOf(t: nat, c: int, b: int, d: int, e: nat)
    requires e >= 1 && (c * t) * b == t * d + e
    ensures e >= t
  {
    assert (c * t) * b == t * (c * b);
    assert e == t * (c * b - d);
    if c * b - d >= 1 {
      MulBound(t, 1, t, c * b - d);
    } else {
      MulSign(t, c * b - d);
    }
  }

  lemma MulSign(t: int, x: int)
    requires t >= 0 && x <= 0
    ensures t * x <= 0
  {
    MulBound(0, 0, t, 0 - x);
    assert t * (0 - x) == 0 - t * x;
  }

  /** The word from which the code reads how far to shift: bit i + 1 is set where bit i is
      below the lowest set bit of m and clear in the high half of m. */
  function ReductionBits(m: U64): U32
    requires m >= 1
  {
    var bits: U32 := Wrap32(TWO64 - And(m, Neg64(m)));
    var bits' := Or(bits, m / TWO32);
    Wrap32(2 * (TWO32 - 1 - bits'))
  }

  /** The shift the code chooses is at most the run of trailing zeros. */
  lemma ReductionShift(m: U64)
    requires m >= 1 && TrailingZeros(m) <= 31
    ensures ReductionBits(m) != 0 ==> Ilog2(ReductionBits(m)) <= TrailingZeros(m)
  {
    EvenPart64(m);
    PowerFitsHalfWord(TrailingZeros(m));
    BitwiseOfWords(Wrap32(TWO64 - And(m, Neg64(m))), m / TWO32);
    ShiftBound(And(m, Neg64(m)), TrailingZeros(m), Or(Wrap32(TWO64 - And(m, Neg64(m))), m / TWO32));
  }

  lemma PowerFitsHalfWord(v: nat)
    requires v <= 31
    ensures Pow2(v) <= TWO31
  {
    Pow2Values();
    Pow2Monotone(v, 31);
  }

  lemma ShiftBound(low: nat, v: nat, bits: nat)
    requires low == Pow2(v) && 1 <= low <= TWO31 && bits >= Wrap32(TWO64 - low)
    ensures var r := Wrap32(2 * (TWO32 - 1 - bits));
      bits < TWO32 && r != 0 ==> Ilog2(r) <= v
  {
    var r := Wrap32(2 * (TWO32 - 1 - bits));
    if bits < TWO32 && r != 0 {
      assert r <= 2 * (low - 1);
      Pow2Below(Ilog2(r), v + 1);
    }
  }

  // ----- the division -----

  /** The probe's own copy of the unbiased product, with a different carry test. */
  method ProbeProduct(m: U64, x: U64) returns (res: U64)
    ensures res == (m * x) / TWO64
  {
    var mLo: U32, mHi: U32 := m % TWO32, m / TWO32;
    var xLo: U32, xHi: U32 := x % TWO32, x / TWO32;
    var ll, lh, hl, hh := mLo * xLo, mLo * xHi, mHi * xLo, mHi * xHi;
    ProbePieces(m, x, ll, lh, hl, hh);
    res := ProbeSum(ll, lh, hl);
    res := Wrap64(res + hh);
  }

  lemma ProbePieces(m: U64, x: U64, ll: int, lh: int, hl: int, hh: int)
    requires ll == (m % TWO32) * (x % TWO32) && lh == (m % TWO32) * (x / TWO32)
    requires hl == (m / TWO32) * (x % TWO32) && hh == (m / TWO32) * (x / TWO32)
    ensures 0 <= ll <= MAXPROD && 0 <= lh <= MAXPROD && 0 <= hl <= MAXPROD && 0 <= hh <= MAXPROD
    ensures (m * x) / TWO64 == hh + (ll / TWO32 + lh + hl) / TWO32 <= MAX64
  {
    Pieces(m, x, And(m, TWO63 + TWO31) == 0, false, ll, lh, hl, hh);
  }

  method ProbeSum(ll: U64, lh: U64, hl: U64) returns (res: U64)
    requires ll <= MAXPROD && lh <= MAXPROD && hl <= MAXPROD
    ensures res == (ll / TWO32 + lh + hl) / TWO32
  {
    res := ll / TWO32;
    res := Wrap64(res + lh);
    assert res == ll / TWO32 + lh;
    var t := res;
    ProbeCarry(t, hl);
    res := Wrap64(res + hl);
    t := if res < t then TWO32 else 0;
    res := Wrap64(res / TWO32 + t);
  }

  lemma ProbeCarry(t: U64, hl: U64)
    requires hl <= MAXPROD
    ensures Wrap64(t + hl) / TWO32 + (if Wrap64(t + hl) < t then TWO32 else 0) == (t + hl) / TWO32
    ensures (t + hl) / TWO32 < TWO64
  {
  }

  /** Divides the multiplier and its scale by a common power of two. */
  method ReduceMultiplier(m: U64, p: U32) returns (m': U64, p': U32, ghost s: nat)
    requires m >= 1 && p >= 1
    requires TrailingZeros(m) <= 31 && p % Pow2(TrailingZeros(m)) == 0
    ensures m' >= 1 && p' >= 1
    ensures m == m' * Pow2(s) && p == p' * Pow2(s)
  {
    ghost var v := TrailingZeros(m);
    Divisors(m, p);
    var bits := ReductionBits(m);
    if bits == 0 {
      p' := p / And(m, Neg64(m));
      m' := m / And(m, Neg64(m));
      s := v;
    } else {
      p' := p / Pow2(Ilog2(bits));
      m' := m / Pow2(Ilog2(bits));
      s := Ilog2(bits);
    }
    NotZero(m, m', Pow2(s));
    NotZero(p, p', Pow2(s));
  }

  lemma NotZero(x: int, q: int, d: int)
    requires x >= 1 && x == q * d && d >= 1
    ensures q >= 1
  {
    if q <= 0 { MulBound(0, 0, -q, d); }
  }

  /** Both divisors the reduction may use divide the multiplier and the scale exactly. */
  lemma Divisors(m: U64, p: nat)
    requires m >= 1
    requires TrailingZeros(m) <= 31 && p % Pow2(TrailingZeros(m)) == 0
    ensures And(m, Neg64(m)) == Pow2(TrailingZeros(m))
    ensures Exact(m, p, And(m, Neg64(m)))
    ensures ReductionBits(m) != 0 ==> Exact(m, p, Pow2(Ilog2(ReductionBits(m))))
  {
    EvenPart64(m);
    ReductionShift(m);
    OddPartTimesEvenPart(m);
    var v := TrailingZeros(m);
    DivideExact(m, Pow2(v), OddPart(m));
    SharedFactor(m, p, v, v);
    if ReductionBits(m) != 0 {
      SharedFactor(m, p, v, Ilog2(ReductionBits(m)));
    }
  }

  ghost predicate Exact(m: U64, p: nat, d: nat) {
    d >= 1 && 0 <= m / d <= m && 0 <= p / d <= p && m == (m / d) * d && p == (p / d) * d
  }

  /** A number divisible by 2^v is divisible by every smaller power of two. */
  lemma SharedFactor(m: U64, p: nat, v: nat, s: nat)
    requires s <= v && m % Pow2(v) == 0 && p % Pow2(v) == 0
    ensures Exact(m, p, Pow2(s))
  {
    SmallerFactor(m, v, s);
    SmallerFactor(p, v, s);
  }

  lemma SmallerFactor(m: nat, v: nat, s: nat)
    requires s <= v && m % Pow2(v) == 0
    ensures m == (m / Pow2(s)) * Pow2(s) && 0 <= m / Pow2(s) <= m
  {
    Pow2Sum(v - s, s);
    FactorOut(m, Pow2(v), Pow2(v - s), Pow2(s));
  }

  lemma FactorOut(m: nat, w: nat, u: nat, d: nat)
    requires w >= 1 && d >= 1 && w == u * d && m % w == 0
    ensures m == (m / d) * d && 0 <= m / d <= m
  {
    var c := m / w;
    assert m == w * c;
    Regroup(c, u, d);
    assert (c * u) * d == m;
    MulBound(0, 0, c, u);
    DivideExact(m, d, c * u);
    QuotientAtMost(m, d);
  }

  lemma QuotientAtMost(m: nat, d: nat)
    requires d >= 1
    ensures m / d <= m
  {
    MulBound(m / d, 1, m / d, d);
  }

  /** What makes a multiplier, a scale, a bias and a prepared dividend right for n / b. */
  ghost predicate Divides(n: U64, b: nat, m: U64, n': U64, p: U32, bias: bool)
    requires b >= 1
  {
    p >= 1 && (Product(m, n', bias) / TWO64) / p == n / b
  }

  /** p * 2^64 / b rounded up and rounded down, as the code spells them. */
  function Up(b: U32, p: nat): int
    requires b >= 1
  {
    (MAX64 / b) * p + ((MAX64 % b + 1) * p + b - 1) / b
  }

  function Down(b: U32, p: nat): int
    requires b >= 1
  {
    (MAX64 / b) * p + ((MAX64 % b + 1) * p) / b
  }

  /** None of the setup arithmetic wraps, save the final sum when b is a power of two. */
  lemma SetupDoesNotWrap(b: U32, p: U32)
    requires 1 <= p <= b < 2 * p
    ensures 0 <= (MAX64 / b) * p < TWO64
    ensures 0 <= (MAX64 % b + 1) * p && (MAX64 % b + 1) * p + b - 1 < TWO64
    ensures 1 <= (MAX64 / b) * b <= MAX64
  {
    MulBound(MAX64 / b, p, MAX64 / b, b);
    MulBound(MAX64 % b + 1, p, b, p);
    MulBound(b, p, b, b);
    MulBound(b, b, b, TWO32 - 1);
    MulBound(1, 1, MAX64 / b, b);
  }

  /** Whether the rounded-up multiplier gives the right quotient at the probe. */
  ghost predicate ProbePasses(b: U32, p: U32)
    requires b >= 1 && p >= 1
  {
    var x := (MAX64 / b) * b - 1;
    (Up(b, p) * x / TWO64) / p == x / b
  }

  /** First branch: the odd part of the divisor divides 2^64 - 1. */
  lemma FactorOfMax(n: U64, b: nat, o: nat, low: nat)
    requires o >= 1 && low >= 1 && MAX64 % o == 0 && b == o * low
    ensures 0 <= MAX64 / o <= MAX64 && 0 <= n / low <= n
    ensures b >= 1 && Divides(n, b, MAX64 / o, n / low, 1, true)
  {
    QuotientAtMost(MAX64, o);
    QuotientAtMost(n, low);
    BiasedQuotient(MAX64 / o, o, 1, 1, n / low);
    NestedDivision(n, low, o);
  }

  lemma NestedDivision(n: nat, low: nat, o: nat)
    requires low >= 1 && o >= 1
    ensures o * low >= 1 && (n / low) / o == n / (o * low)
  {
    var y := n / low;
    var k, s, t := y / o, y % o, n % low;
    MulBound(1, 1, o, low);
    assert n == (k * o + s) * low + t;
    assert (k * o + s) * low == k * (o * low) + s * low;
    MulStep(s, o, low);
    MulBound(0, 0, s, low);
    DivideUnique(n, o * low, k, s * low + t);
  }

  /** The error of the rounded-up multiplier, and what the probe says about it. */
  lemma UpError(b: U32, p: U32) returns (e: int)
    requires 1 <= p <= b < 2 * p && 0 <= Up(b, p)
    ensures 0 <= e < b && Approximates(Up(b, p), b, p, e)
    ensures ProbePasses(b, p) <==> e * ((MAX64 / b) * b - 1) < p * TWO64
    ensures Down(b, p) == if e == 0 then Up(b, p) else Up(b, p) - 1
  {
    e := Up(b, p) * b - p * TWO64;
    SetupDoesNotWrap(b, p);
    RoundedUp(b, p);
    RoundedDown(b, p);
    ProbeMeaning(Up(b, p), b, p, e, MAX64 / b);
  }

  /** Second branch: the probe rejected the rounded-up multiplier. */
  lemma BiasedBranch(n: U64, b: U32, p: U32)
    requires b >= 1 && p == Pow2(Ilog2(b))
    requires 1 <= Up(b, p) < TWO64
    requires !ProbePasses(b, p)
    ensures 0 <= Down(b, p) < TWO64
    ensures Divides(n, b, Down(b, p), n, p, true)
  {
    var e := UpError(b, p);
    ProbeFailureBoundsError(b, p, e);
    OneLess(Up(b, p), b, p, e);
    BiasedQuotient(Up(b, p) - 1, b, p, b - e, n);
  }

  lemma OneLess(m: int, b: int, p: int, e: int)
    requires Approximates(m, b, p, e)
    ensures Approximates(m - 1, b, p, e - b)
  {
    assert (m - 1) * b == m * b - b;
  }

  /** Third branch: the probe accepted it, and both parts were reduced by a common factor. */
  lemma UnbiasedBranch(n: U64, b: U32, p: U32, m': U64, p': U32, t: nat)
    requires b >= 1 && p == Pow2(Ilog2(b)) && OddPart(b) != 1
    requires 0 <= Up(b, p) < TWO64
    requires ProbePasses(b, p)
    requires t >= 1 && Up(b, p) == m' * t && p == p' * t
    ensures Divides(n, b, m', n, p', false)
  {
    var e := UpError(b, p);
    OddPartAboveOne(b, p);
    ProbeDecides(b, p, e, n);
    if p' <= 0 { MulSign(t, p'); }
    ReducedCondition(m', b, p', t, n);
  }

  lemma ReducedCondition(m': nat, b: nat, p': nat, t: nat, n: U64)
    requires b >= 1 && t >= 1 && p' >= 1
    requires (m' * t) * b >= (p' * t) * TWO64
    requires ((m' * t) * b - (p' * t) * TWO64) * n < (b - n % b) * ((p' * t) * TWO64)
    ensures ((m' * n) / TWO64) / p' == n / b
  {
    var e' := m' * b - p' * TWO64;
    assert (m' * t) * b - (p' * t) * TWO64 == e' * t by {
      Rearrange(m', t, b);
      Rearrange(p', t, TWO64);
      assert e' * t == (m' * b) * t - (p' * TWO64) * t;
    }
    CancelLessEqual(0, e', t);
    assert (e' * t) * n == (e' * n) * t;
    assert (b - n % b) * ((p' * t) * TWO64) == ((b - n % b) * (p' * TWO64)) * t by {
      Rearrange(p', t, TWO64);
      Regroup(b - n % b, p' * TWO64, t);
    }
    CancelLess(e' * n, (b - n % b) * (p' * TWO64), t);
    UnbiasedQuotient(m', b, p', e', n);
  }

  /** The rounded-up multiplier as computed: exact, save for the wrap when b is a power of two. */
  method ComputeUp(b: U32, p: U32) returns (m: U64)
    requires 1 <= p <= b < 2 * p
    ensures 0 <= Up(b, p) < TWO64 ==> m == Up(b, p)
  {
    SetupDoesNotWrap(b, p);
    SetupSum((MAX64 / b) * p, (MAX64 % b + 1) * p, b, Up(b, p), Down(b, p));
    m := Wrap64((MAX64 / b) * p);
    m := Wrap64(m + Wrap64(Wrap64((MAX64 % b + 1) * p) + b - 1) / b);
  }

  lemma SetupSum(a: int, c: int, b: U32, up: int, down: int)
    requires b >= 1 && 0 <= a < TWO64 && 0 <= c && c + b - 1 < TWO64
    requires up == a + (c + b - 1) / b && down == a + c / b
    ensures 0 <= up < TWO64 ==> Wrap64(Wrap64(a) + Wrap64(Wrap64(c) + b - 1) / b) == up
    ensures 0 <= down < TWO64 ==> Wrap64(Wrap64(a) + Wrap64(c) / b) == down
  {
    NoWrap(a);
    NoWrap(c);
    NoWrap(c + b - 1);
    LastSum(a, (c + b - 1) / b, up);
    LastSum(a, c / b, down);
  }

  lemma LastSum(a: int, q: int, sum: int)
    requires sum == a + q
    ensures 0 <= sum < TWO64 ==> Wrap64(a + q) == sum
  {
  }

  lemma NoWrap(x: int)
    requires 0 <= x < TWO64
    ensures Wrap64(x) == x
  {
  }

  method ComputeDown(b: U32, p: U32) returns (m: U64)
    requires 1 <= p <= b < 2 * p
    ensures 0 <= Down(b, p) < TWO64 ==> m == Down(b, p)
  {
    SetupDoesNotWrap(b, p);
    SetupSum((MAX64 / b) * p, (MAX64 % b + 1) * p, b, Up(b, p), Down(b, p));
    m := Wrap64((MAX64 / b) * p);
    m := Wrap64(m + Wrap64((MAX64 % b + 1) * p) / b);
  }

  /** `b & -b`, and the odd factor it leaves. */
  method EvenFactor(b: U32) returns (low: U32)
    requires b >= 1
    ensures low >= 1 && b == OddPart(b) * low && b / low == OddPart(b)
  {
    low := And(b, Neg32(b));
    EvenPart32(b);
    OddPartTimesEvenPart(b);
  }

  /** Third branch: the rounded-up multiplier, reduced. */
  method ReducedMultiplier(n: U64, b: U32, m0: U64, p0: U32) returns (m: U64, p: U32)
    requires b >= 1 && p0 == Pow2(Ilog2(b)) && OddPart(b) != 1 && 1 <= m0 == Up(b, p0)
    requires ProbePasses(b, p0)
    ensures Divides(n, b, m, n, p, false)
  {
    ScaleIsMultiple(m0, b, p0);
    ghost var s;
    m, p, s := ReduceMultiplier(m0, p0);
    UnbiasedBranch(n, b, p0, m, p, Pow2(s));
  }

  /** The middle of `__div64_const32`: one of three multipliers, by the divisor and the probe. */
  method ChooseMultiplier(n: U64, b: U32, m0: U64, p0: U32, agrees: bool)
    returns (m: U64, n': U64, p: U32, bias: bool)
    requires b >= 1 && p0 == Pow2(Ilog2(b))
    requires 0 <= Up(b, p0) < TWO64 ==> m0 == Up(b, p0) && (agrees <==> ProbePasses(b, p0))
    ensures Divides(n, b, m, n', p, bias)
  {
    m, n', p := m0, n, p0;
    var low := EvenFactor(b);
    var odd := b / low;
    if MAX64 % odd == 0 {
      FactorOfMax(n, b, odd, low);
      n' := n' / low;
      m := MAX64 / odd;
      p := 1;
      bias := true;
    } else if !agrees {
      MultiplierFits(b, p);
      BiasedBranch(n, b, p);
      bias := true;
      m := ComputeDown(b, p);
    } else {
      MultiplierFits(b, p);
      m, p := ReducedMultiplier(n, b, m, p);
      bias := false;
    }
  }

  /** Tries the rounded-up multiplier at the largest dividend of the form j * b - 1. */
  method Probe(b: U32, p: U32, m: U64) returns (agrees: bool)
    requires 1 <= p <= b < 2 * p
    ensures m == Up(b, p) ==> (agrees <==> ProbePasses(b, p))
  {
    SetupDoesNotWrap(b, p);
    var x := Wrap64(MAX64 / b * b - 1);
    var res := ProbeProduct(m, x);
    res := res / p;
    agrees := res == x / b;
  }

  /** `__div64_const32`: exactly the quotient, for every dividend and every nonzero divisor. */
  method DivConst32(n: U64, b: U32) returns (res: U64)
    requires b >= 1
    ensures res == n / b
  {
    var p: U32 := Pow2(Ilog2(b));
    var m := ComputeUp(b, p);
    var agrees := Probe(b, p, m);
    var n', bias;
    m, n', p, bias := ChooseMultiplier(n, b, m, p, agrees);
    res := XProd64(m, n', bias);
    res := res / p;
  }

  /** Past the first branch b is no power of two, so the rounded-up multiplier fits a word. */
  lemma MultiplierFits(b: U32, p: U32)
    requires b >= 1 && p == Pow2(Ilog2(b)) && MAX64 % OddPart(b) != 0
    ensures OddPart(b) != 1 && 1 <= Up(b, p) < TWO64
  {
    OddPartAboveOne(b, p);
    RoundedUp(b, p);
    PositiveFactor(Up(b, p), b, p);
  }

  lemma PositiveFactor(m: nat, b: nat, p: nat)
    requires m * b >= p * TWO64 && p >= 1
    ensures m >= 1
  {
  }

  lemma ScaleIsMultiple(m: U64, b: U32, p: U32)
    requires b >= 1 && p == Pow2(Ilog2(b)) && OddPart(b) != 1 && 1 <= m == Up(b, p)
    ensures TrailingZeros(m) <= 31 && p % Pow2(TrailingZeros(m)) == 0
  {
    RoundedUp(b, p);
    TrailingZerosFitScale(m, b, Ilog2(b), m * b - p * TWO64);
    Pow2Values();
    Pow2Below(Ilog2(b), 32);
    var v := TrailingZeros(m);
    Pow2Sum(Ilog2(b) - v, v);
    DivideExact(p, Pow2(v), Pow2(Ilog2(b) - v));
  }

  // ----- do_div -----

  /** The library fallback `__div64_32`, whose body lies outside the header: quotient in
      place, remainder returned. */
  method LibraryDivide(n: U64, b: U32) returns (q: U64, rem: U32)
    requires b >= 1
    ensures q * b + rem == n && rem < b
  {
    q, rem := n / b, n % b;
    QuotientAtMost(n, b);
  }

  /** `do_div` on a 32-bit machine: replaces n by the quotient and returns the remainder, by
      whichever of its four paths. */
  method DoDiv(n: U64, base: U32, constant: bool) returns (n': U64, rem: U32)
    requires base >= 1
    ensures n' * base + rem == n && rem < base
  {
    if constant && And(base, base - 1) == 0 {
      PowerOfTwoTest(base);
      AndLowMask(n, Ilog2(base));
      DivisionLaw(n, base);
      rem := And(n, base - 1);
      n' := n / Pow2(Ilog2(base));
    } else if constant {
      var nLo := Wrap32(n);
      n' := DivConst32(n, base);
      DivisionLaw(n, base);
      var resLo := Wrap32(n');
      RemainderFromLowWords(n, n', base);
      rem := Wrap32(nLo - Wrap32(resLo * base));
    } else if n / TWO32 == 0 {
      DivisionLaw(n, base);
      rem := Wrap32(n) % base;
      n' := Wrap32(n) / base;
    } else {
      n', rem := LibraryDivide(n, base);
    }
  }

  lemma DivisionLaw(n: nat, d: nat)
    requires d >= 1
    ensures (n / d) * d + n % d == n && 0 <= n / d <= n
  {
    QuotientAtMost(n, d);
  }

  /** The low words of n and of the quotient suffice for the remainder. */
  lemma RemainderFromLowWords(n: U64, q: U64, base: U32)
    requires 0 <= n - q * base < TWO32
    ensures Wrap32(Wrap32(n) - Wrap32(Wrap32(q) * base)) == n - q * base
  {
    LowWordTimes(q, base);
    SubtractWords(n, q * base, Wrap32(q) * base);
  }

  lemma LowWordTimes(q: U64, base: U32)
    ensures Wrap32(q * base) == Wrap32(Wrap32(q) * base)
  {
    var h, l := q / TWO32, q % TWO32;
    assert (h * TWO32 + l) * base == l * base + (h * base) * TWO32;
    WrapCongruent(l * base, h * base);
  }

  lemma WrapCongruent(x: int, k: int)
    ensures Wrap32(x + k * TWO32) == Wrap32(x)
  {
  }

  lemma SubtractWords(n: int, y: int, z: int)
    requires Wrap32(y) == Wrap32(z) && 0 <= n - y < TWO32
    ensures Wrap32(Wrap32(n) - Wrap32(z)) == n - y
  {
  }
}
