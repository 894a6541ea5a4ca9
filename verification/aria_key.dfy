/** The round keys of ARIA (`aria_gsrk`, crypto/aria.h): a 128-bit word exclusive-ored with another
    one rotated right, computed on 32-bit words. */
module AriaKeys {
  import opened Words
  import opened Aria

  /** Four words as one number, the first word on top. */
  function Value128(y: seq<U32>): nat
    requires |y| == 4
  {
    ((y[0] * TWO32 + y[1]) * TWO32 + y[2]) * TWO32 + y[3]
  }

  /** Rotation of a 128-bit number to the right. */
  function RotateRight(v: int, n: nat): (r: int)
    requires n <= 128
    ensures v >= 0 ==> r >= 0
  {
    RotationSign(v, Pow2(n), Pow2(128 - n));
    v / Pow2(n) + v % Pow2(n) * Pow2(128 - n)
  }

  lemma RotationSign(v: int, p: nat, q: nat)
    requires p >= 1
    ensures v >= 0 ==> v / p + v % p * q >= 0
  {
    MulBound(0, 0, v % p, q);
    if v >= 0 { QuotientBelow(v, p); }
  }

  lemma RotateOf(high: int, low: nat, n: nat)
    requires n <= 128 && low < Pow2(n)
    ensures RotateRight(high * Pow2(n) + low, n) == high + low * Pow2(128 - n)
  {
    DivideUnique(high * Pow2(n) + low, Pow2(n), high, low);
  }

  // ----- one word of the result -----

  /** `(a >> r) ^ (b << (32 - r))`. */
  function Funnel(a: U32, b: U32, r: nat): U32
    requires 0 < r < 32
  {
    XorWord(ShiftRight(a, r), Wrap32(b * Pow2(32 - r)))
  }

  function ShiftRight(a: U32, r: nat): U32 {
    QuotientBelow(a, Pow2(r));
    a / Pow2(r)
  }

  lemma QuotientBelow(a: nat, p: nat)
    requires p >= 1
    ensures 0 <= a / p <= a
  {
    if a / p > a { MulStep(a, a / p, p); MulBound(a, 1, a, p); }
  }

  lemma ShiftUpWraps(b: nat, p: nat, q: nat)
    requires p * q == TWO32 && p >= 1
    ensures 0 <= b % p * q < TWO32 && Wrap32(b * q) == b % p * q
  {
    var h, l := b / p, b % p;
    assert b == h * p + l;
    assert b * q == h * (p * q) + l * q by { Distribute(h, p, l, q); }
    MulStep(l, p, q);
    assert p * q >= l * q + q;
    DivideUnique(b * q, TWO32, h, l * q);
  }

  lemma Distribute(h: int, p: int, l: int, q: int)
    ensures (h * p + l) * q == h * (p * q) + l * q
  {
  }

  lemma MergeShifted(high: nat, low: nat, k: nat)
    requires low < Pow2(k)
    ensures Xor(low, high * Pow2(k)) == high * Pow2(k) + low
  {
    ZeroTimes(Pow2(k), low);
    XorAbove(0, low, high, k);
  }

  /** The two shifted words have no bit in common, so exclusive or is a sum. */
  lemma FunnelIsSum(a: U32, b: U32, r: nat)
    requires 0 < r < 32
    ensures Funnel(a, b, r) == a / Pow2(r) + b % Pow2(r) * Pow2(32 - r)
  {
    Pow2Values();
    Pow2Sum(r, 32 - r);
    ShiftUpWraps(b, Pow2(r), Pow2(32 - r));
    HighPartBelow(a, Pow2(r), Pow2(32 - r));
    MergeShifted(b % Pow2(r), ShiftRight(a, r), 32 - r);
  }

  lemma HighPartBelow(a: nat, p: nat, q: nat)
    requires p >= 1 && a < p * q
    ensures a / p < q
  {
    if a / p >= q { MulBound(q, p, a / p, p); }
  }

  // ----- four words -----

  /** Words rotated right by r bits, one funnel each. */
  function FunnelWords(y: seq<U32>, r: nat): (z: seq<U32>)
    requires |y| == 4 && 0 < r < 32
    ensures |z| == 4
  {
    [Funnel(y[0], y[3], r), Funnel(y[1], y[0], r), Funnel(y[2], y[1], r), Funnel(y[3], y[2], r)]
  }

  /** One more word below: what is shifted out of the words so far goes to the top of the new one. */
  lemma FunnelStep(h: int, b: int, v: int, a: int, top: int, p: int, q: int)
    requires v == h * p + b
    ensures (h + top) * (p * q) + (a + b * q) == v * q + a + top * (p * q)
    ensures v * (p * q) + (a * p + b) == (v * q + a) * p + b
  {
    Distribute(h, p, b, q);
    Distribute(v, q, a, p);
    Distribute(h, 1, top, p * q);
  }

  /** All four words, from the top: the number is high * p + b3, and its rotation puts b3 on top. */
  lemma FourSteps(y0: int, y1: int, y2: int, y3: int,
                  a0: int, b0: int, a1: int, b1: int, a2: int, b2: int, a3: int, b3: int, p: int, q: int)
      returns (high: int)
    requires p * q == TWO32
    requires y0 == a0 * p + b0 && y1 == a1 * p + b1 && y2 == a2 * p + b2 && y3 == a3 * p + b3
    ensures ((y0 * TWO32 + y1) * TWO32 + y2) * TWO32 + y3 == high * p + b3
    ensures (((a0 + b3 * q) * TWO32 + (a1 + b0 * q)) * TWO32 + (a2 + b1 * q)) * TWO32 + (a3 + b2 * q)
         == high + b3 * q * TWO32 * TWO32 * TWO32
  {
    var top := b3 * q;
    FunnelStep(a0, b0, y0, a1, top, p, q);
    var v1 := y0 * TWO32 + y1;
    FunnelStep(y0 * q + a1, b1, v1, a2, top * TWO32, p, q);
    var v2 := v1 * TWO32 + y2;
    FunnelStep(v1 * q + a2, b2, v2, a3, top * TWO32 * TWO32, p, q);
    high := v2 * q + a3;
  }

  lemma TopShift(b: int, r: nat)
    requires 0 < r < 32
    ensures b * Pow2(128 - r) == b * Pow2(32 - r) * TWO32 * TWO32 * TWO32
  {
    Pow2Values();
    Pow2Sum(32 - r, 96);
    Pow2Sum(32, 64);
    Regroup(b, Pow2(32 - r));
  }

  lemma Regroup(b: int, q: int)
    ensures b * (q * (TWO32 * TWO64)) == b * q * TWO32 * TWO32 * TWO32
  {
    assert b * (q * (TWO32 * TWO64)) == (b * q) * (TWO32 * TWO64) by { MulAssociates(b, q, TWO32 * TWO64); }
  }

  lemma MulAssociates(a: int, b: int, c: int)
    ensures a * (b * c) == a * b * c
  {
  }

  lemma Halves(y: int, p: nat) returns (a: int, b: nat)
    requires p >= 1
    ensures a == y / p && b == y % p && y == a * p + b && b < p
  {
    a, b := y / p, y % p;
  }

  /** The funnels rotate the four words as one number. */
  lemma FunnelsRotate(y: seq<U32>, r: nat)
    requires |y| == 4 && 0 < r < 32
    ensures Value128(FunnelWords(y, r)) == RotateRight(Value128(y), r)
  {
    var p, q := Pow2(r), Pow2(32 - r);
    Pow2Values();
    Pow2Sum(r, 32 - r);
    var a0, b0 := Halves(y[0], p);
    var a1, b1 := Halves(y[1], p);
    var a2, b2 := Halves(y[2], p);
    var a3, b3 := Halves(y[3], p);
    FunnelsAre(y, r, q, a0, b0, a1, b1, a2, b2, a3, b3);
    var high := FourSteps(y[0], y[1], y[2], y[3], a0, b0, a1, b1, a2, b2, a3, b3, p, q);
    RotateValue(Value128(y), high, b3, r, p, Pow2(128 - r));
    TopShift(b3, r);
  }

  lemma FunnelsAre(y: seq<U32>, r: nat, q: nat, a0: int, b0: int, a1: int, b1: int, a2: int, b2: int, a3: int, b3: int)
    requires |y| == 4 && 0 < r < 32 && q == Pow2(32 - r)
    requires a0 == y[0] / Pow2(r) && b0 == y[0] % Pow2(r) && a1 == y[1] / Pow2(r) && b1 == y[1] % Pow2(r)
    requires a2 == y[2] / Pow2(r) && b2 == y[2] % Pow2(r) && a3 == y[3] / Pow2(r) && b3 == y[3] % Pow2(r)
    ensures Value128(FunnelWords(y, r))
         == (((a0 + b3 * q) * TWO32 + (a1 + b0 * q)) * TWO32 + (a2 + b1 * q)) * TWO32 + (a3 + b2 * q)
  {
    FunnelIsSum(y[0], y[3], r);
    FunnelIsSum(y[1], y[0], r);
    FunnelIsSum(y[2], y[1], r);
    FunnelIsSum(y[3], y[2], r);
  }

  // ----- any amount -----

  /** v splits into h, m and l; w is v rotated by a. */
  lemma SplitInThree(v: int, w: int, h: int, m: int, l: int, pa: int, pb: int, pc: int, pba: int, pbc: int, pac: int,
                     hm: int, ml: int, lh: int)
    requires pba == pb * pa && pbc == pb * pc && pac == pa * pc
    requires hm == h * pb + m && ml == m * pa + l && lh == l * pc + h
    requires v == hm * pa + l && w == hm + l * pbc
    ensures v == h * pba + ml && w == lh * pb + m && lh + m * pac == h + ml * pc
  {
    Distribute(h, pb, m, pa);
    Distribute(l, pc, h, pb);
    Distribute(m, pa, l, pc);
    MulAssociates(l, pb, pc);
  }

  lemma RotateValue(v: int, high: int, low: nat, n: nat, p: int, q: int)
    requires n <= 128 && p == Pow2(n) && q == Pow2(128 - n) && low < p && v == high * p + low
    ensures RotateRight(v, n) == high + low * q
  {
    RotateOf(high, low, n);
  }

  /** Rotating twice rotates by the sum. */
  lemma RotateTwice(v: int, h: int, m: nat, l: nat, a: nat, b: nat)
    requires a + b <= 128 && l < Pow2(a) && m < Pow2(b) && v == (h * Pow2(b) + m) * Pow2(a) + l
    ensures RotateRight(RotateRight(v, a), b) == RotateRight(v, a + b)
  {
    var pa, pb, pc := Pow2(a), Pow2(b), Pow2(128 - a - b);
    var pba, pbc, pac := Pow2(b + a), Pow2(128 - a), Pow2(128 - b);
    Pow2Sum(b, a);
    Pow2Sum(b, 128 - a - b);
    Pow2Sum(a, 128 - a - b);
    var hm, ml, lh := h * pb + m, m * pa + l, l * pc + h;
    var w := hm + l * pbc;
    SplitInThree(v, w, h, m, l, pa, pb, pc, pba, pbc, pac, hm, ml, lh);
    LowHalf(m, l, pa, pb);
    RotateValue(v, hm, l, a, pa, pbc);
    RotateValue(v, h, ml, a + b, pba, pc);
    RotateValue(w, lh, m, b, pb, pac);
  }

  lemma LowHalf(m: nat, l: nat, pa: nat, pb: nat)
    requires l < pa && m < pb
    ensures 0 <= m * pa + l < pb * pa
  {
    MulStep(m, pb, pa);
    MulBound(m, pa, m, pa);
  }

  /** Words moved k places down, the last ones coming back on top. */
  function RotateWords(y: seq<U32>, k: nat): (z: seq<U32>)
    requires |y| == 4
    ensures |z| == 4
  {
    [y[(4 - k % 4) % 4], y[(5 - k % 4) % 4], y[(6 - k % 4) % 4], y[(7 - k % 4) % 4]]
  }

  /** 2^96. */
  const P96: int := TWO32 * TWO64

  lemma LastWordUp(a: nat, b: U32)
    ensures RotateRight(a * TWO32 + b, 32) == b * P96 + a
  {
    Pow2Values();
    Pow2Sum(32, 64);
    RotateValue(a * TWO32 + b, a, b, 32, TWO32, P96);
  }

  lemma FirstWordDown(a: U32, b: nat)
    requires b < P96
    ensures RotateRight(a * P96 + b, 96) == b * TWO32 + a
  {
    Pow2Values();
    Pow2Sum(32, 64);
    RotateValue(a * P96 + b, a, b, 96, P96, TWO32);
  }

  lemma OneWordDown(y: seq<U32>)
    requires |y| == 4
    ensures RotateRight(Value128(y), 32) == Value128([y[3], y[0], y[1], y[2]])
  {
    LastWordUp((y[0] * TWO32 + y[1]) * TWO32 + y[2], y[3]);
  }

  lemma HalvesSwap(a: nat, b: nat)
    requires b < TWO64
    ensures RotateRight(a * TWO64 + b, 64) == b * TWO64 + a
  {
    Pow2Values();
    RotateValue(a * TWO64 + b, a, b, 64, TWO64, TWO64);
  }

  lemma TwoWordsDown(y: seq<U32>)
    requires |y| == 4
    ensures RotateRight(Value128(y), 64) == Value128([y[2], y[3], y[0], y[1]])
  {
    HalvesSwap(y[0] * TWO32 + y[1], y[2] * TWO32 + y[3]);
  }

  lemma ThreeWordsDown(y: seq<U32>)
    requires |y| == 4
    ensures RotateRight(Value128(y), 96) == Value128([y[1], y[2], y[3], y[0]])
  {
    var low := (y[1] * TWO32 + y[2]) * TWO32 + y[3];
    assert Value128(y) == y[0] * P96 + low;
    FirstWordDown(y[0], low);
  }

  lemma NoWordDown(v: int)
    ensures RotateRight(v, 0) == v
  {
    RotateValue(v, v, 0, 0, 1, Pow2(128));
  }

  lemma WordsRotate(y: seq<U32>, k: nat)
    requires |y| == 4 && k < 4
    ensures Value128(RotateWords(y, k)) == RotateRight(Value128(y), 32 * k)
  {
    MovedWords(y, k);
    var v, n := Value128(y), 32 * k;
    if k == 0 {
      NoWordDown(v);
      assert n == 0;
    } else if k == 1 {
      OneWordDown(y);
      assert n == 32;
    } else if k == 2 {
      TwoWordsDown(y);
      assert n == 64;
    } else {
      ThreeWordsDown(y);
      assert n == 96;
    }
  }

  lemma MovedWords(y: seq<U32>, k: nat)
    requires |y| == 4 && k < 4
    ensures RotateWords(y, k) == if k == 0 then [y[0], y[1], y[2], y[3]] else if k == 1 then [y[3], y[0], y[1], y[2]]
      else if k == 2 then [y[2], y[3], y[0], y[1]] else [y[1], y[2], y[3], y[0]]
  {
  }

  lemma SplitAt(v: int, d: int) returns (high: int, low: nat)
    requires d >= 1
    ensures v == high * d + low && low < d
  {
    high, low := v / d, v % d;
  }

  /** Whole words first, then the rest: the number rotated by n. */
  lemma WordsThenFunnels(y: seq<U32>, n: nat)
    requires |y| == 4 && n < 128 && n % 32 != 0
    ensures Value128(FunnelWords(RotateWords(y, n / 32), n % 32)) == RotateRight(Value128(y), n)
  {
    WordsRotate(y, n / 32);
    FunnelsRotate(RotateWords(y, n / 32), n % 32);
    RotateInTwo(Value128(y), 32 * (n / 32), n % 32);
  }

  lemma RotateInTwo(v: int, a: nat, b: nat)
    requires a + b <= 128
    ensures RotateRight(RotateRight(v, a), b) == RotateRight(v, a + b)
  {
    var rest, l := SplitAt(v, Pow2(a));
    var h, m := SplitAt(rest, Pow2(b));
    RotateTwice(v, h, m, l, a, b);
  }

  lemma XorAppendWord(x: nat, a: U32, y: nat, b: U32, z: nat)
    requires z == Xor(x, y)
    ensures Xor(x * TWO32 + a, y * TWO32 + b) == z * TWO32 + XorWord(a, b)
  {
    var k := WordShift();
    XorAppendAt(x, a, y, b, TWO32, k);
  }

  lemma WordShift() returns (k: nat)
    ensures k == 32 && Pow2(k) == TWO32
  {
    Pow2Values();
    k := 32;
  }

  lemma XorAppendAt(x: nat, a: nat, y: nat, b: nat, p: nat, k: nat)
    requires p == Pow2(k) && a < p && b < p
    ensures Xor(x * p + a, y * p + b) == Xor(x, y) * p + Xor(a, b)
  {
    XorSplit(x, a, y, b, k);
  }

  lemma XorOfValues(x: seq<U32>, y: seq<U32>)
    requires |x| == 4 && |y| == 4
    ensures Xor(Value128(x), Value128(y))
         == Value128([XorWord(x[0], y[0]), XorWord(x[1], y[1]), XorWord(x[2], y[2]), XorWord(x[3], y[3])])
  {
    var z0: nat := XorWord(x[0], y[0]);
    var z1: nat := z0 * TWO32 + XorWord(x[1], y[1]);
    var z2: nat := z1 * TWO32 + XorWord(x[2], y[2]);
    XorAppendWord(x[0], x[1], y[0], y[1], z0);
    XorAppendWord(x[0] * TWO32 + x[1], x[2], y[0] * TWO32 + y[1], y[2], z1);
    XorAppendWord((x[0] * TWO32 + x[1]) * TWO32 + x[2], x[3], (y[0] * TWO32 + y[1]) * TWO32 + y[2], y[3], z2);
  }

  /** `x ^ (a >> r) ^ (b << (32 - r))`. */
  function GsrkWord(x: U32, a: U32, b: U32, r: nat): U32
    requires 0 < r < 32
  {
    XorWord(XorWord(x, ShiftRight(a, r)), Wrap32(b * Pow2(32 - r)))
  }

  lemma GsrkWordIs(x: U32, a: U32, b: U32, r: nat)
    requires 0 < r < 32
    ensures GsrkWord(x, a, b, r) == XorWord(x, Funnel(a, b, r))
  {
    XorAssociates(x, ShiftRight(a, r), Wrap32(b * Pow2(32 - r)));
  }

  lemma GsrkWordsAre(x: seq<U32>, z: seq<U32>, r: nat)
    requires |x| == 4 && |z| == 4 && 0 < r < 32
    ensures Value128([GsrkWord(x[0], z[0], z[3], r), GsrkWord(x[1], z[1], z[0], r),
                      GsrkWord(x[2], z[2], z[1], r), GsrkWord(x[3], z[3], z[2], r)])
         == Xor(Value128(x), Value128(FunnelWords(z, r)))
  {
    XorOfValues(x, FunnelWords(z, r));
    GsrkWordIs(x[0], z[0], z[3], r);
    GsrkWordIs(x[1], z[1], z[0], r);
    GsrkWordIs(x[2], z[2], z[1], r);
    GsrkWordIs(x[3], z[3], z[2], r);
  }

  /** The C remainder, which takes the sign of its left operand. */
  function CRemainder(a: int, d: nat): int
    requires d >= 1
  {
    if a >= 0 then a % d else -((-a) % d)
  }

  predicate IndicesInRange(q: int) {
    CRemainder(q, 4) >= 0 && CRemainder(q + 1, 4) >= 0 && CRemainder(q + 2, 4) >= 0 && CRemainder(q + 3, 4) >= 0
  }

  /** The source's index q is `4 - n / 32` as an `int`: exactly below 160 it never leaves the key. */
  lemma IndicesInRangeBelow160(n: U32)
    ensures IndicesInRange(4 - n / 32) <==> n < 160
  {
    var q := 4 - n / 32;
    if q < 0 && (-q) % 4 == 0 {
      DivideUnique(-(q + 1), 4, (-q) / 4 - 1, 3);
    }
  }

  /** `aria_gsrk`: the round key is x exclusive-or y rotated right by n bits, as 128-bit numbers. */
  method Gsrk(rk: array<U32>, x: seq<U32>, y: seq<U32>, n: nat)
    requires rk.Length == 4 && |x| == 4 && |y| == 4 && n < 160 && n % 32 != 0
    modifies rk
    ensures Value128(rk[..]) == Xor(Value128(x), RotateRight(Value128(y), n % 128))
  {
    var q: nat := 4 - n / 32;
    var r := n % 32;
    ghost var m := n % 128;
    AmountModulo128(n, m);
    SourceWords(y, q, m / 32);
    rk[0] := GsrkWord(x[0], y[q % 4], y[(q + 3) % 4], r);
    rk[1] := GsrkWord(x[1], y[(q + 1) % 4], y[q % 4], r);
    rk[2] := GsrkWord(x[2], y[(q + 2) % 4], y[(q + 1) % 4], r);
    rk[3] := GsrkWord(x[3], y[(q + 3) % 4], y[(q + 2) % 4], r);
    WordsThenFunnels(y, m);
    GsrkWordsAre(x, RotateWords(y, m / 32), r);
  }

  lemma AmountModulo128(n: nat, m: nat)
    requires n < 160 && m == n % 128
    ensures m % 32 == n % 32 && (4 - n / 32) % 4 == (4 - m / 32) % 4
  {
  }

  lemma SourceWords(y: seq<U32>, q: nat, k: nat)
    requires |y| == 4 && k < 4 && q % 4 == (4 - k) % 4
    ensures RotateWords(y, k) == [y[q % 4], y[(q + 1) % 4], y[(q + 2) % 4], y[(q + 3) % 4]]
  {
  }
}
