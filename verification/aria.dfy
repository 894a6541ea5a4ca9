/** The substitution and diffusion layers of ARIA (crypto/aria.h). The code looks bytes up in
    tables that already spread each substituted byte over three bytes of a word, then mixes whole
    words; the specification is the byte-level one of RFC 5794. The proof runs the code on rows
    of a 16 x 16 matrix over GF(2) alongside the words: a row is the set of substituted bytes, as
    a bit mask, whose sum is one byte of the state. */
module Aria {
  import opened Words

  // ----- words made of bytes -----

  /** `make_u32`: the big-endian word of four bytes. */
  function MakeWord(v0: Byte, v1: Byte, v2: Byte, v3: Byte): U32 {
    ((v0 * 0x100 + v1) * 0x100 + v2) * 0x100 + v3
  }

  /** `get_u8`: byte y of a word, 0 the most significant. */
  function GetByte(x: U32, y: nat): Byte
    requires y < 4
  {
    if y == 0 then x / 0x100_0000
    else if y == 1 then (x / 0x1_0000) % 0x100
    else if y == 2 then (x / 0x100) % 0x100
    else x % 0x100
  }

  lemma BytesOfMade(v0: Byte, v1: Byte, v2: Byte, v3: Byte)
    ensures var w := MakeWord(v0, v1, v2, v3);
      GetByte(w, 0) == v0 && GetByte(w, 1) == v1 && GetByte(w, 2) == v2 && GetByte(w, 3) == v3
  {
    var w := MakeWord(v0, v1, v2, v3);
    assert w / 0x100 == (v0 * 0x100 + v1) * 0x100 + v2;
    assert w / 0x1_0000 == v0 * 0x100 + v1;
    assert w / 0x100_0000 == v0;
  }

  function AndByte(x: Byte, y: Byte): Byte { And(x, y) }

  lemma XorAppend(x: nat, a: Byte, y: nat, b: Byte, z: nat)
    requires z == Xor(x, y)
    ensures Xor(x * 0x100 + a, y * 0x100 + b) == z * 0x100 + XorByte(a, b)
  {
    assert Pow2(8) == 0x100;
    XorSplit(x, a, y, b, 8);
  }

  lemma AndAppend(x: nat, a: Byte, y: nat, b: Byte, z: nat)
    requires z == And(x, y)
    ensures And(x * 0x100 + a, y * 0x100 + b) == z * 0x100 + AndByte(a, b)
  {
    assert Pow2(8) == 0x100;
    AndSplit(x, a, y, b, 8);
  }

  /** The bitwise operators work byte by byte. */
  lemma XorOfMade(a0: Byte, a1: Byte, a2: Byte, a3: Byte, b0: Byte, b1: Byte, b2: Byte, b3: Byte)
    ensures Xor(MakeWord(a0, a1, a2, a3), MakeWord(b0, b1, b2, b3))
         == MakeWord(XorByte(a0, b0), XorByte(a1, b1), XorByte(a2, b2), XorByte(a3, b3))
  {
    var z0: nat, z1: nat, z2: nat := XorByte(a0, b0), XorByte(a1, b1), XorByte(a2, b2);
    XorAppend(a0, a1, b0, b1, z0);
    XorAppend(a0 * 0x100 + a1, a2, b0 * 0x100 + b1, b2, z0 * 0x100 + z1);
    XorAppend((a0 * 0x100 + a1) * 0x100 + a2, a3, (b0 * 0x100 + b1) * 0x100 + b2, b3, (z0 * 0x100 + z1) * 0x100 + z2);
  }

  lemma AndOfMade(a0: Byte, a1: Byte, a2: Byte, a3: Byte, b0: Byte, b1: Byte, b2: Byte, b3: Byte)
    ensures And(MakeWord(a0, a1, a2, a3), MakeWord(b0, b1, b2, b3))
         == MakeWord(AndByte(a0, b0), AndByte(a1, b1), AndByte(a2, b2), AndByte(a3, b3))
  {
    var z0: nat, z1: nat, z2: nat := AndByte(a0, b0), AndByte(a1, b1), AndByte(a2, b2);
    AndAppend(a0, a1, b0, b1, z0);
    AndAppend(a0 * 0x100 + a1, a2, b0 * 0x100 + b1, b2, z0 * 0x100 + z1);
    AndAppend((a0 * 0x100 + a1) * 0x100 + a2, a3, (b0 * 0x100 + b1) * 0x100 + b2, b3, (z0 * 0x100 + z1) * 0x100 + z2);
  }

  function XorWord(x: U32, y: U32): U32 {
    BitwiseOfWords(x, y);
    Xor(x, y)
  }

  // ----- the byte permutations inside a word -----

  function ShiftLeft8(v: U32): U32 { Wrap32(v * 0x100) }

  /** The exchange of neighbouring bytes in `aria_diff_byte`. */
  function SwapPairs(v: U32): U32 {
    XorWord(And(ShiftLeft8(v), 0xff00_ff00), And(v / 0x100, 0x00ff_00ff))
  }

  /** `rotr32(v, 16)`. */
  function RotateHalves(v: U32): U32 {
    BitwiseOfWords(v / 0x1_0000, Wrap32(v * 0x1_0000));
    Or(v / 0x1_0000, Wrap32(v * 0x1_0000))
  }

  /** `bswap32`. */
  function SwapBytes(v: U32): U32 {
    XorWord(XorWord(XorWord(Wrap32(v * 0x100_0000), v / 0x100_0000),
                    Wrap32(And(v, 0x0000_ff00) * 0x100)),
            And(v, 0x00ff_0000) / 0x100)
  }

  /** Masking a word with 0xff or 0x00 in each byte keeps or clears that byte. */
  lemma MaskBytes(a: Byte, b: Byte, c: Byte, d: Byte, ka: bool, kb: bool, kc: bool, kd: bool)
    ensures And(MakeWord(a, b, c, d), MakeWord(Ones(ka), Ones(kb), Ones(kc), Ones(kd)))
         == MakeWord(Kept(a, ka), Kept(b, kb), Kept(c, kc), Kept(d, kd))
  {
    AndOfMade(a, b, c, d, Ones(ka), Ones(kb), Ones(kc), Ones(kd));
    MaskByte(a, ka); MaskByte(b, kb); MaskByte(c, kc); MaskByte(d, kd);
  }

  function Ones(keep: bool): Byte { if keep then 0xff else 0 }

  function Kept(b: Byte, keep: bool): Byte { if keep then b else 0 }

  lemma MaskByte(b: Byte, keep: bool)
    ensures AndByte(b, Ones(keep)) == Kept(b, keep)
  {
    assert Pow2(8) == 0x100;
    AndLowMask(b, 8);
  }

  /** Exclusive or of two words that have no byte in common. */
  lemma MergeBytes(a: Byte, b: Byte, c: Byte, d: Byte, ka: bool, kb: bool, kc: bool, kd: bool)
    ensures var x := MakeWord(Kept(a, ka), Kept(b, kb), Kept(c, kc), Kept(d, kd));
      var y := MakeWord(Kept(a, !ka), Kept(b, !kb), Kept(c, !kc), Kept(d, !kd));
      XorWord(x, y) == MakeWord(a, b, c, d)
  {
    XorOfMade(Kept(a, ka), Kept(b, kb), Kept(c, kc), Kept(d, kd),
      Kept(a, !ka), Kept(b, !kb), Kept(c, !kc), Kept(d, !kd));
    MergeByte(a, ka); MergeByte(b, kb); MergeByte(c, kc); MergeByte(d, kd);
  }

  lemma MergeByte(b: Byte, keep: bool)
    ensures XorByte(Kept(b, keep), Kept(b, !keep)) == b
  {
  }

  lemma ShiftUp(top: Byte, low: nat)
    requires low < TWO32
    ensures Wrap32(top * TWO32 + low) == low
  {
  }

  lemma ShiftsBy8(a: Byte, b: Byte, c: Byte, d: Byte)
    ensures ShiftLeft8(MakeWord(a, b, c, d)) == MakeWord(b, c, d, 0)
    ensures MakeWord(a, b, c, d) / 0x100 == MakeWord(0, a, b, c)
  {
    assert MakeWord(a, b, c, d) as int * 0x100 == a * TWO32 + MakeWord(b, c, d, 0);
    ShiftUp(a, MakeWord(b, c, d, 0));
  }

  lemma ShiftsBy16(a: Byte, b: Byte, c: Byte, d: Byte)
    ensures Wrap32(MakeWord(a, b, c, d) * 0x1_0000) == MakeWord(c, d, 0, 0)
    ensures MakeWord(a, b, c, d) / 0x1_0000 == MakeWord(0, 0, a, b)
  {
    var v: int, high, low := MakeWord(a, b, c, d), a * 0x100 + b, c * 0x100 + d;
    DivideUnique(v, 0x1_0000, high, low);
    DivideUnique(v * 0x1_0000, TWO32, high, low * 0x1_0000);
  }

  lemma ShiftsBy24(a: Byte, b: Byte, c: Byte, d: Byte)
    ensures Wrap32(MakeWord(a, b, c, d) * 0x100_0000) == MakeWord(d, 0, 0, 0)
    ensures MakeWord(a, b, c, d) / 0x100_0000 == MakeWord(0, 0, 0, a)
  {
    var v: int, low := MakeWord(a, b, c, d), (b * 0x100 + c) * 0x100 + d;
    DivideUnique(v, 0x100_0000, a, low);
    DivideUnique(v * 0x100_0000, TWO32, (a * 0x100 + b) * 0x100 + c, d * 0x100_0000);
  }

  lemma ShiftsOfMade(a: Byte, b: Byte, c: Byte, d: Byte)
    ensures var v := MakeWord(a, b, c, d);
      && ShiftLeft8(v) == MakeWord(b, c, d, 0) && v / 0x100 == MakeWord(0, a, b, c)
      && Wrap32(v * 0x1_0000) == MakeWord(c, d, 0, 0) && v / 0x1_0000 == MakeWord(0, 0, a, b)
      && Wrap32(v * 0x100_0000) == MakeWord(d, 0, 0, 0) && v / 0x100_0000 == MakeWord(0, 0, 0, a)
  {
    ShiftsBy8(a, b, c, d);
    ShiftsBy16(a, b, c, d);
    ShiftsBy24(a, b, c, d);
  }

  lemma SwapPairsMoves(a: Byte, b: Byte, c: Byte, d: Byte)
    ensures SwapPairs(MakeWord(a, b, c, d)) == MakeWord(b, a, d, c)
  {
    ShiftsOfMade(a, b, c, d);
    MaskBytes(b, c, d, 0, true, false, true, false);
    MaskBytes(0, a, b, c, false, true, false, true);
    MergeBytes(b, a, d, c, true, false, true, false);
  }

  lemma RotateHalvesMoves(a: Byte, b: Byte, c: Byte, d: Byte)
    ensures RotateHalves(MakeWord(a, b, c, d)) == MakeWord(c, d, a, b)
  {
    ShiftsBy16(a, b, c, d);
    Pow2Values();
    OrAbove(a * 0x100 + b, c * 0x100 + d, 16);
  }

  lemma SwapBytesMoves(a: Byte, b: Byte, c: Byte, d: Byte)
    ensures SwapBytes(MakeWord(a, b, c, d)) == MakeWord(d, c, b, a)
  {
    ShiftsOfMade(a, b, c, d);
    MaskBytes(a, b, c, d, false, false, true, false);
    MaskBytes(a, b, c, d, false, true, false, false);
    ShiftsOfMade(0, 0, c, 0);
    ShiftsOfMade(0, b, 0, 0);
    MergeBytes(d, 0, 0, a, true, true, true, false);
    MergeBytes(d, c, 0, a, true, false, true, true);
    MergeBytes(d, c, b, a, true, true, false, true);
  }

  // ----- sums of bytes selected by masks -----

  /** Exclusive or of the bytes x[j] whose bit j is set in the mask. */
  function Sum(x: seq<Byte>, mask: bv64): Byte {
    if |x| == 0 then 0
    else XorByte(if mask & 1 == 1 then x[0] else 0, Sum(x[1..], mask >> 1))
  }

  lemma SumXor(x: seq<Byte>, m: bv64, n: bv64)
    ensures Sum(x, m ^ n) == XorByte(Sum(x, m), Sum(x, n))
  {
    SumOfXor(x, m, n, m ^ n);
  }

  lemma {:induction false} SumOfXor(x: seq<Byte>, m: bv64, n: bv64, both: bv64)
    requires both == m ^ n
    ensures Sum(x, both) == XorByte(Sum(x, m), Sum(x, n))
  {
    if |x| > 0 {
      ShiftXor(m, n, both);
      SumOfXor(x[1..], m >> 1, n >> 1, both >> 1);
      AddFirst(x, m, n, both, Sum(x[1..], m >> 1), Sum(x[1..], n >> 1));
    }
  }

  lemma ShiftXor(m: bv64, n: bv64, both: bv64)
    requires both == m ^ n
    ensures both >> 1 == (m >> 1) ^ (n >> 1)
    ensures both & 1 == 1 <==> (m & 1 == 1) != (n & 1 == 1)
  {
  }

  lemma AddFirst(x: seq<Byte>, m: bv64, n: bv64, both: bv64, s: Byte, t: Byte)
    requires |x| > 0 && (both & 1 == 1 <==> (m & 1 == 1) != (n & 1 == 1))
    requires Sum(x[1..], m >> 1) == s && Sum(x[1..], n >> 1) == t && Sum(x[1..], both >> 1) == XorByte(s, t)
    ensures Sum(x, both) == XorByte(Sum(x, m), Sum(x, n))
  {
    var a := if m & 1 == 1 then x[0] else 0;
    var b := if n & 1 == 1 then x[0] else 0;
    Medial(a, s, b, t);
    XorSelf(x[0]);
    XorZeroRight(x[0]);
  }

  lemma Medial(a: Byte, b: Byte, c: Byte, d: Byte)
    ensures XorByte(XorByte(a, b), XorByte(c, d)) == XorByte(XorByte(a, c), XorByte(b, d))
  {
    XorAssociates(a, b, XorByte(c, d));
    XorAssociates(b, c, d);
    XorCommutes(b, c);
    XorAssociates(c, b, d);
    XorAssociates(a, c, XorByte(b, d));
  }

  lemma SumOfNothing(x: seq<Byte>)
    ensures Sum(x, 0) == 0
  {
    SumOfZeroMask(x, 0);
  }

  lemma {:induction false} SumOfZeroMask(x: seq<Byte>, mask: bv64)
    requires mask == 0
    ensures Sum(x, mask) == 0
  {
    if |x| > 0 { SumOfZeroMask(x[1..], mask >> 1); }
  }

  /** The mask of one byte. */
  function Bit(j: nat): bv64 {
    if j == 0 then 1 else Bit(j - 1) << 1
  }

  lemma BitTable(j: nat)
    requires 0 < j < 16
    ensures Bit(j) >> 1 == Bit(j - 1) && Bit(j) & 1 == 0
    ensures Bit(0) == 0x1 && Bit(1) == 0x2 && Bit(2) == 0x4 && Bit(3) == 0x8
    ensures Bit(4) == 0x10 && Bit(5) == 0x20 && Bit(6) == 0x40 && Bit(7) == 0x80
    ensures Bit(8) == 0x100 && Bit(9) == 0x200 && Bit(10) == 0x400 && Bit(11) == 0x800
    ensures Bit(12) == 0x1000 && Bit(13) == 0x2000 && Bit(14) == 0x4000 && Bit(15) == 0x8000
  {
    assert Bit(1) == 0x2 && Bit(2) == 0x4 && Bit(3) == 0x8 && Bit(4) == 0x10 && Bit(5) == 0x20;
    assert Bit(6) == 0x40 && Bit(7) == 0x80 && Bit(8) == 0x100 && Bit(9) == 0x200 && Bit(10) == 0x400;
    assert Bit(11) == 0x800 && Bit(12) == 0x1000 && Bit(13) == 0x2000 && Bit(14) == 0x4000;
    assert Bit(15) == 0x8000;
  }

  lemma SumOfBit(x: seq<Byte>, j: nat)
    requires j < |x| && j < 16
    ensures Sum(x, Bit(j)) == x[j]
  {
    SumOfOneBit(x, j, Bit(j));
  }

  lemma {:induction false} SumOfOneBit(x: seq<Byte>, j: nat, mask: bv64)
    requires j < |x| && j < 16 && mask == Bit(j)
    ensures Sum(x, mask) == x[j]
  {
    if j > 0 {
      ShiftBit(j, mask);
      SumOfOneBit(x[1..], j - 1, mask >> 1);
    } else {
      SumOfZeroMask(x[1..], mask >> 1);
      XorZeroRight(x[0]);
    }
  }

  lemma ShiftBit(j: nat, mask: bv64)
    requires 0 < j < 16 && mask == Bit(j)
    ensures mask >> 1 == Bit(j - 1) && mask & 1 == 0
  {
    BitTable(j);
  }

  // ----- the specification: RFC 5794 -----

  /** A list of byte positions. */
  datatype Taps = End | Tap(j: nat, rest: Taps)

  predicate Valid(t: Taps) { t.Tap? ==> t.j < 16 && Valid(t.rest) }

  function Seven(a: nat, b: nat, c: nat, d: nat, e: nat, f: nat, g: nat): Taps {
    Tap(a, Tap(b, Tap(c, Tap(d, Tap(e, Tap(f, Tap(g, End)))))))
  }

  /** Section 2.4.3 of RFC 5794: the bytes whose sum is byte i of the diffused block. */
  function TapsOf(i: nat): (t: Taps)
    requires i < 16
    ensures Valid(t)
  {
    if i == 0 then Seven(3, 4, 6, 8, 9, 13, 14)
    else if i == 1 then Seven(2, 5, 7, 8, 9, 12, 15)
    else if i == 2 then Seven(1, 4, 6, 10, 11, 12, 15)
    else if i == 3 then Seven(0, 5, 7, 10, 11, 13, 14)
    else if i == 4 then Seven(0, 2, 5, 8, 11, 14, 15)
    else if i == 5 then Seven(1, 3, 4, 9, 10, 14, 15)
    else if i == 6 then Seven(0, 2, 7, 9, 10, 12, 13)
    else if i == 7 then Seven(1, 3, 6, 8, 11, 12, 13)
    else if i == 8 then Seven(0, 1, 4, 7, 10, 13, 15)
    else if i == 9 then Seven(0, 1, 5, 6, 11, 12, 14)
    else if i == 10 then Seven(2, 3, 5, 6, 8, 13, 15)
    else if i == 11 then Seven(2, 3, 4, 7, 9, 12, 14)
    else if i == 12 then Seven(1, 2, 6, 7, 9, 11, 12)
    else if i == 13 then Seven(0, 3, 6, 7, 8, 10, 13)
    else if i == 14 then Seven(0, 3, 4, 5, 9, 11, 14)
    else Seven(1, 2, 4, 5, 8, 10, 15)
  }

  function XorAt(x: seq<Byte>, t: Taps): Byte
    requires |x| == 16 && Valid(t)
  {
    if t.End? then 0 else XorByte(x[t.j], XorAt(x, t.rest))
  }

  /** The diffusion layer A. */
  function Diffuse(x: seq<Byte>): (y: seq<Byte>)
    requires |x| == 16
    ensures |y| == 16
  {
    seq(16, i requires 0 <= i < 16 => XorAt(x, TapsOf(i)))
  }

  function MaskOf(t: Taps): bv64 {
    if t.End? then 0 else Bit(t.j) ^ MaskOf(t.rest)
  }

  lemma {:induction false} SumOfMask(x: seq<Byte>, t: Taps)
    requires |x| == 16 && Valid(t)
    ensures Sum(x, MaskOf(t)) == XorAt(x, t)
  {
    if t.End? {
      SumOfNothing(x);
    } else {
      SumOfMask(x, t.rest);
      SumOfBit(x, t.j);
      SumXor(x, Bit(t.j), MaskOf(t.rest));
    }
  }

  /** Row i of the matrix of A. */
  function Row(i: nat): bv64 {
    if i == 0 then 0x6358
    else if i == 1 then 0x93a4
    else if i == 2 then 0x9c52
    else if i == 3 then 0x6ca1
    else if i == 4 then 0xc925
    else if i == 5 then 0xc61a
    else if i == 6 then 0x3685
    else if i == 7 then 0x394a
    else if i == 8 then 0xa493
    else if i == 9 then 0x5863
    else if i == 10 then 0xa16c
    else if i == 11 then 0x529c
    else if i == 12 then 0x1ac6
    else if i == 13 then 0x25c9
    else if i == 14 then 0x4a39
    else 0x8536
  }

  lemma RowIsMask(i: nat)
    requires i < 16
    ensures Row(i) == MaskOf(TapsOf(i))
  {
    assert MaskOf(Seven(3, 4, 6, 8, 9, 13, 14)) == 0x6358;
    assert MaskOf(Seven(2, 5, 7, 8, 9, 12, 15)) == 0x93a4;
    assert MaskOf(Seven(1, 4, 6, 10, 11, 12, 15)) == 0x9c52;
    assert MaskOf(Seven(0, 5, 7, 10, 11, 13, 14)) == 0x6ca1;
    assert MaskOf(Seven(0, 2, 5, 8, 11, 14, 15)) == 0xc925;
    assert MaskOf(Seven(1, 3, 4, 9, 10, 14, 15)) == 0xc61a;
    assert MaskOf(Seven(0, 2, 7, 9, 10, 12, 13)) == 0x3685;
    assert MaskOf(Seven(1, 3, 6, 8, 11, 12, 13)) == 0x394a;
    assert MaskOf(Seven(0, 1, 4, 7, 10, 13, 15)) == 0xa493;
    assert MaskOf(Seven(0, 1, 5, 6, 11, 12, 14)) == 0x5863;
    assert MaskOf(Seven(2, 3, 5, 6, 8, 13, 15)) == 0xa16c;
    assert MaskOf(Seven(2, 3, 4, 7, 9, 12, 14)) == 0x529c;
    assert MaskOf(Seven(1, 2, 6, 7, 9, 11, 12)) == 0x1ac6;
    assert MaskOf(Seven(0, 3, 6, 7, 8, 10, 13)) == 0x25c9;
    assert MaskOf(Seven(0, 3, 4, 5, 9, 11, 14)) == 0x4a39;
    assert MaskOf(Seven(1, 2, 4, 5, 8, 10, 15)) == 0x8536;
  }

  function Fold<T>(op: (T, T) -> T, zero: T, f: nat -> T, t: Taps): T {
    if t.End? then zero else op(f(t.j), Fold(op, zero, f, t.rest))
  }

  lemma FoldSeven<T>(op: (T, T) -> T, zero: T, r: nat -> T, a: nat, b: nat, c: nat, d: nat, e: nat, f: nat, g: nat)
    ensures Fold(op, zero, r, Seven(a, b, c, d, e, f, g))
         == op(r(a), op(r(b), op(r(c), op(r(d), op(r(e), op(r(f), op(r(g), zero)))))))
  {
    var t := Tap(f, Tap(g, End));
    assert Fold(op, zero, r, End) == zero && Fold(op, zero, r, Tap(g, End)) == op(r(g), zero);
    assert Fold(op, zero, r, t) == op(r(f), op(r(g), zero));
    assert Fold(op, zero, r, Tap(d, Tap(e, t))) == op(r(d), op(r(e), op(r(f), op(r(g), zero))));
    assert Fold(op, zero, r, Tap(b, Tap(c, Tap(d, Tap(e, t)))))
        == op(r(b), op(r(c), op(r(d), op(r(e), op(r(f), op(r(g), zero))))));
  }

  function XorMask(m: bv64, n: bv64): bv64 { m ^ n }

  /** Sum of the rows of A that a list selects. */
  function RowsAt(t: Taps): bv64 { Fold(XorMask, 0, Row, t) }

  lemma {:induction false} SumOfRows(x: seq<Byte>, y: seq<Byte>, t: Taps)
    requires |y| == 16 && Valid(t)
    requires forall j :: 0 <= j < 16 ==> y[j] == Sum(x, Row(j))
    ensures XorAt(y, t) == Sum(x, RowsAt(t))
  {
    if t.End? {
      SumOfNothing(x);
    } else {
      SumOfRows(x, y, t.rest);
      SumXor(x, Row(t.j), RowsAt(t.rest));
    }
  }

  lemma DiffuseIsRow(x: seq<Byte>, i: nat)
    requires |x| == 16 && i < 16
    ensures Diffuse(x)[i] == Sum(x, Row(i))
  {
    SumOfMask(x, TapsOf(i));
    RowIsMask(i);
  }

  /** The square of the matrix of A is the identity. */
  lemma SquareIsIdentity(i: nat)
    requires i < 16
    ensures RowsAt(TapsOf(i)) == Bit(i)
  {
    BitTable(15);
    if i == 0 { FoldSeven(XorMask, 0, Row, 3, 4, 6, 8, 9, 13, 14); }
    if i == 1 { FoldSeven(XorMask, 0, Row, 2, 5, 7, 8, 9, 12, 15); }
    if i == 2 { FoldSeven(XorMask, 0, Row, 1, 4, 6, 10, 11, 12, 15); }
    if i == 3 { FoldSeven(XorMask, 0, Row, 0, 5, 7, 10, 11, 13, 14); }
    if i == 4 { FoldSeven(XorMask, 0, Row, 0, 2, 5, 8, 11, 14, 15); }
    if i == 5 { FoldSeven(XorMask, 0, Row, 1, 3, 4, 9, 10, 14, 15); }
    if i == 6 { FoldSeven(XorMask, 0, Row, 0, 2, 7, 9, 10, 12, 13); }
    if i == 7 { FoldSeven(XorMask, 0, Row, 1, 3, 6, 8, 11, 12, 13); }
    if i == 8 { FoldSeven(XorMask, 0, Row, 0, 1, 4, 7, 10, 13, 15); }
    if i == 9 { FoldSeven(XorMask, 0, Row, 0, 1, 5, 6, 11, 12, 14); }
    if i == 10 { FoldSeven(XorMask, 0, Row, 2, 3, 5, 6, 8, 13, 15); }
    if i == 11 { FoldSeven(XorMask, 0, Row, 2, 3, 4, 7, 9, 12, 14); }
    if i == 12 { FoldSeven(XorMask, 0, Row, 1, 2, 6, 7, 9, 11, 12); }
    if i == 13 { FoldSeven(XorMask, 0, Row, 0, 3, 6, 7, 8, 10, 13); }
    if i == 14 { FoldSeven(XorMask, 0, Row, 0, 3, 4, 5, 9, 11, 14); }
    if i == 15 { FoldSeven(XorMask, 0, Row, 1, 2, 4, 5, 8, 10, 15); }
  }

  /** A is its own inverse. */
  lemma DiffuseIsInvolution(x: seq<Byte>)
    requires |x| == 16
    ensures Diffuse(Diffuse(x)) == x
  {
    forall j | 0 <= j < 16
      ensures Diffuse(x)[j] == Sum(x, Row(j))
    {
      DiffuseIsRow(x, j);
    }
    forall i | 0 <= i < 16
      ensures Diffuse(Diffuse(x))[i] == x[i]
    {
      SumOfRows(x, Diffuse(x), TapsOf(i));
      SquareIsIdentity(i);
      SumOfBit(x, i);
    }
  }

  // ----- the rows of a word -----

  /** A word whose bytes are picked by four 16-bit masks packed in one word, the mask of the most
      significant byte on top. */
  function Pick(f: bv64 -> Byte, rows: bv64): U32 {
    MakeWord(f(rows >> 48), f((rows >> 32) & 0xffff), f((rows >> 16) & 0xffff), f(rows & 0xffff))
  }

  /** Addition of masks adds what they pick. */
  ghost predicate Linear(f: bv64 -> Byte) {
    forall m, n {:trigger f(XorMask(m, n))} :: f(XorMask(m, n)) == XorByte(f(m), f(n))
  }

  lemma XorOfRows(f: bv64 -> Byte, a: bv64, b: bv64)
    requires Linear(f)
    ensures XorWord(Pick(f, a), Pick(f, b)) == Pick(f, a ^ b)
  {
    LanesOfXor(a, b);
    assert f(XorMask(a >> 48, b >> 48)) == f((a ^ b) >> 48);
    assert f(XorMask((a >> 32) & 0xffff, (b >> 32) & 0xffff)) == f(((a ^ b) >> 32) & 0xffff);
    assert f(XorMask((a >> 16) & 0xffff, (b >> 16) & 0xffff)) == f(((a ^ b) >> 16) & 0xffff);
    assert f(XorMask(a & 0xffff, b & 0xffff)) == f((a ^ b) & 0xffff);
    XorOfMade(f(a >> 48), f((a >> 32) & 0xffff), f((a >> 16) & 0xffff), f(a & 0xffff),
      f(b >> 48), f((b >> 32) & 0xffff), f((b >> 16) & 0xffff), f(b & 0xffff));
  }

  lemma LanesOfXor(a: bv64, b: bv64)
    ensures (a ^ b) >> 48 == (a >> 48) ^ (b >> 48)
    ensures ((a ^ b) >> 32) & 0xffff == ((a >> 32) & 0xffff) ^ ((b >> 32) & 0xffff)
    ensures ((a ^ b) >> 16) & 0xffff == ((a >> 16) & 0xffff) ^ ((b >> 16) & 0xffff)
    ensures (a ^ b) & 0xffff == (a & 0xffff) ^ (b & 0xffff)
  {
  }

  function SwapLanes(a: bv64): bv64 {
    ((a & 0x0000_ffff_0000_ffff) << 16) | ((a >> 16) & 0x0000_ffff_0000_ffff)
  }

  function RotateLanes(a: bv64): bv64 { (a << 32) | (a >> 32) }

  function ReverseLanes(a: bv64): bv64 { SwapLanes(RotateLanes(a)) }

  lemma SwapLanesMoves(a: bv64)
    ensures SwapLanes(a) >> 48 == (a >> 32) & 0xffff && (SwapLanes(a) >> 32) & 0xffff == a >> 48
    ensures (SwapLanes(a) >> 16) & 0xffff == a & 0xffff && SwapLanes(a) & 0xffff == (a >> 16) & 0xffff
  {
  }

  lemma RotateLanesMoves(a: bv64)
    ensures RotateLanes(a) >> 48 == (a >> 16) & 0xffff && (RotateLanes(a) >> 32) & 0xffff == a & 0xffff
    ensures (RotateLanes(a) >> 16) & 0xffff == a >> 48 && RotateLanes(a) & 0xffff == (a >> 32) & 0xffff
  {
  }

  lemma SwapPairsOfRows(f: bv64 -> Byte, a: bv64)
    ensures SwapPairs(Pick(f, a)) == Pick(f, SwapLanes(a))
  {
    SwapPairsMoves(f(a >> 48), f((a >> 32) & 0xffff), f((a >> 16) & 0xffff), f(a & 0xffff));
    SwapLanesMoves(a);
  }

  lemma RotateHalvesOfRows(f: bv64 -> Byte, a: bv64)
    ensures RotateHalves(Pick(f, a)) == Pick(f, RotateLanes(a))
  {
    RotateHalvesMoves(f(a >> 48), f((a >> 32) & 0xffff), f((a >> 16) & 0xffff), f(a & 0xffff));
    RotateLanesMoves(a);
  }

  lemma SwapBytesOfRows(f: bv64 -> Byte, a: bv64)
    ensures SwapBytes(Pick(f, a)) == Pick(f, ReverseLanes(a))
  {
    SwapBytesMoves(f(a >> 48), f((a >> 32) & 0xffff), f((a >> 16) & 0xffff), f(a & 0xffff));
    SwapLanesMoves(RotateLanes(a));
    RotateLanesMoves(a);
  }

  /** What the words of the state are in terms of the bytes of z. */
  function Summing(z: seq<Byte>): bv64 -> Byte { mask => Sum(z, mask) }

  lemma SummingIsLinear(z: seq<Byte>)
    ensures Linear(Summing(z))
  {
    forall m, n
      ensures Summing(z)(XorMask(m, n)) == XorByte(Summing(z)(m), Summing(z)(n))
    {
      SumXor(z, m, n);
    }
  }

  function Word(z: seq<Byte>, rows: bv64): U32 { Pick(Summing(z), rows) }

  /** Rows of word w after the first substitution layer, whose tables leave out bytes 0, 1, 2, 3 in turn. */
  function OddLayerRows(w: nat): bv64 {
    if w == 0 then 0x000e_000d_000b_0007
    else if w == 1 then 0x00e0_00d0_00b0_0070
    else if w == 2 then 0x0e00_0d00_0b00_0700
    else 0xe000_d000_b000_7000
  }

  /** The same after the second, where the tables come in the order x1, x2, s1, s2. */
  function EvenLayerRows(w: nat): bv64 {
    if w == 0 then 0x000b_0007_000e_000d
    else if w == 1 then 0x00b0_0070_00e0_00d0
    else if w == 2 then 0x0b00_0700_0e00_0d00
    else 0xb000_7000_e000_d000
  }

  /** Rows of word w of A. */
  function DiffusedRows(w: nat): bv64 {
    if w == 0 then 0x6358_93a4_9c52_6ca1
    else if w == 1 then 0xc925_c61a_3685_394a
    else if w == 2 then 0xa493_5863_a16c_529c
    else 0x1ac6_25c9_4a39_8536
  }

  // ----- the substitution layers -----

  /** The four byte substitutions. */
  datatype Boxes = Boxes(s1: Byte -> Byte, s2: Byte -> Byte, x1: Byte -> Byte, x2: Byte -> Byte)

  /** Entries of the tables `s1`, `s2`, `x1` and `x2`: the substituted byte three times. */
  function TableS1(boxes: Boxes, b: Byte): U32 { SpreadS1(boxes.s1(b)) }
  function TableS2(boxes: Boxes, b: Byte): U32 { SpreadS2(boxes.s2(b)) }
  function TableX1(boxes: Boxes, b: Byte): U32 { SpreadX1(boxes.x1(b)) }
  function TableX2(boxes: Boxes, b: Byte): U32 { SpreadX2(boxes.x2(b)) }

  function SpreadS1(v: Byte): U32 { MakeWord(0, v, v, v) }
  function SpreadS2(v: Byte): U32 { MakeWord(v, 0, v, v) }
  function SpreadX1(v: Byte): U32 { MakeWord(v, v, 0, v) }
  function SpreadX2(v: Byte): U32 { MakeWord(v, v, v, 0) }

  function OddLookup(boxes: Boxes, v: U32): U32 {
    XorWord(XorWord(XorWord(TableS1(boxes, GetByte(v, 0)), TableS2(boxes, GetByte(v, 1))),
                    TableX1(boxes, GetByte(v, 2))),
            TableX2(boxes, GetByte(v, 3)))
  }

  function EvenLookup(boxes: Boxes, v: U32): U32 {
    XorWord(XorWord(XorWord(TableX1(boxes, GetByte(v, 0)), TableX2(boxes, GetByte(v, 1))),
                    TableS1(boxes, GetByte(v, 2))),
            TableS2(boxes, GetByte(v, 3)))
  }

  function StateBytes(t: seq<U32>): (x: seq<Byte>)
    requires |t| == 4
    ensures |x| == 16
  {
    seq(16, i requires 0 <= i < 16 => GetByte(t[i / 4], i % 4))
  }

  function BoxAt(boxes: Boxes, c: nat): Byte -> Byte {
    if c % 4 == 0 then boxes.s1 else if c % 4 == 1 then boxes.s2
    else if c % 4 == 2 then boxes.x1 else boxes.x2
  }

  /** Substitution layers SL1 (shift 0) and SL2 (shift 2), section 2.4.2 of RFC 5794. */
  function Substitute(boxes: Boxes, shift: nat, x: seq<Byte>): (z: seq<Byte>)
    requires |x| == 16
    ensures |z| == 16
  {
    seq(16, i requires 0 <= i < 16 => BoxAt(boxes, i + shift)(x[i]))
  }

  /** Byte by byte: SL1 takes the boxes in the order s1, s2, x1, x2, and SL2 in the order x1, x2, s1, s2. */
  lemma LayerByte(boxes: Boxes, x: seq<Byte>, i: nat)
    requires |x| == 16 && i < 16
    ensures var one, two := Substitute(boxes, 0, x)[i], Substitute(boxes, 2, x)[i];
      && (i in {0, 4, 8, 12} ==> one == boxes.s1(x[i]) && two == boxes.x1(x[i]))
      && (i in {1, 5, 9, 13} ==> one == boxes.s2(x[i]) && two == boxes.x2(x[i]))
      && (i in {2, 6, 10, 14} ==> one == boxes.x1(x[i]) && two == boxes.s1(x[i]))
      && (i in {3, 7, 11, 15} ==> one == boxes.x2(x[i]) && two == boxes.s2(x[i]))
  {
    assert Substitute(boxes, 0, x)[i] == BoxAt(boxes, i)(x[i]);
    assert Substitute(boxes, 2, x)[i] == BoxAt(boxes, i + 2)(x[i]);
  }

  function OddMerged(a: Byte, b: Byte, c: Byte, d: Byte): U32 {
    XorWord(XorWord(XorWord(SpreadS1(a), SpreadS2(b)), SpreadX1(c)), SpreadX2(d))
  }

  function EvenMerged(a: Byte, b: Byte, c: Byte, d: Byte): U32 {
    XorWord(XorWord(XorWord(SpreadX1(a), SpreadX2(b)), SpreadS1(c)), SpreadS2(d))
  }

  function XorThree(a: Byte, b: Byte, c: Byte): Byte { XorByte(a, XorByte(b, c)) }

  /** A chain of four exclusive ors in which one operand is zero. */
  lemma ChainWithZero(a: Byte, b: Byte, c: Byte)
    ensures XorByte(XorByte(XorByte(0, a), b), c) == XorThree(a, b, c)
    ensures XorByte(XorByte(XorByte(a, 0), b), c) == XorThree(a, b, c)
    ensures XorByte(XorByte(XorByte(a, b), 0), c) == XorThree(a, b, c)
    ensures XorByte(XorByte(XorByte(a, b), c), 0) == XorThree(a, b, c)
  {
    XorAssociates(a, b, c);
    XorZeroRight(a);
    XorZeroRight(XorByte(a, b));
    XorZeroRight(XorByte(XorByte(a, b), c));
  }

  lemma OddMergedBytes(a: Byte, b: Byte, c: Byte, d: Byte)
    ensures OddMerged(a, b, c, d)
         == MakeWord(XorThree(b, c, d), XorThree(a, c, d), XorThree(a, b, d), XorThree(a, b, c))
  {
    XorOfMade(0, a, a, a, b, 0, b, b);
    XorOfMade(XorByte(0, b), XorByte(a, 0), XorByte(a, b), XorByte(a, b), c, c, 0, c);
    XorOfMade(XorByte(XorByte(0, b), c), XorByte(XorByte(a, 0), c), XorByte(XorByte(a, b), 0),
      XorByte(XorByte(a, b), c), d, d, d, 0);
    ChainWithZero(b, c, d);
    ChainWithZero(a, c, d);
    ChainWithZero(a, b, d);
    ChainWithZero(a, b, c);
  }

  lemma EvenMergedBytes(a: Byte, b: Byte, c: Byte, d: Byte)
    ensures EvenMerged(a, b, c, d)
         == MakeWord(XorThree(a, b, d), XorThree(a, b, c), XorThree(b, c, d), XorThree(a, c, d))
  {
    XorOfMade(a, a, 0, a, b, b, b, 0);
    XorOfMade(XorByte(a, b), XorByte(a, b), XorByte(0, b), XorByte(a, 0), 0, c, c, c);
    XorOfMade(XorByte(XorByte(a, b), 0), XorByte(XorByte(a, b), c), XorByte(XorByte(0, b), c),
      XorByte(XorByte(a, 0), c), d, 0, d, d);
    ChainWithZero(a, b, d);
    ChainWithZero(a, b, c);
    ChainWithZero(b, c, d);
    ChainWithZero(a, c, d);
  }

  lemma SumOfThree(z: seq<Byte>, i: nat, j: nat, k: nat, mask: bv64)
    requires |z| == 16 && i < 16 && j < 16 && k < 16
    requires mask == MaskOf(Tap(i, Tap(j, Tap(k, End))))
    ensures Sum(z, mask) == XorThree(z[i], z[j], z[k])
  {
    var t := Tap(k, End);
    XorZeroRight(z[k]);
    assert XorAt(z, End) == 0 && XorAt(z, t) == z[k];
    assert XorAt(z, Tap(j, t)) == XorByte(z[j], z[k]);
    SumOfMask(z, Tap(i, Tap(j, t)));
  }

  lemma OddLayerIsRows(z: seq<Byte>, w: nat)
    requires |z| == 16 && w < 4
    ensures OddMerged(z[4 * w], z[4 * w + 1], z[4 * w + 2], z[4 * w + 3]) == Word(z, OddLayerRows(w))
  {
    OddMergedBytes(z[4 * w], z[4 * w + 1], z[4 * w + 2], z[4 * w + 3]);
    OddLanes(z, w);
  }

  lemma OddLanes(z: seq<Byte>, w: nat)
    requires |z| == 16 && w < 4
    ensures var a, b, c, d := z[4 * w], z[4 * w + 1], z[4 * w + 2], z[4 * w + 3];
      && Sum(z, OddLayerRows(w) >> 48) == XorThree(b, c, d)
      && Sum(z, (OddLayerRows(w) >> 32) & 0xffff) == XorThree(a, c, d)
      && Sum(z, (OddLayerRows(w) >> 16) & 0xffff) == XorThree(a, b, d)
      && Sum(z, OddLayerRows(w) & 0xffff) == XorThree(a, b, c)
  {
    if w == 0 {
      SumOfThree(z, 1, 2, 3, 0x000e);
      SumOfThree(z, 0, 2, 3, 0x000d);
      SumOfThree(z, 0, 1, 3, 0x000b);
      SumOfThree(z, 0, 1, 2, 0x0007);
    } else if w == 1 {
      SumOfThree(z, 5, 6, 7, 0x00e0);
      SumOfThree(z, 4, 6, 7, 0x00d0);
      SumOfThree(z, 4, 5, 7, 0x00b0);
      SumOfThree(z, 4, 5, 6, 0x0070);
    } else if w == 2 {
      SumOfThree(z, 9, 10, 11, 0x0e00);
      SumOfThree(z, 8, 10, 11, 0x0d00);
      SumOfThree(z, 8, 9, 11, 0x0b00);
      SumOfThree(z, 8, 9, 10, 0x0700);
    } else {
      SumOfThree(z, 13, 14, 15, 0xe000);
      SumOfThree(z, 12, 14, 15, 0xd000);
      SumOfThree(z, 12, 13, 15, 0xb000);
      SumOfThree(z, 12, 13, 14, 0x7000);
    }
  }

  lemma EvenLayerIsRows(z: seq<Byte>, w: nat)
    requires |z| == 16 && w < 4
    ensures EvenMerged(z[4 * w], z[4 * w + 1], z[4 * w + 2], z[4 * w + 3]) == Word(z, EvenLayerRows(w))
  {
    EvenMergedBytes(z[4 * w], z[4 * w + 1], z[4 * w + 2], z[4 * w + 3]);
    EvenLanes(z, w);
  }

  lemma EvenLanes(z: seq<Byte>, w: nat)
    requires |z| == 16 && w < 4
    ensures var a, b, c, d := z[4 * w], z[4 * w + 1], z[4 * w + 2], z[4 * w + 3];
      && Sum(z, EvenLayerRows(w) >> 48) == XorThree(a, b, d)
      && Sum(z, (EvenLayerRows(w) >> 32) & 0xffff) == XorThree(a, b, c)
      && Sum(z, (EvenLayerRows(w) >> 16) & 0xffff) == XorThree(b, c, d)
      && Sum(z, EvenLayerRows(w) & 0xffff) == XorThree(a, c, d)
  {
    if w == 0 {
      SumOfThree(z, 0, 1, 3, 0x000b);
      SumOfThree(z, 0, 1, 2, 0x0007);
      SumOfThree(z, 1, 2, 3, 0x000e);
      SumOfThree(z, 0, 2, 3, 0x000d);
    } else if w == 1 {
      SumOfThree(z, 4, 5, 7, 0x00b0);
      SumOfThree(z, 4, 5, 6, 0x0070);
      SumOfThree(z, 5, 6, 7, 0x00e0);
      SumOfThree(z, 4, 6, 7, 0x00d0);
    } else if w == 2 {
      SumOfThree(z, 8, 9, 11, 0x0b00);
      SumOfThree(z, 8, 9, 10, 0x0700);
      SumOfThree(z, 9, 10, 11, 0x0e00);
      SumOfThree(z, 8, 10, 11, 0x0d00);
    } else {
      SumOfThree(z, 12, 13, 15, 0xb000);
      SumOfThree(z, 12, 13, 14, 0x7000);
      SumOfThree(z, 13, 14, 15, 0xe000);
      SumOfThree(z, 12, 14, 15, 0xd000);
    }
  }

  /** `aria_m` spreads a plainly substituted word over the bytes exactly as the tables of the
      first layer do. */
  lemma MergedTablesAreM(a: Byte, b: Byte, c: Byte, d: Byte)
    ensures AriaM(MakeWord(a, b, c, d)) == OddMerged(a, b, c, d)
  {
    RotateByteMoves(a, b, c, d);
    XorOfMade(a, b, c, d, d, a, b, c);
    RotateHalvesMoves(XorByte(a, d), XorByte(b, a), XorByte(c, b), XorByte(d, c));
    XorOfMade(d, a, b, c, XorByte(c, b), XorByte(d, c), XorByte(a, d), XorByte(b, a));
    OddMergedBytes(a, b, c, d);
    SameThree(b, c, d);
    SameThree(c, d, a);
    SameThree(d, a, b);
    SameThree(a, b, c);
  }

  lemma SameThree(a: Byte, b: Byte, c: Byte)
    ensures XorByte(c, XorByte(b, a)) == XorThree(a, b, c)
    ensures XorThree(a, b, c) == XorThree(b, c, a) == XorThree(c, a, b)
  {
    XorCommutes(b, a);
    XorCommutes(c, XorByte(a, b));
    XorAssociates(a, b, c);
    XorCommutes(a, XorByte(b, c));
    XorAssociates(b, c, a);
    XorAssociates(c, a, b);
    XorCommutes(b, XorByte(c, a));
  }

  /** `rotr32(v, 8)`. */
  function RotateByte(v: U32): U32 {
    BitwiseOfWords(v / 0x100, Wrap32(v * 0x100_0000));
    Or(v / 0x100, Wrap32(v * 0x100_0000))
  }

  lemma RotateByteMoves(a: Byte, b: Byte, c: Byte, d: Byte)
    ensures RotateByte(MakeWord(a, b, c, d)) == MakeWord(d, a, b, c)
  {
    ShiftsBy8(a, b, c, d);
    ShiftsBy24(a, b, c, d);
    JoinTopByte((a * 0x100 + b) * 0x100 + c, d);
  }

  lemma JoinTopByte(low: nat, top: Byte)
    requires low < 0x100_0000
    ensures Or(low, top * 0x100_0000) == top * 0x100_0000 + low
  {
    assert Pow2(8) == 0x100;
    Pow2Values();
    Pow2Sum(16, 8);
    OrAbove(low, top, 24);
  }

  function AriaM(t: U32): U32 {
    XorWord(RotateByte(t), RotateHalves(XorWord(t, RotateByte(t))))
  }

  // ----- the rounds -----

  /** Cancellation in `aria_diff_word`: each word ends as the sum of three. */
  lemma DiffWordCancels(t0: U32, t1: U32, t2: U32, t3: U32)
    ensures XorWord(t0, XorWord(t1, t2)) == XorWord(XorWord(t0, t1), t2)
    ensures XorWord(t3, XorWord(t1, t2)) == XorWord(XorWord(t1, t2), t3)
    ensures XorWord(XorWord(t2, t3), XorWord(t0, XorWord(t1, t2))) == XorWord(XorWord(t0, t1), t3)
    ensures XorWord(XorWord(t1, t2), XorWord(XorWord(t0, t1), t3)) == XorWord(XorWord(t0, t2), t3)
  {
    XorAssociates(t0, t1, t2);
    XorCommutes(t3, XorWord(t1, t2));
    CancelShared(t3, t2, XorWord(t0, t1));
    XorCommutes(t3, t2);
    XorCommutes(XorWord(t0, t1), t3);
    XorCommutes(t1, t2);
    XorCommutes(t0, t1);
    XorAssociates(t1, t0, t3);
    CancelShared(t2, t1, XorWord(t0, t3));
    XorAssociates(t2, t0, t3);
    XorCommutes(t2, t0);
  }

  lemma CancelShared(a: U32, b: U32, c: U32)
    ensures XorWord(XorWord(a, b), XorWord(b, c)) == XorWord(a, c)
    ensures XorWord(XorWord(a, b), XorWord(c, b)) == XorWord(a, c)
  {
    XorCommutes(b, c);
    XorAssociates(a, b, XorWord(b, c));
    XorAssociates(b, b, c);
    XorSelf(b);
  }

  function MapWords(f: U32 -> U32, t: seq<U32>): (u: seq<U32>)
    requires |t| == 4
    ensures |u| == 4
  {
    [f(t[0]), f(t[1]), f(t[2]), f(t[3])]
  }

  function OddTable(boxes: Boxes): U32 -> U32 { v => OddLookup(boxes, v) }

  function EvenTable(boxes: Boxes): U32 -> U32 { v => EvenLookup(boxes, v) }

  /** `aria_sbox_layer1_with_pre_diff`. */
  method SboxLayer1(t: array<U32>, boxes: Boxes)
    requires t.Length == 4
    modifies t
    ensures t[..] == MapWords(OddTable(boxes), old(t[..]))
  {
    var lookup := OddTable(boxes);
    t[0] := lookup(t[0]);
    t[1] := lookup(t[1]);
    t[2] := lookup(t[2]);
    t[3] := lookup(t[3]);
  }

  /** `aria_sbox_layer2_with_pre_diff`. */
  method SboxLayer2(t: array<U32>, boxes: Boxes)
    requires t.Length == 4
    modifies t
    ensures t[..] == MapWords(EvenTable(boxes), old(t[..]))
  {
    var lookup := EvenTable(boxes);
    t[0] := lookup(t[0]);
    t[1] := lookup(t[1]);
    t[2] := lookup(t[2]);
    t[3] := lookup(t[3]);
  }

  /** The sums of three words that `aria_diff_word` leaves. */
  function DiffWords(t: seq<U32>): (u: seq<U32>)
    requires |t| == 4
    ensures |u| == 4
  {
    [XorWord(XorWord(t[0], t[1]), t[2]), XorWord(XorWord(t[0], t[2]), t[3]),
     XorWord(XorWord(t[0], t[1]), t[3]), XorWord(XorWord(t[1], t[2]), t[3])]
  }

  /** `aria_diff_word`. */
  method DiffWord(t: array<U32>)
    requires t.Length == 4
    modifies t
    ensures t[..] == DiffWords(old(t[..]))
  {
    DiffWordCancels(t[0], t[1], t[2], t[3]);
    t[1] := XorWord(t[1], t[2]);
    t[2] := XorWord(t[2], t[3]);
    t[0] := XorWord(t[0], t[1]);
    t[3] := XorWord(t[3], t[1]);
    t[2] := XorWord(t[2], t[0]);
    t[1] := XorWord(t[1], t[2]);
  }

  /** `aria_diff_byte` on words i, j and k. */
  method DiffByte(t: array<U32>, i: nat, j: nat, k: nat)
    requires t.Length == 4 && i < 4 && j < 4 && k < 4 && i != j && j != k && i != k
    modifies t
    ensures t[..] == old(t[..])[i := SwapPairs(old(t[i]))][j := RotateHalves(old(t[j]))][k := SwapBytes(old(t[k]))]
  {
    t[i] := SwapPairs(t[i]);
    t[j] := RotateHalves(t[j]);
    t[k] := SwapBytes(t[k]);
  }

  ghost predicate HasRows(t: seq<U32>, f: bv64 -> Byte, rows: nat -> bv64) {
    |t| == 4 && t[0] == Pick(f, rows(0)) && t[1] == Pick(f, rows(1))
    && t[2] == Pick(f, rows(2)) && t[3] == Pick(f, rows(3))
  }

  lemma ThreeRows(f: bv64 -> Byte, a: bv64, b: bv64, c: bv64, sum: bv64)
    requires Linear(f) && sum == a ^ b ^ c
    ensures XorWord(XorWord(Pick(f, a), Pick(f, b)), Pick(f, c)) == Pick(f, sum)
  {
    XorOfRows(f, a, b);
    XorOfRows(f, a ^ b, c);
  }

  /** Rows after the first word mixing of an odd round. */
  function OddFirstRows(w: nat): bv64 {
    if w == 0 then 0x0eee_0ddd_0bbb_0777
    else if w == 1 then 0xee0e_dd0d_bb0b_7707
    else if w == 2 then 0xe0ee_d0dd_b0bb_7077
    else 0xeee0_ddd0_bbb0_7770
  }

  /** The same for an even round. */
  function EvenFirstRows(w: nat): bv64 {
    if w == 0 then 0x0bbb_0777_0eee_0ddd
    else if w == 1 then 0xbb0b_7707_ee0e_dd0d
    else if w == 2 then 0xb0bb_7077_e0ee_d0dd
    else 0xbbb0_7770_eee0_ddd0
  }

  /** After the byte permutations both rounds are at the same rows; the last word mixing finishes them. */
  function MiddleRows(w: nat): bv64 {
    if w == 0 then 0x0eee_0ddd_0bbb_0777
    else if w == 1 then 0xdd0d_ee0e_7707_bb0b
    else if w == 2 then 0xb0bb_7077_e0ee_d0dd
    else 0x7770_bbb0_ddd0_eee0
  }

  lemma OddFirstMix(f: bv64 -> Byte, t: seq<U32>)
    requires Linear(f) && HasRows(t, f, OddLayerRows)
    ensures HasRows(DiffWords(t), f, OddFirstRows)
  {
    ThreeRows(f, 0x000e_000d_000b_0007, 0x00e0_00d0_00b0_0070, 0x0e00_0d00_0b00_0700, 0x0eee_0ddd_0bbb_0777);
    ThreeRows(f, 0x000e_000d_000b_0007, 0x0e00_0d00_0b00_0700, 0xe000_d000_b000_7000, 0xee0e_dd0d_bb0b_7707);
    ThreeRows(f, 0x000e_000d_000b_0007, 0x00e0_00d0_00b0_0070, 0xe000_d000_b000_7000, 0xe0ee_d0dd_b0bb_7077);
    ThreeRows(f, 0x00e0_00d0_00b0_0070, 0x0e00_0d00_0b00_0700, 0xe000_d000_b000_7000, 0xeee0_ddd0_bbb0_7770);
  }

  lemma EvenFirstMix(f: bv64 -> Byte, t: seq<U32>)
    requires Linear(f) && HasRows(t, f, EvenLayerRows)
    ensures HasRows(DiffWords(t), f, EvenFirstRows)
  {
    ThreeRows(f, 0x000b_0007_000e_000d, 0x00b0_0070_00e0_00d0, 0x0b00_0700_0e00_0d00, 0x0bbb_0777_0eee_0ddd);
    ThreeRows(f, 0x000b_0007_000e_000d, 0x0b00_0700_0e00_0d00, 0xb000_7000_e000_d000, 0xbb0b_7707_ee0e_dd0d);
    ThreeRows(f, 0x000b_0007_000e_000d, 0x00b0_0070_00e0_00d0, 0xb000_7000_e000_d000, 0xb0bb_7077_e0ee_d0dd);
    ThreeRows(f, 0x00b0_0070_00e0_00d0, 0x0b00_0700_0e00_0d00, 0xb000_7000_e000_d000, 0xbbb0_7770_eee0_ddd0);
  }

  lemma LastMix(f: bv64 -> Byte, t: seq<U32>)
    requires Linear(f) && HasRows(t, f, MiddleRows)
    ensures HasRows(DiffWords(t), f, DiffusedRows)
  {
    ThreeRows(f, 0x0eee_0ddd_0bbb_0777, 0xdd0d_ee0e_7707_bb0b, 0xb0bb_7077_e0ee_d0dd, 0x6358_93a4_9c52_6ca1);
    ThreeRows(f, 0x0eee_0ddd_0bbb_0777, 0xb0bb_7077_e0ee_d0dd, 0x7770_bbb0_ddd0_eee0, 0xc925_c61a_3685_394a);
    ThreeRows(f, 0x0eee_0ddd_0bbb_0777, 0xdd0d_ee0e_7707_bb0b, 0x7770_bbb0_ddd0_eee0, 0xa493_5863_a16c_529c);
    ThreeRows(f, 0xdd0d_ee0e_7707_bb0b, 0xb0bb_7077_e0ee_d0dd, 0x7770_bbb0_ddd0_eee0, 0x1ac6_25c9_4a39_8536);
  }

  lemma OddPermutes(f: bv64 -> Byte)
    ensures SwapPairs(Pick(f, OddFirstRows(1))) == Pick(f, MiddleRows(1))
    ensures RotateHalves(Pick(f, OddFirstRows(2))) == Pick(f, MiddleRows(2))
    ensures SwapBytes(Pick(f, OddFirstRows(3))) == Pick(f, MiddleRows(3))
  {
    SwapPairsOfRows(f, 0xee0e_dd0d_bb0b_7707);
    RotateHalvesOfRows(f, 0xe0ee_d0dd_b0bb_7077);
    SwapBytesOfRows(f, 0xeee0_ddd0_bbb0_7770);
  }

  lemma EvenPermutes(f: bv64 -> Byte)
    ensures SwapPairs(Pick(f, EvenFirstRows(3))) == Pick(f, MiddleRows(3))
    ensures RotateHalves(Pick(f, EvenFirstRows(0))) == Pick(f, MiddleRows(0))
    ensures SwapBytes(Pick(f, EvenFirstRows(1))) == Pick(f, MiddleRows(1))
  {
    SwapPairsOfRows(f, 0xbbb0_7770_eee0_ddd0);
    RotateHalvesOfRows(f, 0x0bbb_0777_0eee_0ddd);
    SwapBytesOfRows(f, 0xbb0b_7707_ee0e_dd0d);
  }

  /** The exchange of bytes inside words 1, 2 and 3 in an odd round, words 3, 0 and 1 in an even one. */
  function OddBytes(t: seq<U32>): (u: seq<U32>)
    requires |t| == 4
    ensures |u| == 4
  {
    [t[0], SwapPairs(t[1]), RotateHalves(t[2]), SwapBytes(t[3])]
  }

  function EvenBytes(t: seq<U32>): (u: seq<U32>)
    requires |t| == 4
    ensures |u| == 4
  {
    [RotateHalves(t[0]), SwapBytes(t[1]), t[2], SwapPairs(t[3])]
  }

  lemma OddMixes(f: bv64 -> Byte, t: seq<U32>)
    requires Linear(f) && HasRows(t, f, OddLayerRows)
    ensures HasRows(DiffWords(OddBytes(DiffWords(t))), f, DiffusedRows)
  {
    var u := DiffWords(t);
    OddFirstMix(f, t);
    OddPermutes(f);
    var v := OddBytes(u);
    assert HasRows(v, f, MiddleRows);
    LastMix(f, v);
  }

  lemma EvenMixes(f: bv64 -> Byte, t: seq<U32>)
    requires Linear(f) && HasRows(t, f, EvenLayerRows)
    ensures HasRows(DiffWords(EvenBytes(DiffWords(t))), f, DiffusedRows)
  {
    var u := DiffWords(t);
    EvenFirstMix(f, t);
    EvenPermutes(f);
    var v := EvenBytes(u);
    assert HasRows(v, f, MiddleRows);
    LastMix(f, v);
  }

  predicate PackedRows(rows: bv64, r0: bv64, r1: bv64, r2: bv64, r3: bv64) {
    r0 == rows >> 48 && r1 == (rows >> 32) & 0xffff && r2 == (rows >> 16) & 0xffff && r3 == rows & 0xffff
  }

  lemma BytesOfRows(z: seq<Byte>, rows: bv64, r0: bv64, r1: bv64, r2: bv64, r3: bv64)
    requires PackedRows(rows, r0, r1, r2, r3)
    ensures GetByte(Word(z, rows), 0) == Sum(z, r0) && GetByte(Word(z, rows), 1) == Sum(z, r1)
    ensures GetByte(Word(z, rows), 2) == Sum(z, r2) && GetByte(Word(z, rows), 3) == Sum(z, r3)
  {
    BytesOfMade(Summing(z)(r0), Summing(z)(r1), Summing(z)(r2), Summing(z)(r3));
  }

  lemma DiffusedWord(z: seq<Byte>, v: U32, w: nat, i: nat)
    requires |z| == 16 && w < 4 && i == 4 * w && v == Word(z, DiffusedRows(w))
    ensures GetByte(v, 0) == Diffuse(z)[i] && GetByte(v, 1) == Diffuse(z)[i + 1]
    ensures GetByte(v, 2) == Diffuse(z)[i + 2] && GetByte(v, 3) == Diffuse(z)[i + 3]
  {
    FourRows(z, i);
    RowsOfWord(w, i);
    BytesOfRows(z, DiffusedRows(w), Row(i), Row(i + 1), Row(i + 2), Row(i + 3));
  }

  lemma FourRows(z: seq<Byte>, i: nat)
    requires |z| == 16 && i + 3 < 16
    ensures Diffuse(z)[i] == Sum(z, Row(i)) && Diffuse(z)[i + 1] == Sum(z, Row(i + 1))
    ensures Diffuse(z)[i + 2] == Sum(z, Row(i + 2)) && Diffuse(z)[i + 3] == Sum(z, Row(i + 3))
  {
    DiffuseIsRow(z, i);
    DiffuseIsRow(z, i + 1);
    DiffuseIsRow(z, i + 2);
    DiffuseIsRow(z, i + 3);
  }

  /** The rows packed by word are the rows of A. */
  lemma RowsOfWord(w: nat, i: nat)
    requires w < 4 && i == 4 * w
    ensures PackedRows(DiffusedRows(w), Row(i), Row(i + 1), Row(i + 2), Row(i + 3))
  {
  }

  lemma DiffusedState(z: seq<Byte>, t: seq<U32>)
    requires |z| == 16 && HasRows(t, Summing(z), DiffusedRows)
    ensures StateBytes(t) == Diffuse(z)
  {
    DiffusedWord(z, t[0], 0, 0);
    DiffusedWord(z, t[1], 1, 4);
    DiffusedWord(z, t[2], 2, 8);
    DiffusedWord(z, t[3], 3, 12);
    SameBytes(t, Diffuse(z));
  }

  lemma SameBytes(t: seq<U32>, y: seq<Byte>)
    requires |t| == 4 && |y| == 16
    requires GetByte(t[0], 0) == y[0] && GetByte(t[0], 1) == y[1] && GetByte(t[0], 2) == y[2] && GetByte(t[0], 3) == y[3]
    requires GetByte(t[1], 0) == y[4] && GetByte(t[1], 1) == y[5] && GetByte(t[1], 2) == y[6] && GetByte(t[1], 3) == y[7]
    requires GetByte(t[2], 0) == y[8] && GetByte(t[2], 1) == y[9] && GetByte(t[2], 2) == y[10] && GetByte(t[2], 3) == y[11]
    requires GetByte(t[3], 0) == y[12] && GetByte(t[3], 1) == y[13] && GetByte(t[3], 2) == y[14] && GetByte(t[3], 3) == y[15]
    ensures StateBytes(t) == y
  {
  }

  lemma OddLookupIsMerged(boxes: Boxes, v: U32)
    ensures OddLookup(boxes, v) == OddMerged(boxes.s1(GetByte(v, 0)), boxes.s2(GetByte(v, 1)),
                                             boxes.x1(GetByte(v, 2)), boxes.x2(GetByte(v, 3)))
  {
  }

  lemma EvenLookupIsMerged(boxes: Boxes, v: U32)
    ensures EvenLookup(boxes, v) == EvenMerged(boxes.x1(GetByte(v, 0)), boxes.x2(GetByte(v, 1)),
                                               boxes.s1(GetByte(v, 2)), boxes.s2(GetByte(v, 3)))
  {
  }

  predicate IsSubstituted(boxes: Boxes, shift: nat, t: seq<U32>, z: seq<Byte>)
    requires |t| == 4 && |z| == 16
  {
    forall w, c :: 0 <= w < 4 && 0 <= c < 4 ==> z[4 * w + c] == BoxAt(boxes, c + shift)(GetByte(t[w], c))
  }

  lemma RowAndColumn(w: nat, c: nat, shift: nat)
    requires c < 4
    ensures (4 * w + c) / 4 == w && (4 * w + c) % 4 == c && (4 * w + c + shift) % 4 == (c + shift) % 4
  {
    DivideUnique(4 * w + c, 4, w, c);
    DivideUnique(4 * w + c + shift, 4, w + (c + shift) / 4, (c + shift) % 4);
  }

  lemma SubstituteIsSubstituted(boxes: Boxes, shift: nat, t: seq<U32>)
    requires |t| == 4
    ensures IsSubstituted(boxes, shift, t, Substitute(boxes, shift, StateBytes(t)))
  {
    forall w, c | 0 <= w < 4 && 0 <= c < 4
      ensures Substitute(boxes, shift, StateBytes(t))[4 * w + c] == BoxAt(boxes, c + shift)(GetByte(t[w], c))
    {
      RowAndColumn(w, c, shift);
    }
  }

  lemma OddLookupWord(boxes: Boxes, v: U32, z: seq<Byte>, w: nat)
    requires |z| == 16 && w < 4
    requires z[4 * w] == boxes.s1(GetByte(v, 0)) && z[4 * w + 1] == boxes.s2(GetByte(v, 1))
    requires z[4 * w + 2] == boxes.x1(GetByte(v, 2)) && z[4 * w + 3] == boxes.x2(GetByte(v, 3))
    ensures OddTable(boxes)(v) == Word(z, OddLayerRows(w))
  {
    OddLookupIsMerged(boxes, v);
    OddLayerIsRows(z, w);
  }

  lemma OddLookupRows(boxes: Boxes, t: seq<U32>, z: seq<Byte>)
    requires |t| == 4 && |z| == 16 && IsSubstituted(boxes, 0, t, z)
    ensures HasRows(MapWords(OddTable(boxes), t), Summing(z), OddLayerRows)
  {
    OddLookupWord(boxes, t[0], z, 0);
    OddLookupWord(boxes, t[1], z, 1);
    OddLookupWord(boxes, t[2], z, 2);
    OddLookupWord(boxes, t[3], z, 3);
  }

  lemma EvenLookupWord(boxes: Boxes, v: U32, z: seq<Byte>, w: nat)
    requires |z| == 16 && w < 4
    requires z[4 * w] == boxes.x1(GetByte(v, 0)) && z[4 * w + 1] == boxes.x2(GetByte(v, 1))
    requires z[4 * w + 2] == boxes.s1(GetByte(v, 2)) && z[4 * w + 3] == boxes.s2(GetByte(v, 3))
    ensures EvenTable(boxes)(v) == Word(z, EvenLayerRows(w))
  {
    EvenLookupIsMerged(boxes, v);
    EvenLayerIsRows(z, w);
  }

  lemma EvenLookupRows(boxes: Boxes, t: seq<U32>, z: seq<Byte>)
    requires |t| == 4 && |z| == 16 && IsSubstituted(boxes, 2, t, z)
    ensures HasRows(MapWords(EvenTable(boxes), t), Summing(z), EvenLayerRows)
  {
    EvenLookupWord(boxes, t[0], z, 0);
    EvenLookupWord(boxes, t[1], z, 1);
    EvenLookupWord(boxes, t[2], z, 2);
    EvenLookupWord(boxes, t[3], z, 3);
  }

  lemma OddRound(boxes: Boxes, t: seq<U32>)
    requires |t| == 4
    ensures StateBytes(DiffWords(OddBytes(DiffWords(MapWords(OddTable(boxes), t)))))
         == Diffuse(Substitute(boxes, 0, StateBytes(t)))
  {
    SubstituteIsSubstituted(boxes, 0, t);
    OddRoundOf(boxes, t, Substitute(boxes, 0, StateBytes(t)));
  }

  lemma OddRoundOf(boxes: Boxes, t: seq<U32>, z: seq<Byte>)
    requires |t| == 4 && |z| == 16 && IsSubstituted(boxes, 0, t, z)
    ensures StateBytes(DiffWords(OddBytes(DiffWords(MapWords(OddTable(boxes), t))))) == Diffuse(z)
  {
    var u := MapWords(OddTable(boxes), t);
    OddLookupRows(boxes, t, z);
    SummingIsLinear(z);
    OddMixes(Summing(z), u);
    DiffusedState(z, DiffWords(OddBytes(DiffWords(u))));
  }

  /** `aria_subst_diff_odd` is SL1 followed by A. */
  method SubstDiffOdd(t: array<U32>, boxes: Boxes)
    requires t.Length == 4
    modifies t
    ensures StateBytes(t[..]) == Diffuse(Substitute(boxes, 0, old(StateBytes(t[..]))))
  {
    OddRound(boxes, t[..]);
    SboxLayer1(t, boxes);
    DiffWord(t);
    DiffByte(t, 1, 2, 3);
    DiffWord(t);
  }

  lemma EvenRound(boxes: Boxes, t: seq<U32>)
    requires |t| == 4
    ensures StateBytes(DiffWords(EvenBytes(DiffWords(MapWords(EvenTable(boxes), t)))))
         == Diffuse(Substitute(boxes, 2, StateBytes(t)))
  {
    SubstituteIsSubstituted(boxes, 2, t);
    EvenRoundOf(boxes, t, Substitute(boxes, 2, StateBytes(t)));
  }

  lemma EvenRoundOf(boxes: Boxes, t: seq<U32>, z: seq<Byte>)
    requires |t| == 4 && |z| == 16 && IsSubstituted(boxes, 2, t, z)
    ensures StateBytes(DiffWords(EvenBytes(DiffWords(MapWords(EvenTable(boxes), t))))) == Diffuse(z)
  {
    var u := MapWords(EvenTable(boxes), t);
    EvenLookupRows(boxes, t, z);
    SummingIsLinear(z);
    EvenMixes(Summing(z), u);
    DiffusedState(z, DiffWords(EvenBytes(DiffWords(u))));
  }

  /** `aria_subst_diff_even` is SL2 followed by the same A. */
  method SubstDiffEven(t: array<U32>, boxes: Boxes)
    requires t.Length == 4
    modifies t
    ensures StateBytes(t[..]) == Diffuse(Substitute(boxes, 2, old(StateBytes(t[..]))))
  {
    EvenRound(boxes, t[..]);
    SboxLayer2(t, boxes);
    DiffWord(t);
    DiffByte(t, 3, 0, 1);
    DiffWord(t);
  }

  predicate Inverse(f: Byte -> Byte, g: Byte -> Byte) {
    forall b: Byte {:trigger f(g(b))} {:trigger g(f(b))} :: f(g(b)) == b && g(f(b)) == b
  }

  /** The layers use the boxes in two orders that undo each other. */
  lemma BoxUndone(boxes: Boxes, i: nat, b: Byte)
    requires Inverse(boxes.s1, boxes.x1) && Inverse(boxes.s2, boxes.x2)
    ensures BoxAt(boxes, i + 2)(BoxAt(boxes, i)(b)) == b
    ensures BoxAt(boxes, i)(BoxAt(boxes, i + 2)(b)) == b
  {
    var r := i % 4;
    assert (i + 2) % 4 == if r < 2 then r + 2 else r - 2;
  }

  lemma LayersUndone(boxes: Boxes, x: seq<Byte>)
    requires |x| == 16 && Inverse(boxes.s1, boxes.x1) && Inverse(boxes.s2, boxes.x2)
    ensures Substitute(boxes, 2, Substitute(boxes, 0, x)) == x
    ensures Substitute(boxes, 0, Substitute(boxes, 2, x)) == x
  {
    forall i | 0 <= i < 16
      ensures Substitute(boxes, 2, Substitute(boxes, 0, x))[i] == x[i]
      ensures Substitute(boxes, 0, Substitute(boxes, 2, x))[i] == x[i]
    {
      LayersUndoneAt(boxes, x, i);
    }
  }

  lemma LayersUndoneAt(boxes: Boxes, x: seq<Byte>, i: nat)
    requires |x| == 16 && i < 16 && Inverse(boxes.s1, boxes.x1) && Inverse(boxes.s2, boxes.x2)
    ensures Substitute(boxes, 2, Substitute(boxes, 0, x))[i] == x[i]
    ensures Substitute(boxes, 0, Substitute(boxes, 2, x))[i] == x[i]
  {
    BoxUndone(boxes, i, x[i]);
    assert Substitute(boxes, 0, x)[i] == BoxAt(boxes, i)(x[i]);
    assert Substitute(boxes, 2, x)[i] == BoxAt(boxes, i + 2)(x[i]);
  }

  /** In ARIA x1 and x2 are the inverses of s1 and s2, so SL2 undoes SL1 and a round is undone by
      applying A and then the other layer. */
  lemma RoundUndone(boxes: Boxes, x: seq<Byte>)
    requires |x| == 16 && Inverse(boxes.s1, boxes.x1) && Inverse(boxes.s2, boxes.x2)
    ensures Substitute(boxes, 2, Diffuse(Diffuse(Substitute(boxes, 0, x)))) == x
    ensures Substitute(boxes, 0, Diffuse(Diffuse(Substitute(boxes, 2, x)))) == x
  {
    DiffuseIsInvolution(Substitute(boxes, 0, x));
    DiffuseIsInvolution(Substitute(boxes, 2, x));
    LayersUndone(boxes, x);
  }
}
