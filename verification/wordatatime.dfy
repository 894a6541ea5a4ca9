/** Zero-byte search a word at a time (asm-generic/word-at-a-time.h). Words are bit vectors, and
    byte i of a word is its i-th byte in memory order: the least significant first on a
    little-endian machine, the most significant first on a big-endian one. */
module LittleEndianZero {
  const ONE_BITS: bv64 := 0x0101_0101_0101_0101
  const HIGH_BITS: bv64 := 0x8080_8080_8080_8080

  function ByteAt(a: bv64, i: nat): bv64
    requires i < 8
  {
    if i == 0 then a & 0xff else if i == 1 then (a >> 8) & 0xff
    else if i == 2 then (a >> 16) & 0xff else if i == 3 then (a >> 24) & 0xff
    else if i == 4 then (a >> 32) & 0xff else if i == 5 then (a >> 40) & 0xff
    else if i == 6 then (a >> 48) & 0xff else a >> 56
  }

  /** Index of the first zero byte at or after i, or 8. */
  function FirstZero(a: bv64, i: nat): (r: nat)
    requires i <= 8
    ensures i <= r <= 8
    ensures forall j :: i <= j < r ==> ByteAt(a, j) != 0
    ensures r < 8 ==> ByteAt(a, r) == 0
    decreases 8 - i
  {
    if i == 8 || ByteAt(a, i) == 0 then i else FirstZero(a, i + 1)
  }

  /** The flags of `has_zero`: bit 7 of some bytes. */
  function Flags(a: bv64): bv64 { ((a - ONE_BITS) & !a) & HIGH_BITS }

  predicate Flagged(a: bv64, i: nat)
    requires i < 8
  {
    ByteAt(Flags(a), i) != 0
  }

  /** Exactly which bytes are flagged: zero bytes, and a run of bytes equal to 1 above a flagged one,
      because the borrow of the subtraction goes through them. */
  lemma FlagsExactly(a: bv64, i: nat)
    requires i < 8
    ensures Flagged(a, i) <==>
      ByteAt(a, i) == 0 || (i > 0 && ByteAt(a, i) == 1 && Flagged(a, i - 1))
  {
    if i < 4 {
      if i == 0 {} else if i == 1 {} else if i == 2 {} else {}
    } else {
      if i == 4 {} else if i == 5 {} else if i == 6 {} else {}
    }
  }

  /** `has_zero`, which also stores the flags. */
  method HasZero(a: bv64) returns (result: bv64, bits: bv64)
    ensures bits == result == Flags(a)
    ensures result != 0 <==> FirstZero(a, 0) < 8
  {
    var mask := ((a - ONE_BITS) & !a) & HIGH_BITS;
    bits := mask;
    result := mask;
    FlaggedIffZero(a);
  }

  lemma FlaggedIffZero(a: bv64)
    ensures Flags(a) != 0 <==> FirstZero(a, 0) < 8
  {
    var k := FirstZero(a, 0);
    if k < 8 {
      FlagsExactly(a, k);
    } else {
      NoZeroNoFlag(a, 7);
      NoByteNoBit(Flags(a));
    }
  }

  lemma {:induction false} NoZeroNoFlag(a: bv64, n: nat)
    requires n < 8 && forall i :: 0 <= i < 8 ==> ByteAt(a, i) != 0
    ensures forall i :: 0 <= i <= n ==> !Flagged(a, i)
  {
    FlagsExactly(a, n);
    if n > 0 { NoZeroNoFlag(a, n - 1); }
  }

  lemma NoByteNoBit(w: bv64)
    requires forall i :: 0 <= i < 8 ==> ByteAt(w, i) == 0
    ensures w == 0
  {
    assert ByteAt(w, 0) == 0 && ByteAt(w, 1) == 0 && ByteAt(w, 2) == 0 && ByteAt(w, 3) == 0;
    assert ByteAt(w, 4) == 0 && ByteAt(w, 5) == 0 && ByteAt(w, 6) == 0 && ByteAt(w, 7) == 0;
  }

  /** The flags above the first are not to be trusted: 0x01_00 has one zero byte among its two low
      ones but two flags. */
  lemma FalseFlag()
    ensures ByteAt(0x2222_2222_2222_0100, 1) != 0 && Flagged(0x2222_2222_2222_0100, 1)
  {
  }

  /** `create_zero_mask`. */
  function CreateMask(bits: bv64): bv64 { ((bits - 1) & !bits) >> 7 }

  /** `count_masked_bytes`, for 64 bits. */
  function CountMaskedBytes(mask: bv64): bv64 { (mask * 0x0001_0203_0405_0608) >> 56 }

  /** Ones in the k bytes that come first in memory. */
  function LeadingBytes(k: nat): bv64
    requires k <= 8
  {
    if k == 0 then 0 else if k == 1 then 0xff else if k == 2 then 0xffff else if k == 3 then 0xff_ffff
    else if k == 4 then 0xffff_ffff else if k == 5 then 0xff_ffff_ffff else if k == 6 then 0xffff_ffff_ffff
    else if k == 7 then 0xff_ffff_ffff_ffff else 0xffff_ffff_ffff_ffff
  }

  /** The mask covers exactly the bytes before the first zero. */
  lemma MaskIsLeadingBytes(a: bv64, k: nat)
    requires k == FirstZero(a, 0) && k < 8
    ensures CreateMask(Flags(a)) == LeadingBytes(k)
  {
    assert ByteAt(a, k) == 0;
    assert k > 0 ==> ByteAt(a, 0) != 0;
    assert k > 1 ==> ByteAt(a, 1) != 0;
    assert k > 2 ==> ByteAt(a, 2) != 0;
    assert k > 3 ==> ByteAt(a, 3) != 0;
    assert k > 4 ==> ByteAt(a, 4) != 0;
    assert k > 5 ==> ByteAt(a, 5) != 0;
    assert k > 6 ==> ByteAt(a, 6) != 0;
    if k < 4 {
      if k == 0 {} else if k == 1 {} else if k == 2 {} else {}
    } else {
      if k == 4 {} else if k == 5 {} else if k == 6 {} else {}
    }
  }

  /** For every word that holds a zero byte the pipeline finds the first one, whatever the flags
      above it say. */
  lemma PipelineFindsFirstZero(a: bv64)
    requires Flags(a) != 0
    ensures FirstZero(a, 0) < 8
    ensures CountMaskedBytes(CreateMask(Flags(a))) == FirstZero(a, 0) as bv64
  {
    FlaggedIffZero(a);
    var k := FirstZero(a, 0);
    MaskIsLeadingBytes(a, k);
    CountOfLeadingBytes(k);
  }

  lemma CountOfLeadingBytes(k: nat)
    requires k < 8
    ensures CountMaskedBytes(LeadingBytes(k)) == k as bv64
  {
    if k < 4 {
      if k == 0 {} else if k == 1 {} else if k == 2 {} else {}
    } else {
      if k == 4 {} else if k == 5 {} else if k == 6 {} else {}
    }
  }

  /** `count_masked_bytes`, for 32 bits; the sum stays positive for every mask the pipeline makes. */
  function CountMaskedBytes32(mask: bv32): bv32 { ((0x0ff_0001 + mask) >> 23) & mask }

  lemma CountOfLeadingBytes32(k: nat)
    requires k < 4
    ensures var mask := if k == 0 then 0 else if k == 1 then 0xff else if k == 2 then 0xffff else 0xff_ffff;
      CountMaskedBytes32(mask) == k as bv32
  {
    if k == 0 {} else if k == 1 {} else if k == 2 {} else {}
  }
}

/** The big-endian half of the same header. */
module BigEndianZero {
  import Little = LittleEndianZero

  const HIGH_BITS: bv64 := 0xfefe_fefe_fefe_feff
  const LOW_BITS: bv64 := 0x7f7f_7f7f_7f7f_7f7f

  function ByteAt(a: bv64, i: nat): bv64
    requires i < 8
  {
    if i == 0 then a >> 56 else if i == 1 then (a >> 48) & 0xff
    else if i == 2 then (a >> 40) & 0xff else if i == 3 then (a >> 32) & 0xff
    else if i == 4 then (a >> 24) & 0xff else if i == 5 then (a >> 16) & 0xff
    else if i == 6 then (a >> 8) & 0xff else a & 0xff
  }

  /** Index of the first zero byte at or after i, or 8. */
  function FirstZero(a: bv64, i: nat): (r: nat)
    requires i <= 8
    ensures i <= r <= 8
    ensures forall j :: i <= j < r ==> ByteAt(a, j) != 0
    ensures r < 8 ==> ByteAt(a, r) == 0
    decreases 8 - i
  {
    if i == 8 || ByteAt(a, i) == 0 then i else FirstZero(a, i + 1)
  }

  function HasZeroBits(val: bv64): bv64 { (val + HIGH_BITS) & !(val | LOW_BITS) }

  /** `has_zero`, which also stores `val | low_bits` for `prep_zero_mask`. */
  method HasZero(val: bv64) returns (result: bv64, data: bv64)
    ensures data == val | LOW_BITS && result == HasZeroBits(val)
    ensures result != 0 <==> FirstZero(val, 0) < 8
  {
    var rhs := val | LOW_BITS;
    data := rhs;
    result := (val + HIGH_BITS) & !rhs;
    NonzeroIffZero(val);
  }

  /** The two byte orders test the same bits of the word. */
  lemma SameTest(val: bv64)
    ensures HasZeroBits(val) == Little.Flags(val)
  {
  }

  lemma SameByte(val: bv64, i: nat)
    requires i < 8
    ensures ByteAt(val, i) == Little.ByteAt(val, 7 - i)
  {
  }

  lemma NonzeroIffZero(val: bv64)
    ensures HasZeroBits(val) != 0 <==> FirstZero(val, 0) < 8
  {
    SameTest(val);
    Little.FlaggedIffZero(val);
    SomeZeroInBoth(val);
  }

  lemma SomeZeroInBoth(val: bv64)
    ensures FirstZero(val, 0) < 8 <==> Little.FirstZero(val, 0) < 8
  {
    var k, l := FirstZero(val, 0), Little.FirstZero(val, 0);
    if k < 8 {
      SameByte(val, k);
      assert Little.ByteAt(val, 7 - k) == 0;
    }
    if l < 8 {
      SameByte(val, 7 - l);
      assert ByteAt(val, 7 - l) == 0;
    }
  }

  /** `prep_zero_mask`; `create_zero_mask` does nothing. */
  function PrepMask(val: bv64, rhs: bv64): bv64 { !(((val & LOW_BITS) + LOW_BITS) | rhs) }

  /** Unlike the first test, the prepared flags are exact: 0x80 in each zero byte, 0 elsewhere. */
  lemma PrepIsExact(val: bv64, i: nat)
    requires i < 8
    ensures ByteAt(PrepMask(val, val | LOW_BITS), i) == if ByteAt(val, i) == 0 then 0x80 else 0
  {
    if i < 4 {
      if i == 0 {} else if i == 1 {} else if i == 2 {} else {}
    } else {
      if i == 4 {} else if i == 5 {} else if i == 6 {} else {}
    }
  }

  /** `find_zero`: a binary search for the highest flag. */
  method FindZero(mask: bv64) returns (byte: nat)
    requires mask != 0
    ensures byte < 8 && ByteAt(mask, byte) != 0
    ensures forall j :: 0 <= j < byte ==> ByteAt(mask, j) == 0
  {
    var m := mask;
    byte := 0;
    if m >> 32 != 0 {
      m := m >> 32;
    } else {
      byte := 4;
    }
    if m >> 16 != 0 {
      m := m >> 16;
    } else {
      byte := byte + 2;
    }
    if m >> 8 == 0 {
      byte := byte + 1;
    }
    assert byte == 0 || byte == 1 || byte == 2 || byte == 3 || byte == 4 || byte == 5 || byte == 6 || byte == 7;
  }

  /** The whole pipeline: whenever the word holds a zero byte, the index of the first. */
  method FindFirstZero(val: bv64) returns (found: bool, byte: nat)
    ensures found <==> FirstZero(val, 0) < 8
    ensures found ==> byte == FirstZero(val, 0)
  {
    var result, data := HasZero(val);
    found := result != 0;
    if found {
      var mask := PrepMask(val, data);
      FlagsAgree(val);
      byte := FindZero(mask);
      var k := FirstZero(val, 0);
      PrepIsExact(val, k);
      PrepIsExact(val, byte);
      if byte < k {
        assert false;
      }
    } else {
      byte := 0;
    }
  }

  lemma FlagsAgree(val: bv64)
    requires FirstZero(val, 0) < 8
    ensures PrepMask(val, val | LOW_BITS) != 0
  {
    PrepIsExact(val, FirstZero(val, 0));
    ZeroHasNoByte(FirstZero(val, 0));
  }

  lemma ZeroHasNoByte(i: nat)
    requires i < 8
    ensures ByteAt(0, i) == 0
  {
  }

  /** Ones in the k bytes that come first in memory. */
  function LeadingBytes(k: nat): bv64
    requires k <= 8
  {
    if k == 0 then 0 else if k == 1 then 0xff00_0000_0000_0000 else if k == 2 then 0xffff_0000_0000_0000
    else if k == 3 then 0xffff_ff00_0000_0000 else if k == 4 then 0xffff_ffff_0000_0000
    else if k == 5 then 0xffff_ffff_ff00_0000 else if k == 6 then 0xffff_ffff_ffff_0000
    else if k == 7 then 0xffff_ffff_ffff_ff00 else 0xffff_ffff_ffff_ffff
  }

  /** The position of the flag of byte k. */
  function FlagPosition(k: nat): bv64
    requires k < 8
  {
    if k == 0 then 63 else if k == 1 then 55 else if k == 2 then 47 else if k == 3 then 39
    else if k == 4 then 31 else if k == 5 then 23 else if k == 6 then 15 else 7
  }

  lemma HighestFlag(w: bv64, k: nat)
    requires k < 8 && ByteAt(w, k) == 0x80
    requires (k > 0 ==> ByteAt(w, 0) == 0) && (k > 1 ==> ByteAt(w, 1) == 0) && (k > 2 ==> ByteAt(w, 2) == 0)
    requires (k > 3 ==> ByteAt(w, 3) == 0) && (k > 4 ==> ByteAt(w, 4) == 0) && (k > 5 ==> ByteAt(w, 5) == 0)
    requires k > 6 ==> ByteAt(w, 6) == 0
    ensures w >> FlagPosition(k) == 1 && !1 << FlagPosition(k) == LeadingBytes(k)
  {
    if k < 4 {
      if k == 0 {} else if k == 1 {} else if k == 2 {} else {}
    } else {
      if k == 4 {} else if k == 5 {} else if k == 6 {} else {}
    }
  }

  /** `zero_bytemask`: the highest flag, which is what `__fls` returns, is that of the first zero
      byte k, and `~1 << __fls` covers exactly the k bytes before it. */
  lemma ZeroBytemask(val: bv64, k: nat)
    requires k == FirstZero(val, 0) && k < 8
    ensures PrepMask(val, val | LOW_BITS) >> FlagPosition(k) == 1
    ensures !1 << FlagPosition(k) == LeadingBytes(k)
  {
    PrepIsExact(val, k);
    PrepIsExact(val, 0);
    PrepIsExact(val, 1);
    PrepIsExact(val, 2);
    PrepIsExact(val, 3);
    PrepIsExact(val, 4);
    PrepIsExact(val, 5);
    PrepIsExact(val, 6);
    HighestFlag(PrepMask(val, val | LOW_BITS), k);
  }
}
