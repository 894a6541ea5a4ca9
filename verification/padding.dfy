/** The one-shot meaning of the SHA and SM3 drivers: pad a message, cut it into blocks, and
    feed the blocks in order to a compression function that this model leaves arbitrary. */
module Padding {
  import opened Words

  /** A compression function: chaining value and block to chaining value. */
  type Compress<!S> = (S, seq<Byte>) -> S

  /** Feeds `data`, a whole number of blocks, to the compression function. */
  function Absorb<S>(f: Compress<S>, state: S, data: seq<Byte>, blockSize: nat): S
    requires blockSize >= 1 && |data| % blockSize == 0
    decreases |data|
  {
    if data == [] then state
    else
      ShorterByOneBlock(|data|, blockSize);
      Absorb(f, f(state, data[..blockSize]), data[blockSize..], blockSize)
  }

  lemma ShorterByOneBlock(n: nat, blockSize: nat)
    requires blockSize >= 1 && n % blockSize == 0 && n >= 1
    ensures n >= blockSize && (n - blockSize) % blockSize == 0
  {
    var q := n / blockSize;
    assert n == q * blockSize;
    if q >= 1 {
      MulStep(0, q, blockSize);
      assert (q - 1) * blockSize == n - blockSize;
      DivideExact(n - blockSize, blockSize, q - 1);
    }
  }

  lemma SumOfBlocks(a: nat, b: nat, blockSize: nat)
    requires blockSize >= 1 && a % blockSize == 0 && b % blockSize == 0
    ensures (a + b) % blockSize == 0
  {
    var i, j := a / blockSize, b / blockSize;
    assert a == i * blockSize && b == j * blockSize;
    assert (i + j) * blockSize == a + b;
    DivideExact(a + b, blockSize, i + j);
  }

  lemma DifferenceOfBlocks(a: nat, b: nat, blockSize: nat)
    requires blockSize >= 1 && a % blockSize == 0 && b % blockSize == 0 && a <= b
    ensures (b - a) % blockSize == 0
  {
    var i, j := a / blockSize, b / blockSize;
    assert a == i * blockSize && b == j * blockSize;
    if j < i { MulStep(j, i, blockSize); }
    assert (j - i) * blockSize == b - a;
    DivideExact(b - a, blockSize, j - i);
  }

  /** Feeding two runs of blocks one after the other is feeding their concatenation. */
  lemma {:induction false} AbsorbConcat<S>(f: Compress<S>, state: S, a: seq<Byte>, b: seq<Byte>, blockSize: nat)
    requires blockSize >= 1 && |a| % blockSize == 0 && |b| % blockSize == 0
    ensures |a + b| % blockSize == 0
    ensures Absorb(f, state, a + b, blockSize) == Absorb(f, Absorb(f, state, a, blockSize), b, blockSize)
    decreases |a|
  {
    SumOfBlocks(|a|, |b|, blockSize);
    if a == [] {
      assert a + b == b;
    } else {
      ShorterByOneBlock(|a|, blockSize);
      assert (a + b)[..blockSize] == a[..blockSize];
      assert (a + b)[blockSize..] == a[blockSize..] + b;
      AbsorbConcat(f, f(state, a[..blockSize]), a[blockSize..], b, blockSize);
    }
  }

  // ----- big-endian numbers -----

  /** The low n bytes of x, most significant first. */
  function BigEndian(x: nat, n: nat): (s: seq<Byte>)
    ensures |s| == n
  {
    if n == 0 then [] else BigEndian(x / 256, n - 1) + [x % 256]
  }

  function Value(s: seq<Byte>): nat {
    if s == [] then 0 else 256 * Value(s[..|s| - 1]) + s[|s| - 1]
  }

  function Pow256(n: nat): (r: nat)
    ensures r >= 1
  {
    if n == 0 then 1 else 256 * Pow256(n - 1)
  }

  /** Reading the bytes back gives the number, when it fits. */
  lemma {:induction false} BigEndianRoundTrip(x: nat, n: nat)
    requires x < Pow256(n)
    ensures Value(BigEndian(x, n)) == x
  {
    if n > 0 {
      BigEndianRoundTrip(x / 256, n - 1);
      assert BigEndian(x, n)[..n - 1] == BigEndian(x / 256, n - 1);
    }
  }

  /** x without its low k bytes. */
  function DropBytes(x: nat, k: nat): nat { if k == 0 then x else DropBytes(x / 256, k - 1) }

  /** A number's bytes are those of its high part followed by those of its low part. */
  lemma {:induction false} BigEndianSplit(x: nat, n: nat, k: nat)
    ensures BigEndian(x, n + k) == BigEndian(DropBytes(x, k), n) + BigEndian(x, k)
  {
    if k > 0 {
      BigEndianSplit(x / 256, n, k - 1);
    }
  }

  lemma {:induction false} BigEndianLow(x: nat, y: nat, n: nat)
    requires x % Pow256(n) == y % Pow256(n)
    ensures BigEndian(x, n) == BigEndian(y, n)
  {
    if n > 0 {
      LastByte(x, Pow256(n - 1));
      LastByte(y, Pow256(n - 1));
      BigEndianLow(x / 256, y / 256, n - 1);
    }
  }

  lemma LastByte(x: nat, d: nat)
    requires d >= 1
    ensures x % (256 * d) == 256 * ((x / 256) % d) + x % 256
  {
    var q, r := (x / 256) / d, (x / 256) % d;
    assert x / 256 == d * q + r;
    assert q * (256 * d) == 256 * (d * q);
    DivideUnique(x, 256 * d, q, 256 * r + x % 256);
  }

  // ----- padding -----

  function Zeros(n: nat): seq<Byte> { seq(n, _ => 0) }

  /** How many zero bytes go between the 0x80 and the length. */
  function ZeroCount(length: nat, blockSize: nat, lengthBytes: nat): (k: nat)
    requires blockSize >= 1
    ensures k < blockSize
  {
    var r := (length + 1 + lengthBytes) % blockSize;
    if r == 0 then 0 else blockSize - r
  }

  /** The padded message of sections 5.1.1 and 5.1.2 of FIPS 180-4: a one bit, zeros, and the
      length in bits, which there fits its field and here is taken modulo its size. */
  function Pad(message: seq<Byte>, blockSize: nat, lengthBytes: nat): seq<Byte>
    requires blockSize >= 1
  {
    message + [0x80] + Zeros(ZeroCount(|message|, blockSize, lengthBytes))
      + BigEndian(8 * |message|, lengthBytes)
  }

  lemma PadIsWholeBlocks(message: seq<Byte>, blockSize: nat, lengthBytes: nat)
    requires blockSize >= 1
    ensures |Pad(message, blockSize, lengthBytes)| % blockSize == 0
    ensures |Pad(message, blockSize, lengthBytes)| < |message| + 1 + lengthBytes + blockSize
  {
    var n := |message| + 1 + lengthBytes;
    var q, r := n / blockSize, n % blockSize;
    assert n == q * blockSize + r;
    if r == 0 {
      DivideExact(n, blockSize, q);
    } else {
      assert (q + 1) * blockSize == n + (blockSize - r);
      DivideExact(n + (blockSize - r), blockSize, q + 1);
    }
  }

  /** Different messages never pad to the same blocks, while the bit length fits its field. */
  lemma PadInjective(a: seq<Byte>, b: seq<Byte>, blockSize: nat, lengthBytes: nat)
    requires blockSize >= 1
    requires 8 * |a| < Pow256(lengthBytes) && 8 * |b| < Pow256(lengthBytes)
    requires Pad(a, blockSize, lengthBytes) == Pad(b, blockSize, lengthBytes)
    ensures a == b
  {
    var p := Pad(a, blockSize, lengthBytes);
    var tail := p[|p| - lengthBytes..];
    assert tail == BigEndian(8 * |a|, lengthBytes);
    assert tail == BigEndian(8 * |b|, lengthBytes);
    BigEndianRoundTrip(8 * |a|, lengthBytes);
    BigEndianRoundTrip(8 * |b|, lengthBytes);
    assert a == p[..|a|] && b == p[..|b|];
  }

  // ----- the padded message as a number -----

  lemma {:induction false} ValueConcat(a: seq<Byte>, b: seq<Byte>)
    ensures Value(a + b) == Value(a) * Pow256(|b|) + Value(b)
  {
    if b == [] {
      assert a + b == a;
    } else {
      var last := |b| - 1;
      assert (a + b)[..|a + b| - 1] == a + b[..last];
      ValueConcat(a, b[..last]);
      AppendDigit(Value(a), Pow256(last), Value(b[..last]), b[last]);
    }
  }

  lemma AppendDigit(high: int, p: int, low: int, digit: int)
    ensures 256 * (high * p + low) + digit == high * (256 * p) + (256 * low + digit)
  {
  }

  lemma {:induction false} ZerosValue(n: nat)
    ensures Value(Zeros(n)) == 0
  {
    if n > 0 {
      assert Zeros(n)[..n - 1] == Zeros(n - 1);
      ZerosValue(n - 1);
    }
  }

  lemma {:induction false} Pow256IsPow2(n: nat)
    ensures Pow256(n) == Pow2(8 * n)
  {
    if n > 0 {
      Pow256IsPow2(n - 1);
      EightDoublings(8 * n - 8);
    }
  }

  lemma EightDoublings(k: nat)
    ensures Pow2(k + 8) == 256 * Pow2(k)
  {
    Pow2Sum(k, 8);
    assert Pow2(8) == 256;
  }

  /** Half of 256^(n + 1) is 128 * 256^n. */
  lemma HalfPower(n: nat)
    ensures 128 * Pow256(n) == Pow2(8 * (n + 1) - 1)
  {
    Pow256IsPow2(n);
    Pow2Sum(8 * n, 7);
    assert Pow2(7) == 128;
  }

  lemma MarkerValue(message: seq<Byte>, marker: Byte)
    ensures Value(message + [marker]) == 256 * Value(message) + marker
  {
    assert (message + [marker])[..|message|] == message;
  }

  /** The padding of FIPS 180-4 on numbers: the message, a one bit, zero bits, and the length in bits. */
  lemma PadValue(message: seq<Byte>, blockSize: nat, lengthBytes: nat)
    requires blockSize >= 1 && 8 * |message| < Pow256(lengthBytes)
    ensures var p := Pad(message, blockSize, lengthBytes);
      |p| > |message|
      && Value(p) == (2 * Value(message) + 1) * Pow2(8 * (|p| - |message|) - 1) + 8 * |message|
  {
    var k := |Pad(message, blockSize, lengthBytes)| - |message|;
    PadParts(message, blockSize, lengthBytes, k);
    HalfPower(k - 1);
    MarkedBits(Value(message), Pow256(k - 1), Pow2(8 * k - 1));
  }

  lemma PadParts(message: seq<Byte>, blockSize: nat, lengthBytes: nat, k: int)
    requires blockSize >= 1 && 8 * |message| < Pow256(lengthBytes)
    requires k == |Pad(message, blockSize, lengthBytes)| - |message|
    ensures k >= 1
    ensures Value(Pad(message, blockSize, lengthBytes))
         == (256 * Value(message) + 128) * Pow256(k - 1) + 8 * |message|
  {
    var zeros := Zeros(ZeroCount(|message|, blockSize, lengthBytes));
    var field := BigEndian(8 * |message|, lengthBytes);
    assert Pad(message, blockSize, lengthBytes) == (message + [0x80]) + (zeros + field);
    MarkerValue(message, 0x80);
    ValueConcat(message + [0x80], zeros + field);
    ZerosThenField(|zeros|, field);
    BigEndianRoundTrip(8 * |message|, lengthBytes);
  }

  lemma ZerosThenField(n: nat, field: seq<Byte>)
    ensures Value(Zeros(n) + field) == Value(field)
  {
    ValueConcat(Zeros(n), field);
    ZerosValue(n);
    ZeroProduct(Pow256(|field|));
  }

  lemma ZeroProduct(p: int)
    ensures 0 * p == 0
  {
  }

  lemma MarkedBits(v: int, p: int, half: int)
    requires 128 * p == half
    ensures (256 * v + 128) * p == (2 * v + 1) * half
  {
  }

  /** And no padding to whole blocks with room for the bit and the length is shorter. */
  lemma PadIsShortest(message: seq<Byte>, blockSize: nat, lengthBytes: nat, n: nat)
    requires blockSize >= 1 && n % blockSize == 0 && n >= |message| + 1 + lengthBytes
    ensures var p := Pad(message, blockSize, lengthBytes);
      |p| % blockSize == 0 && |message| + 1 + lengthBytes <= |p| <= n
  {
    PadIsWholeBlocks(message, blockSize, lengthBytes);
    NoMultipleBetween(|Pad(message, blockSize, lengthBytes)|, n, blockSize);
  }

  lemma NoMultipleBetween(a: nat, b: nat, d: nat)
    requires d >= 1 && a % d == 0 && b % d == 0 && a < b + d
    ensures a <= b
  {
    var i, j := a / d, b / d;
    assert a == i * d && b == j * d;
    if i > j { MulStep(j, i, d); }
  }

  // ----- what absorbing is -----

  /** Block number k of the data. */
  function BlockOf(data: seq<Byte>, k: nat, blockSize: nat): (block: seq<Byte>)
    requires k * blockSize + blockSize <= |data|
    ensures |block| == blockSize
  {
    MulBound(0, 0, k, blockSize);
    data[k * blockSize..k * blockSize + blockSize]
  }

  /** The chaining values H(0), H(1), ... of section 6 of FIPS 180-4: each follows from the one before by
      the next block, and the last is what the data comes to. */
  lemma {:induction false} ChainingValues<S>(f: Compress<S>, state: S, data: seq<Byte>, blockSize: nat, n: nat)
      returns (h: seq<S>)
    requires blockSize >= 1 && |data| == n * blockSize
    ensures |data| % blockSize == 0 && |h| == n + 1 && h[0] == state && h[n] == Absorb(f, state, data, blockSize)
    ensures forall k :: 0 <= k < n ==>
      0 <= k * blockSize && k * blockSize + blockSize <= |data| && h[k + 1] == f(h[k], BlockOf(data, k, blockSize))
  {
    DivideExact(|data|, blockSize, n);
    if n == 0 {
      h := [state];
    } else {
      var cut := (n - 1) * blockSize;
      BlocksBefore(n, blockSize);
      var before, last := data[..cut], data[cut..];
      var init := ChainingValues(f, state, before, blockSize, n - 1);
      assert data == before + last;
      DivideExact(blockSize, blockSize, 1);
      AbsorbConcat(f, state, before, last, blockSize);
      AbsorbOneBlock(f, init[n - 1], last, blockSize);
      h := init + [f(init[n - 1], last)];
      forall k | 0 <= k < n
        ensures 0 <= k * blockSize && k * blockSize + blockSize <= |data| && h[k + 1] == f(h[k], BlockOf(data, k, blockSize))
      {
        SameBlock(data, k, n, blockSize);
      }
    }
  }

  lemma BlocksBefore(n: nat, blockSize: nat)
    requires n >= 1
    ensures 0 <= (n - 1) * blockSize && n * blockSize == (n - 1) * blockSize + blockSize
  {
    MulBound(0, 0, n - 1, blockSize);
  }

  lemma SameBlock(data: seq<Byte>, k: nat, n: nat, blockSize: nat)
    requires blockSize >= 1 && k < n && |data| == n * blockSize
    ensures 0 <= k * blockSize && k * blockSize + blockSize <= |data|
    ensures 0 <= (n - 1) * blockSize <= |data|
    ensures k < n - 1 ==>
      && k * blockSize + blockSize <= (n - 1) * blockSize
      && BlockOf(data, k, blockSize) == BlockOf(data[..(n - 1) * blockSize], k, blockSize)
    ensures k == n - 1 ==> BlockOf(data, k, blockSize) == data[(n - 1) * blockSize..]
  {
    MulBound(0, 0, k, blockSize);
    BlocksBefore(n, blockSize);
    if k < n - 1 { MulStep(k, n - 1, blockSize); }
  }

  lemma AbsorbOneBlock<S>(f: Compress<S>, state: S, block: seq<Byte>, blockSize: nat)
    requires blockSize >= 1 && |block| == blockSize
    ensures |block| % blockSize == 0 && Absorb(f, state, block, blockSize) == f(state, block)
  {
    DivideExact(blockSize, blockSize, 1);
    assert block[..blockSize] == block && block[blockSize..] == [];
  }

  /** Byte k of a big-endian number. */
  lemma {:induction false} BigEndianByte(x: nat, n: nat, k: nat)
    requires k < n
    ensures BigEndian(x, n)[k] == DropBytes(x, n - 1 - k) % 256
    ensures DropBytes(x, n - 1 - k) == x / Pow256(n - 1 - k)
  {
    DropIsQuotient(x, n - 1 - k);
    if k < n - 1 { BigEndianByte(x / 256, n - 1, k); }
  }

  lemma {:induction false} DropIsQuotient(x: nat, k: nat)
    ensures x / Pow256(k) >= 0 && DropBytes(x, k) == x / Pow256(k)
  {
    if k > 0 {
      DropIsQuotient(x / 256, k - 1);
      QuotientOfQuotient(x, Pow256(k - 1));
    }
  }

  lemma QuotientOfQuotient(x: nat, p: nat)
    requires p >= 1
    ensures x / (256 * p) == x / 256 / p && x / 256 / p >= 0
  {
    var q, r := x / 256 / p, x / 256 % p;
    assert x / 256 == q * p + r;
    MulDouble256(q, p);
    DivideUnique(x, 256 * p, q, 256 * r + x % 256);
  }

  lemma MulDouble256(q: int, p: int)
    ensures q * (256 * p) == 256 * (q * p)
  {
  }
}
