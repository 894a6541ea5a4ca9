/** Counter-mode encryption over a walk of chunks (crypto/ctr.h), against the definition of the
    mode in section 6.5 of NIST SP 800-38A. The block cipher is any function on blocks. */
module CtrMode {
  import opened Words
  import opened Padding

  const EINVAL: int := 22

  type Cipher = seq<Byte> -> seq<Byte>

  ghost predicate IsBlockCipher(encrypt: Cipher, blockSize: nat) {
    forall x :: |x| == blockSize ==> |encrypt(x)| == blockSize
  }

  // ----- the counter -----

  /** `crypto_inc`: adds one to a big-endian number of fixed width. */
  function Increment(a: seq<Byte>): (r: seq<Byte>)
    ensures |r| == |a|
  {
    if a == [] then []
    else
      var last := |a| - 1;
      if a[last] < 255 then a[..last] + [a[last] + 1] else Increment(a[..last]) + [0]
  }

  lemma {:induction false} ValueBelow(a: seq<Byte>)
    ensures Value(a) < Pow256(|a|)
  {
    if a != [] { ValueBelow(a[..|a| - 1]); }
  }

  /** Increment adds one and wraps at the end of its range. */
  lemma {:induction false} IncrementIsPlusOne(a: seq<Byte>)
    ensures Value(Increment(a)) == if Value(a) + 1 == Pow256(|a|) then 0 else Value(a) + 1
  {
    if a != [] {
      var last := |a| - 1;
      var r := Increment(a);
      ValueBelow(a[..last]);
      if a[last] < 255 {
        assert r[..last] == a[..last];
      } else {
        IncrementIsPlusOne(a[..last]);
        assert r[..last] == Increment(a[..last]);
      }
    }
  }

  /** The k-th counter block. */
  function Counter(iv: seq<Byte>, k: nat): (r: seq<Byte>)
    ensures |r| == |iv|
  {
    if k == 0 then iv else Increment(Counter(iv, k - 1))
  }

  /** Counter block k is iv + k, modulo the range of the block. */
  lemma {:induction false} CounterIsSum(iv: seq<Byte>, k: nat)
    ensures Value(Counter(iv, k)) == (Value(iv) + k) % Pow256(|iv|)
  {
    var x, p := Value(iv), Pow256(|iv|);
    ValueBelow(iv);
    if k == 0 {
      DivideUnique(x, p, 0, x);
    } else {
      CounterIsSum(iv, k - 1);
      IncrementIsPlusOne(Counter(iv, k - 1));
      NextRemainder(x + k - 1, p);
    }
  }

  lemma NextRemainder(x: nat, p: nat)
    requires p >= 1
    ensures (x + 1) % p == if x % p + 1 == p then 0 else x % p + 1
  {
    var q, r := x / p, x % p;
    assert x == q * p + r;
    if r + 1 < p {
      DivideUnique(x + 1, p, q, r + 1);
    } else {
      assert (q + 1) * p == q * p + p;
      DivideUnique(x + 1, p, q + 1, 0);
    }
  }

  // ----- the mode -----

  /** Byte i of the key stream: byte i mod blockSize of the encrypted counter iv + i / blockSize. */
  function KeyByte(encrypt: Cipher, iv: seq<Byte>, i: nat): Byte
    requires |iv| >= 1
  {
    var block := encrypt(Counter(iv, i / |iv|));
    if i % |iv| < |block| then block[i % |iv|] else 0
  }

  function Ctr(encrypt: Cipher, iv: seq<Byte>, data: seq<Byte>): (r: seq<Byte>)
    requires |iv| >= 1
    ensures |r| == |data|
  {
    seq(|data|, i requires 0 <= i < |data| => XorByte(data[i], KeyByte(encrypt, iv, i)))
  }

  /** A second run from the same IV restores the input. */
  lemma CtrTwice(encrypt: Cipher, iv: seq<Byte>, data: seq<Byte>)
    requires |iv| >= 1
    ensures Ctr(encrypt, iv, Ctr(encrypt, iv, data)) == data
  {
    forall i | 0 <= i < |data|
      ensures Ctr(encrypt, iv, Ctr(encrypt, iv, data))[i] == data[i]
    {
      var key := KeyByte(encrypt, iv, i);
      XorAssociates(data[i], key, key);
      XorSelf(key);
      XorZeroRight(data[i]);
    }
  }

  /** Output byte number i of the mode, as section 6.5 of NIST SP 800-38A has it: the input byte
      exclusive-or byte i mod n of the cipher at a counter block whose value is iv + i / n. */
  ghost predicate IsOutputByte(encrypt: Cipher, iv: seq<Byte>, i: nat, input: Byte, output: Byte)
    requires |iv| >= 1
  {
    exists counter: seq<Byte> ::
      && |counter| == |iv| == |encrypt(counter)|
      && Value(counter) == (Value(iv) + i / |iv|) % Pow256(|iv|)
      && output == Xor(input, encrypt(counter)[i % |iv|])
  }

  lemma CtrBytes(encrypt: Cipher, iv: seq<Byte>, data: seq<Byte>)
    requires |iv| >= 1 && IsBlockCipher(encrypt, |iv|)
    ensures forall i :: 0 <= i < |data| ==> IsOutputByte(encrypt, iv, i, data[i], Ctr(encrypt, iv, data)[i])
  {
    forall i: nat | i < |data|
      ensures IsOutputByte(encrypt, iv, i, data[i], Ctr(encrypt, iv, data)[i])
    {
      CounterIsSum(iv, i / |iv|);
      var counter := Counter(iv, i / |iv|);
      assert Ctr(encrypt, iv, data)[i] == Xor(data[i], encrypt(counter)[i % |iv|]);
    }
  }

  // ----- the walk -----

  /** What the chunk walk may hand out: at each position a nonempty chunk within what is left,
      and at least a block unless it is the last. */
  ghost predicate IsWalk(chunkAt: nat -> nat, total: nat, blockSize: nat) {
    forall pos: nat :: pos < total ==>
      && 1 <= chunkAt(pos) <= total - pos
      && (chunkAt(pos) < total - pos ==> chunkAt(pos) >= blockSize)
  }

  /** How many counter blocks the first n bytes use. */
  function BlocksFor(n: nat, blockSize: nat): nat
    requires blockSize >= 1
  {
    RoundUpIsNat(n, blockSize);
    (n + blockSize - 1) / blockSize
  }

  lemma RoundUpIsNat(n: nat, blockSize: nat)
    requires blockSize >= 1
    ensures (n + blockSize - 1) / blockSize >= 0
  {
  }

  lemma BlocksForMultiple(q: nat, blockSize: nat, more: nat)
    requires blockSize >= 1 && more <= blockSize
    ensures q * blockSize + more >= 0
    ensures BlocksFor(q * blockSize + more, blockSize) == if more == 0 then q else q + 1
  {
    MulBound(0, 0, q, blockSize);
    var n := q * blockSize + more;
    if more == 0 {
      DivideUnique(n + blockSize - 1, blockSize, q, blockSize - 1);
    } else {
      assert (q + 1) * blockSize == q * blockSize + blockSize;
      DivideUnique(n + blockSize - 1, blockSize, q + 1, more - 1);
    }
  }

  /** `crypto_xor_cpy(dst + at, src + at, buf, n)`; src and dst may be the same buffer. */
  method XorCopy(dst: array<Byte>, src: array<Byte>, at: nat, buf: seq<Byte>, n: nat)
    requires at + n <= dst.Length && at + n <= src.Length && n <= |buf|
    modifies dst
    ensures forall i :: 0 <= i < n ==> dst[at + i] == XorByte(old(src[at + i]), buf[i])
    ensures forall i :: 0 <= i < dst.Length && !(at <= i < at + n) ==> dst[i] == old(dst[i])
  {
    forall i | at <= i < at + n {
      dst[i] := XorByte(src[i], buf[i - at]);
    }
  }

  /** The first n bytes of the output are right. */
  ghost predicate Done(encrypt: Cipher, iv: seq<Byte>, data: seq<Byte>, out: seq<Byte>, n: nat)
    requires |iv| >= 1
  {
    n <= |data| && n <= |out| && forall i :: 0 <= i < n ==> out[i] == XorByte(data[i], KeyByte(encrypt, iv, i))
  }

  lemma OutputSoFar(encrypt: Cipher, iv: seq<Byte>, data: seq<Byte>, out: seq<Byte>, before: seq<Byte>, n: nat)
    requires |iv| >= 1 && |out| == |data| == |before| && Done(encrypt, iv, data, out, n)
    requires forall i :: n <= i < |out| ==> out[i] == before[i]
    ensures out == Ctr(encrypt, iv, data)[..n] + before[n..]
  {
    assert out[..n] == Ctr(encrypt, iv, data)[..n];
    assert out[n..] == before[n..] && out == out[..n] + out[n..];
  }

  /** `crypto_inc(iv, blockSize)` in place. */
  method Advance(iv: array<Byte>)
    modifies iv
    ensures iv[..] == Increment(old(iv[..]))
  {
    var next := Increment(iv[..]);
    forall i | 0 <= i < iv.Length {
      iv[i] := next[i];
    }
  }

  /** Inside block number q the key stream is that block, byte by byte. */
  lemma KeyByteInBlock(encrypt: Cipher, iv: seq<Byte>, q: nat, j: nat)
    requires j < |iv| && |encrypt(Counter(iv, q))| == |iv|
    ensures q * |iv| + j >= 0 && KeyByte(encrypt, iv, q * |iv| + j) == encrypt(Counter(iv, q))[j]
  {
    MulBound(0, 0, q, |iv|);
    DivideUnique(q * |iv| + j, |iv|, q, j);
  }

  /** Where the walk stands after n bytes: the output so far is right, the counter is at its
      block, the input ahead is untouched. */
  ghost predicate Progress(encrypt: Cipher, iv0: seq<Byte>, data: seq<Byte>,
                           iv: seq<Byte>, src: seq<Byte>, dst: seq<Byte>, n: nat, blocks: nat) {
    && |iv0| >= 1 && |src| == |data| == |dst| && n <= |data|
    && iv == Counter(iv0, blocks)
    && Done(encrypt, iv0, data, dst, n)
    && src[n..] == data[n..]
  }

  /** The body of the inner loop: one block, or the last part of one. */
  method OneBlock(encrypt: Cipher, iv: array<Byte>, src: array<Byte>, dst: array<Byte>,
                  pos: nat, bsize: nat, ghost iv0: seq<Byte>, ghost data: seq<Byte>, ghost blocks: nat)
    requires |iv0| == iv.Length && iv != src && iv != dst && IsBlockCipher(encrypt, iv.Length)
    requires Progress(encrypt, iv0, data, iv[..], src[..], dst[..], pos, blocks)
    requires pos + bsize <= src.Length && bsize <= iv.Length && pos == blocks * iv.Length
    modifies iv, dst
    ensures Progress(encrypt, iv0, data, iv[..], src[..], dst[..], pos + bsize, blocks + 1)
    ensures forall i :: pos + bsize <= i < dst.Length ==> dst[i] == old(dst[i])
    ensures src != dst ==> src[..] == old(src[..])
  {
    var buf := encrypt(iv[..]);
    forall i | pos <= i < |data| ensures src[i] == data[i] {
      assert src[..][pos..][i - pos] == data[pos..][i - pos];
    }
    XorCopy(dst, src, pos, buf, bsize);
    forall i | 0 <= i < pos + bsize
      ensures dst[i] == XorByte(data[i], KeyByte(encrypt, iv0, i))
    {
      if i < pos {
        assert dst[i] == old(dst[..])[i];
      } else {
        KeyByteInBlock(encrypt, iv0, blocks, i - pos);
        assert dst[pos + (i - pos)] == XorByte(old(src[pos + (i - pos)]), buf[i - pos]);
      }
    }
    Advance(iv);
  }

  /** The inner loop: a chunk, block by block. It ends on a block boundary unless the chunk is
      the end of the data. */
  method OneChunk(encrypt: Cipher, iv: array<Byte>, src: array<Byte>, dst: array<Byte>,
                  pos0: nat, nbytes0: nat, ghost iv0: seq<Byte>, ghost data: seq<Byte>, ghost blocks0: nat)
    returns (pos: nat, ghost blocks: nat)
    requires |iv0| == iv.Length && iv != src && iv != dst && IsBlockCipher(encrypt, iv.Length)
    requires Progress(encrypt, iv0, data, iv[..], src[..], dst[..], pos0, blocks0)
    requires pos0 == blocks0 * iv.Length && 1 <= nbytes0 <= src.Length - pos0
    requires nbytes0 == src.Length - pos0 || nbytes0 % iv.Length == 0
    modifies iv, dst
    ensures pos == pos0 + nbytes0
    ensures Progress(encrypt, iv0, data, iv[..], src[..], dst[..], pos, blocks)
    ensures pos == src.Length || pos == blocks * iv.Length
    ensures blocks == BlocksFor(pos, iv.Length)
    ensures forall i :: pos <= i < dst.Length ==> dst[i] == old(dst[i])
    ensures src != dst ==> src[..] == old(src[..])
  {
    var blockSize := iv.Length;
    var nbytes := nbytes0;
    pos, blocks := pos0, blocks0;
    while true
      invariant 1 <= nbytes && pos + nbytes == pos0 + nbytes0
      invariant nbytes == src.Length - pos || nbytes % blockSize == 0
      invariant pos == blocks * blockSize
      invariant Progress(encrypt, iv0, data, iv[..], src[..], dst[..], pos, blocks)
      invariant forall i :: pos <= i < dst.Length ==> dst[i] == old(dst[i])
      invariant src != dst ==> src[..] == old(src[..])
      decreases nbytes
    {
      var bsize := if nbytes < blockSize then nbytes else blockSize;
      OneBlock(encrypt, iv, src, dst, pos, bsize, iv0, data, blocks);
      NextBlock(blocks, blockSize, bsize);
      if nbytes % blockSize == 0 { ShorterByOneBlock(nbytes, blockSize); }
      blocks := blocks + 1;
      pos := pos + bsize;
      nbytes := nbytes - bsize;
      if nbytes <= 0 { break; }
    }
  }

  /** The tail the code leaves for the next chunk keeps every chunk but the last whole blocks. */
  lemma TailIsRemainder(nbytes: nat, blockSize: nat)
    requires blockSize >= 1 && And(blockSize, blockSize - 1) == 0
    ensures And(nbytes, blockSize - 1) == nbytes % blockSize
  {
    PowerOfTwoTest(blockSize);
    AndLowMask(nbytes, Ilog2(blockSize));
  }

  lemma WholeBlocks(nbytes: nat, blockSize: nat)
    requires blockSize >= 1 && nbytes >= blockSize
    ensures nbytes - nbytes % blockSize >= blockSize
    ensures (nbytes - nbytes % blockSize) % blockSize == 0
  {
    var q, r := nbytes / blockSize, nbytes % blockSize;
    assert nbytes == q * blockSize + r;
    MulBound(1, blockSize, q, blockSize);
    DivideUnique(nbytes - r, blockSize, q, 0);
  }

  lemma NextBlock(blocks: nat, blockSize: nat, bsize: nat)
    requires blockSize >= 1 && bsize <= blockSize
    ensures (blocks + 1) * blockSize == blocks * blockSize + blockSize
    ensures blocks * blockSize + bsize >= 0
    ensures bsize >= 1 ==> BlocksFor(blocks * blockSize + bsize, blockSize) == blocks + 1
    ensures BlocksFor(0, blockSize) == 0
  {
    BlocksForMultiple(blocks, blockSize, bsize);
    BlocksForMultiple(0, blockSize, 0);
  }

  /** The walk: the chunk it hands out at each position, unless it fails there. `skcipher_walk_virt` asks
      for the first chunk and each `skcipher_walk_done` for the next. */
  datatype Walk = Walk(chunkAt: nat -> nat, errorAt: nat -> int)

  /** How much of a chunk the code handles: all of the last one, whole blocks of any other. */
  function Handled(chunk: nat, left: nat, blockSize: nat): nat
    requires blockSize >= 1
  {
    if chunk < left then chunk - chunk % blockSize else chunk
  }

  /** Where the walk ends: at the end of the data or at the first position where it fails. */
  function WalkEnd(walk: Walk, pos: nat, total: nat, blockSize: nat): (end: nat)
    requires blockSize >= 1 && pos <= total && IsWalk(walk.chunkAt, total, blockSize)
    ensures pos <= end <= total
    ensures end < total ==> walk.errorAt(end) != 0
    decreases total - pos
  {
    if pos == total || walk.errorAt(pos) != 0 then pos
    else
      HandledProgresses(walk.chunkAt(pos), total - pos, blockSize);
      WalkEnd(walk, pos + Handled(walk.chunkAt(pos), total - pos, blockSize), total, blockSize)
  }

  lemma HandledProgresses(chunk: nat, left: nat, blockSize: nat)
    requires blockSize >= 1 && 1 <= chunk <= left && (chunk < left ==> chunk >= blockSize)
    ensures 1 <= Handled(chunk, left, blockSize) <= left
    ensures Handled(chunk, left, blockSize) == left || Handled(chunk, left, blockSize) % blockSize == 0
  {
    if chunk < left { WholeBlocks(chunk, blockSize); }
  }

  /** One turn of the outer loop: the chunk at pos, less the tail left for the next one. */
  method OneTurn(encrypt: Cipher, walk: Walk, iv: array<Byte>, src: array<Byte>, dst: array<Byte>,
                 pos0: nat, ghost iv0: seq<Byte>, ghost data: seq<Byte>, ghost blocks0: nat)
    returns (pos: nat, ghost blocks: nat)
    requires |iv0| == iv.Length && iv != src && iv != dst && IsBlockCipher(encrypt, iv.Length)
    requires iv.Length >= 1 && And(iv.Length, iv.Length - 1) == 0 && IsWalk(walk.chunkAt, src.Length, iv.Length)
    requires Progress(encrypt, iv0, data, iv[..], src[..], dst[..], pos0, blocks0)
    requires pos0 == blocks0 * iv.Length && pos0 < src.Length
    modifies iv, dst
    ensures pos == pos0 + Handled(walk.chunkAt(pos0), src.Length - pos0, iv.Length) && pos0 < pos <= src.Length
    ensures Progress(encrypt, iv0, data, iv[..], src[..], dst[..], pos, blocks)
    ensures pos == src.Length || pos == blocks * iv.Length
    ensures blocks == BlocksFor(pos, iv.Length)
    ensures forall i :: pos <= i < dst.Length ==> dst[i] == old(dst[i])
    ensures src != dst ==> src[..] == old(src[..])
  {
    var blockSize := iv.Length;
    var nbytes := walk.chunkAt(pos0);
    HandledProgresses(nbytes, src.Length - pos0, blockSize);
    var tail := 0;
    if nbytes < src.Length - pos0 {
      TailIsRemainder(nbytes, blockSize);
      tail := And(nbytes, blockSize - 1);
      nbytes := nbytes - tail;
    }
    pos, blocks := OneChunk(encrypt, iv, src, dst, pos0, nbytes, iv0, data, blocks0);
  }

  /** The outer loop, up to where the walk ends. */
  method HandleChunks(encrypt: Cipher, walk: Walk, iv: array<Byte>,
                      src: array<Byte>, dst: array<Byte>, ghost end: nat) returns (err: int)
    requires iv.Length >= 1 && src.Length == dst.Length && iv != src && iv != dst
    requires IsBlockCipher(encrypt, iv.Length) && IsWalk(walk.chunkAt, src.Length, iv.Length)
    requires And(iv.Length, iv.Length - 1) == 0 && end == WalkEnd(walk, 0, src.Length, iv.Length)
    modifies iv, dst
    ensures err == walk.errorAt(end) && iv[..] == Counter(old(iv[..]), BlocksFor(end, iv.Length))
    ensures dst[..] == Ctr(encrypt, old(iv[..]), old(src[..]))[..end] + old(dst[..])[end..]
    ensures src != dst ==> src[..] == old(src[..])
  {
    ghost var iv0, data, dst0 := iv[..], src[..], dst[..];
    var pos := 0;
    ghost var blocks := 0;
    NextBlock(0, iv.Length, 0);
    err := walk.errorAt(pos);
    while pos < src.Length && err == 0
      invariant pos <= end && err == walk.errorAt(pos) && WalkEnd(walk, pos, src.Length, iv.Length) == end
      invariant pos == src.Length || pos == blocks * iv.Length
      invariant blocks == BlocksFor(pos, iv.Length)
      invariant Progress(encrypt, iv0, data, iv[..], src[..], dst[..], pos, blocks)
      invariant forall i :: pos <= i < dst.Length ==> dst[i] == dst0[i]
      invariant src != dst ==> src[..] == data
      decreases src.Length - pos
    {
      pos, blocks := OneTurn(encrypt, walk, iv, src, dst, pos, iv0, data, blocks);
      err := walk.errorAt(pos);
    }
    OutputSoFar(encrypt, iv0, data, dst[..], dst0, pos);
  }

  /** `crypto_ctr_encrypt_walk`. The walk chooses the chunks and may fail before any of them, which
      leaves no bytes to handle; what the call returns is its last answer. Up to where it ends the
      output is the mode's, whatever it chooses, the rest is as it was, and the IV has moved on by the
      blocks used. */
  method EncryptWalk(encrypt: Cipher, walk: Walk, iv: array<Byte>,
                     src: array<Byte>, dst: array<Byte>) returns (err: int)
    requires iv.Length >= 1 && src.Length == dst.Length && iv != src && iv != dst
    requires IsBlockCipher(encrypt, iv.Length) && IsWalk(walk.chunkAt, src.Length, iv.Length)
    modifies iv, dst
    ensures And(iv.Length, iv.Length - 1) != 0 ==>
      err == -EINVAL && iv[..] == old(iv[..]) && dst[..] == old(dst[..])
    ensures And(iv.Length, iv.Length - 1) == 0 ==>
      var end := WalkEnd(walk, 0, src.Length, iv.Length);
      && err == walk.errorAt(end)
      && dst[..] == Ctr(encrypt, old(iv[..]), old(src[..]))[..end] + old(dst[..])[end..]
      && iv[..] == Counter(old(iv[..]), BlocksFor(end, iv.Length))
      && (forall i :: 0 <= i < end ==> IsOutputByte(encrypt, old(iv[..]), i, old(src[..])[i], dst[i]))
      && Value(iv[..]) == (Value(old(iv[..])) + (end + iv.Length - 1) / iv.Length) % Pow256(iv.Length)
    ensures src != dst ==> src[..] == old(src[..])
  {
    if And(iv.Length, iv.Length - 1) != 0 {
      return -EINVAL;
    }
    ghost var end := WalkEnd(walk, 0, src.Length, iv.Length);
    ghost var iv0, data := iv[..], src[..];
    err := HandleChunks(encrypt, walk, iv, src, dst, end);
    CtrBytes(encrypt, iv0, data);
    CounterIsSum(iv0, BlocksFor(end, |iv0|));
    PrefixBytes(encrypt, iv0, data, dst[..], end);
  }

  lemma PrefixBytes(encrypt: Cipher, iv: seq<Byte>, data: seq<Byte>, out: seq<Byte>, end: nat)
    requires |iv| >= 1 && end <= |data| == |out| && out[..end] == Ctr(encrypt, iv, data)[..end]
    requires forall i :: 0 <= i < |data| ==> IsOutputByte(encrypt, iv, i, data[i], Ctr(encrypt, iv, data)[i])
    ensures forall i :: 0 <= i < end ==> IsOutputByte(encrypt, iv, i, data[i], out[i])
  {
    forall i | 0 <= i < end
      ensures out[i] == Ctr(encrypt, iv, data)[i]
    {
      assert out[i] == out[..end][i];
    }
  }

  /** A walk that never fails hands out all the data, and then all of it is the mode's. */
  lemma WalkWithoutError(encrypt: Cipher, walk: Walk, iv: seq<Byte>, data: seq<Byte>, before: seq<Byte>)
    requires |iv| >= 1 && IsWalk(walk.chunkAt, |data|, |iv|) && |before| == |data|
    requires forall p :: 0 <= p <= |data| ==> walk.errorAt(p) == 0
    ensures var end := WalkEnd(walk, 0, |data|, |iv|);
      && end == |data| && walk.errorAt(end) == 0
      && Ctr(encrypt, iv, data)[..end] + before[end..] == Ctr(encrypt, iv, data)
  {
  }
}
