/** The last step of the hash functions (`lib_sha256_base_finish`, `sha512_base_finish` and their
    siblings): the state words are written big-endian, as many as the digest takes, and the context
    is cleared. */
module Digests {
  import opened Words
  import opened Chunks
  import opened Padding
  import opened BlockBuffers
  import Sha256Base
  import Sha512Base

  /** State words as bytes, most significant byte first. */
  function WordsBytes(words: seq<nat>, wordBytes: nat): seq<Byte> {
    if |words| == 0 then []
    else WordsBytes(words[..|words| - 1], wordBytes) + BigEndian(words[|words| - 1], wordBytes)
  }

  lemma {:induction false} DigestLength(words: seq<nat>, wordBytes: nat)
    ensures |WordsBytes(words, wordBytes)| == |words| * wordBytes
  {
    if |words| > 0 {
      var last: int := |words| - 1;
      DigestLength(words[..last], wordBytes);
      assert |words| * wordBytes == last * wordBytes + wordBytes;
    }
  }

  /** A shorter digest of the same state (SHA-224 against SHA-256, SHA-384 against SHA-512) is the
      beginning of the longer one. */
  lemma {:induction false} LongerDigest(words: seq<nat>, i: nat, wordBytes: nat)
    requires i <= |words|
    ensures WordsBytes(words[..i], wordBytes) <= WordsBytes(words, wordBytes)
  {
    if i < |words| {
      LongerDigest(words[..|words| - 1], i, wordBytes);
      assert words[..|words| - 1][..i] == words[..i];
    } else {
      assert words[..i] == words;
    }
  }

  /** `put_unaligned_be32` or `put_unaligned_be64`. */
  method PutBigEndian(word: nat, out: array<Byte>, at: nat, wordBytes: nat)
    requires at + wordBytes <= out.Length
    modifies out
    ensures out[..] == old(out[..])[..at] + BigEndian(word, wordBytes) + old(out[..])[at + wordBytes..]
  {
    var bytes := BigEndian(word, wordBytes);
    forall k | 0 <= k < wordBytes {
      out[at + k] := bytes[k];
    }
  }

  /** What is written after 0, 1, 2, ... words. */
  ghost predicate Heads(words: seq<nat>, wordBytes: nat, heads: seq<seq<Byte>>, size: nat) {
    && |heads| == |words| + 1 && heads[0] == [] && |heads[|words|]| == size
    && (forall k :: 0 <= k < |words| ==> heads[k + 1] == heads[k] + BigEndian(words[k], wordBytes))
    && (forall k :: 0 <= k < |words| ==> |heads[k]| + wordBytes <= size)
  }

  lemma {:induction false} HeadsOf(words: seq<nat>, wordBytes: nat) returns (heads: seq<seq<Byte>>)
    ensures Heads(words, wordBytes, heads, |WordsBytes(words, wordBytes)|)
    ensures heads[|words|] == WordsBytes(words, wordBytes)
  {
    if words == [] {
      heads := [[]];
    } else {
      var last := |words| - 1;
      heads := HeadsOf(words[..last], wordBytes);
      heads := heads + [WordsBytes(words, wordBytes)];
    }
  }

  /** The words one after the other from the start of the output; what lies behind them stays. */
  method PutWords(words: seq<nat>, out: array<Byte>, wordBytes: nat)
    requires |WordsBytes(words, wordBytes)| <= out.Length && wordBytes > 0
    modifies out
    ensures out[..] == WordsBytes(words, wordBytes) + old(out[..])[|WordsBytes(words, wordBytes)|..]
  {
    DigestLength(words, wordBytes);
    ghost var heads := HeadsOf(words, wordBytes);
    PutAll(words, out, wordBytes, |words| * wordBytes, heads);
  }

  /** The loop of the finish functions, by the bytes still to write. */
  method PutAll(words: seq<nat>, out: array<Byte>, wordBytes: nat, size: nat, ghost heads: seq<seq<Byte>>)
    requires Heads(words, wordBytes, heads, size) && size <= out.Length && wordBytes > 0
    modifies out
    ensures out[..] == heads[|words|] + old(out[..])[size..]
  {
    var digestSize: int, at: nat := size, 0;
    var i: nat := 0;
    while digestSize > 0
      invariant i <= |words| && digestSize == size - at && at == |heads[i]| <= size
      invariant out[..] == heads[i] + old(out[..])[at..]
      decreases digestSize
    {
      assert |heads[i + 1]| == at + wordBytes;
      PutBigEndian(words[i], out, at, wordBytes);
      digestSize, at, i := digestSize - wordBytes, at + wordBytes, i + 1;
    }
  }

  /** The loop of the finish functions that count the words up. */
  method PutCounted(words: seq<nat>, out: array<Byte>, wordBytes: nat)
    requires |words| * wordBytes <= out.Length && wordBytes > 0
    modifies out
    ensures out[..] == WordsBytes(words, wordBytes) + old(out[..])[|words| * wordBytes..]
  {
    DigestLength(words, wordBytes);
    ghost var heads := HeadsOf(words, wordBytes);
    var at: nat := 0;
    for i := 0 to |words|
      invariant at == |heads[i]| <= out.Length
      invariant out[..] == heads[i] + old(out[..])[at..]
    {
      assert |heads[i + 1]| == at + wordBytes;
      PutBigEndian(words[i], out, at, wordBytes);
      at := at + wordBytes;
    }
  }

  /** The compression function maps a chaining value to one of as many words. */
  ghost predicate KeepsWords(f: Compress<seq<nat>>) {
    forall words, block :: |f(words, block)| == |words|
  }

  lemma {:induction false} AbsorbKeepsWords(f: Compress<seq<nat>>, words: seq<nat>, data: seq<Byte>, blockSize: nat)
    requires KeepsWords(f) && blockSize >= 1 && |data| % blockSize == 0
    ensures |Absorb(f, words, data, blockSize)| == |words|
    decreases |data|
  {
    if data != [] {
      ShorterByOneBlock(|data|, blockSize);
      AbsorbKeepsWords(f, f(words, data[..blockSize]), data[blockSize..], blockSize);
    }
  }

  ghost predicate AllZero(words: seq<nat>) { forall k :: 0 <= k < |words| ==> words[k] == 0 }

  /** The digest is the big-endian chaining value, cut at the digest size; then the chaining value
      and the buffer are cleared. */
  method FinishBlock(block: BlockBuffer<seq<nat>>, out: array<Byte>, digestWords: nat, wordBytes: nat)
    requires digestWords <= |block.state| && digestWords * wordBytes <= out.Length && wordBytes > 0
    requires out != block.buf
    modifies block`state, block.buf, out
    ensures out[..] == WordsBytes(old(block.state[..digestWords]), wordBytes) + old(out[..])[digestWords * wordBytes..]
    ensures AllZero(block.state) && AllZero(block.buf[..])
  {
    DigestLength(block.state[..digestWords], wordBytes);
    PutWords(block.state[..digestWords], out, wordBytes);
    ClearBlock(block);
  }

  /** `memzero_explicit`, for this part of the context. */
  method ClearBlock(block: BlockBuffer<seq<nat>>)
    modifies block`state, block.buf
    ensures AllZero(block.state) && AllZero(block.buf[..])
  {
    block.state := seq(|block.state|, _ => 0);
    forall k | 0 <= k < block.buf.Length {
      block.buf[k] := 0;
    }
  }

  /** `lib_sha256_base_finish`. */
  method Finish256(context: Sha256Base.Context<seq<nat>>, out: array<Byte>, digestWords: nat)
    requires digestWords <= |context.block.state| && digestWords * 4 <= out.Length && out != context.block.buf
    modifies context, context.block`state, context.block.buf, out
    ensures out[..] == WordsBytes(old(context.block.state[..digestWords]), 4) + old(out[..])[digestWords * 4..]
    ensures AllZero(context.block.state) && AllZero(context.block.buf[..]) && context.count == 0
  {
    FinishBlock(context.block, out, digestWords, 4);
    context.count := 0;
  }

  /** `sha1_base_finish` (5 words) and `sm3_base_finish` (8 words), which count the words up. */
  method FinishCounted(context: Sha256Base.Context<seq<nat>>, out: array<Byte>, digestWords: nat)
    requires digestWords <= |context.block.state| && digestWords * 4 <= out.Length && out != context.block.buf
    modifies context, context.block`state, context.block.buf, out
    ensures out[..] == WordsBytes(old(context.block.state[..digestWords]), 4) + old(out[..])[digestWords * 4..]
    ensures AllZero(context.block.state) && AllZero(context.block.buf[..]) && context.count == 0
  {
    PutCounted(context.block.state[..digestWords], out, 4);
    ClearBlock(context.block);
    context.count := 0;
  }

  /** `sha512_base_finish`. */
  method Finish512(context: Sha512Base.Context<seq<nat>>, out: array<Byte>, digestWords: nat)
    requires digestWords <= |context.block.state| && digestWords * 8 <= out.Length && out != context.block.buf
    modifies context, context.block`state, context.block.buf, out
    ensures out[..] == WordsBytes(old(context.block.state[..digestWords]), 8) + old(out[..])[digestWords * 8..]
    ensures AllZero(context.block.state) && AllZero(context.block.buf[..])
    ensures context.count0 == 0 && context.count1 == 0
  {
    FinishBlock(context.block, out, digestWords, 8);
    context.count0, context.count1 := 0, 0;
  }

  /** The digest of a message: the first words of what its padding comes to. */
  ghost function DigestOf(f: Compress<seq<nat>>, initial: seq<nat>, message: seq<Byte>, blockSize: nat,
                          lengthBytes: nat, digestWords: nat, wordBytes: nat): seq<Byte>
    requires KeepsWords(f) && lengthBytes < blockSize && digestWords <= |initial|
  {
    var pad := Pad(message, blockSize, lengthBytes);
    PadIsWholeBlocks(message, blockSize, lengthBytes);
    AbsorbKeepsWords(f, initial, pad, blockSize);
    WordsBytes(Absorb(f, initial, pad, blockSize)[..digestWords], wordBytes)
  }

  /** SHA-224/256, from init through any updates and finalize to finish: the output starts with the digest
      of the message, and nothing of it is left in the context. */
  method Hash256(f: Compress<seq<nat>>, initial: seq<nat>, chunks: seq<Chunk>, out: array<Byte>, digestWords: nat)
      returns (context: Sha256Base.Context<seq<nat>>)
    requires KeepsWords(f) && FitsEachCall(chunks, Sha256Base.BLOCK_SIZE)
    requires digestWords <= |initial| && digestWords * 4 <= out.Length
    modifies out
    ensures out[..] == DigestOf(f, initial, Given(chunks), Sha256Base.BLOCK_SIZE, Sha256Base.LENGTH_BYTES, digestWords, 4)
      + old(out[..])[digestWords * 4..]
    ensures AllZero(context.block.state) && AllZero(context.block.buf[..]) && context.count == 0
  {
    context := Sha256Base.Hashed(f, initial, chunks, Unsigned);
    AllTakenInReach(chunks, Sha256Base.BLOCK_SIZE, Unsigned);
    AbsorbKeepsWords(f, initial, Pad(Given(chunks), Sha256Base.BLOCK_SIZE, Sha256Base.LENGTH_BYTES), Sha256Base.BLOCK_SIZE);
    Finish256(context, out, digestWords);
  }

  /** SHA-1 and SM3: the digest is that of what the updates took in. */
  method HashCounted(f: Compress<seq<nat>>, initial: seq<nat>, chunks: seq<Chunk>, out: array<Byte>, digestWords: nat)
      returns (context: Sha256Base.Context<seq<nat>>)
    requires KeepsWords(f) && FitsEachCall(chunks, Sha256Base.BLOCK_SIZE)
    requires digestWords <= |initial| && digestWords * 4 <= out.Length
    modifies out
    ensures out[..] == DigestOf(f, initial, AllTaken(chunks, Sha256Base.BLOCK_SIZE, Signed), Sha256Base.BLOCK_SIZE, Sha256Base.LENGTH_BYTES, digestWords, 4)
      + old(out[..])[digestWords * 4..]
    ensures AllInReach(chunks, Sha256Base.BLOCK_SIZE, Signed) ==> AllTaken(chunks, Sha256Base.BLOCK_SIZE, Signed) == Given(chunks)
    ensures AllZero(context.block.state) && AllZero(context.block.buf[..]) && context.count == 0
  {
    context := Sha256Base.Hashed(f, initial, chunks, Signed);
    if AllInReach(chunks, Sha256Base.BLOCK_SIZE, Signed) {
      AllTakenInReach(chunks, Sha256Base.BLOCK_SIZE, Signed);
    }
    AbsorbKeepsWords(f, initial, Pad(AllTaken(chunks, Sha256Base.BLOCK_SIZE, Signed), Sha256Base.BLOCK_SIZE, Sha256Base.LENGTH_BYTES), Sha256Base.BLOCK_SIZE);
    FinishCounted(context, out, digestWords);
  }

  /** SHA-384/512: likewise. */
  method Hash512(f: Compress<seq<nat>>, initial: seq<nat>, chunks: seq<Chunk>, out: array<Byte>, digestWords: nat)
      returns (context: Sha512Base.Context<seq<nat>>)
    requires KeepsWords(f) && FitsEachCall(chunks, Sha512Base.BLOCK_SIZE)
    requires digestWords <= |initial| && digestWords * 8 <= out.Length
    modifies out
    ensures out[..] == DigestOf(f, initial, AllTaken(chunks, Sha512Base.BLOCK_SIZE, Signed), Sha512Base.BLOCK_SIZE, Sha512Base.LENGTH_BYTES, digestWords, 8)
      + old(out[..])[digestWords * 8..]
    ensures AllInReach(chunks, Sha512Base.BLOCK_SIZE, Signed) ==> AllTaken(chunks, Sha512Base.BLOCK_SIZE, Signed) == Given(chunks)
    ensures AllZero(context.block.state) && AllZero(context.block.buf[..]) && context.count0 == 0 && context.count1 == 0
  {
    context := Sha512Base.Hashed(f, initial, chunks);
    if AllInReach(chunks, Sha512Base.BLOCK_SIZE, Signed) {
      AllTakenInReach(chunks, Sha512Base.BLOCK_SIZE, Signed);
    }
    AbsorbKeepsWords(f, initial, Pad(AllTaken(chunks, Sha512Base.BLOCK_SIZE, Signed), Sha512Base.BLOCK_SIZE, Sha512Base.LENGTH_BYTES), Sha512Base.BLOCK_SIZE);
    Finish512(context, out, digestWords);
  }

  /** Byte k of word i, the most significant byte first, is byte number i * wordBytes + k of the digest. */
  lemma {:induction false} DigestByte(words: seq<nat>, wordBytes: nat, i: nat, k: nat)
    requires i < |words| && k < wordBytes
    ensures 0 <= i * wordBytes + k < |WordsBytes(words, wordBytes)|
    ensures WordsBytes(words, wordBytes)[i * wordBytes + k] == words[i] / Pow256(wordBytes - 1 - k) % 256
  {
    var last := |words| - 1;
    DigestLength(words, wordBytes);
    DigestLength(words[..last], wordBytes);
    MulBound(0, 0, i, wordBytes);
    if i < last {
      MulStep(i, last, wordBytes);
      DigestByte(words[..last], wordBytes, i, k);
    } else {
      BigEndianByte(words[i], wordBytes, k);
      assert BigEndian(words[i], wordBytes)[k] == words[i] / Pow256(wordBytes - 1 - k) % 256;
    }
  }

  /** A digest determines the words it holds. */
  lemma {:induction false} DigestDeterminesWords(a: seq<nat>, b: seq<nat>, wordBytes: nat)
    requires |a| == |b| && WordsBytes(a, wordBytes) == WordsBytes(b, wordBytes)
    requires forall k :: 0 <= k < |a| ==> a[k] < Pow256(wordBytes) && b[k] < Pow256(wordBytes)
    ensures a == b
  {
    if |a| > 0 {
      var last := |a| - 1;
      SplitDigest(a, wordBytes);
      SplitDigest(b, wordBytes);
      DigestDeterminesWords(a[..last], b[..last], wordBytes);
      BigEndianRoundTrip(a[last], wordBytes);
      BigEndianRoundTrip(b[last], wordBytes);
      SameWords(a, b);
    }
  }

  lemma SameWords(a: seq<nat>, b: seq<nat>)
    requires |a| == |b| > 0 && a[..|a| - 1] == b[..|b| - 1] && a[|a| - 1] == b[|b| - 1]
    ensures a == b
  {
    assert a == a[..|a| - 1] + [a[|a| - 1]];
  }

  lemma SplitDigest(words: seq<nat>, wordBytes: nat)
    requires |words| > 0
    ensures var bytes := WordsBytes(words, wordBytes);
      && |bytes| >= wordBytes
      && bytes[..|bytes| - wordBytes] == WordsBytes(words[..|words| - 1], wordBytes)
      && bytes[|bytes| - wordBytes..] == BigEndian(words[|words| - 1], wordBytes)
  {
  }
}
