/** The part that the SHA-1, SHA-256, SHA-512 and SM3 drivers share: a chaining value, a buffer
    of one block, and the code that fills and flushes it. The drivers differ in the block size
    and in how they count bytes. */
module BlockBuffers {
  import opened Words
  import opened Padding
  import opened Chunks

  /** The message so far, cut at the last whole block. */
  function Tail(message: seq<Byte>, blockSize: nat): nat
    requires blockSize >= 1
  {
    |message| % blockSize
  }

  lemma WholeBlocksBeforeTail(message: seq<Byte>, blockSize: nat)
    requires blockSize >= 1
    ensures Tail(message, blockSize) <= |message|
    ensures (|message| - Tail(message, blockSize)) % blockSize == 0
  {
    CutAtBlock(|message|, blockSize);
  }

  lemma CutAtBlock(n: nat, blockSize: nat)
    requires blockSize >= 1
    ensures n % blockSize <= n && (n - n % blockSize) % blockSize == 0
    ensures n - n % blockSize == (n / blockSize) * blockSize
  {
    var q, r := n / blockSize, n % blockSize;
    assert n == q * blockSize + r;
    MulBound(0, 0, q, blockSize);
    DivideExact(n - r, blockSize, q);
  }

  /** What the whole blocks of the message come to. */
  ghost function Absorbed<S>(f: Compress<S>, initial: S, message: seq<Byte>, blockSize: nat): S
    requires blockSize >= 1
  {
    WholeBlocksBeforeTail(message, blockSize);
    Absorb(f, initial, message[..|message| - Tail(message, blockSize)], blockSize)
  }

  /** The bytes after the last whole block. */
  function Leftover(message: seq<Byte>, blockSize: nat): seq<Byte>
    requires blockSize >= 1
  {
    WholeBlocksBeforeTail(message, blockSize);
    message[|message| - Tail(message, blockSize)..]
  }

  /** Bytes that complete no block only lengthen the leftover. */
  lemma AppendShort<S>(f: Compress<S>, initial: S, message: seq<Byte>, data: seq<Byte>, blockSize: nat)
    requires blockSize >= 1 && Tail(message, blockSize) + |data| < blockSize
    ensures Tail(message + data, blockSize) == Tail(message, blockSize) + |data|
    ensures Leftover(message + data, blockSize) == Leftover(message, blockSize) + data
    ensures Absorbed(f, initial, message + data, blockSize) == Absorbed(f, initial, message, blockSize)
  {
    var q, t := |message| / blockSize, Tail(message, blockSize);
    CutAtBlock(|message|, blockSize);
    DivideUnique(|message + data|, blockSize, q, t + |data|);
    WholeBlocksBeforeTail(message, blockSize);
    WholeBlocksBeforeTail(message + data, blockSize);
    assert (message + data)[..|message| - t] == message[..|message| - t];
  }

  /** Bytes that end on a block boundary are absorbed together with the leftover. */
  lemma AppendBlocks<S>(f: Compress<S>, initial: S, message: seq<Byte>, data: seq<Byte>, blockSize: nat)
    requires blockSize >= 1 && (Tail(message, blockSize) + |data|) % blockSize == 0
    ensures Tail(message + data, blockSize) == 0 && |Leftover(message, blockSize) + data| % blockSize == 0
    ensures Absorbed(f, initial, message + data, blockSize)
         == Absorb(f, Absorbed(f, initial, message, blockSize), Leftover(message, blockSize) + data, blockSize)
  {
    var t := Tail(message, blockSize);
    WholeBlocksBeforeTail(message, blockSize);
    SumOfBlocks(|message| - t, t + |data|, blockSize);
    WholeBlocksBeforeTail(message + data, blockSize);
    AbsorbConcat(f, initial, message[..|message| - t], Leftover(message, blockSize) + data, blockSize);
    assert message[..|message| - t] + (Leftover(message, blockSize) + data) == message + data;
    assert (message + data)[..|message + data|] == message + data;
  }

  /** What padding appends to the message. */
  function Suffix(length: nat, blockSize: nat, lengthBytes: nat): seq<Byte>
    requires blockSize >= 1
  {
    [0x80] + Zeros(ZeroCount(length, blockSize, lengthBytes)) + BigEndian(8 * length, lengthBytes)
  }

  /** The zeros reach to the length field of this block, or of the next if it does not fit. */
  lemma ZeroCountCases(n: nat, blockSize: nat, lengthBytes: nat)
    requires lengthBytes < blockSize
    ensures var t := n % blockSize;
      ZeroCount(n, blockSize, lengthBytes) ==
        if t + 1 + lengthBytes <= blockSize then blockSize - lengthBytes - t - 1
        else (blockSize - t - 1) + (blockSize - lengthBytes)
  {
    var q, t := n / blockSize, n % blockSize;
    var e := t + 1 + lengthBytes;
    assert n == q * blockSize + t;
    if e < blockSize {
      DivideUnique(n + 1 + lengthBytes, blockSize, q, e);
    } else {
      assert (q + 1) * blockSize == q * blockSize + blockSize;
      DivideUnique(n + 1 + lengthBytes, blockSize, q + 1, e - blockSize);
    }
  }

  /** Hashing the padded message is absorbing the leftover and the suffix into what the whole
      blocks came to. */
  lemma PaddedMessage<S>(f: Compress<S>, initial: S, message: seq<Byte>, blockSize: nat, lengthBytes: nat)
    requires lengthBytes < blockSize
    ensures var rest := Leftover(message, blockSize) + Suffix(|message|, blockSize, lengthBytes);
      && |Pad(message, blockSize, lengthBytes)| % blockSize == 0 && |rest| % blockSize == 0
      && Absorb(f, initial, Pad(message, blockSize, lengthBytes), blockSize)
         == Absorb(f, Absorbed(f, initial, message, blockSize), rest, blockSize)
  {
    var suffix := Suffix(|message|, blockSize, lengthBytes);
    var pad := Pad(message, blockSize, lengthBytes);
    assert pad == message + suffix;
    PadIsWholeBlocks(message, blockSize, lengthBytes);
    var cut := |message| - Tail(message, blockSize);
    WholeBlocksBeforeTail(message, blockSize);
    var whole, rest := message[..cut], Leftover(message, blockSize) + suffix;
    assert whole + rest == pad;
    DifferenceOfBlocks(cut, |pad|, blockSize);
    AbsorbConcat(f, initial, whole, rest, blockSize);
  }

  class BlockBuffer<!S> {
    const f: Compress<S>
    const initial: S
    const blockSize: nat
    const buf: array<Byte>
    var state: S
    ghost var message: seq<Byte>

    constructor (f: Compress<S>, initial: S, blockSize: nat)
      requires blockSize >= 1
      ensures Valid() && fresh(buf)
      ensures |message| == 0 && this.f == f && this.initial == initial && this.blockSize == blockSize
    {
      this.f, this.initial, this.blockSize := f, initial, blockSize;
      buf := new Byte[blockSize];
      state := initial;
      message := [];
    }

    /** The chaining value stands for the whole blocks of the message; the buffer starts with
        what is left over. */
    ghost predicate Valid()
      reads this, buf
    {
      && blockSize >= 1 && buf.Length == blockSize
      && buf[..Tail(message, blockSize)] == Leftover(message, blockSize)
      && state == Absorbed(f, initial, message, blockSize)
    }

    /** `block_fn(sctx, src, blocks)`. */
    method BlockFn(src: seq<Byte>, blocks: nat)
      requires blockSize >= 1 && |src| == blocks * blockSize
      modifies this`state
      ensures |src| % blockSize == 0 && state == Absorb(f, old(state), src, blockSize)
    {
      DivideExact(|src|, blockSize, blocks);
      var rest := src;
      var i := 0;
      while i < blocks
        invariant i <= blocks && |rest| == (blocks - i) * blockSize && |rest| % blockSize == 0
        invariant Absorb(f, state, rest, blockSize) == Absorb(f, old(state), src, blockSize)
      {
        ShorterByOneBlock(|rest|, blockSize) by { MulStep(0, blocks - i, blockSize); }
        assert (blocks - i) * blockSize == (blocks - i - 1) * blockSize + blockSize;
        state := f(state, rest[..blockSize]);
        rest := rest[blockSize..];
        i := i + 1;
      }
    }

    /** `memcpy(buf + at, src, |src|)`. */
    method Copy(at: nat, src: seq<Byte>)
      requires at + |src| <= buf.Length
      modifies buf
      ensures buf[..at] == old(buf[..at]) && buf[at..at + |src|] == src
      ensures buf[at + |src|..] == old(buf[at + |src|..])
    {
      forall i | 0 <= i < |src| {
        buf[at + i] := src[i];
      }
    }

    /** Tops up a partly filled buffer and flushes it. */
    method CompleteBlock(partial: nat, head: seq<Byte>)
      requires Valid() && partial == Tail(message, blockSize) && |head| == blockSize - partial
      modifies this, buf
      ensures Valid() && message == old(message) + head && Tail(message, blockSize) == 0
    {
      AppendBlocks(f, initial, message, head, blockSize) by { DivideExact(blockSize, blockSize, 1); }
      Copy(partial, head);
      assert buf[..] == Leftover(message, blockSize) + head;
      BlockFn(buf[..], 1);
      message := message + head;
    }

    /** Feeds whole blocks straight from the input. */
    method TakeBlocks(src: seq<Byte>, blocks: nat)
      requires Valid() && Tail(message, blockSize) == 0 && |src| == blocks * blockSize
      modifies this
      ensures Valid() && message == old(message) + src && Tail(message, blockSize) == 0
    {
      DivideExact(|src|, blockSize, blocks);
      AppendBlocks(f, initial, message, src, blockSize);
      assert Leftover(message, blockSize) + src == src;
      BlockFn(src, blocks);
      message := message + src;
    }

    /** Keeps what completes no block. */
    method Keep(at: nat, rest: seq<Byte>)
      requires Valid() && at == Tail(message, blockSize) && at + |rest| < blockSize
      modifies this, buf
      ensures Valid() && message == old(message) + rest
    {
      AppendShort(f, initial, message, rest, blockSize);
      Copy(at, rest);
      assert buf[..at + |rest|] == buf[..at] + rest;
      message := message + rest;
    }

    /** The first step for a chunk that completes a block: the bytes that top up the buffer. */
    method TakeTopUp(memory: Memory, partial: nat) returns (p: nat)
      requires Valid() && partial == Tail(message, blockSize)
      modifies this, buf
      ensures Valid() && Tail(message, blockSize) == 0
      ensures p == (if partial == 0 then 0 else blockSize - partial) && message == old(message) + Span(memory, 0, p)
    {
      p := 0;
      if partial != 0 {
        p := blockSize - partial;
        CompleteBlock(partial, Span(memory, 0, p));
      }
    }

    /** The second step: the whole blocks, after which the pointer moves. */
    method TakeWhole(memory: Memory, from: nat, length: nat, count: BlockCount)
        returns (data: int, len: nat, ghost whole: nat)
      requires Valid() && Tail(message, blockSize) == 0
      modifies this
      ensures Valid() && Tail(message, blockSize) == 0
      ensures whole == Whole(length, blockSize) && len == length - whole && len < blockSize
      ensures data == from + Moved(count, whole) && message == old(message) + Span(memory, from, whole)
    {
      var blocks: nat := length / blockSize;
      whole := Whole(length, blockSize);
      data, len := from, length % blockSize;
      if blocks != 0 {
        TakeBlocks(Span(memory, from, blocks * blockSize), blocks);
        data := data + Moved(count, blocks * blockSize);
      } else {
        assert whole == 0 && Span(memory, from, whole) == [];
      }
    }

    /** Both steps: what is read up to the last whole block, and what is left. */
    method TakeLong(memory: Memory, length: nat, partial: nat, count: BlockCount)
        returns (data: int, len: nat, p: nat, ghost whole: nat)
      requires Valid() && partial == Tail(message, blockSize) && partial + length >= blockSize
      modifies this, buf
      ensures Valid() && Tail(message, blockSize) == 0 && len < blockSize
      ensures p == (if partial == 0 then 0 else blockSize - partial) && p <= length
      ensures whole == Whole(length - p, blockSize) && data == p + Moved(count, whole) && len == length - p - whole
      ensures message == old(message) + Span(memory, 0, p + whole)
    {
      p := TakeTopUp(memory, partial);
      data, len, whole := TakeWhole(memory, p, length - p, count);
      SpanAppended(old(message), memory, p, whole);
    }

    /** The part of the update code that is for chunks that complete a block. */
    method Front(chunk: Chunk, partial: nat, count: BlockCount) returns (data: int, len: nat, at: nat)
      requires Valid() && partial == Tail(message, blockSize) && partial + chunk.length < TWO32
      modifies this, buf
      ensures Valid() && at == Tail(message, blockSize) && at + len < blockSize
      ensures message + Span(chunk.memory, data, len) == old(message) + Taken(chunk, partial, blockSize, count)
    {
      data, len, at := 0, chunk.length, partial;
      if Wrap32(partial + len) >= blockSize {
        var p: nat;
        ghost var whole: nat;
        data, len, p, whole := TakeLong(chunk.memory, len, partial, count);
        at := 0;
        LongTaken(chunk, partial, blockSize, count, p, whole);
      } else {
        ShortTaken(chunk, partial, blockSize, count);
      }
    }

    /** The update code after the count: `partial` bytes are buffered, a chunk arrives. The sum of
        the two lengths must not wrap, or the test above would take it for a short one. The pointer
        moves as the type of the block count says, and the message grows by what was read. */
    method Update(chunk: Chunk, partial: nat, count: BlockCount)
      requires Valid() && partial == Tail(message, blockSize) && partial + chunk.length < TWO32
      modifies this, buf
      ensures Valid() && message == old(message) + Taken(chunk, partial, blockSize, count)
    {
      var data, len, at := Front(chunk, partial, count);
      KeepRest(chunk.memory, data, len, at, message);
    }

    /** The copy at the end, if anything is left. */
    method KeepRest(memory: Memory, data: int, len: nat, at: nat, ghost before: seq<Byte>)
      requires Valid() && message == before && at == Tail(message, blockSize) && at + len < blockSize
      modifies this, buf
      ensures Valid() && message == before + Span(memory, data, len)
    {
      if len != 0 {
        Keep(at, Span(memory, data, len));
      } else {
        assert Span(memory, data, len) == [];
      }
    }

    /** Zeros from `at` up to the end of the block, and a flush. */
    method FlushZeros(at: nat)
      requires blockSize >= 1 && buf.Length == blockSize && at <= blockSize
      modifies this`state, buf
      ensures var block := old(buf[..at]) + Zeros(blockSize - at);
        |block| % blockSize == 0 && state == Absorb(f, old(state), block, blockSize)
    {
      Copy(at, Zeros(blockSize - at));
      assert buf[..] == old(buf[..at]) + Zeros(blockSize - at);
      BlockFn(buf[..], 1);
    }

    /** Zeros from `at` up to the length field, the field, and a flush. */
    method FlushLength(at: nat, lengthField: seq<Byte>)
      requires blockSize >= 1 && buf.Length == blockSize && at + |lengthField| <= blockSize
      modifies this`state, buf
      ensures var block := old(buf[..at]) + Zeros(blockSize - |lengthField| - at) + lengthField;
        |block| % blockSize == 0 && state == Absorb(f, old(state), block, blockSize)
    {
      var bitOffset := blockSize - |lengthField|;
      Copy(at, Zeros(bitOffset - at));
      assert buf[..bitOffset] == old(buf[..at]) + Zeros(bitOffset - at);
      Copy(bitOffset, lengthField);
      assert buf[..] == buf[..bitOffset] + lengthField;
      BlockFn(buf[..], 1);
    }

    /** The finalize code after the count: the 0x80, the zeros, the length field, and one or two
        flushes. What has been absorbed is then the padded message. */
    method Finalize(partial: nat, lengthField: seq<Byte>)
      requires Valid() && partial == Tail(message, blockSize)
      requires |lengthField| < blockSize
      requires lengthField == BigEndian(8 * |message|, |lengthField|)
      modifies this`state, buf
      ensures |Pad(message, blockSize, |lengthField|)| % blockSize == 0
      ensures state == Absorb(f, initial, Pad(message, blockSize, |lengthField|), blockSize)
    {
      PaddedMessage(f, initial, message, blockSize, |lengthField|);
      ZeroCountCases(|message|, blockSize, |lengthField|);
      var at := partial;
      buf[at] := 0x80;
      at := at + 1;
      assert buf[..at] == Leftover(message, blockSize) + [0x80];
      ghost var zeros := Zeros(ZeroCount(|message|, blockSize, |lengthField|));
      assert Leftover(message, blockSize) + Suffix(|message|, blockSize, |lengthField|)
        == buf[..at] + zeros + lengthField;
      FlushRest(at, lengthField);
    }

    /** The zeros that complete this block or the next one, the length field, and the flushes. */
    method FlushRest(partial: nat, lengthField: seq<Byte>)
      requires |lengthField| < blockSize && buf.Length == blockSize && partial <= blockSize
      modifies this`state, buf
      ensures var bitOffset := blockSize - |lengthField|;
        var zeros := if partial > bitOffset then blockSize - partial + bitOffset else bitOffset - partial;
        var rest := old(buf[..partial]) + Zeros(zeros) + lengthField;
        |rest| % blockSize == 0 && state == Absorb(f, old(state), rest, blockSize)
    {
      var bitOffset := blockSize - |lengthField|;
      var at := partial;
      if at > bitOffset {
        ghost var first, second := buf[..at] + Zeros(blockSize - at), Zeros(bitOffset) + lengthField;
        assert buf[..at] + Zeros(blockSize - at + bitOffset) + lengthField == first + second;
        AbsorbTwo(f, state, first + second, first, second, blockSize);
        FlushZeros(at);
        at := 0;
        assert buf[..at] + Zeros(bitOffset - at) + lengthField == second;
      }
      FlushLength(at, lengthField);
    }
  }

  lemma AbsorbTwo<S>(f: Compress<S>, state: S, data: seq<Byte>, first: seq<Byte>, second: seq<Byte>, blockSize: nat)
    requires blockSize >= 1 && |first| == blockSize && |second| == blockSize && data == first + second
    ensures |data| % blockSize == 0 && |first| % blockSize == 0 && |second| % blockSize == 0
    ensures Absorb(f, state, data, blockSize)
         == Absorb(f, Absorb(f, state, first, blockSize), second, blockSize)
  {
    DivideExact(blockSize, blockSize, 1);
    AbsorbConcat(f, state, first, second, blockSize);
  }
}
