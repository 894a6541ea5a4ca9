/** The SHA-384/512 driver (crypto/sha512_base.h): 128-byte blocks, and a byte count kept in
    two 64-bit words with a carry between them. */
module Sha512Base {
  import opened Words
  import opened Chunks
  import opened Padding
  import opened BlockBuffers

  const BLOCK_SIZE: nat := 128
  const LENGTH_BYTES: nat := 16

  class Context<!S> {
    const block: BlockBuffer<S>
    var count0: U64
    var count1: U64

    constructor (block: BlockBuffer<S>)
      requires block.Valid() && block.blockSize == BLOCK_SIZE && |block.message| == 0
      ensures this.block == block && Valid()
    {
      this.block := block;
      count0, count1 := 0, 0;
      new;
      assert block.Valid();
    }

    /** The two words hold the message's length modulo 2^128. */
    ghost predicate Valid()
      reads this, block, block.buf
    {
      && block.Valid() && block.blockSize == BLOCK_SIZE
      && count1 * TWO64 + count0 == |block.message| % (TWO64 * TWO64)
    }

    /** `sha512_base_do_update`, whose block count is signed. */
    method Update(chunk: Chunk)
      requires Valid() && |block.message| % BLOCK_SIZE + chunk.length < TWO32
      modifies this, block, block.buf
      ensures Valid()
      ensures var partial := |old(block.message)| % BLOCK_SIZE;
        && block.message == old(block.message) + Taken(chunk, partial, BLOCK_SIZE, Signed)
        && (InReach(chunk.length, partial, BLOCK_SIZE, Signed) ==>
              block.message == old(block.message) + chunk.Bytes())
    {
      var partial := count0 % BLOCK_SIZE;
      LowWordCounts(count0, count1, |block.message|);
      AddToCount(chunk.length, |block.message|);
      block.Update(chunk, partial, Signed);
      if InReach(chunk.length, partial, BLOCK_SIZE, Signed) {
        TakenInReach(chunk, partial, BLOCK_SIZE, Signed);
      }
    }

    /** The byte count, with its carry by comparison. */
    method AddToCount(more: U32, ghost length: nat)
      requires count1 * TWO64 + count0 == length % (TWO64 * TWO64)
      modifies `count0, `count1
      ensures count1 * TWO64 + count0 == (length + more) % (TWO64 * TWO64)
    {
      CarryCounts(count0, count1, length, more);
      count0 := Wrap64(count0 + more);
      if count0 < more {
        count1 := Wrap64(count1 + 1);
      }
    }

    /** `sha512_base_do_finalize`. */
    method Finalize()
      requires Valid()
      modifies block, block.buf
      ensures |Pad(block.message, BLOCK_SIZE, LENGTH_BYTES)| % BLOCK_SIZE == 0
      ensures block.message == old(block.message)
      ensures block.state
           == Absorb(block.f, block.initial, Pad(block.message, BLOCK_SIZE, LENGTH_BYTES), BLOCK_SIZE)
    {
      var partial := count0 % BLOCK_SIZE;
      LowWordCounts(count0, count1, |block.message|);
      LengthField(count0, count1, |block.message|);
      var bits := BigEndian(Or(Wrap64(8 * count1), count0 / TOP3), 8)
                  + BigEndian(Wrap64(8 * count0), 8);
      block.Finalize(partial, bits);
    }
  }

  lemma LowWordCounts(count0: U64, count1: U64, length: nat)
    requires count1 * TWO64 + count0 == length % (TWO64 * TWO64)
    ensures count0 % BLOCK_SIZE == length % BLOCK_SIZE
  {
  }

  /** A sum below its addend is one that wrapped: the carry keeps the two-word count exact. */
  lemma CarryCounts(count0: U64, count1: U64, length: nat, more: U32)
    requires count1 * TWO64 + count0 == length % (TWO64 * TWO64)
    ensures var low := Wrap64(count0 + more);
      var high := if low < more then Wrap64(count1 + 1) else count1;
      high * TWO64 + low == (length + more) % (TWO64 * TWO64)
  {
    AddBelow(length, more, TWO64 * TWO64, count1 * TWO64 + count0);
  }

  /** Adding to a number adds to its remainder, less the modulus if that is reached. */
  lemma AddBelow(length: nat, more: nat, m: nat, count: nat)
    requires 0 < m && more < m && count == length % m
    ensures (length + more) % m == if count + more < m then count + more else count + more - m
  {
    var q := length / m;
    if count + more < m {
      DivideUnique(length + more, m, q, count + more);
    } else {
      OneMore(q, m);
      DivideUnique(length + more, m, q + 1, count + more - m);
    }
  }

  lemma OneMore(q: int, m: int)
    ensures (q + 1) * m == q * m + m
  {
  }

  /** Or with bits below the lowest set one is addition. */
  lemma OrBelowEight(x: nat, y: nat)
    requires y < 8
    ensures Or(8 * x, y) == 8 * x + y
  {
    assert Pow2(3) == 8;
    OrSplit(x, 0, 0, y, 3);
  }

  /** The two length words are the bit length modulo 2^128. */
  lemma LengthField(count0: U64, count1: U64, length: nat)
    requires count1 * TWO64 + count0 == length % (TWO64 * TWO64)
    ensures BigEndian(Or(Wrap64(8 * count1), count0 / TOP3), 8)
          + BigEndian(Wrap64(8 * count0), 8) == BigEndian(8 * length, LENGTH_BYTES)
  {
    var high := HighWord(count0, count1);
    BitLengthWords(count0, count1, length, high);
    TwoWords(8 * length, high, Wrap64(8 * count0));
  }

  lemma TwoWords(x: nat, high: nat, low: nat)
    requires high % TWO64 == (x / TWO64) % TWO64 && low == x % TWO64
    ensures BigEndian(high, 8) + BigEndian(low, 8) == BigEndian(x, LENGTH_BYTES)
  {
    BigEndianSplit(x, 8, 8);
    DropEight(x);
    SameWord(high, x / TWO64);
    SameWord(low, x);
  }

  /** 2^61: dividing by it leaves the top three bits. */
  const TOP3: int := 0x2000_0000_0000_0000

  lemma HighWord(count0: U64, count1: U64) returns (high: nat)
    ensures high == Or(Wrap64(8 * count1), count0 / TOP3) == Wrap64(8 * count1) + count0 / TOP3
  {
    high := Or(Wrap64(8 * count1), count0 / TOP3);
    EightTimes(count1);
    OrBelowEight(count1 % TOP3, count0 / TOP3);
  }

  lemma EightTimes(count: U64)
    ensures Wrap64(8 * count) == 8 * (count % TOP3)
  {
    DivideUnique(8 * count, TWO64, count / TOP3, 8 * (count % TOP3));
  }

  lemma SameWord(x: nat, y: nat)
    requires x % TWO64 == y % TWO64
    ensures BigEndian(x, 8) == BigEndian(y, 8)
  {
    assert Pow256(8) == TWO64;
    BigEndianLow(x, y, 8);
  }

  lemma DropEight(x: nat)
    ensures DropBytes(x, 8) == x / TWO64
  {
    DropFour(x, 4);
    DropFour(x / TWO32, 0);
  }

  lemma DropFour(x: nat, k: nat)
    ensures DropBytes(x, k + 4) == DropBytes(x / TWO32, k)
  {
    var a, b, c := x / 256, x / TWO16, x / 0x100_0000;
    assert DropBytes(x, k + 4) == DropBytes(a, k + 3);
    assert DropBytes(a, k + 3) == DropBytes(b, k + 2);
    assert DropBytes(b, k + 2) == DropBytes(c, k + 1);
  }

  lemma BitLengthWords(count0: U64, count1: U64, length: nat, high: nat)
    requires count1 * TWO64 + count0 == length % (TWO64 * TWO64)
    requires high == Wrap64(8 * count1) + count0 / TOP3
    ensures high % TWO64 == (8 * length / TWO64) % TWO64
    ensures Wrap64(8 * count0) == (8 * length) % TWO64
  {
    var k := length / (TWO64 * TWO64);
    var bits := 8 * (k * TWO64 + count1);
    assert 8 * length == bits * TWO64 + 8 * count0;
    assert 8 * length / TWO64 == bits + 8 * count0 / TWO64;
    assert 8 * count0 / TWO64 == count0 / TOP3;
  }

  /** Init, any number of updates, finalize: however the message is split, the compression function
      has been fed the blocks of the padding of what the updates took in, in order. */
  method Hashed<S>(f: Compress<S>, initial: S, chunks: seq<Chunk>) returns (context: Context<S>)
    requires FitsEachCall(chunks, BLOCK_SIZE)
    ensures fresh(context) && fresh(context.block) && fresh(context.block.buf)
    ensures |Pad(AllTaken(chunks, BLOCK_SIZE, Signed), BLOCK_SIZE, LENGTH_BYTES)| % BLOCK_SIZE == 0
    ensures context.block.state
         == Absorb(f, initial, Pad(AllTaken(chunks, BLOCK_SIZE, Signed), BLOCK_SIZE, LENGTH_BYTES), BLOCK_SIZE)
  {
    var block := new BlockBuffer(f, initial, BLOCK_SIZE);
    context := new Context(block);
    for i := 0 to |chunks|
      invariant fresh(context) && fresh(context.block) && fresh(context.block.buf)
      invariant context.Valid() && context.block.message == AllTaken(chunks[..i], BLOCK_SIZE, Signed)
      invariant context.block.f == f && context.block.initial == initial
    {
      assert chunks[..i + 1][..i] == chunks[..i];
      context.Update(chunks[i]);
    }
    assert chunks[..|chunks|] == chunks;
    context.Finalize();
  }

  /** What the updates took in is the message if every chunk is in reach. */
  method Digest<S>(f: Compress<S>, initial: S, chunks: seq<Chunk>) returns (result: S)
    requires FitsEachCall(chunks, BLOCK_SIZE)
    ensures |Pad(AllTaken(chunks, BLOCK_SIZE, Signed), BLOCK_SIZE, LENGTH_BYTES)| % BLOCK_SIZE == 0
    ensures result == Absorb(f, initial, Pad(AllTaken(chunks, BLOCK_SIZE, Signed), BLOCK_SIZE, LENGTH_BYTES), BLOCK_SIZE)
    ensures AllInReach(chunks, BLOCK_SIZE, Signed) ==> AllTaken(chunks, BLOCK_SIZE, Signed) == Given(chunks)
  {
    var context := Hashed(f, initial, chunks);
    if AllInReach(chunks, BLOCK_SIZE, Signed) {
      AllTakenInReach(chunks, BLOCK_SIZE, Signed);
    }
    result := context.block.state;
  }
}
