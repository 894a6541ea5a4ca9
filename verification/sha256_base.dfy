/** The drivers with 64-byte blocks and a 64-bit byte count: SHA-224/256 (crypto/sha256_base.h),
    SHA-1 (crypto/sha1_base.h) and SM3 (crypto/sm3_base.h), which share one text up to names and the
    type that counts whole blocks. */
module Sha256Base {
  import opened Words
  import opened Chunks
  import opened Padding
  import opened BlockBuffers

  const BLOCK_SIZE: nat := 64
  const LENGTH_BYTES: nat := 8

  class Context<!S> {
    const block: BlockBuffer<S>
    const blocks: BlockCount
    var count: U64

    /** An initialised context: a fresh buffer and chaining value, nothing counted. */
    constructor (block: BlockBuffer<S>, blocks: BlockCount)
      requires block.Valid() && block.blockSize == BLOCK_SIZE && |block.message| == 0
      ensures this.block == block && this.blocks == blocks && Valid()
    {
      this.block, this.blocks := block, blocks;
      count := 0;
      new;
      assert block.Valid();
    }

    /** The count is the message's length modulo 2^64, which the partial block never notices. */
    ghost predicate Valid()
      reads this, block, block.buf
    {
      block.Valid() && block.blockSize == BLOCK_SIZE && count == |block.message| % TWO64
    }

    /** `lib_sha256_base_do_update`, `sha1_base_do_update`, `sm3_base_do_update`. */
    method Update(chunk: Chunk)
      requires Valid() && |block.message| % BLOCK_SIZE + chunk.length < TWO32
      modifies this, block, block.buf
      ensures Valid()
      ensures var partial := |old(block.message)| % BLOCK_SIZE;
        && block.message == old(block.message) + Taken(chunk, partial, BLOCK_SIZE, blocks)
        && (InReach(chunk.length, partial, BLOCK_SIZE, blocks) ==>
              block.message == old(block.message) + chunk.Bytes())
    {
      var partial := count % BLOCK_SIZE;
      CountsTail(count, |block.message|);
      CountGrows(count, |block.message|, chunk.length);
      count := Wrap64(count + chunk.length);
      block.Update(chunk, partial, blocks);
      if InReach(chunk.length, partial, BLOCK_SIZE, blocks) {
        TakenInReach(chunk, partial, BLOCK_SIZE, blocks);
      }
    }

    /** `lib_sha256_base_do_finalize`, `sha1_base_do_finalize`, `sm3_base_do_finalize`. */
    method Finalize()
      requires Valid()
      modifies block, block.buf
      ensures |Pad(block.message, BLOCK_SIZE, LENGTH_BYTES)| % BLOCK_SIZE == 0
      ensures block.message == old(block.message)
      ensures block.state
           == Absorb(block.f, block.initial, Pad(block.message, BLOCK_SIZE, LENGTH_BYTES), BLOCK_SIZE)
    {
      var partial := count % BLOCK_SIZE;
      CountsTail(count, |block.message|);
      var bits := BigEndian(Wrap64(8 * count), LENGTH_BYTES);
      LengthField(count, |block.message|);
      block.Finalize(partial, bits);
    }
  }

  lemma CountsTail(count: U64, length: nat)
    requires count == length % TWO64
    ensures count % BLOCK_SIZE == length % BLOCK_SIZE
  {
  }

  lemma CountGrows(count: U64, length: nat, more: nat)
    requires count == length % TWO64
    ensures Wrap64(count + more) == (length + more) % TWO64
  {
  }

  /** The 64-bit field holds the bit length modulo 2^64, even when the byte count has wrapped. */
  lemma LengthField(count: U64, length: nat)
    requires count == length % TWO64
    ensures BigEndian(Wrap64(8 * count), LENGTH_BYTES) == BigEndian(8 * length, LENGTH_BYTES)
  {
    assert Pow256(8) == TWO64;
    SameBits(count, length);
    BigEndianLow(Wrap64(8 * count), 8 * length, LENGTH_BYTES);
  }

  lemma SameBits(count: U64, length: nat)
    requires count == length % TWO64
    ensures Wrap64(8 * count) % TWO64 == (8 * length) % TWO64
  {
    var h, l := 8 * count / TWO64, 8 * count % TWO64;
    DivideUnique(8 * length, TWO64, 8 * (length / TWO64) + h, l);
  }

  /** Init, any number of updates, finalize: however the message is split, the compression function
      has been fed the blocks of the padding of what the updates took in, in order. */
  method Hashed<S>(f: Compress<S>, initial: S, chunks: seq<Chunk>, blocks: BlockCount) returns (context: Context<S>)
    requires FitsEachCall(chunks, BLOCK_SIZE)
    ensures fresh(context) && fresh(context.block) && fresh(context.block.buf)
    ensures |Pad(AllTaken(chunks, BLOCK_SIZE, blocks), BLOCK_SIZE, LENGTH_BYTES)| % BLOCK_SIZE == 0
    ensures context.block.state
         == Absorb(f, initial, Pad(AllTaken(chunks, BLOCK_SIZE, blocks), BLOCK_SIZE, LENGTH_BYTES), BLOCK_SIZE)
  {
    var block := new BlockBuffer(f, initial, BLOCK_SIZE);
    context := new Context(block, blocks);
    for i := 0 to |chunks|
      invariant fresh(context) && fresh(context.block) && fresh(context.block.buf)
      invariant context.Valid() && context.block.message == AllTaken(chunks[..i], BLOCK_SIZE, blocks)
      invariant context.block.f == f && context.block.initial == initial && context.blocks == blocks
    {
      assert chunks[..i + 1][..i] == chunks[..i];
      context.Update(chunks[i]);
    }
    assert chunks[..|chunks|] == chunks;
    context.Finalize();
  }

  /** With an unsigned count, as in SHA-224/256, that is the message itself. */
  method Digest<S>(f: Compress<S>, initial: S, chunks: seq<Chunk>) returns (result: S)
    requires FitsEachCall(chunks, BLOCK_SIZE)
    ensures |Pad(Given(chunks), BLOCK_SIZE, LENGTH_BYTES)| % BLOCK_SIZE == 0
    ensures result == Absorb(f, initial, Pad(Given(chunks), BLOCK_SIZE, LENGTH_BYTES), BLOCK_SIZE)
  {
    var context := Hashed(f, initial, chunks, Unsigned);
    AllTakenInReach(chunks, BLOCK_SIZE, Unsigned);
    result := context.block.state;
  }

  /** With a signed one, as in SHA-1 and SM3, it is what the updates took in, which is the message if
      every chunk is in reach. */
  method DigestSigned<S>(f: Compress<S>, initial: S, chunks: seq<Chunk>) returns (result: S)
    requires FitsEachCall(chunks, BLOCK_SIZE)
    ensures |Pad(AllTaken(chunks, BLOCK_SIZE, Signed), BLOCK_SIZE, LENGTH_BYTES)| % BLOCK_SIZE == 0
    ensures result == Absorb(f, initial, Pad(AllTaken(chunks, BLOCK_SIZE, Signed), BLOCK_SIZE, LENGTH_BYTES), BLOCK_SIZE)
    ensures AllInReach(chunks, BLOCK_SIZE, Signed) ==> AllTaken(chunks, BLOCK_SIZE, Signed) == Given(chunks)
  {
    var context := Hashed(f, initial, chunks, Signed);
    if AllInReach(chunks, BLOCK_SIZE, Signed) {
      AllTakenInReach(chunks, BLOCK_SIZE, Signed);
    }
    result := context.block.state;
  }

  /** The update's test for a full block is right exactly when the unsigned sum does not wrap:
      past that a long chunk would pass for a short one. */
  lemma FullBlockTestIsRight(partial: nat, length: U32)
    requires partial < BLOCK_SIZE
    ensures (Wrap32(partial + length) >= BLOCK_SIZE <==> partial + length >= BLOCK_SIZE)
       <==> partial + length < TWO32
  {
  }
}
