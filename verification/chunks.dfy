/** The input of the hash drivers as the C code sees it: a pointer and a length. The pointer may move
    to bytes that do not belong to the input, so a chunk comes with the memory around it. */
module Chunks {
  import opened Words

  /** The byte at each distance from the pointer. */
  type Memory = int -> Byte

  datatype Chunk = Chunk(memory: Memory, length: U32) {
    function Bytes(): (s: seq<Byte>)
      ensures |s| == length
    {
      Span(memory, 0, length)
    }
  }

  function Span(memory: Memory, from: int, n: nat): (s: seq<Byte>)
    ensures |s| == n
  {
    seq(n, i requires 0 <= i < n => memory(from + i))
  }

  lemma SpanSplit(memory: Memory, from: int, a: nat, b: nat)
    ensures Span(memory, from, a + b) == Span(memory, from, a) + Span(memory, from + a, b)
  {
  }

  lemma SpanAppended(before: seq<Byte>, memory: Memory, a: nat, b: nat)
    ensures before + Span(memory, 0, a) + Span(memory, a, b) == before + Span(memory, 0, a + b)
  {
    SpanSplit(memory, 0, a, b);
  }

  // ----- where the code reads -----

  /** The type of the variable that counts the whole blocks of a chunk: `unsigned int` in
      crypto/sha256_base.h, `int` in crypto/sha512_base.h, crypto/sha1_base.h and crypto/sm3_base.h. */
  datatype BlockCount = Unsigned | Signed

  /** How far `data += blocks * BLOCK_SIZE` moves: the macro is an `int`, so the product has the type
      of the count, and wraps in it. */
  function Moved(count: BlockCount, product: nat): int {
    var wrapped := Wrap32(product);
    if count.Signed? && wrapped >= TWO31 then wrapped - TWO32 else wrapped
  }

  /** The bytes of n that make up whole blocks. */
  function Whole(n: nat, blockSize: nat): (w: nat)
    requires blockSize >= 1
    ensures w <= n && n - w == n % blockSize
  {
    CutOff(n, blockSize);
    n / blockSize * blockSize
  }

  /** The bytes that top up a partly filled buffer. */
  function TopUp(partial: nat, blockSize: nat): nat
    requires partial < blockSize
  {
    if partial == 0 then 0 else blockSize - partial
  }

  /** What an update reads of a chunk: so many bytes from the start, then so many from where the pointer
      has moved. */
  datatype Reads = Reads(first: nat, from: int, rest: nat)

  /** A chunk that completes no block is read as the rest; otherwise the first bytes are those up to
      the last whole block. */
  function ReadsOf(partial: nat, length: nat, blockSize: nat, count: BlockCount): (r: Reads)
    requires partial < blockSize
    ensures r.first + r.rest == length
  {
    if partial + length < blockSize then Reads(0, 0, length)
    else
      var p := TopUp(partial, blockSize);
      var whole := Whole(length - p, blockSize);
      Reads(p + whole, p + Moved(count, whole), length - p - whole)
  }

  /** The bytes an update takes in. */
  function Taken(chunk: Chunk, partial: nat, blockSize: nat, count: BlockCount): (s: seq<Byte>)
    requires partial < blockSize
    ensures |s| == chunk.length
  {
    var r := ReadsOf(partial, chunk.length, blockSize, count);
    Span(chunk.memory, 0, r.first) + Span(chunk.memory, r.from, r.rest)
  }

  lemma LongTaken(chunk: Chunk, partial: nat, blockSize: nat, count: BlockCount, p: nat, whole: nat)
    requires partial < blockSize <= partial + chunk.length && p == TopUp(partial, blockSize)
    requires whole == Whole(chunk.length - p, blockSize)
    ensures Taken(chunk, partial, blockSize, count)
         == Span(chunk.memory, 0, p + whole) + Span(chunk.memory, p + Moved(count, whole), chunk.length - p - whole)
  {
  }

  lemma ShortTaken(chunk: Chunk, partial: nat, blockSize: nat, count: BlockCount)
    requires partial + chunk.length < blockSize
    ensures Taken(chunk, partial, blockSize, count) == Span(chunk.memory, 0, chunk.length)
  {
    assert Span(chunk.memory, 0, 0) == [];
  }

  lemma CutOff(n: nat, blockSize: nat)
    requires blockSize >= 1
    ensures n / blockSize * blockSize + n % blockSize == n
    ensures 0 <= n / blockSize * blockSize <= n
  {
    MulBound(0, 0, n / blockSize, blockSize);
  }

  /** The pointer moves as far as it should, or nothing is read from where it moves to. */
  predicate InReach(length: nat, partial: nat, blockSize: nat, count: BlockCount)
    requires partial < blockSize
  {
    var rest := length - TopUp(partial, blockSize);
    count.Unsigned? || rest < blockSize || Whole(rest, blockSize) < TWO31 || rest % blockSize == 0
  }

  /** For the blocks of the drivers: less than 2 GiB after the top-up, or nothing left over. */
  lemma InReachBelow2G(length: nat, partial: nat, blockSize: nat, count: BlockCount)
    requires partial < blockSize && (blockSize == 64 || blockSize == 128)
    ensures InReach(length, partial, blockSize, count) <==>
      var rest := length - TopUp(partial, blockSize);
      count.Unsigned? || rest < TWO31 || rest % blockSize == 0
  {
    var rest := length - TopUp(partial, blockSize);
    if blockSize == 64 {
      assert rest >= 64 ==> Whole(rest, 64) == rest / 64 * 64;
    } else {
      assert rest >= 128 ==> Whole(rest, 128) == rest / 128 * 128;
    }
  }

  lemma TakenInReach(chunk: Chunk, partial: nat, blockSize: nat, count: BlockCount)
    requires partial < blockSize && partial + chunk.length < TWO32
    requires InReach(chunk.length, partial, blockSize, count)
    ensures Taken(chunk, partial, blockSize, count) == chunk.Bytes()
  {
    if partial + chunk.length < blockSize {
      ShortTaken(chunk, partial, blockSize, count);
    } else {
      var p := TopUp(partial, blockSize);
      var whole := WholeInReach(chunk.length - p, blockSize, count);
      LongTaken(chunk, partial, blockSize, count, p, whole);
      SpanJoined(chunk.memory, p + whole, p + Moved(count, whole), chunk.length - p - whole);
    }
  }

  lemma WholeInReach(rest: nat, blockSize: nat, count: BlockCount) returns (whole: nat)
    requires blockSize >= 1 && rest < TWO32
    requires count.Unsigned? || rest < blockSize || Whole(rest, blockSize) < TWO31 || rest % blockSize == 0
    ensures whole == Whole(rest, blockSize) <= rest && (Moved(count, whole) == whole || rest == whole)
  {
    whole := Whole(rest, blockSize);
    if rest < blockSize { DivideUnique(rest, blockSize, 0, rest); }
  }

  lemma SpanJoined(memory: Memory, a: nat, from: int, b: nat)
    requires from == a || b == 0
    ensures Span(memory, 0, a) + Span(memory, from, b) == Span(memory, 0, a + b)
  {
    SpanSplit(memory, 0, a, b);
  }

  /** Memory in which the bytes from the pointer on differ from all bytes before it. */
  function Telling(): Memory { i => if i >= 0 then 1 else 0 }

  lemma TakenOutOfReach(length: U32, partial: nat, blockSize: nat, count: BlockCount)
    requires partial < blockSize && partial + length < TWO32
    requires !InReach(length, partial, blockSize, count)
    ensures Taken(Chunk(Telling(), length), partial, blockSize, count) != Chunk(Telling(), length).Bytes()
  {
    var p := TopUp(partial, blockSize);
    var at: nat := p + Whole(length - p, blockSize);
    var taken := Taken(Chunk(Telling(), length), partial, blockSize, count);
    assert taken[at] == Telling()(at - TWO32);
  }

  /** An update takes in the bytes it is given, whatever lies around them, exactly if its chunk is in
      reach. */
  lemma TakenRightIffInReach(length: U32, partial: nat, blockSize: nat, count: BlockCount)
    requires partial < blockSize && partial + length < TWO32
    ensures InReach(length, partial, blockSize, count) <==>
      forall memory: Memory ::
        Taken(Chunk(memory, length), partial, blockSize, count) == Chunk(memory, length).Bytes()
  {
    if InReach(length, partial, blockSize, count) {
      forall memory: Memory
        ensures Taken(Chunk(memory, length), partial, blockSize, count) == Chunk(memory, length).Bytes()
      {
        TakenInReach(Chunk(memory, length), partial, blockSize, count);
      }
    } else {
      TakenOutOfReach(length, partial, blockSize, count);
    }
  }

  /** One chunk of 2 GiB and a byte, with nothing buffered: its last byte is read 2 GiB before it. */
  lemma LongChunkMisread(memory: Memory, blockSize: nat)
    requires blockSize == 64 || blockSize == 128
    ensures var chunk := Chunk(memory, 0x8000_0001);
      && Taken(chunk, 0, blockSize, Signed)[0x8000_0000] == memory(-0x8000_0000)
      && chunk.Bytes()[0x8000_0000] == memory(0x8000_0000)
      && !InReach(chunk.length, 0, blockSize, Signed)
  {
    var length: nat, cut: nat := 0x8000_0001, 0x8000_0000;
    DivideUnique(length, blockSize, cut / blockSize, 1);
    Misread(Chunk(memory, length), blockSize, cut);
  }

  lemma Misread(chunk: Chunk, blockSize: nat, cut: nat)
    requires blockSize >= 1 && cut == TWO31 && chunk.length == cut + 1 && chunk.length >= blockSize
    requires chunk.length % blockSize == 1
    ensures Taken(chunk, 0, blockSize, Signed)[cut] == chunk.memory(cut - TWO32)
    ensures !InReach(chunk.length, 0, blockSize, Signed)
  {
    assert Whole(chunk.length, blockSize) == cut;
  }

  // ----- several chunks -----

  /** The message the caller gives. */
  function Given(chunks: seq<Chunk>): seq<Byte> {
    if chunks == [] then [] else Given(chunks[..|chunks| - 1]) + chunks[|chunks| - 1].Bytes()
  }

  /** What the caller of update owes: `partial + len`, an unsigned sum, must not wrap. */
  ghost predicate FitsEachCall(chunks: seq<Chunk>, blockSize: nat)
    requires blockSize >= 1
  {
    forall i :: 0 <= i < |chunks| ==> |Given(chunks[..i])| % blockSize + chunks[i].length < TWO32
  }

  /** The bytes the updates take in. */
  function AllTaken(chunks: seq<Chunk>, blockSize: nat, count: BlockCount): (s: seq<Byte>)
    requires blockSize >= 1
    ensures |s| == |Given(chunks)|
  {
    if chunks == [] then []
    else
      var before, last := chunks[..|chunks| - 1], chunks[|chunks| - 1];
      AllTaken(before, blockSize, count) + Taken(last, |Given(before)| % blockSize, blockSize, count)
  }

  /** Chunk i is in reach after those before it. */
  predicate InReachAt(chunks: seq<Chunk>, i: nat, blockSize: nat, count: BlockCount)
    requires i < |chunks| && blockSize >= 1
  {
    InReach(chunks[i].length, |Given(chunks[..i])| % blockSize, blockSize, count)
  }

  ghost predicate AllInReach(chunks: seq<Chunk>, blockSize: nat, count: BlockCount)
    requires blockSize >= 1
  {
    forall i :: 0 <= i < |chunks| ==> InReachAt(chunks, i, blockSize, count)
  }

  lemma Prefix(chunks: seq<Chunk>, blockSize: nat)
    requires blockSize >= 1 && |chunks| > 0 && FitsEachCall(chunks, blockSize)
    ensures FitsEachCall(chunks[..|chunks| - 1], blockSize)
    ensures |Given(chunks[..|chunks| - 1])| % blockSize + chunks[|chunks| - 1].length < TWO32
  {
    assert forall i :: 0 <= i < |chunks| ==> chunks[..|chunks| - 1][..i] == chunks[..i];
  }

  lemma PrefixInReach(chunks: seq<Chunk>, blockSize: nat, count: BlockCount)
    requires blockSize >= 1 && |chunks| > 0
    ensures AllInReach(chunks, blockSize, count) <==>
      AllInReach(chunks[..|chunks| - 1], blockSize, count) && InReachAt(chunks, |chunks| - 1, blockSize, count)
  {
    var before := chunks[..|chunks| - 1];
    forall i | 0 <= i < |before|
      ensures InReachAt(chunks, i, blockSize, count) <==> InReachAt(before, i, blockSize, count)
    {
      assert before[..i] == chunks[..i];
    }
  }

  lemma {:induction false} AllTakenInReach(chunks: seq<Chunk>, blockSize: nat, count: BlockCount)
    requires blockSize >= 1 && FitsEachCall(chunks, blockSize) && AllInReach(chunks, blockSize, count)
    ensures AllTaken(chunks, blockSize, count) == Given(chunks)
  {
    if chunks != [] {
      var n := |chunks| - 1;
      Prefix(chunks, blockSize);
      PrefixInReach(chunks, blockSize, count);
      AllTakenInReach(chunks[..n], blockSize, count);
      TakenInReach(chunks[n], |Given(chunks[..n])| % blockSize, blockSize, count);
    }
  }

  /** The same lengths with the telling memory around each chunk. */
  function Retold(chunks: seq<Chunk>): (r: seq<Chunk>)
    ensures |r| == |chunks|
  {
    seq(|chunks|, i requires 0 <= i < |chunks| => Chunk(Telling(), chunks[i].length))
  }

  predicate SameLengths(a: seq<Chunk>, b: seq<Chunk>) {
    |a| == |b| && forall i :: 0 <= i < |a| ==> a[i].length == b[i].length
  }

  lemma {:induction false} GivenLength(a: seq<Chunk>, b: seq<Chunk>)
    requires SameLengths(a, b)
    ensures |Given(a)| == |Given(b)|
  {
    if a != [] { GivenLength(a[..|a| - 1], b[..|b| - 1]); }
  }

  lemma SameFits(a: seq<Chunk>, b: seq<Chunk>, blockSize: nat)
    requires blockSize >= 1 && SameLengths(a, b) && FitsEachCall(a, blockSize)
    ensures FitsEachCall(b, blockSize)
  {
    forall i | 0 <= i < |a|
      ensures |Given(a[..i])| == |Given(b[..i])|
    {
      GivenLength(a[..i], b[..i]);
    }
  }

  lemma SameInReach(a: seq<Chunk>, b: seq<Chunk>, blockSize: nat, count: BlockCount)
    requires blockSize >= 1 && SameLengths(a, b)
    ensures AllInReach(a, blockSize, count) <==> AllInReach(b, blockSize, count)
  {
    forall i | 0 <= i < |a|
      ensures InReachAt(a, i, blockSize, count) <==> InReachAt(b, i, blockSize, count)
    {
      GivenLength(a[..i], b[..i]);
    }
  }

  lemma {:induction false} RightMeansInReach(chunks: seq<Chunk>, blockSize: nat, count: BlockCount)
    requires blockSize >= 1 && FitsEachCall(chunks, blockSize)
    requires forall i :: 0 <= i < |chunks| ==> chunks[i].memory == Telling()
    requires AllTaken(chunks, blockSize, count) == Given(chunks)
    ensures AllInReach(chunks, blockSize, count)
  {
    if chunks != [] {
      var n := |chunks| - 1;
      var before, last := chunks[..n], chunks[n];
      var partial := |Given(before)| % blockSize;
      Prefix(chunks, blockSize);
      SameParts(AllTaken(before, blockSize, count), Taken(last, partial, blockSize, count), Given(before), last.Bytes());
      RightMeansInReach(before, blockSize, count);
      assert last == Chunk(Telling(), last.length);
      if !InReach(last.length, partial, blockSize, count) {
        TakenOutOfReach(last.length, partial, blockSize, count);
      }
      PrefixInReach(chunks, blockSize, count);
    }
  }

  lemma SameParts(a: seq<Byte>, b: seq<Byte>, c: seq<Byte>, d: seq<Byte>)
    requires |a| == |c| && a + b == c + d
    ensures a == c && b == d
  {
    assert a == (a + b)[..|a|] && b == (a + b)[|a|..];
    assert c == (c + d)[..|c|] && d == (c + d)[|c|..];
  }

  /** The updates of a run take in the message they are given, whatever lies around the chunks, exactly
      if every chunk is in reach. */
  lemma RunRightIffInReach(chunks: seq<Chunk>, blockSize: nat, count: BlockCount)
    requires blockSize >= 1 && FitsEachCall(chunks, blockSize)
    ensures AllInReach(chunks, blockSize, count) <==>
      forall others: seq<Chunk> :: SameLengths(chunks, others) ==>
        AllTaken(others, blockSize, count) == Given(others)
  {
    if AllInReach(chunks, blockSize, count) {
      forall others: seq<Chunk> | SameLengths(chunks, others)
        ensures AllTaken(others, blockSize, count) == Given(others)
      {
        SameFits(chunks, others, blockSize);
        SameInReach(chunks, others, blockSize, count);
        AllTakenInReach(others, blockSize, count);
      }
    } else if AllTaken(Retold(chunks), blockSize, count) == Given(Retold(chunks)) {
      SameFits(chunks, Retold(chunks), blockSize);
      SameInReach(chunks, Retold(chunks), blockSize, count);
      RightMeansInReach(Retold(chunks), blockSize, count);
    } else {
      assert SameLengths(chunks, Retold(chunks));
    }
  }
}
