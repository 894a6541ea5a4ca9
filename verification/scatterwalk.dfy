/** Walking over a scatter list (crypto/scatterwalk.h). Whatever the lengths and offsets of the
    entries, the chunks that clamp, advance and done yield are the bytes of the list in order, each
    chunk within one page. */
module Scatterwalk {
  import opened Words

  /** An entry: where it starts in its first page, and its bytes. */
  datatype Entry = Entry(offset: U32, bytes: seq<Byte>) {
    function End(): nat { offset + |bytes| }
  }

  /** Pages have a size that divides 2^32, as `offset_in_page` needs. */
  predicate PageSize(p: nat) { 1 <= p && exists n :: 0 <= n <= 31 && p == Pow2(n) }

  predicate Fits(list: seq<Entry>) { forall i :: 0 <= i < |list| ==> list[i].End() < TWO32 }

  /** All bytes from an entry on. */
  function BytesFrom(list: seq<Entry>, i: nat): seq<Byte>
    requires i <= |list|
    decreases |list| - i
  {
    if i == |list| then [] else list[i].bytes + BytesFrom(list, i + 1)
  }

  class Walk {
    const list: seq<Entry>
    const pageSize: nat
    var sg: nat
    var offset: U32

    /** `scatterwalk_start` at the head of the list. */
    constructor (list: seq<Entry>, pageSize: nat)
      requires |list| > 0 && Fits(list) && PageSize(pageSize)
      ensures Valid() && this.list == list && this.pageSize == pageSize
      ensures Remaining() == BytesFrom(list, 0)
    {
      this.list := list;
      this.pageSize := pageSize;
      sg := 0;
      offset := list[0].offset;
      new;
      assert list[0].bytes[0..] == list[0].bytes;
    }

    ghost predicate Valid()
      reads this
    {
      Fits(list) && PageSize(pageSize) && sg < |list| && list[sg].offset <= offset <= list[sg].End()
    }

    /** The bytes still ahead of the walk. */
    ghost function Remaining(): seq<Byte>
      requires Valid()
      reads this
    {
      list[sg].bytes[offset - list[sg].offset..] + BytesFrom(list, sg + 1)
    }

    /** `scatterwalk_pagelen`: to the end of the entry or of the page. */
    function PageLen(): (n: nat)
      requires Valid()
      reads this
      ensures offset + n <= list[sg].End()
      ensures n > 0 ==> offset / pageSize == (offset + n - 1) / pageSize
      ensures n == 0 <==> offset == list[sg].End()
      ensures var ofEntry, ofPage := list[sg].End() - offset, pageSize - offset % pageSize;
        n == if ofPage > ofEntry then ofEntry else ofPage
    {
      var len := list[sg].End() - offset;
      var lenThisPage := OffsetInPage(TWO32 - 1 - offset, pageSize) + 1;
      RestOfPage(offset, pageSize);
      RestWithinPage(offset, if lenThisPage > len then len else lenThisPage, pageSize);
      if lenThisPage > len then len else lenThisPage
    }

    /** `scatterwalk_clamp`. */
    function Clamp(nbytes: nat): (n: nat)
      requires Valid()
      reads this
      ensures n == if nbytes > PageLen() then PageLen() else nbytes
    {
      var lenThisPage := PageLen();
      if nbytes > lenThisPage then lenThisPage else nbytes
    }

    /** `scatterwalk_advance`. */
    method Advance(n: nat)
      requires Valid() && n <= PageLen()
      modifies this`offset
      ensures Valid() && Remaining() == old(Remaining())[n..]
      ensures old(Remaining())[..n] == list[sg].bytes[old(offset) - list[sg].offset..][..n]
      ensures offset == old(offset) + n
    {
      ghost var bytes, at := list[sg].bytes, offset - list[sg].offset;
      offset := offset + n;
      assert bytes[at..][n..] == bytes[at + n..];
    }

    /** `scatterwalk_pagedone`, without the cache flush. */
    method PageDone(more: bool)
      requires Valid() && (more ==> Remaining() != [])
      modifies this
      ensures Valid() && Remaining() == old(Remaining()) && sg >= old(sg)
      ensures !more ==> sg == old(sg)
      ensures more && old(offset) >= list[old(sg)].End() ==> sg == old(sg) + 1
      ensures old(offset) < list[old(sg)].End() ==> sg == old(sg) && offset == old(offset)
    {
      if more && offset >= list[sg].End() {
        sg := sg + 1;
        offset := list[sg].offset;
      }
    }

    /** `scatterwalk_done`: its own test never hides a move that `scatterwalk_pagedone` would make. */
    method Done(more: bool)
      requires Valid() && (more ==> Remaining() != [])
      modifies this
      ensures Valid() && Remaining() == old(Remaining()) && sg >= old(sg)
      ensures more && old(offset) >= list[old(sg)].End() ==> sg == old(sg) + 1
      ensures old(offset) < list[old(sg)].End() ==> sg == old(sg) && offset == old(offset)
    {
      if !more || offset >= list[sg].End() || offset % pageSize == 0 {
        PageDone(more);
      }
    }

    /** One turn of the loop that users of the walk run: clamp, use the bytes, advance, done. */
    method ReadChunk(left: nat) returns (chunk: seq<Byte>)
      requires Valid() && 0 < left <= |Remaining()|
      modifies this
      ensures Valid() && |chunk| <= left
      ensures chunk == old(Remaining())[..|chunk|] && Remaining() == old(Remaining())[|chunk|..]
      ensures sg >= old(sg) && (sg > old(sg) || |chunk| > 0)
    {
      var n := Clamp(left);
      chunk := list[sg].bytes[offset - list[sg].offset..][..n];
      Advance(n);
      Done(left - n > 0);
    }

    /** The whole loop delivers exactly the next nbytes bytes of the list. */
    method Read(nbytes: nat) returns (data: seq<Byte>)
      requires Valid() && nbytes <= |Remaining()|
      modifies this
      ensures Valid() && data == old(Remaining())[..nbytes] && Remaining() == old(Remaining())[nbytes..]
    {
      ghost var all := Remaining();
      data := [];
      var left: nat := nbytes;
      while left > 0
        invariant Valid() && left <= nbytes <= |all|
        invariant data == all[..nbytes - left] && Remaining() == all[nbytes - left..]
        decreases |list| - sg, left
      {
        var chunk := ReadChunk(left);
        NextSlice(all, nbytes - left, |chunk|);
        data := data + chunk;
        left := left - |chunk|;
      }
    }
  }

  lemma NextSlice(all: seq<Byte>, k: nat, n: nat)
    requires k + n <= |all|
    ensures all[..k] + all[k..][..n] == all[..k + n] && all[k..][n..] == all[k + n..]
  {
  }

  /** `offset_in_page(p)`: p & (PAGE_SIZE - 1). */
  function OffsetInPage(p: nat, pageSize: nat): nat
    requires pageSize >= 1
  {
    And(p, pageSize - 1)
  }

  /** `offset_in_page(~offset) + 1` is what is left of the page. */
  lemma RestOfPage(offset: U32, pageSize: nat)
    requires PageSize(pageSize)
    ensures OffsetInPage(TWO32 - 1 - offset, pageSize) + 1 == pageSize - offset % pageSize
  {
    var n :| 0 <= n <= 31 && pageSize == Pow2(n);
    AndLowMask(TWO32 - 1 - offset, n);
    Pow2Values();
    Pow2Sum(32 - n, n);
    ComplementRemainder(offset, pageSize, Pow2(32 - n));
  }

  lemma ComplementRemainder(offset: nat, p: nat, pages: nat)
    requires p >= 1 && offset < pages * p
    ensures (pages * p - 1 - offset) % p == p - 1 - offset % p
  {
    var q, r := offset / p, offset % p;
    assert offset == q * p + r;
    assert pages * p - 1 - offset == (pages - q - 1) * p + (p - 1 - r);
    assert pages - q - 1 >= 0 by {
      if q >= pages { MulBound(pages, p, q, p); }
    }
    DivideUnique(pages * p - 1 - offset, p, pages - q - 1, p - 1 - r);
  }

  lemma RestWithinPage(offset: nat, n: nat, p: nat)
    requires p >= 1 && n <= p - offset % p
    ensures n > 0 ==> offset / p == (offset + n - 1) / p
  {
    if n > 0 {
      var q, r := offset / p, offset % p;
      assert offset + n - 1 == q * p + (r + n - 1);
      DivideUnique(offset + n - 1, p, q, r + n - 1);
    }
  }
}
