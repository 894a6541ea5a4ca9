/** The block exclusive-or routines of asm-generic/xor.h. There are sixteen: two to five buffers,
    with eight memory operands per line or eight registers, plain or with prefetch. Here the number
    of source buffers is a parameter, so four methods stand for the sixteen. */
module XorBlocks {
  import opened Words

  /** The sources, exclusive-ored from left to right at word j. */
  function Combined(sources: seq<seq<U64>>, j: nat): U64
    requires forall i :: 0 <= i < |sources| ==> j < |sources[i]|
  {
    if |sources| == 0 then 0 else Xor64(Combined(sources[..|sources| - 1], j), sources[|sources| - 1][j])
  }

  /** A register that starts as d and takes in the sources one after the other. */
  function Accumulated(d: U64, sources: seq<seq<U64>>, j: nat): U64
    requires forall i :: 0 <= i < |sources| ==> j < |sources[i]|
  {
    if |sources| == 0 then d else Xor64(Accumulated(d, sources[..|sources| - 1], j), sources[|sources| - 1][j])
  }

  lemma {:induction false} RegisterIsMemoryForm(d: U64, sources: seq<seq<U64>>, j: nat)
    requires forall i :: 0 <= i < |sources| ==> j < |sources[i]|
    ensures Accumulated(d, sources, j) == Xor64(d, Combined(sources, j))
  {
    if |sources| > 0 {
      var last := |sources| - 1;
      RegisterIsMemoryForm(d, sources[..last], j);
      XorAssociates(d, Combined(sources[..last], j), sources[last][j]);
    } else {
      XorZeroRight(d);
    }
  }

  predicate LongEnough(sources: seq<seq<U64>>, n: nat) {
    forall i :: 0 <= i < |sources| ==> n <= |sources[i]|
  }

  /** What every routine must leave: the exclusive or in the first n words, the rest untouched. */
  function Xored(before: seq<U64>, sources: seq<seq<U64>>, n: nat): (after: seq<U64>)
    requires n <= |before| && LongEnough(sources, n)
    ensures |after| == |before|
  {
    seq(|before|, j requires 0 <= j < |before| =>
      if j < n then Xor64(before[j], Combined(sources, j)) else before[j])
  }

  // ----- one line of eight words -----

  /** Eight words in memory, four at a time. */
  method MemoryLine(p1: array<U64>, sources: seq<seq<U64>>, p: nat)
    requires p + 8 <= p1.Length && LongEnough(sources, p + 8)
    modifies p1
    ensures forall j :: 0 <= j < p1.Length ==>
      p1[j] == if p <= j < p + 8 then Xor64(old(p1[j]), Combined(sources, j)) else old(p1[j])
  {
    MemoryHalf(p1, sources, p);
    MemoryHalf(p1, sources, p + 4);
  }

  method MemoryHalf(p1: array<U64>, sources: seq<seq<U64>>, p: nat)
    requires p + 4 <= p1.Length && LongEnough(sources, p + 4)
    modifies p1
    ensures forall j :: 0 <= j < p1.Length ==>
      p1[j] == if p <= j < p + 4 then Xor64(old(p1[j]), Combined(sources, j)) else old(p1[j])
  {
    p1[p] := Xor64(p1[p], Combined(sources, p));
    p1[p + 1] := Xor64(p1[p + 1], Combined(sources, p + 1));
    p1[p + 2] := Xor64(p1[p + 2], Combined(sources, p + 2));
    p1[p + 3] := Xor64(p1[p + 3], Combined(sources, p + 3));
  }

  /** Eight words in registers, written back when every source is in. */
  method RegisterLine(p1: array<U64>, sources: seq<seq<U64>>, p: nat)
    requires p + 8 <= p1.Length && LongEnough(sources, p + 8)
    modifies p1
    ensures forall j :: 0 <= j < p1.Length ==>
      p1[j] == if p <= j < p + 8 then Xor64(old(p1[j]), Combined(sources, j)) else old(p1[j])
  {
    var d0, d1, d2, d3 := RegisterHalf(p1, sources, p);
    var d4, d5, d6, d7 := RegisterHalf(p1, sources, p + 4);
    StoreHalf(p1, p, d0, d1, d2, d3);
    StoreHalf(p1, p + 4, d4, d5, d6, d7);
  }

  method StoreHalf(p1: array<U64>, p: nat, d0: U64, d1: U64, d2: U64, d3: U64)
    requires p + 4 <= p1.Length
    modifies p1
    ensures p1[p] == d0 && p1[p + 1] == d1 && p1[p + 2] == d2 && p1[p + 3] == d3
    ensures forall j :: 0 <= j < p1.Length && !(p <= j < p + 4) ==> p1[j] == old(p1[j])
  {
    p1[p], p1[p + 1], p1[p + 2], p1[p + 3] := d0, d1, d2, d3;
  }

  /** Four registers, which take in one source after the other. */
  method RegisterHalf(p1: array<U64>, sources: seq<seq<U64>>, p: nat) returns (d0: U64, d1: U64, d2: U64, d3: U64)
    requires p + 4 <= p1.Length && LongEnough(sources, p + 4)
    ensures d0 == Xor64(p1[p], Combined(sources, p)) && d1 == Xor64(p1[p + 1], Combined(sources, p + 1))
    ensures d2 == Xor64(p1[p + 2], Combined(sources, p + 2)) && d3 == Xor64(p1[p + 3], Combined(sources, p + 3))
  {
    d0, d1, d2, d3 := p1[p], p1[p + 1], p1[p + 2], p1[p + 3];
    var k := 0;
    while k < |sources|
      invariant k <= |sources|
      invariant d0 == Accumulated(p1[p], sources[..k], p) && d1 == Accumulated(p1[p + 1], sources[..k], p + 1)
      invariant d2 == Accumulated(p1[p + 2], sources[..k], p + 2) && d3 == Accumulated(p1[p + 3], sources[..k], p + 3)
    {
      var s := sources[k];
      assert sources[..k + 1][..k] == sources[..k];
      d0 := Xor64(d0, s[p]);
      d1 := Xor64(d1, s[p + 1]);
      d2 := Xor64(d2, s[p + 2]);
      d3 := Xor64(d3, s[p + 3]);
      k := k + 1;
    }
    assert sources[..k] == sources;
    RegisterIsMemoryForm(p1[p], sources, p);
    RegisterIsMemoryForm(p1[p + 1], sources, p + 1);
    RegisterIsMemoryForm(p1[p + 2], sources, p + 2);
    RegisterIsMemoryForm(p1[p + 3], sources, p + 3);
  }

  // ----- the routines -----

  /** `xor_8regs_2` to `xor_8regs_5`. */
  method Xor8Regs(bytes: nat, p1: array<U64>, sources: seq<seq<U64>>) returns (passes: nat)
    requires bytes >= 64 && 8 * (bytes / 64) <= p1.Length && LongEnough(sources, 8 * (bytes / 64))
    modifies p1
    ensures p1[..] == Xored(old(p1[..]), sources, 8 * (bytes / 64)) && passes == bytes / 64
  {
    var lines := bytes / 8 / 8;
    passes := 0;
    while true
      invariant lines == bytes / 64 - passes && lines >= 1
      invariant forall j :: 0 <= j < p1.Length ==>
        p1[j] == if j < 8 * passes then Xor64(old(p1[j]), Combined(sources, j)) else old(p1[j])
      decreases lines
    {
      MemoryLine(p1, sources, 8 * passes);
      passes := passes + 1;
      lines := lines - 1;
      if !(lines > 0) {
        break;
      }
    }
  }

  /** `xor_32regs_2` to `xor_32regs_5`. */
  method Xor32Regs(bytes: nat, p1: array<U64>, sources: seq<seq<U64>>) returns (passes: nat)
    requires bytes >= 64 && 8 * (bytes / 64) <= p1.Length && LongEnough(sources, 8 * (bytes / 64))
    modifies p1
    ensures p1[..] == Xored(old(p1[..]), sources, 8 * (bytes / 64)) && passes == bytes / 64
  {
    var lines := bytes / 8 / 8;
    passes := 0;
    while true
      invariant lines == bytes / 64 - passes && lines >= 1
      invariant forall j :: 0 <= j < p1.Length ==>
        p1[j] == if j < 8 * passes then Xor64(old(p1[j]), Combined(sources, j)) else old(p1[j])
      decreases lines
    {
      RegisterLine(p1, sources, 8 * passes);
      passes := passes + 1;
      lines := lines - 1;
      if !(lines > 0) {
        break;
      }
    }
  }

  /** `xor_8regs_p_2` to `xor_8regs_p_5`: the count starts one lower, and when it reaches zero a
      backward goto enters the body once more, past the prefetches. */
  method Xor8RegsPrefetch(bytes: nat, p1: array<U64>, sources: seq<seq<U64>>) returns (passes: nat)
    requires bytes >= 64 && 8 * (bytes / 64) <= p1.Length && LongEnough(sources, 8 * (bytes / 64))
    modifies p1
    ensures p1[..] == Xored(old(p1[..]), sources, 8 * (bytes / 64)) && passes == bytes / 64
  {
    var lines: int := bytes / 8 / 8 - 1;
    passes := 0;
    while true
      invariant lines == bytes / 64 - 1 - passes && lines >= 0
      invariant forall j :: 0 <= j < p1.Length ==>
        p1[j] == if j < 8 * passes then Xor64(old(p1[j]), Combined(sources, j)) else old(p1[j])
      decreases lines
    {
      MemoryLine(p1, sources, 8 * passes);
      passes := passes + 1;
      lines := lines - 1;
      if lines > 0 {
        continue;
      }
      var onceMore := lines == 0;
      if !onceMore {
        break;
      }
    }
  }

  /** `xor_32regs_p_2` to `xor_32regs_p_5`. */
  method Xor32RegsPrefetch(bytes: nat, p1: array<U64>, sources: seq<seq<U64>>) returns (passes: nat)
    requires bytes >= 64 && 8 * (bytes / 64) <= p1.Length && LongEnough(sources, 8 * (bytes / 64))
    modifies p1
    ensures p1[..] == Xored(old(p1[..]), sources, 8 * (bytes / 64)) && passes == bytes / 64
  {
    var lines: int := bytes / 8 / 8 - 1;
    passes := 0;
    while true
      invariant lines == bytes / 64 - 1 - passes && lines >= 0
      invariant forall j :: 0 <= j < p1.Length ==>
        p1[j] == if j < 8 * passes then Xor64(old(p1[j]), Combined(sources, j)) else old(p1[j])
      decreases lines
    {
      RegisterLine(p1, sources, 8 * passes);
      passes := passes + 1;
      lines := lines - 1;
      if lines > 0 {
        continue;
      }
      var onceMore := lines == 0;
      if !onceMore {
        break;
      }
    }
  }

  // ----- what the routines are for -----

  /** Applying a routine twice restores the destination. */
  lemma XoredTwice(x: seq<U64>, sources: seq<seq<U64>>, n: nat)
    requires n <= |x| && LongEnough(sources, n)
    ensures Xored(Xored(x, sources, n), sources, n) == x
  {
    forall j | 0 <= j < |x|
      ensures Xored(Xored(x, sources, n), sources, n)[j] == x[j]
    {
      if j < n { CancelWord(x[j], Combined(sources, j)); }
    }
  }

  lemma CancelWord(a: U64, b: U64)
    ensures Xor64(Xor64(a, b), b) == a
  {
    XorAssociates(a, b, b);
    XorSelf(b);
    XorZeroRight(a);
  }

  /** Replacing one source changes the sum by the difference. */
  lemma {:induction false} CombinedOfUpdate(sources: seq<seq<U64>>, k: nat, t: seq<U64>, j: nat)
    requires k < |sources| && j < |t| && forall i :: 0 <= i < |sources| ==> j < |sources[i]|
    ensures Combined(sources[k := t], j) == Xor64(Combined(sources, j), Xor64(sources[k][j], t[j]))
  {
    var last := |sources| - 1;
    var rest := Combined(sources[..last], j);
    if k == last {
      assert sources[k := t][..last] == sources[..last];
      SwapLast(rest, sources[k][j], t[j]);
    } else {
      CombinedOfUpdate(sources[..last], k, t, j);
      assert sources[k := t][..last] == sources[..last][k := t];
      MoveLast(rest, Xor64(sources[k][j], t[j]), sources[last][j]);
    }
  }

  lemma SwapLast(rest: U64, a: U64, b: U64)
    ensures Xor64(rest, b) == Xor64(Xor64(rest, a), Xor64(a, b))
  {
    XorAssociates(rest, a, Xor64(a, b));
    XorAssociates(a, a, b);
    XorSelf(a);
  }

  lemma MoveLast(rest: U64, change: U64, a: U64)
    ensures Xor64(Xor64(rest, change), a) == Xor64(Xor64(rest, a), change)
  {
    XorAssociates(rest, change, a);
    XorCommutes(change, a);
    XorAssociates(rest, a, change);
  }

  /** Parity, for which RAID calls these routines: when the parity of the sources takes the place of
      any one of them, the same sum gives that one back. */
  lemma ParityRecovers(sources: seq<seq<U64>>, k: nat, n: nat, parity: seq<U64>, zero: seq<U64>)
    requires k < |sources| && |zero| == n && LongEnough(sources, n)
    requires forall j :: 0 <= j < n ==> zero[j] == 0
    requires parity == Xored(zero, sources, n)
    ensures LongEnough(sources[k := parity], n)
    ensures Xored(zero, sources[k := parity], n) == sources[k][..n]
  {
    forall j | 0 <= j < n
      ensures Xored(zero, sources[k := parity], n)[j] == sources[k][j]
    {
      CombinedOfUpdate(sources, k, parity, j);
      ParityWord(Combined(sources, j), sources[k][j]);
    }
  }

  lemma ParityWord(sum: U64, word: U64)
    ensures Xor64(0, Xor64(sum, Xor64(word, Xor64(0, sum)))) == word
  {
    XorCommutes(sum, Xor64(word, sum));
    CancelWord(word, sum);
  }
}
