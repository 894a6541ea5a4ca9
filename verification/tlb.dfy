/** Pending-flush tracking of a page-table teardown (asm-generic/tlb.h): `struct mmu_gather` widens
    one address range and sets one flag per page-table level as entries are removed, and a flush
    must reach every entry removed since the last one. */
module TlbGather {
  import opened Words

  datatype Level = Pte | Pmd | Pud | P4d

  /** What the architecture fixes. */
  datatype Arch = Arch(pageShift: nat, pmdShift: nat, pudShift: nat, p4dShift: nat, taskSize: U64, mergeVmas: bool) {
    predicate Valid() { pageShift <= pmdShift <= pudShift <= p4dShift && pageShift < 32 }

    function Shift(level: Level): nat {
      match level
      case Pte => pageShift
      case Pmd => pmdShift
      case Pud => pudShift
      case P4d => p4dShift
    }
  }

  datatype Vma = Vma(huge: bool, exec: bool, pfn: bool)

  /** The fields of `struct mmu_gather` that the header uses. */
  datatype Gather = Gather(start: U64, end: U64, fullmm: bool, needFlushAll: bool, freedTables: bool,
                           ptes: bool, pmds: bool, puds: bool, p4ds: bool, vma: Vma)

  /** `flush_tlb_mm` and `flush_tlb_range`, whose area carries two of the three flags. */
  datatype Flush = All | Range(start: U64, end: U64, huge: bool, exec: bool)

  function Min(a: U64, b: U64): U64 { if a < b then a else b }

  function Max(a: U64, b: U64): U64 { if a > b then a else b }

  /** `__tlb_adjust_range`. Its size parameter is an `unsigned int`. */
  function Adjust(g: Gather, address: U64, size: U64): Gather {
    g.(start := Min(g.start, address), end := Max(g.end, Wrap64(address + Wrap32(size))))
  }

  /** `__tlb_reset_range`. */
  function Reset(arch: Arch, g: Gather): Gather {
    g.(start := if g.fullmm then TWO64 - 1 else arch.taskSize, end := if g.fullmm then TWO64 - 1 else 0,
       freedTables := false, ptes := false, pmds := false, puds := false, p4ds := false)
  }

  /** `tlb_flush_pte_range` and its three siblings. */
  function Widen(g: Gather, level: Level, address: U64, size: U64): Gather {
    var h := Adjust(g, address, size);
    match level
    case Pte => h.(ptes := true)
    case Pmd => h.(pmds := true)
    case Pud => h.(puds := true)
    case P4d => h.(p4ds := true)
  }

  /** The flushes `tlb_flush` issues. */
  function FlushOf(g: Gather): seq<Flush> {
    if g.fullmm || g.needFlushAll then [All]
    else if g.end != 0 then [Range(g.start, g.end, g.vma.huge, g.vma.exec)] else []
  }

  predicate NothingToFlush(g: Gather) { !(g.freedTables || g.ptes || g.pmds || g.puds || g.p4ds) }

  /** `tlb_get_unmap_shift`. */
  function UnmapShift(arch: Arch, g: Gather): nat {
    if g.ptes then arch.pageShift else if g.pmds then arch.pmdShift
    else if g.puds then arch.pudShift else if g.p4ds then arch.p4dShift else arch.pageShift
  }

  // ----- the structure and its operations -----

  class MmuGather {
    const arch: Arch
    const fullmm: bool
    var start: U64
    var end: U64
    var needFlushAll: bool
    var freedTables: bool
    var ptes: bool
    var pmds: bool
    var puds: bool
    var p4ds: bool
    var vmaHuge: bool
    var vmaExec: bool
    var vmaPfn: bool
    var issued: seq<Flush>

    function State(): Gather
      reads this
    {
      Gather(start, end, fullmm, needFlushAll, freedTables, ptes, pmds, puds, p4ds, Vma(vmaHuge, vmaExec, vmaPfn))
    }

    constructor (arch: Arch, fullmm: bool, vma: Vma)
      ensures this.arch == arch && issued == [] && State() == Empty(arch, fullmm, vma)
    {
      this.arch := arch;
      this.fullmm := fullmm;
      vmaHuge, vmaExec, vmaPfn := vma.huge, vma.exec, vma.pfn;
      needFlushAll := false;
      issued := [];
      new;
      ResetRange();
    }

    method AdjustRange(address: U64, rangeSize: U32)
      modifies `start, `end
      ensures State() == old(State()).(start := Min(old(start), address),
                                       end := Max(old(end), Wrap64(address + rangeSize)))
    {
      start := Min(start, address);
      end := Max(end, Wrap64(address + rangeSize));
    }

    method ResetRange()
      modifies this
      ensures State() == Reset(arch, old(State())) && issued == old(issued)
    {
      if fullmm {
        start := TWO64 - 1;
        end := TWO64 - 1;
      } else {
        start := arch.taskSize;
        end := 0;
      }
      freedTables := false;
      ptes := false;
      pmds := false;
      puds := false;
      p4ds := false;
    }

    /** `tlb_flush_pte_range`, `tlb_flush_pmd_range`, `tlb_flush_pud_range` or `tlb_flush_p4d_range`;
        the size is truncated on its way to the range. */
    method FlushLevelRange(level: Level, address: U64, size: U64)
      modifies this
      ensures State() == Widen(old(State()), level, address, size) && issued == old(issued)
    {
      AdjustRange(address, Wrap32(size));
      match level {
        case Pte => ptes := true;
        case Pmd => pmds := true;
        case Pud => puds := true;
        case P4d => p4ds := true;
      }
    }

    /** `tlb_remove_huge_tlb_entry`: the level by the size. */
    method RemoveHuge(address: U64, size: U64)
      modifies this
      ensures State() == Widen(old(State()), LevelOf(arch, size), address, size) && issued == old(issued)
    {
      if size >= Pow2(arch.p4dShift) {
        FlushLevelRange(P4d, address, size);
      } else if size >= Pow2(arch.pudShift) {
        FlushLevelRange(Pud, address, size);
      } else if size >= Pow2(arch.pmdShift) {
        FlushLevelRange(Pmd, address, size);
      } else {
        FlushLevelRange(Pte, address, size);
      }
    }

    /** `pte_free_tlb`, `pmd_free_tlb`, `pud_free_tlb` and `p4d_free_tlb`: freeing a table pends a
        page at the level above, except that the top level has none. */
    method FreeTable(level: Level, address: U64)
      requires arch.Valid()
      modifies this
      ensures State() == AfterFree(arch, old(State()), level, address) && issued == old(issued)
    {
      PageSizeIsWord(arch);
      match level {
        case Pte => FlushLevelRange(Pmd, address, Pow2(arch.pageShift));
        case Pmd => FlushLevelRange(Pud, address, Pow2(arch.pageShift));
        case Pud => FlushLevelRange(P4d, address, Pow2(arch.pageShift));
        case P4d => AdjustRange(address, Pow2(arch.pageShift));
      }
      freedTables := true;
    }

    /** `tlb_flush`. */
    method Flush()
      modifies `issued
      ensures State() == old(State()) && issued == old(issued) + FlushOf(old(State()))
    {
      if fullmm || needFlushAll {
        issued := issued + [All];
      } else if end != 0 {
        issued := issued + [Range(start, end, vmaHuge, vmaExec)];
      }
    }

    /** `tlb_flush_mmu_tlbonly`. */
    method FlushTlbOnly()
      modifies this
      ensures var g := old(State());
        && State() == (if NothingToFlush(g) then g else Reset(arch, g))
        && issued == old(issued) + if NothingToFlush(g) then [] else FlushOf(g)
    {
      if !(freedTables || ptes || pmds || puds || p4ds) {
        return;
      }
      Flush();
      ResetRange();
    }

    /** `tlb_start_vma`, without the cache flush. */
    method StartVma(vma: Vma)
      modifies this
      ensures State() == (if fullmm then old(State()) else old(State()).(vma := vma)) && issued == old(issued)
    {
      if fullmm {
        return;
      }
      vmaHuge, vmaExec, vmaPfn := vma.huge, vma.exec, vma.pfn;
    }

    /** `tlb_end_vma`. */
    method EndVma()
      modifies this
      ensures var g := old(State());
        var flush := !fullmm && (g.vma.pfn || !arch.mergeVmas) && !NothingToFlush(g);
        && State() == (if flush then Reset(arch, g) else g)
        && issued == old(issued) + if flush then FlushOf(g) else []
    {
      if fullmm {
        return;
      }
      if vmaPfn || !arch.mergeVmas {
        FlushTlbOnly();
      }
    }
  }

  function Empty(arch: Arch, fullmm: bool, vma: Vma): Gather {
    Reset(arch, Gather(0, 0, fullmm, false, false, false, false, false, false, vma))
  }

  lemma PageSizeIsWord(arch: Arch)
    requires arch.Valid()
    ensures Pow2(arch.pageShift) < TWO32
  {
    Pow2Values();
    Pow2Monotone(arch.pageShift, 31);
  }

  /** The level above; the top one has none. */
  function Above(level: Level): Level {
    match level
    case Pte => Pmd
    case Pmd => Pud
    case Pud => P4d
    case P4d => P4d
  }

  function AfterFree(arch: Arch, g: Gather, level: Level, address: U64): Gather
    requires arch.Valid()
  {
    PageSizeIsWord(arch);
    var size := Pow2(arch.pageShift);
    var h := if level == P4d then Adjust(g, address, size) else Widen(g, Above(level), address, size);
    h.(freedTables := true)
  }

  // ----- runs -----

  /** A removed translation that no flush has reached yet: its range, and what was removed. */
  datatype Kind = Entry(level: Level) | Table(level: Level)
  datatype Pending = Pending(start: nat, end: nat, kind: Kind)

  datatype System = System(arch: Arch, g: Gather, pending: seq<Pending>, issued: seq<Flush>)

  datatype Op =
    | Remove(level: Level, address: U64, size: U64)
    | Free(level: Level, address: U64)
    | TlbOnly
    | VmaStart(vma: Vma)
    | VmaEnd
    | RequestFlushAll

  function FlushTlb(s: System): System {
    if NothingToFlush(s.g) then s
    else s.(g := Reset(s.arch, s.g), pending := [], issued := s.issued + FlushOf(s.g))
  }

  function Do(s: System, op: Op): System
    requires s.arch.Valid()
  {
    match op
    case Remove(level, address, size) =>
      s.(g := Widen(s.g, level, address, size),
         pending := s.pending + [Pending(address, address + size, Entry(level))])
    case Free(level, address) =>
      s.(g := AfterFree(s.arch, s.g, level, address),
         pending := s.pending + [Pending(address, address + Pow2(s.arch.pageShift), Table(level))])
    case TlbOnly => FlushTlb(s)
    case VmaStart(vma) => if s.g.fullmm then s else s.(g := s.g.(vma := vma))
    case VmaEnd => if !s.g.fullmm && (s.g.vma.pfn || !s.arch.mergeVmas) then FlushTlb(s) else s
    case RequestFlushAll => s.(g := s.g.(needFlushAll := true))
  }

  function Run(s: System, ops: seq<Op>): (r: System)
    requires s.arch.Valid()
    ensures r.arch == s.arch
  {
    if |ops| == 0 then s else Do(Run(s, ops[..|ops| - 1]), ops[|ops| - 1])
  }

  /** A gather in use, with the removals its caller has made since the last flush. */
  class Teardown {
    const tlb: MmuGather
    ghost var pending: seq<Pending>

    ghost function State(): System
      reads this, tlb
    {
      System(tlb.arch, tlb.State(), pending, tlb.issued)
    }

    constructor (arch: Arch, fullmm: bool, vma: Vma)
      ensures fresh(tlb) && State() == System(arch, Empty(arch, fullmm, vma), [], [])
    {
      tlb := new MmuGather(arch, fullmm, vma);
      pending := [];
    }

    method Step(op: Op)
      requires tlb.arch.Valid()
      modifies this, tlb
      ensures State() == Do(old(State()), op)
    {
      ghost var g := tlb.State();
      match op {
        case Remove(level, address, size) =>
          tlb.FlushLevelRange(level, address, size);
          pending := pending + [Pending(address, address + size, Entry(level))];
        case Free(level, address) =>
          tlb.FreeTable(level, address);
          pending := pending + [Pending(address, address + Pow2(tlb.arch.pageShift), Table(level))];
        case TlbOnly =>
          tlb.FlushTlbOnly();
          pending := if NothingToFlush(g) then pending else [];
        case VmaStart(vma) =>
          tlb.StartVma(vma);
        case VmaEnd =>
          tlb.EndVma();
          pending := if !g.fullmm && (g.vma.pfn || !tlb.arch.mergeVmas) && !NothingToFlush(g) then [] else pending;
        case RequestFlushAll =>
          tlb.needFlushAll := true;
      }
    }

    method Perform(ops: seq<Op>)
      requires tlb.arch.Valid()
      modifies this, tlb
      ensures State() == Run(old(State()), ops)
    {
      for i := 0 to |ops|
        invariant State() == Run(old(State()), ops[..i])
      {
        Step(ops[i]);
        assert ops[..i + 1][..i] == ops[..i];
      }
      assert ops[..|ops|] == ops;
    }
  }

  /** The levels whose flag a pending removal must set. */
  predicate Sets(kind: Kind, level: Level) {
    match kind
    case Entry(l) => l == level
    case Table(l) => l != P4d && level == Above(l)
  }

  predicate FlagOf(g: Gather, level: Level) {
    match level
    case Pte => g.ptes
    case Pmd => g.pmds
    case Pud => g.puds
    case P4d => g.p4ds
  }

  predicate Covered(g: Gather, p: Pending) { g.fullmm || (g.start <= p.start && p.end <= g.end) }

  /** Where the recorded range of a removal ends: the size was truncated to 32 bits. */
  function Recorded(p: Pending): (e: nat)
    ensures p.start <= p.end ==> e <= p.end
    ensures p.end < p.start + TWO32 && p.start <= p.end ==> e == p.end
  {
    p.start + Wrap32(p.end - p.start)
  }

  predicate InSpace(p: Pending) { p.start <= p.end < TWO64 }

  /** The range of a gather holds the start and the recorded end of every pending removal, and no more. */
  ghost predicate IsHull(s: System) {
    && (forall p :: p in s.pending ==> s.g.start <= p.start && Recorded(p) <= s.g.end)
    && s.g.start <= s.arch.taskSize
    && (s.g.start == s.arch.taskSize || exists p :: p in s.pending && p.start == s.g.start)
    && (s.g.end == 0 || exists p :: p in s.pending && Recorded(p) == s.g.end)
  }

  /** The state of a gather after any run: the range is that hull unless the whole address space goes,
      and a flag is up exactly when something at that level is pending. */
  ghost predicate Inv(s: System) {
    && s.arch.Valid()
    && (forall p :: p in s.pending ==> InSpace(p))
    && (forall level :: FlagOf(s.g, level) <==> exists p :: p in s.pending && Sets(p.kind, level))
    && (s.g.freedTables <==> exists p :: p in s.pending && p.kind.Table?)
    && (!s.g.fullmm ==> IsHull(s))
  }

  /** What callers keep: ranges inside the address space. */
  predicate Legal(arch: Arch, op: Op) {
    match op
    case Remove(_, address, size) => address + size < TWO64
    case Free(_, address) => address + Pow2(arch.pageShift) < TWO64
    case _ => true
  }

  lemma InitialInv(arch: Arch, fullmm: bool, vma: Vma)
    requires arch.Valid()
    ensures Inv(System(arch, Empty(arch, fullmm, vma), [], []))
  {
  }

  /** Widening by a range of any size keeps the hull and the flags. */
  lemma WidenKeepsInv(s: System, g: Gather, p: Pending)
    requires Inv(s) && InSpace(p)
    requires g.start == Min(s.g.start, p.start) && g.end == Max(s.g.end, Recorded(p))
    requires g.fullmm == s.g.fullmm
    requires forall level :: FlagOf(g, level) <==> FlagOf(s.g, level) || Sets(p.kind, level)
    requires g.freedTables <==> s.g.freedTables || p.kind.Table?
    ensures Inv(s.(g := g, pending := s.pending + [p]))
  {
    var t := s.(g := g, pending := s.pending + [p]);
    assert p in t.pending;
    assert forall q :: q in t.pending <==> q in s.pending || q == p;
    forall level
      ensures FlagOf(t.g, level) <==> exists q :: q in t.pending && Sets(q.kind, level)
    {
      if FlagOf(s.g, level) {
        var q :| q in s.pending && Sets(q.kind, level);
        assert q in t.pending;
      }
    }
    if !g.fullmm {
      KeepsHull(s, t, p);
    }
  }

  lemma KeepsHull(s: System, t: System, p: Pending)
    requires IsHull(s) && InSpace(p) && t.arch == s.arch && t.pending == s.pending + [p]
    requires t.g.start == Min(s.g.start, p.start) && t.g.end == Max(s.g.end, Recorded(p))
    ensures IsHull(t)
  {
    assert p in t.pending;
    if t.g.start == s.g.start && s.g.start != s.arch.taskSize {
      var q :| q in s.pending && q.start == s.g.start;
      assert q in t.pending;
    }
    if t.g.end == s.g.end && s.g.end != 0 {
      var q :| q in s.pending && Recorded(q) == s.g.end;
      assert q in t.pending;
    }
  }

  lemma StepKeepsInv(s: System, op: Op)
    requires Inv(s) && Legal(s.arch, op)
    ensures Inv(Do(s, op))
  {
    match op
    case Remove(level, address, size) =>
      RemoveKeepsInv(s, level, address, size);
    case Free(level, address) =>
      FreeKeepsInv(s, level, address);
    case TlbOnly =>
      FlushKeepsInv(s);
    case VmaStart(vma) =>
      SameRangeKeepsInv(s, s.g.(vma := vma));
    case VmaEnd =>
      FlushKeepsInv(s);
    case RequestFlushAll =>
      SameRangeKeepsInv(s, s.g.(needFlushAll := true));
  }

  lemma RecordedIs(p: Pending, size: nat)
    requires InSpace(p) && p.end == p.start + size
    ensures Recorded(p) == Wrap64(p.start + Wrap32(size))
  {
  }

  lemma WidenFlags(g: Gather, level: Level, address: U64, size: U64)
    ensures var h := Widen(g, level, address, size);
      && h.start == Min(g.start, address) && h.end == Max(g.end, Wrap64(address + Wrap32(size)))
      && h.fullmm == g.fullmm && h.freedTables == g.freedTables
      && forall l :: FlagOf(h, l) <==> FlagOf(g, l) || l == level
  {
    var h := Widen(g, level, address, size);
    forall l: Level
      ensures FlagOf(h, l) <==> FlagOf(g, l) || l == level
    {
    }
  }

  lemma RemoveKeepsInv(s: System, level: Level, address: U64, size: U64)
    requires Inv(s) && address + size < TWO64
    ensures Inv(Do(s, Remove(level, address, size)))
  {
    var p := Pending(address, address + size, Entry(level));
    WidenFlags(s.g, level, address, size);
    RecordedIs(p, size);
    WidenKeepsInv(s, Widen(s.g, level, address, size), p);
  }

  lemma FreeKeepsInv(s: System, level: Level, address: U64)
    requires Inv(s) && address + Pow2(s.arch.pageShift) < TWO64
    ensures Inv(Do(s, Free(level, address)))
  {
    PageSizeIsWord(s.arch);
    var size := Pow2(s.arch.pageShift);
    var g := AfterFree(s.arch, s.g, level, address);
    var p := Pending(address, address + size, Table(level));
    AfterFreeFlags(s.arch, s.g, level, address);
    RecordedIs(p, size);
    WidenKeepsInv(s, g, p);
  }

  lemma AfterFreeFlags(arch: Arch, g: Gather, level: Level, address: U64)
    requires arch.Valid() && Pow2(arch.pageShift) < TWO32
    ensures var h := AfterFree(arch, g, level, address); var size := Pow2(arch.pageShift);
      && h.start == Min(g.start, address) && h.end == Max(g.end, Wrap64(address + Wrap32(size)))
      && h.fullmm == g.fullmm && h.freedTables
      && forall l :: FlagOf(h, l) <==> FlagOf(g, l) || Sets(Table(level), l)
  {
    var size := Pow2(arch.pageShift);
    WidenFlags(g, Above(level), address, size);
    var h := AfterFree(arch, g, level, address);
    var w := if level == P4d then Adjust(g, address, size) else Widen(g, Above(level), address, size);
    forall l: Level
      ensures FlagOf(h, l) <==> FlagOf(w, l)
    {
    }
  }

  lemma FlushKeepsInv(s: System)
    requires Inv(s)
    ensures Inv(FlushTlb(s))
  {
    var t := FlushTlb(s);
    if !NothingToFlush(s.g) {
      forall level
        ensures !FlagOf(t.g, level)
      {
      }
    }
  }

  lemma SameRangeKeepsInv(s: System, g: Gather)
    requires Inv(s) && g.start == s.g.start && g.end == s.g.end && g.fullmm == s.g.fullmm
    requires g.freedTables == s.g.freedTables && g.ptes == s.g.ptes && g.pmds == s.g.pmds
    requires g.puds == s.g.puds && g.p4ds == s.g.p4ds
    ensures Inv(s.(g := g))
  {
    forall level
      ensures FlagOf(g, level) == FlagOf(s.g, level)
    {
    }
  }

  lemma {:induction false} RunKeepsInv(s: System, ops: seq<Op>)
    requires Inv(s) && forall i :: 0 <= i < |ops| ==> Legal(s.arch, ops[i])
    ensures Inv(Run(s, ops))
  {
    if |ops| > 0 {
      RunKeepsInv(s, ops[..|ops| - 1]);
      StepKeepsInv(Run(s, ops[..|ops| - 1]), ops[|ops| - 1]);
    }
  }

  predicate Reaches(f: Flush, p: Pending) { f.All? || (f.start <= p.start && p.end <= f.end) }

  /** A flush issued between two states reaches a removal. */
  predicate Flushed(s: System, t: System, p: Pending) {
    exists i :: |s.issued| <= i < |t.issued| && Reaches(t.issued[i], p)
  }

  /** Everything is to be flushed, or the recorded end of some pending removal is not before p's end. */
  ghost predicate LateEnough(s: System, p: Pending) {
    s.g.fullmm || s.g.needFlushAll || exists q :: q in s.pending && Recorded(q) >= p.end
  }

  /** At any point of any run, `tlb_flush_mmu_tlbonly` leaves nothing pending. A removal that was is
      reached exactly if everything is flushed, or the recorded end of some pending removal is not
      before its end. */
  lemma FlushReachesExactly(arch: Arch, fullmm: bool, vma: Vma, ops: seq<Op>)
    requires arch.Valid() && forall i :: 0 <= i < |ops| ==> Legal(arch, ops[i])
    ensures var s := Run(System(arch, Empty(arch, fullmm, vma), [], []), ops); var t := FlushTlb(s);
      && t.pending == []
      && forall p :: p in s.pending && p.end > 0 ==>
           (Flushed(s, t, p)
            <==> fullmm || RequestFlushAll in ops || exists q :: q in s.pending && Recorded(q) >= p.end)
  {
    var s0 := System(arch, Empty(arch, fullmm, vma), [], []);
    InitialInv(arch, fullmm, vma);
    RunKeepsInv(s0, ops);
    RequestsOfRun(s0, ops);
    ReachedExactly(Run(s0, ops), fullmm, RequestFlushAll in ops);
  }

  lemma ReachedExactly(s: System, fullmm: bool, requested: bool)
    requires Inv(s) && s.g.fullmm == fullmm && s.g.needFlushAll == requested
    ensures FlushTlb(s).pending == []
    ensures forall p :: p in s.pending && p.end > 0 ==>
      (Flushed(s, FlushTlb(s), p) <==> fullmm || requested || exists q :: q in s.pending && Recorded(q) >= p.end)
  {
    EachReached(s);
  }

  /** Whether everything is to be flushed is what the caller asked for. */
  lemma {:induction false} RequestsOfRun(s: System, ops: seq<Op>)
    requires s.arch.Valid()
    ensures Run(s, ops).g.fullmm == s.g.fullmm
    ensures Run(s, ops).g.needFlushAll <==> s.g.needFlushAll || RequestFlushAll in ops
  {
    if |ops| > 0 {
      var before, op := ops[..|ops| - 1], ops[|ops| - 1];
      RequestsOfRun(s, before);
      assert RequestFlushAll in ops <==> RequestFlushAll in before || op == RequestFlushAll;
      StepRequests(Run(s, before), op);
    }
  }

  lemma StepRequests(s: System, op: Op)
    requires s.arch.Valid()
    ensures Do(s, op).g.fullmm == s.g.fullmm
    ensures Do(s, op).g.needFlushAll <==> s.g.needFlushAll || op == RequestFlushAll
    ensures Do(s, op).g.vma == if op.VmaStart? && !s.g.fullmm then op.vma else s.g.vma
  {
    match op
    case Remove(level, address, size) => WidenKeepsRest(s.g, level, address, size);
    case Free(level, address) => FreeKeepsRest(s.arch, s.g, level, address);
    case _ => ResetKeepsRest(s);
  }

  predicate SameRest(g: Gather, h: Gather) {
    h.fullmm == g.fullmm && h.needFlushAll == g.needFlushAll && h.vma == g.vma
  }

  lemma WidenKeepsRest(g: Gather, level: Level, address: U64, size: U64)
    ensures SameRest(g, Widen(g, level, address, size))
  {
  }

  lemma FreeKeepsRest(arch: Arch, g: Gather, level: Level, address: U64)
    requires arch.Valid()
    ensures SameRest(g, AfterFree(arch, g, level, address))
  {
    PageSizeIsWord(arch);
    WidenKeepsRest(g, Above(level), address, Pow2(arch.pageShift));
  }

  lemma ResetKeepsRest(s: System)
    ensures SameRest(s.g, FlushTlb(s).g)
  {
  }

  // ----- areas -----

  /** The area a run is in: the last one started. */
  function LastArea(vma: Vma, ops: seq<Op>): Vma {
    if |ops| == 0 then vma
    else if ops[|ops| - 1].VmaStart? then ops[|ops| - 1].vma
    else LastArea(vma, ops[..|ops| - 1])
  }

  lemma {:induction false} AreaOfRun(s: System, ops: seq<Op>)
    requires s.arch.Valid()
    ensures Run(s, ops).g.fullmm == s.g.fullmm
    ensures Run(s, ops).g.vma == if s.g.fullmm then s.g.vma else LastArea(s.g.vma, ops)
  {
    if |ops| > 0 {
      AreaOfRun(s, ops[..|ops| - 1]);
      StepRequests(Run(s, ops[..|ops| - 1]), ops[|ops| - 1]);
    }
  }

  /** A ranged flush says executable exactly if the area is, and likewise huge. */
  lemma FlushCarriesArea(arch: Arch, vma: Vma, ops: seq<Op>)
    requires arch.Valid()
    ensures var s := Run(System(arch, Empty(arch, false, vma), [], []), ops); var t := FlushTlb(s);
      forall i :: |s.issued| <= i < |t.issued| && t.issued[i].Range? ==>
        && t.issued[i].exec == LastArea(vma, ops).exec && t.issued[i].huge == LastArea(vma, ops).huge
  {
    AreaOfRun(System(arch, Empty(arch, false, vma), [], []), ops);
  }

  /** The end of an area flushes what is pending exactly if the area maps page frames or the architecture
      does not merge areas, and the address space stays; otherwise it changes nothing. */
  lemma AreaEnds(arch: Arch, fullmm: bool, vma: Vma, ops: seq<Op>)
    requires arch.Valid()
    ensures var s := Run(System(arch, Empty(arch, fullmm, vma), [], []), ops);
      Do(s, VmaEnd) == if !fullmm && (LastArea(vma, ops).pfn || !arch.mergeVmas) then Do(s, TlbOnly) else s
  {
    AreaOfRun(System(arch, Empty(arch, fullmm, vma), [], []), ops);
  }

  // ----- levels -----

  /** Freeing a table raises the flag one level up and no other: an entry of the directory above went. */
  lemma FreedTableFlags(s: System, address: U64)
    requires s.arch.Valid()
    ensures var g := Do(s, Free(Pte, address)).g;
      g.freedTables && g.pmds && g.ptes == s.g.ptes && g.puds == s.g.puds && g.p4ds == s.g.p4ds
    ensures var g := Do(s, Free(Pmd, address)).g;
      g.freedTables && g.puds && g.ptes == s.g.ptes && g.pmds == s.g.pmds && g.p4ds == s.g.p4ds
    ensures var g := Do(s, Free(Pud, address)).g;
      g.freedTables && g.p4ds && g.ptes == s.g.ptes && g.pmds == s.g.pmds && g.puds == s.g.puds
    ensures var g := Do(s, Free(P4d, address)).g;
      g.freedTables && g.ptes == s.g.ptes && g.pmds == s.g.pmds && g.puds == s.g.puds && g.p4ds == s.g.p4ds
  {
  }

  /** A huge entry is recorded at the largest level whose entries are no larger. */
  lemma LevelIsLargest(arch: Arch, size: U64, level: Level)
    requires arch.Valid() && Pow2(arch.Shift(level)) <= size
    ensures Pow2(arch.Shift(LevelOf(arch, size))) <= size
    ensures arch.Shift(level) <= arch.Shift(LevelOf(arch, size))
  {
    Pow2Monotone(arch.pageShift, arch.pmdShift);
    Pow2Monotone(arch.pmdShift, arch.pudShift);
    Pow2Monotone(arch.pudShift, arch.p4dShift);
  }

  lemma EachReached(s: System)
    requires Inv(s)
    ensures FlushTlb(s).pending == []
    ensures forall p :: p in s.pending && p.end > 0 ==> (Flushed(s, FlushTlb(s), p) <==> LateEnough(s, p))
  {
    forall p | p in s.pending && p.end > 0
      ensures Flushed(s, FlushTlb(s), p) <==> LateEnough(s, p)
    {
      FlushReaches(s, p);
    }
    if s.pending == [] { NothingPending(s); } else { PendingIsFlagged(s, s.pending[0]); }
  }

  lemma FlushReaches(s: System, p: Pending)
    requires Inv(s) && p in s.pending && p.end > 0
    ensures FlushTlb(s).pending == []
    ensures Flushed(s, FlushTlb(s), p) <==> LateEnough(s, p)
  {
    PendingIsFlagged(s, p);
    var t := FlushTlb(s);
    var n := |s.issued|;
    if s.g.fullmm || s.g.needFlushAll {
      assert Reaches(t.issued[n], p);
    } else if s.g.end >= p.end {
      assert Reaches(t.issued[n], p);
    }
  }

  /** The flush is no wider than what is pending: there is at most one, none if nothing is pending, and
      a ranged one begins at the start of a pending removal or at the end of the address space and
      ends at the recorded end of one. */
  lemma FlushNoWider(arch: Arch, fullmm: bool, vma: Vma, ops: seq<Op>)
    requires arch.Valid() && forall i :: 0 <= i < |ops| ==> Legal(arch, ops[i])
    ensures var s := Run(System(arch, Empty(arch, fullmm, vma), [], []), ops); var t := FlushTlb(s);
      && (s.pending == [] ==> t.issued == s.issued)
      && |s.issued| <= |t.issued| <= |s.issued| + 1
      && forall i :: |s.issued| <= i < |t.issued| && t.issued[i].Range? ==>
           && (t.issued[i].start == arch.taskSize || exists p :: p in s.pending && p.start == t.issued[i].start)
           && (exists p :: p in s.pending && Recorded(p) == t.issued[i].end)
  {
    var s0 := System(arch, Empty(arch, fullmm, vma), [], []);
    InitialInv(arch, fullmm, vma);
    RunKeepsInv(s0, ops);
    var s := Run(s0, ops);
    if s.pending == [] { NothingPending(s); }
  }

  lemma NothingPending(s: System)
    requires Inv(s) && s.pending == []
    ensures NothingToFlush(s.g)
  {
    assert !FlagOf(s.g, Pte) && !FlagOf(s.g, Pmd) && !FlagOf(s.g, Pud) && !FlagOf(s.g, P4d);
  }

  /** The removals of less than 4 GiB. */
  predicate Below4G(op: Op) { op.Remove? ==> op.size < TWO32 }

  lemma {:induction false} SmallSizesPend(s: System, ops: seq<Op>)
    requires s.arch.Valid() && forall i :: 0 <= i < |ops| ==> Below4G(ops[i])
    requires forall p :: p in s.pending ==> p.start <= p.end < p.start + TWO32
    ensures forall p :: p in Run(s, ops).pending ==> p.start <= p.end < p.start + TWO32
  {
    if |ops| > 0 {
      SmallSizesPend(s, ops[..|ops| - 1]);
      PageSizeIsWord(s.arch);
    }
  }

  /** So if no removal was of 4 GiB or more, the flush reaches them all, unless their range is empty. */
  lemma FlushReachesAllPending(arch: Arch, fullmm: bool, vma: Vma, ops: seq<Op>)
    requires arch.Valid() && forall i :: 0 <= i < |ops| ==> Legal(arch, ops[i]) && Below4G(ops[i])
    ensures var s := Run(System(arch, Empty(arch, fullmm, vma), [], []), ops); var t := FlushTlb(s);
      t.pending == [] && forall p :: p in s.pending && p.end > 0 ==> Flushed(s, t, p)
  {
    FlushReachesExactly(arch, fullmm, vma, ops);
    SmallSizesPend(System(arch, Empty(arch, fullmm, vma), [], []), ops);
    var s := Run(System(arch, Empty(arch, fullmm, vma), [], []), ops);
    forall p | p in s.pending && p.end > 0
      ensures Flushed(s, FlushTlb(s), p)
    {
      assert Recorded(p) >= p.end;
    }
  }

  lemma PendingIsFlagged(s: System, p: Pending)
    requires Inv(s) && p in s.pending
    ensures !NothingToFlush(s.g)
  {
    match p.kind
    case Entry(level) =>
      assert Sets(p.kind, level);
      assert FlagOf(s.g, level);
    case Table(_) =>
      assert s.g.freedTables;
  }

  /** The unmap granule is the shift of the smallest pending level: no pending removal sets a smaller
      one, and one sets this one if any sets any. */
  lemma UnmapShiftIsSmallest(s: System)
    requires Inv(s)
    ensures forall p, level :: p in s.pending && Sets(p.kind, level) ==> UnmapShift(s.arch, s.g) <= s.arch.Shift(level)
    ensures (exists p, level :: p in s.pending && Sets(p.kind, level)) ==>
      exists p, level :: p in s.pending && Sets(p.kind, level) && s.arch.Shift(level) == UnmapShift(s.arch, s.g)
  {
    forall p, level | p in s.pending && Sets(p.kind, level)
      ensures UnmapShift(s.arch, s.g) <= s.arch.Shift(level)
    {
      assert FlagOf(s.g, level);
    }
    if p, level :| p in s.pending && Sets(p.kind, level) {
      assert FlagOf(s.g, level);
      var least := if s.g.ptes then Pte else if s.g.pmds then Pmd else if s.g.puds then Pud else P4d;
      assert FlagOf(s.g, least);
      var q :| q in s.pending && Sets(q.kind, least);
      assert s.arch.Shift(least) == UnmapShift(s.arch, s.g);
    }
  }

  /** `__tlb_adjust_range` takes the size as an `unsigned int`, its callers as an `unsigned long`. So
      one call records its range exactly when the size is below 4 GiB or the range already pending
      ends late enough. */
  lemma RecordedExactlyBelow4G(g: Gather, level: Level, address: U64, size: U64)
    requires address + size < TWO64 && !g.fullmm
    ensures Covered(Widen(g, level, address, size), Pending(address, address + size, Entry(level)))
       <==> size < TWO32 || address + size <= g.end
  {
  }

  /** A 16 GiB entry in an empty gather: nothing is recorded and the flush that follows is not issued. */
  lemma HugeEntryIsNotFlushed(arch: Arch, vma: Vma)
    requires arch.Valid()
    ensures var s := Run(System(arch, Empty(arch, false, vma), [], []), [Remove(Pmd, 0, 0x4_0000_0000), TlbOnly]);
      s.issued == []
  {
    var s0 := System(arch, Empty(arch, false, vma), [], []);
    var ops := [Remove(Pmd, 0, 0x4_0000_0000), TlbOnly];
    assert ops[..1] == [Remove(Pmd, 0, 0x4_0000_0000)];
    assert ops[..1][..0] == [];
    assert Run(s0, ops[..1]) == Do(s0, ops[0]);
  }

  /** `tlb_remove_huge_tlb_entry` picks the level by the size, so the granule of the entries it
      records never exceeds the smallest of them. */
  function LevelOf(arch: Arch, size: U64): Level {
    if size >= Pow2(arch.p4dShift) then P4d
    else if size >= Pow2(arch.pudShift) then Pud
    else if size >= Pow2(arch.pmdShift) then Pmd
    else Pte
  }

  lemma GranuleWithinHugeEntry(s: System, address: U64, size: U64)
    requires Inv(s) && Pow2(s.arch.pageShift) <= size && Legal(s.arch, Remove(LevelOf(s.arch, size), address, size))
    ensures Pow2(UnmapShift(s.arch, Do(s, Remove(LevelOf(s.arch, size), address, size)).g)) <= size
  {
    var level := LevelOf(s.arch, size);
    var t := Do(s, Remove(level, address, size));
    StepKeepsInv(s, Remove(level, address, size));
    UnmapShiftIsSmallest(t);
    var p := Pending(address, address + size, Entry(level));
    assert p in t.pending && Sets(p.kind, level);
    Pow2Monotone(UnmapShift(s.arch, t.g), s.arch.Shift(level));
  }
}
