/** Hyper-V helpers (asm-generic/mshyperv.h): the resumable repeated hypercall, whose control word
    packs several fields, and the sparse encoding of a set of processors. */
module HyperV {
  import opened Words

  // ----- control words -----

  /** `hv_result_success`: bits 15:0 of a status are zero. */
  predicate Success(status: U64) { status % 0x1_0000 == 0 }

  /** `hv_repcomp`: repetitions completed, bits 43:32 of a status. */
  function RepComp(status: U64): (r: nat)
    ensures r < 0x1000
  {
    (status / 0x1_0000_0000) % 0x1000
  }

  /** A status with its fields: the result code in bits 15:0, the repetitions completed in bits 43:32. */
  function StatusWith(top: nat, reps: nat, mid: nat, code: nat): nat {
    top * 0x1000_0000_0000 + reps * 0x1_0000_0000 + mid * 0x1_0000 + code
  }

  /** Which is how the code reads it. */
  lemma StatusFields(status: U64, top: nat, reps: nat, mid: nat, code: nat)
    requires FieldsFit(top, reps, mid, code) && status == StatusWith(top, reps, mid, code)
    ensures RepComp(status) == reps && (Success(status) <==> code == 0)
  {
    DivideUnique(status, 0x1_0000, (top * 0x1000 + reps) * 0x1_0000 + mid, code);
    DivideUnique(status, 0x1_0000_0000, top * 0x1000 + reps, mid * 0x1_0000 + code);
    DivideUnique(top * 0x1000 + reps, 0x1000, top, reps);
  }

  predicate FieldsFit(top: nat, reps: nat, mid: nat, code: nat) {
    top < 0x10_0000 && reps < 0x1000 && mid < 0x1_0000 && code < 0x1_0000
  }

  // What the hypervisor reads: bits 15:0, 26:17, 43:32 and 59:48 of a control word.
  function CodeOf(control: U64): nat { control % 0x1_0000 }
  function VarheadOf(control: U64): nat { (control / 0x2_0000) % 0x400 }
  function CountOf(control: U64): nat { (control / 0x1_0000_0000) % 0x1000 }
  function StartOf(control: U64): nat { (control / 0x1_0000_0000_0000) % 0x1000 }

  /** Bits 16, 31:27, 47:44 and 63:60, which carry nothing. */
  predicate ReservedClear(control: U64) {
    && (control / 0x1_0000) % 2 == 0 && (control / 0x800_0000) % 0x20 == 0
    && (control / 0x1000_0000_0000) % 0x10 == 0 && control / 0x1000_0000_0000_0000 == 0
  }

  predicate Decodes(control: U64, code: U16, repCount: U16, varhead: U16) {
    && CodeOf(control) == code && VarheadOf(control) == varhead
    && CountOf(control) == repCount && ReservedClear(control)
  }

  /** `control |= bits`. */
  function Merge(control: U64, bits: U64): U64 {
    Pow2Values();
    BitwiseBelow(control, bits, 64);
    Or(control, bits)
  }

  /** Merging ors a shifted word into what lies above the shift and keeps what lies below. */
  lemma MergeSplits(high: nat, low: nat, word: nat, shift: nat)
    requires low < Pow2(shift)
    ensures Or(high * Pow2(shift) + low, word * Pow2(shift)) == Or(high, word) * Pow2(shift) + low
  {
    OrSplit(high, low, word, 0, shift);
    OrZero(low);
  }

  lemma Shifts()
    ensures Pow2(17) == 0x2_0000 && Pow2(32) == 0x1_0000_0000 && Pow2(48) == 0x1_0000_0000_0000
  {
    Pow2Values();
    assert Pow2(1) == 2;
    Pow2Sum(16, 1);
    Pow2Sum(32, 16);
  }

  /** The first control word. */
  function FirstControl(code: U16, repCount: U16, varhead: U16): U64 {
    Merge(Merge(code, varhead * 0x2_0000), repCount * 0x1_0000_0000)
  }

  lemma CodeAndVarhead(code: U16, varhead: U16)
    ensures Merge(code, varhead * 0x2_0000) == varhead * 0x2_0000 + code
  {
    Shifts();
    MergeSplits(0, code, varhead, 17);
    OrZero(varhead);
  }

  lemma MergeCount(low: U64, repCount: U16, high: nat, mid: nat, code: U16)
    requires mid < 0x8000 && low == high * 0x1_0000_0000 + mid * 0x2_0000 + code
    ensures Merge(low, repCount * 0x1_0000_0000) == Or(high, repCount) * 0x1_0000_0000 + mid * 0x2_0000 + code
  {
    Pow2Values();
    MergeSplits(high, mid * 0x2_0000 + code, repCount, 32);
  }

  lemma FirstControlIsSum(code: U16, repCount: U16, varhead: U16)
    ensures FirstControl(code, repCount, varhead)
         == Or(varhead / 0x8000, repCount) * 0x1_0000_0000 + (varhead % 0x8000) * 0x2_0000 + code
  {
    CodeAndVarhead(code, varhead);
    MergeCount(Merge(code, varhead * 0x2_0000), repCount, varhead / 0x8000, varhead % 0x8000, code);
  }

  /** Dividing a sum by the step of its upper part. */
  lemma UpperPart(control: nat, upper: nat, lower: nat, p: nat)
    requires lower < p && control == upper * p + lower
    ensures control / p == upper && control % p == lower
  {
    DivideUnique(control, p, upper, lower);
  }

  lemma FieldsOfSum(control: U64, high: nat, mid: nat, code: U16)
    requires high < 0x1_0000 && mid < 0x8000
    requires control == high * 0x1_0000_0000 + mid * 0x2_0000 + code
    ensures CodeOf(control) == code && VarheadOf(control) == mid % 0x400
    ensures CountOf(control) == high % 0x1000 && StartOf(control) == 0
  {
    UpperPart(control, high * 0x1_0000 + mid * 2, code, 0x1_0000);
    UpperPart(control, high * 0x8000 + mid, code, 0x2_0000);
    UpperPart(control, high, mid * 0x2_0000 + code, 0x1_0000_0000);
    MidField(high, mid);
  }

  lemma MidField(high: nat, mid: nat)
    ensures (high * 0x8000 + mid) % 0x400 == mid % 0x400
    ensures (high * 0x20 + mid / 0x400) % 0x20 == (mid / 0x400) % 0x20
  {
  }

  lemma ReservedOfSum(control: U64, high: nat, mid: nat, code: U16)
    requires high < 0x1_0000 && mid < 0x8000
    requires control == high * 0x1_0000_0000 + mid * 0x2_0000 + code
    ensures ReservedClear(control) <==> mid < 0x400 && high < 0x1000
  {
    var mh, ml := mid / 0x400, mid % 0x400;
    var hh, hl := high / 0x1000, high % 0x1000;
    UpperPart(control, (high * 0x8000 + mid) * 2, code, 0x1_0000);
    UpperPart(control, high * 0x20 + mh, ml * 0x2_0000 + code, 0x800_0000);
    UpperPart(control, hh, hl * 0x1_0000_0000 + mid * 0x2_0000 + code, 0x1000_0000_0000);
    MidField(high, mid);
  }

  lemma HighHalf(varhead: U16, repCount: U16) returns (high: nat)
    ensures high == Or(varhead / 0x8000, repCount) && high < 0x1_0000
    ensures varhead < 0x8000 ==> high == repCount
  {
    high := Or(varhead / 0x8000, repCount);
    OrZero(repCount);
    Pow2Values();
    BitwiseBelow(varhead / 0x8000, repCount, 16);
  }

  lemma SumDecodes(control: U64, high: nat, varhead: U16, code: U16, repCount: U16)
    requires high < 0x1_0000 && (varhead < 0x8000 ==> high == repCount)
    requires control == high * 0x1_0000_0000 + (varhead % 0x8000) * 0x2_0000 + code
    ensures Decodes(control, code, repCount, varhead) <==> repCount < 0x1000 && varhead < 0x400
    ensures StartOf(control) == 0
  {
    FieldsOfSum(control, high, varhead % 0x8000, code);
    ReservedOfSum(control, high, varhead % 0x8000, code);
  }

  /** The fields survive packing exactly when the count fits in 12 bits and the header size in 10;
      the code checks neither. */
  lemma FirstControlDecodes(code: U16, repCount: U16, varhead: U16)
    ensures Decodes(FirstControl(code, repCount, varhead), code, repCount, varhead)
       <==> repCount < 0x1000 && varhead < 0x400
    ensures StartOf(FirstControl(code, repCount, varhead)) == 0
  {
    var high := HighHalf(varhead, repCount);
    FirstControlIsSum(code, repCount, varhead);
    SumDecodes(FirstControl(code, repCount, varhead), high, varhead, code, repCount);
  }

  /** `control &= ~HV_HYPERCALL_REP_START_MASK`. */
  function ClearStart(control: U64): U64 { And(control, 0xf000_ffff_ffff_ffff) }

  lemma ClearMiddle(top: nat, start: nat)
    requires top < 0x10 && start < 0x1000
    ensures And(top * 0x1000 + start, 0xf000) == top * 0x1000
  {
    assert Pow2(12) == 0x1000;
    AndSplit(top, start, 0xf, 0, 12);
    TopBitsKept(top);
  }

  lemma TopBitsKept(top: nat)
    requires top < 0x10
    ensures And(top, 0xf) == top
  {
    assert Pow2(4) == 0x10;
    AndLowMask(top, 4);
  }

  lemma ClearStartIsSum(high: nat, low: nat)
    requires high < 0x1_0000 && low < 0x1_0000_0000_0000
    ensures ClearStart(high * 0x1_0000_0000_0000 + low) == And(high, 0xf000) * 0x1_0000_0000_0000 + low
  {
    Shifts();
    AndSplit(high, low, 0xf000, 0xffff_ffff_ffff, 48);
    LowBitsKept(low);
  }

  lemma LowBitsKept(low: nat)
    requires low < 0x1_0000_0000_0000
    ensures And(low, 0xffff_ffff_ffff) == low
  {
    Shifts();
    LowMaskKeeps(low, 48, 0xffff_ffff_ffff);
  }

  lemma LowMaskKeeps(low: nat, k: nat, mask: nat)
    requires low < Pow2(k) && mask == Pow2(k) - 1
    ensures And(low, mask) == low
  {
    AndLowMask(low, k);
  }

  function NextControl(control: U64, status: U64): U64 {
    Merge(ClearStart(control), RepComp(status) * 0x1_0000_0000_0000)
  }

  lemma NextControlIsSum(control: U64, status: U64)
    requires control < 0x1000_0000_0000_0000
    ensures NextControl(control, status)
         == RepComp(status) * 0x1_0000_0000_0000 + control % 0x1_0000_0000_0000
  {
    Shifts();
    var start, low := control / 0x1_0000_0000_0000, control % 0x1_0000_0000_0000;
    ClearStartIsSum(start, low);
    ClearMiddle(0, start);
    assert ClearStart(control) == low;
    MergeSplits(0, low, RepComp(status), 48);
    OrZero(RepComp(status));
  }

  /** Shifting by less than 48 takes the start field along and leaves its multiples. */
  lemma ShiftBelowStart(control: nat, start: nat, low: nat, p: nat, q: nat)
    requires p >= 1 && p * q == 0x1_0000_0000_0000 && control == start * 0x1_0000_0000_0000 + low
    ensures control / p == start * q + low / p
  {
    var l, r := low / p, low % p;
    assert low == l * p + r;
    Regroup(start, p, q, l);
    DivideUnique(control, p, start * q + l, r);
  }

  lemma Regroup(a: int, p: int, q: int, l: int)
    ensures (a * q + l) * p == a * (p * q) + l * p
  {
  }

  lemma FieldsBelowStart(control: U64, start: nat, low: U64)
    requires start < 0x1000 && low < 0x1_0000_0000_0000 && control == start * 0x1_0000_0000_0000 + low
    ensures CodeOf(control) == CodeOf(low) && VarheadOf(control) == VarheadOf(low)
    ensures CountOf(control) == CountOf(low) && StartOf(control) == start
  {
    ShiftBelowStart(control, start, low, 0x2_0000, 0x8000_0000);
    ShiftBelowStart(control, start, low, 0x1_0000_0000, 0x1_0000);
    UpperPart(control, start, low, 0x1_0000_0000_0000);
    LowBits(control, start, low);
    DropMultiple(start, low / 0x2_0000, 0x400, 0x20_0000);
    DropMultiple(start, low / 0x1_0000_0000, 0x1000, 0x10);
  }

  lemma LowBits(control: nat, start: nat, low: nat)
    requires control == start * 0x1_0000_0000_0000 + low
    ensures control % 0x1_0000 == low % 0x1_0000
  {
  }

  lemma ReservedBelowStart(control: U64, start: nat, low: U64)
    requires start < 0x1000 && low < 0x1_0000_0000_0000 && control == start * 0x1_0000_0000_0000 + low
    ensures ReservedClear(control) <==> ReservedClear(low)
  {
    ShiftBelowStart(control, start, low, 0x1_0000, 0x1_0000_0000);
    ShiftBelowStart(control, start, low, 0x800_0000, 0x20_0000);
    ShiftBelowStart(control, start, low, 0x1000_0000_0000, 0x10);
    UpperPart(control, 0, control, 0x1000_0000_0000_0000);
    UpperPart(low, 0, low, 0x1000_0000_0000_0000);
    DropMultiple(start, low / 0x1_0000, 2, 0x8000_0000);
    DropMultiple(start, low / 0x800_0000, 0x20, 0x1_0000);
    DropMultiple(start, low / 0x1000_0000_0000, 0x10, 1);
  }

  lemma DropMultiple(a: nat, x: nat, d: nat, k: nat)
    requires d >= 1
    ensures a * (d * k) + x >= 0 && (a * (d * k) + x) % d == x % d
  {
    var l, r := x / d, x % d;
    assert x == l * d + r;
    Regroup(a, d, k, l);
    MulBound(0, 0, a, k);
    DivideUnique(a * (d * k) + x, d, a * k + l, r);
  }

  lemma NextControlDecodes(control: U64, status: U64, code: U16, repCount: U16, varhead: U16)
    requires Decodes(control, code, repCount, varhead)
    ensures Decodes(NextControl(control, status), code, repCount, varhead)
    ensures StartOf(NextControl(control, status)) == RepComp(status)
  {
    assert control < 0x1000_0000_0000_0000;
    NextControlIsSum(control, status);
    var start, low := control / 0x1_0000_0000_0000, control % 0x1_0000_0000_0000;
    var next := NextControl(control, status);
    FieldsBelowStart(control, start, low);
    FieldsBelowStart(next, RepComp(status), low);
    ReservedBelowStart(control, start, low);
    ReservedBelowStart(next, RepComp(status), low);
  }

  // ----- runs -----

  /** The hypervisor: the status it answers to the k-th call, which may depend on the control word. */
  type Hypervisor = (nat, U64) -> U64

  datatype Request = Request(hv: Hypervisor, code: U16, repCount: U16, varhead: U16) {
    predicate Fits() { repCount < 0x1000 && varhead < 0x400 }
  }

  /** The control word of call k, if the loop gets that far. */
  function Control(q: Request, k: nat): U64
    decreases k, 0
  {
    if k == 0 then FirstControl(q.code, q.repCount, q.varhead)
    else NextControl(Control(q, k - 1), Status(q, k - 1))
  }

  function Status(q: Request, k: nat): U64
    decreases k, 1
  {
    q.hv(k, Control(q, k))
  }

  /** Call k succeeds but leaves repetitions to do, so the loop goes round again. */
  predicate GoesOn(q: Request, k: nat) { Success(Status(q, k)) && RepComp(Status(q, k)) < q.repCount }

  /** Every control word of a run carries the caller's code, header size and count, and starts where
      the previous call said it had got to. */
  lemma {:induction false} EveryControlDecodes(q: Request, k: nat)
    requires q.Fits()
    ensures Decodes(Control(q, k), q.code, q.repCount, q.varhead)
    ensures StartOf(Control(q, k)) == if k == 0 then 0 else RepComp(Status(q, k - 1))
  {
    if k == 0 {
      FirstControlDecodes(q.code, q.repCount, q.varhead);
    } else {
      EveryControlDecodes(q, k - 1);
      NextControlDecodes(Control(q, k - 1), Status(q, k - 1), q.code, q.repCount, q.varhead);
    }
  }

  /** A successful call completes more repetitions than had been completed before it, or all of them. */
  ghost predicate MakesProgress(q: Request) {
    forall k, control {:trigger q.hv(k, control)} :: Success(q.hv(k, control)) ==>
      RepComp(q.hv(k, control)) > StartOf(control) || RepComp(q.hv(k, control)) >= q.repCount
  }

  lemma CompletedGrows(q: Request, k: nat)
    requires q.Fits() && MakesProgress(q) && GoesOn(q, k)
    ensures StartOf(Control(q, k)) < StartOf(Control(q, k + 1)) < q.repCount
  {
    EveryControlDecodes(q, k + 1);
  }

  lemma FirstCall(q: Request)
    requires q.Fits()
    ensures Control(q, 0) == FirstControl(q.code, q.repCount, q.varhead) && StartOf(Control(q, 0)) == 0
  {
    FirstControlDecodes(q.code, q.repCount, q.varhead);
  }

  /** `hv_do_rep_hypercall`. */
  method DoRepHypercall(q: Request) returns (status: U64, calls: nat)
    requires q.Fits() && MakesProgress(q)
    ensures calls >= 1 && status == Status(q, calls - 1)
    ensures forall k :: 0 <= k < calls - 1 ==> GoesOn(q, k)
    ensures !GoesOn(q, calls - 1)
    ensures Success(status) ==> RepComp(status) >= q.repCount
    ensures AllDoneIfSuccess(status, q.repCount)
    ensures calls <= q.repCount + 1
  {
    var control := FirstControl(q.code, q.repCount, q.varhead);
    FirstCall(q);
    calls := 0;
    ghost var start := StartOf(control);
    while true
      invariant control == Control(q, calls) && start == StartOf(control)
      invariant forall k :: 0 <= k < calls ==> GoesOn(q, k)
      invariant calls <= start <= q.repCount
      decreases q.repCount - start
    {
      status := q.hv(calls, control);
      assert status == Status(q, calls);
      calls := calls + 1;
      if !Success(status) {
        EndOfStatus(status, q.repCount);
        return;
      }
      var repComp := RepComp(status);
      control := NextControl(control, status);
      if repComp >= q.repCount {
        EndOfStatus(status, q.repCount);
        return;
      }
      CompletedGrows(q, calls - 1);
      start := StartOf(control);
    }
  }

  /** Unless the status with its fields shows an error, it reports all repetitions. */
  ghost predicate AllDoneIfSuccess(status: U64, repCount: nat) {
    forall top: nat, reps: nat, mid: nat, code: nat {:trigger StatusWith(top, reps, mid, code)} ::
      FieldsFit(top, reps, mid, code) && status == StatusWith(top, reps, mid, code) ==> code != 0 || reps >= repCount
  }

  lemma EndOfStatus(status: U64, repCount: nat)
    requires Success(status) ==> RepComp(status) >= repCount
    ensures AllDoneIfSuccess(status, repCount)
  {
    forall top: nat, reps: nat, mid: nat, code: nat
      | FieldsFit(top, reps, mid, code) && status == StatusWith(top, reps, mid, code)
      ensures code != 0 || reps >= repCount
    {
      StatusFields(status, top, reps, mid, code);
    }
  }

  /** The loop goes round again exactly after a success that reports fewer repetitions than asked for. */
  lemma GoesOnExactly(q: Request, k: nat, top: nat, reps: nat, mid: nat, code: nat)
    requires FieldsFit(top, reps, mid, code) && Status(q, k) == StatusWith(top, reps, mid, code)
    ensures GoesOn(q, k) <==> code == 0 && reps < q.repCount
  {
    StatusFields(Status(q, k), top, reps, mid, code);
  }

  /** In a run that ends in success every repetition is done by exactly one call: call k does
      those from its start to the number it reports. */
  predicate DoneBy(q: Request, k: nat, rep: nat) {
    StartOf(Control(q, k)) <= rep < RepComp(Status(q, k))
  }

  lemma EachRepetitionOnce(q: Request, calls: nat, rep: nat) returns (k: nat)
    requires q.Fits() && MakesProgress(q) && calls >= 1
    requires forall j :: 0 <= j < calls - 1 ==> GoesOn(q, j)
    requires rep < RepComp(Status(q, calls - 1))
    ensures k < calls && DoneBy(q, k, rep)
    ensures forall j :: 0 <= j < calls && DoneBy(q, j, rep) ==> j == k
  {
    forall j, l | 0 <= j < l < calls
      ensures RepComp(Status(q, j)) <= StartOf(Control(q, l))
    {
      ReportedByThen(q, j, l);
    }
    k := OnceInOrder(q, calls, rep);
  }

  /** No call starts before an earlier one has got to. */
  ghost predicate InOrder(q: Request, calls: nat) {
    forall j, l :: 0 <= j < l < calls ==> RepComp(Status(q, j)) <= StartOf(Control(q, l))
  }

  lemma {:induction false} OnceInOrder(q: Request, calls: nat, rep: nat) returns (k: nat)
    requires q.Fits() && calls >= 1 && InOrder(q, calls) && rep < RepComp(Status(q, calls - 1))
    ensures k < calls && DoneBy(q, k, rep)
    ensures forall j :: 0 <= j < calls && DoneBy(q, j, rep) ==> j == k
    decreases calls
  {
    EveryControlDecodes(q, calls - 1);
    if rep >= StartOf(Control(q, calls - 1)) {
      k := calls - 1;
    } else {
      k := OnceInOrder(q, calls - 1, rep);
    }
  }

  /** Reports never go back during a run. */
  lemma {:induction false} ReportedByThen(q: Request, j: nat, k: nat)
    requires q.Fits() && MakesProgress(q) && j < k
    requires forall i :: 0 <= i < k ==> GoesOn(q, i)
    ensures RepComp(Status(q, j)) <= StartOf(Control(q, k))
  {
    EveryControlDecodes(q, k);
    if j < k - 1 {
      ReportedByThen(q, j, k - 1);
      CompletedGrows(q, k - 1);
    }
  }

  /** Without progress the loop need not end: a hypervisor that always succeeds and reports the
      same number, below the count, keeps it going for ever. */
  lemma NoProgressNoEnd(q: Request, status: U64, k: nat)
    requires q.hv == ((i, control) => status)
    requires Success(status) && RepComp(status) < q.repCount
    ensures GoesOn(q, k)
  {
  }

  /** A count that does not fit in 12 bits is never reached: every success goes round again. */
  lemma TooManyNeverFinish(q: Request, k: nat)
    requires q.repCount >= 0x1000 && Success(Status(q, k))
    ensures GoesOn(q, k)
  {
  }
}
