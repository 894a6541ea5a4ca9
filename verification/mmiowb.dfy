/** The per-CPU tracking of I/O writes under spinlocks (asm-generic/mmiowb.h): a write made while a
    lock is held must be followed by a barrier before that lock is let go. */
module Mmiowb {
  import opened Words

  datatype State = State(nesting: U16, pending: U16)

  class MmiowbState {
    var nesting: U16
    var pending: U16
    /** Barriers issued. */
    var barriers: nat

    constructor ()
      ensures nesting == 0 && pending == 0 && barriers == 0
    {
      nesting, pending, barriers := 0, 0, 0;
    }

    ghost function Fields(): State
      reads this
    {
      State(nesting, pending)
    }

    method SetPending()
      modifies this`pending
      ensures Fields() == AfterWrite(old(Fields()))
    {
      if nesting != 0 {
        pending := nesting;
      }
    }

    method SpinLock()
      modifies this`nesting
      ensures Fields() == AfterLock(old(Fields()))
    {
      var n: int := nesting;
      nesting := (n + 1) % TWO16;
    }

    method SpinUnlock()
      modifies this
      ensures Fields() == AfterUnlock(old(Fields()))
      ensures barriers == old(barriers) + if old(pending) != 0 then 1 else 0
    {
      if pending != 0 {
        pending := 0;
        barriers := barriers + 1;
      }
      var n: int := nesting;
      nesting := (n - 1) % TWO16;
    }
  }

  function AfterWrite(s: State): State { if s.nesting != 0 then s.(pending := s.nesting) else s }

  function AfterLock(s: State): State { var n: int := s.nesting; s.(nesting := (n + 1) % TWO16) }

  function AfterUnlock(s: State): State { var n: int := s.nesting; State((n - 1) % TWO16, 0) }

  // ----- runs -----

  datatype Op = Lock | Unlock | Write

  /** The fields together with what they stand for: how many locks are held, and whether some write
      made under a lock has no barrier after it yet. */
  datatype System = System(s: State, depth: nat, unordered: bool)

  function Do(y: System, op: Op): System
    requires op.Unlock? ==> y.depth > 0
  {
    match op
    case Lock => System(AfterLock(y.s), y.depth + 1, y.unordered)
    case Unlock => System(AfterUnlock(y.s), y.depth - 1, y.unordered && y.s.pending == 0)
    case Write => System(AfterWrite(y.s), y.depth, y.unordered || y.depth > 0)
  }

  function Cleared(): State { State(0, 0) }

  /** A processor with its fields. A write needs no barrier any more once one has been issued. */
  class Processor {
    const mmiowb: MmiowbState
    ghost var depth: nat
    ghost var unordered: bool

    ghost function State(): System
      reads this, mmiowb
    {
      System(mmiowb.Fields(), depth, unordered)
    }

    constructor ()
      ensures fresh(mmiowb) && State() == System(Cleared(), 0, false)
    {
      mmiowb := new MmiowbState();
      depth, unordered := 0, false;
    }

    method Step(op: Op)
      requires op.Unlock? ==> depth > 0
      modifies this, mmiowb
      ensures State() == Do(old(State()), op)
    {
      match op {
        case Lock =>
          mmiowb.SpinLock();
          depth := depth + 1;
        case Unlock =>
          ghost var barriers := mmiowb.barriers;
          mmiowb.SpinUnlock();
          depth, unordered := depth - 1, unordered && mmiowb.barriers == barriers;
        case Write =>
          mmiowb.SetPending();
          unordered := unordered || depth > 0;
      }
    }
  }

  /** Locks held after a run. */
  function Depth(ops: seq<Op>): int {
    if |ops| == 0 then 0
    else Depth(ops[..|ops| - 1]) + match ops[|ops| - 1] { case Lock => 1 case Unlock => -1 case Write => 0 }
  }

  /** Every unlock has a lock, and never more than limit locks are held. */
  predicate Balanced(ops: seq<Op>, limit: nat) { forall i :: 0 <= i <= |ops| ==> 0 <= Depth(ops[..i]) <= limit }

  lemma BalancedPrefix(ops: seq<Op>, limit: nat)
    requires Balanced(ops, limit) && |ops| > 0
    ensures Balanced(ops[..|ops| - 1], limit) && 0 <= Depth(ops[..|ops| - 1]) <= limit && 0 <= Depth(ops) <= limit
  {
    var before := ops[..|ops| - 1];
    forall i | 0 <= i <= |before|
      ensures before[..i] == ops[..i]
    {
    }
    assert ops[..|ops|] == ops;
  }

  function Run(ops: seq<Op>, limit: nat): (y: System)
    requires Balanced(ops, limit)
    ensures y.depth == Depth(ops)
  {
    if |ops| == 0 then System(State(0, 0), 0, false)
    else
      BalancedPrefix(ops, limit);
      Do(Run(ops[..|ops| - 1], limit), ops[|ops| - 1])
  }

  /** As long as at most 65535 locks nest: the counter is the depth, and a barrier is pending exactly
      when some write still needs one. */
  lemma {:induction false} RunKeepsInv(ops: seq<Op>, limit: nat)
    requires Balanced(ops, limit) && limit < TWO16
    ensures var y := Run(ops, limit);
      y.s.nesting == y.depth && (y.s.pending != 0 <==> y.unordered) && (y.unordered ==> y.depth > 0)
  {
    if |ops| > 0 {
      BalancedPrefix(ops, limit);
      RunKeepsInv(ops[..|ops| - 1], limit);
      var y := Run(ops[..|ops| - 1], limit);
      assert Run(ops, limit) == Do(y, ops[|ops| - 1]);
    }
  }

  /** In such a run every unlock leaves all writes ordered, and it issues its barrier only if one was
      not. */
  lemma UnlockOrdersWrites(ops: seq<Op>, limit: nat)
    requires Balanced(ops, limit) && limit < TWO16 && |ops| > 0 && ops[|ops| - 1] == Unlock
    ensures Balanced(ops[..|ops| - 1], limit)
    ensures !Run(ops, limit).unordered
    ensures Run(ops[..|ops| - 1], limit).s.pending != 0 <==> Run(ops[..|ops| - 1], limit).unordered
  {
    BalancedPrefix(ops, limit);
    RunKeepsInv(ops, limit);
    RunKeepsInv(ops[..|ops| - 1], limit);
    var y := Run(ops[..|ops| - 1], limit);
    assert Run(ops, limit) == Do(y, Unlock);
  }

  function Locks(n: nat): seq<Op> { seq(n, _ => Lock) }

  /** The counter after n locks from nothing. */
  lemma {:induction false} NestedLocks(n: nat)
    ensures Depth(Locks(n)) == n && Balanced(Locks(n), n)
    ensures Run(Locks(n), n) == System(State(n % TWO16, 0), n, false)
  {
    if n > 0 {
      NestedLocks(n - 1);
      var ops := Locks(n - 1);
      assert Locks(n) == ops + [Lock];
      assert (ops + [Lock])[..n - 1] == ops;
      BalancedMore(ops, Lock, n);
      SameRun(ops, n - 1, n);
      OneMoreLock(Run(ops, n), n - 1);
    }
  }

  lemma OneMoreLock(y: System, n: nat)
    requires y == System(State(n % TWO16, 0), n, false)
    ensures Do(y, Lock) == System(State((n + 1) % TWO16, 0), n + 1, false)
  {
  }

  lemma {:induction false} SameRun(ops: seq<Op>, l: nat, m: nat)
    requires Balanced(ops, l) && Balanced(ops, m)
    ensures Run(ops, l) == Run(ops, m)
  {
    if |ops| > 0 {
      BalancedPrefix(ops, l);
      BalancedPrefix(ops, m);
      SameRun(ops[..|ops| - 1], l, m);
    }
  }

  ghost predicate OrdersAll(limit: nat) {
    forall ops: seq<Op> :: Balanced(ops, limit) && |ops| > 0 && ops[|ops| - 1] == Unlock ==> !Run(ops, limit).unordered
  }

  lemma BalancedMore(ops: seq<Op>, op: Op, limit: nat)
    requires Balanced(ops, limit) && 0 <= Depth(ops + [op]) <= limit
    ensures Balanced(ops + [op], limit)
    ensures (ops + [op])[..|ops|] == ops
  {
    var more := ops + [op];
    forall i | 0 <= i <= |more|
      ensures 0 <= Depth(more[..i]) <= limit
    {
      if i <= |ops| {
        assert more[..i] == ops[..i];
      } else {
        assert more[..i] == more;
      }
    }
  }

  /** n locks, a write and an unlock. */
  function WriteAt(n: nat): seq<Op> { Locks(n) + [Write] + [Unlock] }

  /** The write is ordered exactly when the 16-bit counter has not gone round to zero. */
  lemma WriteAtDepth(n: nat, limit: nat)
    requires 0 < n <= limit
    ensures Balanced(WriteAt(n), limit)
    ensures Run(WriteAt(n), limit).unordered <==> n % TWO16 == 0
  {
    NestedLocks(n);
    var ops, written := Locks(n), Locks(n) + [Write];
    SameRun(ops, n, limit);
    assert written[..n] == ops && WriteAt(n)[..n + 1] == written;
    assert Depth(written) == n && Depth(WriteAt(n)) == n - 1;
    BalancedMore(ops, Write, limit);
    BalancedMore(written, Unlock, limit);
    assert Run(written, limit) == Do(Run(ops, limit), Write);
    assert Run(WriteAt(n), limit) == Do(Run(written, limit), Unlock);
  }

  /** Unlocks order all writes in every run exactly when fewer than 2^16 locks can nest. */
  lemma SafeExactlyBelow65536(limit: nat)
    ensures OrdersAll(limit) <==> limit < TWO16
  {
    if limit < TWO16 {
      forall ops: seq<Op> | Balanced(ops, limit) && |ops| > 0 && ops[|ops| - 1] == Unlock
        ensures !Run(ops, limit).unordered
      {
        UnlockOrdersWrites(ops, limit);
      }
    } else {
      WriteAtDepth(TWO16, limit);
      assert !OrdersAll(limit) by {
        var ops := WriteAt(TWO16);
        assert Balanced(ops, limit) && |ops| > 0 && ops[|ops| - 1] == Unlock;
      }
    }
  }
}
