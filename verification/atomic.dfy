/** Atomic operations built from compare-and-exchange loops (asm-generic/atomic.h, the SMP
    branch), interleaved in every possible way. A C `int` is its 32 bits, read as a number
    below 2^32: addition and subtraction wrap, `&`, `|` and `^` are bitwise. */
module AtomicOps {
  import opened Words
  import opened Threads

  datatype Op = Add | Sub | And | Or | Xor

  /** `c c_op i`: also the whole body of the uniprocessor branch. */
  function Apply(op: Op, c: U32, i: U32): U32 {
    BitwiseOfWords(c, i);
    match op
    case Add => Wrap32(c + i)
    case Sub => Wrap32(c - i + TWO32)
    case And => Words.And(c, i)
    case Or => Words.Or(c, i)
    case Xor => Words.Xor(c, i)
  }

  /** What an operation makes of the counter, without naming the operations: sums modulo 2^32, and the
      others bit by bit. */
  ghost predicate Made(op: Op, before: U32, i: U32, after: U32) {
    && (op.Add? ==> after == (before + i) % 0x1_0000_0000)
    && (op.Sub? ==> after == (before - i) % 0x1_0000_0000)
    && (op.And? ==> forall k :: 0 <= k < 32 ==> (TestBit(after, k) <==> TestBit(before, k) && TestBit(i, k)))
    && (op.Or? ==> forall k :: 0 <= k < 32 ==> (TestBit(after, k) <==> TestBit(before, k) || TestBit(i, k)))
    && (op.Xor? ==> forall k :: 0 <= k < 32 ==> (TestBit(after, k) <==> TestBit(before, k) != TestBit(i, k)))
  }

  lemma ApplyMakes(op: Op, before: U32, i: U32)
    ensures Made(op, before, i, Apply(op, before, i))
  {
    match op
    case Add =>
    case Sub => WrapShift(before - i + TWO32, 1);
    case And =>
      forall k: nat | k < 32
        ensures TestBit(Apply(op, before, i), k) <==> TestBit(before, k) && TestBit(i, k)
      {
        AndBit(before, i, k);
      }
    case Or =>
      forall k: nat | k < 32
        ensures TestBit(Apply(op, before, i), k) <==> TestBit(before, k) || TestBit(i, k)
      {
        OrBit(before, i, k);
      }
    case Xor =>
      forall k: nat | k < 32
        ensures TestBit(Apply(op, before, i), k) <==> TestBit(before, k) != TestBit(i, k)
      {
        XorBit(before, i, k);
      }
  }

  /** The three macro families: no result, the value after, the value before. */
  datatype Kind = Plain | Return | Fetch

  /** The result of an operation that found `before` in the counter. */
  function ResultOf(kind: Kind, op: Op, before: U32, i: U32): U32 {
    match kind
    case Plain => 0
    case Return => Apply(op, before, i)
    case Fetch => before
  }

  /** One atomic cell; each method is one access. */
  class Cell {
    var counter: U32

    constructor (initial: U32)
      ensures counter == initial
    {
      counter := initial;
    }

    /** `arch_cmpxchg`: returns what it found, and stores only if that was expected. */
    method CompareExchange(expected: U32, desired: U32) returns (found: U32)
      modifies this
      ensures found == old(counter)
      ensures counter == if found == expected then desired else old(counter)
    {
      found := counter;
      if found == expected {
        counter := desired;
      }
    }

    /** The loop while other threads store to the cell: `others[k]` is what they leave there
        by the k-th exchange, until they stop. Whatever they do, the operation is applied once,
        to the value the last of their stores left, and its result is the one for that value. */
    method Perform(kind: Kind, op: Op, i: U32, others: seq<U32>) returns (result: U32, used: nat)
      modifies this
      ensures used <= |others|
      ensures var before := if used == 0 then old(counter) else others[used - 1];
        && Made(op, before, i, counter)
        && (kind.Return? ==> result == counter) && (kind.Fetch? ==> result == before)
        && counter == Apply(op, before, i)
      ensures used < |others| ==> used >= 1
      ensures used < |others| ==> others[used - 1] == if used < 2 then old(counter) else others[used - 2]
    {
      var c := counter;
      used := 0;
      if used < |others| {
        counter := others[used];
        used := used + 1;
      }
      var found := CompareExchange(c, Apply(op, c, i));
      while found != c
        invariant used <= |others| && (used == 0 ==> |others| == 0)
        invariant found == if used == 0 then old(counter) else others[used - 1]
        invariant counter == if found == c then Apply(op, c, i) else found
        invariant used < |others| ==> c == if used < 2 then old(counter) else others[used - 2]
        decreases |others| - used, if found != c then 1 else 0
      {
        c := found;
        if used < |others| {
          counter := others[used];
          used := used + 1;
        }
        found := CompareExchange(c, Apply(op, c, i));
      }
      result := ResultOf(kind, op, c, i);
      ApplyMakes(op, c, i);
    }
  }

  // ----- interleavings -----

  /** A successful exchange: whose, what it did, and the values around it. */
  datatype Effect = Effect(tid: Tid, op: Op, i: U32, before: U32, after: U32)

  /** Between calls a thread remembers its last result and the index of that call's effect; in
      a call it carries the value it read and how many effects preceded that read. Both indices
      are history: no step looks at them. */
  datatype Pc =
    | Idle
    | Looping(kind: Kind, op: Op, i: U32, c: U32, readAt: nat)
    | Finished(kind: Kind, op: Op, i: U32, result: U32, effectAt: nat)

  datatype System = System(counter: U32, pcs: map<Tid, Pc>, effects: seq<Effect>)

  datatype Access = Call(kind: Kind, op: Op, i: U32) | Exchange

  function Init(threads: set<Tid>, initial: U32): System {
    System(initial, map t | t in threads :: Idle, [])
  }

  /** Thread t performs one access: the first read of a call, or an exchange. */
  function Do(s: System, t: Tid, a: Access): System {
    if t !in s.pcs then s else
    match a
    case Call(kind, op, i) =>
      if s.pcs[t].Looping? then s
      else s.(pcs := s.pcs[t := Looping(kind, op, i, s.counter, |s.effects|)])
    case Exchange =>
      if !s.pcs[t].Looping? then s
      else
        var Looping(kind, op, i, c, _) := s.pcs[t];
        if s.counter == c then
          System(Apply(op, c, i),
                 s.pcs[t := Finished(kind, op, i, ResultOf(kind, op, c, i), |s.effects|)],
                 s.effects + [Effect(t, op, i, c, Apply(op, c, i))])
        else
          s.(pcs := s.pcs[t := Looping(kind, op, i, s.counter, |s.effects|)])
  }

  type Schedule = seq<(Tid, Access)>

  function Run(s: System, schedule: Schedule): System
    decreases |schedule|
  {
    if schedule == [] then s
    else
      var last := |schedule| - 1;
      Do(Run(s, schedule[..last]), schedule[last].0, schedule[last].1)
  }

  /** The cell with its threads, as code: the first read of a call reads the cell, every exchange
      is its compare-and-exchange. */
  class Machine {
    const cell: Cell
    var pcs: map<Tid, Pc>
    ghost var effects: seq<Effect>

    constructor (threads: set<Tid>, initial: U32)
      ensures State() == Init(threads, initial) && fresh(cell)
    {
      cell := new Cell(initial);
      pcs := map t | t in threads :: Idle;
      effects := [];
    }

    ghost function State(): System
      reads this, cell
    {
      System(cell.counter, pcs, effects)
    }

    /** One access of thread t does to the cell and the thread what the state machine says. The
        indices into the history are ghost parts of it, so they come in as an argument. */
    method Step(t: Tid, a: Access, now: nat)
      requires now == |effects|
      modifies this, cell
      ensures State() == Do(old(State()), t, a)
    {
      if t !in pcs {
        return;
      }
      if a.Call? {
        if !pcs[t].Looping? {
          pcs := pcs[t := Looping(a.kind, a.op, a.i, cell.counter, now)];
        }
      } else if pcs[t].Looping? {
        var Looping(kind, op, i, c, _) := pcs[t];
        var found := cell.CompareExchange(c, Apply(op, c, i));
        if found == c {
          pcs := pcs[t := Finished(kind, op, i, ResultOf(kind, op, c, i), now)];
          effects := effects + [Effect(t, op, i, c, Apply(op, c, i))];
        } else {
          pcs := pcs[t := Looping(kind, op, i, found, now)];
        }
      }
    }
  }

  // ----- linearization -----

  /** The counter after running the effects one by one, uninterrupted. */
  function Sequential(initial: U32, effects: seq<Effect>): U32 {
    if effects == [] then initial
    else
      var last := effects[|effects| - 1];
      Apply(last.op, Sequential(initial, effects[..|effects| - 1]), last.i)
  }

  /** Every recorded effect found what the ones before it left, and did what its operation says. */
  ghost predicate Linear(initial: U32, effects: seq<Effect>) {
    forall k :: 0 <= k < |effects| ==>
      && effects[k].before == Sequential(initial, effects[..k])
      && effects[k].after == Apply(effects[k].op, effects[k].before, effects[k].i)
  }

  ghost predicate Inv(s: System, initial: U32) {
    && s.counter == Sequential(initial, s.effects)
    && Linear(initial, s.effects)
    && (forall t :: t in s.pcs ==> PcInv(s, initial, t))
  }

  /** A looping thread holds the value of the moment it read and has had no effect since; a
      finished one returned the value before or after its own effect. */
  ghost predicate PcInv(s: System, initial: U32, t: Tid)
    requires t in s.pcs
  {
    match s.pcs[t]
    case Idle => true
    case Looping(kind, op, i, c, readAt) =>
      && readAt <= |s.effects|
      && c == Sequential(initial, s.effects[..readAt])
      && (forall k :: readAt <= k < |s.effects| ==> s.effects[k].tid != t)
    case Finished(kind, op, i, result, effectAt) =>
      && effectAt < |s.effects|
      && s.effects[effectAt].tid == t && s.effects[effectAt].op == op && s.effects[effectAt].i == i
      && result == ResultOf(kind, op, s.effects[effectAt].before, i)
      && (forall k :: effectAt < k < |s.effects| ==> s.effects[k].tid != t)
  }

  lemma StepKeepsInv(s: System, initial: U32, t: Tid, a: Access)
    requires Inv(s, initial)
    ensures Inv(Do(s, t, a), initial) && Do(s, t, a).pcs.Keys == s.pcs.Keys
  {
    if t in s.pcs {
      if a.Call? && !s.pcs[t].Looping? {
        ReadKeepsInv(s, initial, t, a.kind, a.op, a.i);
      } else if a.Exchange? && s.pcs[t].Looping? {
        var pc := s.pcs[t];
        if s.counter == pc.c {
          EffectKeepsInv(s, initial, t);
        } else {
          ReadKeepsInv(s, initial, t, pc.kind, pc.op, pc.i);
        }
      }
    }
  }

  /** Reading the counter, at the start of a call or after a failed exchange. */
  lemma ReadKeepsInv(s: System, initial: U32, t: Tid, kind: Kind, op: Op, i: U32)
    requires Inv(s, initial) && t in s.pcs
    ensures Inv(s.(pcs := s.pcs[t := Looping(kind, op, i, s.counter, |s.effects|)]), initial)
  {
    var s' := s.(pcs := s.pcs[t := Looping(kind, op, i, s.counter, |s.effects|)]);
    assert s.effects[..|s.effects|] == s.effects;
    forall u | u in s'.pcs ensures PcInv(s', initial, u) {
      if u != t { assert PcInv(s, initial, u); }
    }
  }

  /** A successful exchange. */
  lemma EffectKeepsInv(s: System, initial: U32, t: Tid)
    requires Inv(s, initial) && t in s.pcs && s.pcs[t].Looping? && s.counter == s.pcs[t].c
    ensures Inv(Do(s, t, Exchange), initial)
  {
    var s' := Do(s, t, Exchange);
    assert s'.effects[..|s.effects|] == s.effects;
    assert PcInv(s, initial, t);
    LinearGrows(initial, s.effects, s'.effects[|s.effects|]);
    forall u | u in s'.pcs ensures PcInv(s', initial, u) {
      if u != t { OthersKeepInv(s, s', initial, u); }
    }
  }

  lemma LinearGrows(initial: U32, effects: seq<Effect>, e: Effect)
    requires Linear(initial, effects)
    requires e.before == Sequential(initial, effects) && e.after == Apply(e.op, e.before, e.i)
    ensures Linear(initial, effects + [e])
    ensures Sequential(initial, effects + [e]) == e.after
  {
    var effects' := effects + [e];
    PrefixesKept(effects, effects');
    assert effects'[..|effects|] == effects;
  }

  lemma OthersKeepInv(s: System, s': System, initial: U32, u: Tid)
    requires u in s.pcs && PcInv(s, initial, u) && u in s'.pcs && s'.pcs[u] == s.pcs[u]
    requires |s'.effects| == |s.effects| + 1 && s'.effects[..|s.effects|] == s.effects
    requires s'.effects[|s.effects|].tid != u
    ensures PcInv(s', initial, u)
  {
    PrefixesKept(s.effects, s'.effects);
  }

  lemma PrefixesKept<T>(a: seq<T>, b: seq<T>)
    requires a <= b
    ensures forall k :: 0 <= k <= |a| ==> b[..k] == a[..k]
  {
  }

  /** Every interleaving is linearizable: the counter and all results are those of the calls run
      one after another, each at its successful exchange. */
  lemma {:induction false} RunIsLinearizable(threads: set<Tid>, initial: U32, schedule: Schedule)
    ensures var s := Run(Init(threads, initial), schedule);
      Inv(s, initial) && s.pcs.Keys == threads
  {
    if schedule != [] {
      var last := |schedule| - 1;
      RunIsLinearizable(threads, initial, schedule[..last]);
      StepKeepsInv(Run(Init(threads, initial), schedule[..last]), initial,
                   schedule[last].0, schedule[last].1);
    }
  }

  /** A call takes effect exactly once, when it finishes: a step changes the counter's history
      exactly when it finishes a call, by one effect, of that thread and that call. */
  lemma EffectExactlyAtFinish(s: System, t: Tid, a: Access)
    ensures var s' := Do(s, t, a);
      var finishes := t in s.pcs && s.pcs[t].Looping? && s'.pcs[t].Finished?;
      && (!finishes ==> s'.counter == s.counter && s'.effects == s.effects)
      && (finishes ==>
            && |s'.effects| == |s.effects| + 1 && s.effects == s'.effects[..|s.effects|]
            && s'.pcs[t].effectAt == |s.effects|
            && s'.effects[|s.effects|] == Effect(t, s.pcs[t].op, s.pcs[t].i, s.counter, s'.counter))
  {
  }

  /** An exchange fails only because another thread's call took effect after the last read; so
      whenever somebody retries, somebody else has finished. */
  lemma RetryMeansInterference(s: System, initial: U32, t: Tid)
    requires Inv(s, initial) && t in s.pcs && s.pcs[t].Looping?
    requires Do(s, t, Exchange).pcs[t].Looping?
    ensures s.pcs[t].readAt < |s.effects|
    ensures s.effects[s.pcs[t].readAt].tid != t
  {
    assert PcInv(s, initial, t);
    assert s.effects[..|s.effects|] == s.effects;
  }

  /** Every effect in the history of any schedule made of the counter what its operation should. */
  lemma EffectsMake(threads: set<Tid>, initial: U32, schedule: Schedule)
    ensures forall e :: e in Run(Init(threads, initial), schedule).effects ==> Made(e.op, e.before, e.i, e.after)
  {
    RunIsLinearizable(threads, initial, schedule);
    var s := Run(Init(threads, initial), schedule);
    forall k | 0 <= k < |s.effects|
      ensures Made(s.effects[k].op, s.effects[k].before, s.effects[k].i, s.effects[k].after)
    {
      ApplyMakes(s.effects[k].op, s.effects[k].before, s.effects[k].i);
    }
  }

  /** And every finished call returned the value before its effect, or the one after. */
  lemma ResultsOfEffects(threads: set<Tid>, initial: U32, schedule: Schedule, t: Tid)
    ensures var s := Run(Init(threads, initial), schedule);
      t in s.pcs && s.pcs[t].Finished? ==>
        && s.pcs[t].effectAt < |s.effects| && s.effects[s.pcs[t].effectAt].tid == t
        && var e := s.effects[s.pcs[t].effectAt];
           && (s.pcs[t].kind.Return? ==> s.pcs[t].result == e.after)
           && (s.pcs[t].kind.Fetch? ==> s.pcs[t].result == e.before)
  {
    RunIsLinearizable(threads, initial, schedule);
    var s := Run(Init(threads, initial), schedule);
    if t in s.pcs { assert PcInv(s, initial, t); }
  }

  /** A call with no other access between its read and its exchange finishes at once. */
  lemma UndisturbedCall(s: System, t: Tid, kind: Kind, op: Op, i: U32)
    requires t in s.pcs && !s.pcs[t].Looping?
    ensures var u := Do(Do(s, t, Call(kind, op, i)), t, Exchange);
      && u.pcs[t].Finished? && Made(op, s.counter, i, u.counter)
      && (kind.Return? ==> u.pcs[t].result == u.counter) && (kind.Fetch? ==> u.pcs[t].result == s.counter)
      && u.effects == s.effects + [Effect(t, op, i, s.counter, u.counter)]
  {
    ApplyMakes(op, s.counter, i);
  }

  // ----- counting -----

  predicate Counts(op: Op) { op == Add || op == Sub }

  /** What an effect adds to the counter: its operand, negated for a subtraction. */
  function Delta(e: Effect): int { if e.op == Sub then 0 - (e.i as int) else e.i }

  function TotalDelta(effects: seq<Effect>): int {
    if effects == [] then 0
    else TotalDelta(effects[..|effects| - 1]) + Delta(effects[|effects| - 1])
  }

  lemma {:induction false} SequentialSum(initial: U32, effects: seq<Effect>)
    requires forall e :: e in effects ==> Counts(e.op)
    ensures Sequential(initial, effects) == Wrap32(initial + TotalDelta(effects))
  {
    if effects != [] {
      var k := |effects| - 1;
      SequentialSum(initial, effects[..k]);
      assert effects[k] in effects;
      var before, total := Sequential(initial, effects[..k]), TotalDelta(effects[..k]);
      assert Sequential(initial, effects) == Apply(effects[k].op, before, effects[k].i);
      assert TotalDelta(effects) == total + Delta(effects[k]);
      OneMore(effects[k], initial + total);
    }
  }

  lemma OneMore(e: Effect, total: int)
    requires Counts(e.op)
    ensures Apply(e.op, Wrap32(total), e.i) == Wrap32(total + Delta(e))
  {
    WrapMoves(total, e.i);
  }

  lemma WrapMoves(total: int, i: int)
    ensures Wrap32(Wrap32(total) + i) == Wrap32(total + i)
    ensures Wrap32(Wrap32(total) - i + TWO32) == Wrap32(total - i)
  {
    WrapOfSum(total, i);
    WrapOfSum(total, TWO32 - i);
    WrapShift(total - i + TWO32, 1);
  }

  /** While only additions and subtractions run, nothing is lost: the counter is its initial
      value plus every finished operand, modulo 2^32, whatever the interleaving. */
  lemma NothingLost(threads: set<Tid>, initial: U32, schedule: Schedule)
    requires forall k :: 0 <= k < |schedule| && schedule[k].1.Call? ==> Counts(schedule[k].1.op)
    ensures var s := Run(Init(threads, initial), schedule);
      s.counter == Wrap32(initial + TotalDelta(s.effects))
  {
    RunIsLinearizable(threads, initial, schedule);
    OnlyCounting(threads, initial, schedule);
    LinearCountIsSum(Run(Init(threads, initial), schedule), initial);
  }

  lemma LinearCountIsSum(s: System, initial: U32)
    requires s.counter == Sequential(initial, s.effects) && CountsOnly(s)
    ensures s.counter == Wrap32(initial + TotalDelta(s.effects))
  {
    SequentialSum(initial, s.effects);
  }

  lemma {:induction false} OnlyCounting(threads: set<Tid>, initial: U32, schedule: Schedule)
    requires forall k :: 0 <= k < |schedule| && schedule[k].1.Call? ==> Counts(schedule[k].1.op)
    ensures var s := Run(Init(threads, initial), schedule);
      CountsOnly(s)
  {
    if schedule != [] {
      var last := |schedule| - 1;
      OnlyCounting(threads, initial, schedule[..last]);
      assert schedule[last].1.Call? ==> Counts(schedule[last].1.op);
      StepCounts(Run(Init(threads, initial), schedule[..last]), schedule[last].0, schedule[last].1);
    }
  }

  ghost predicate CountsOnly(s: System) {
    && (forall e :: e in s.effects ==> Counts(e.op))
    && (forall t :: t in s.pcs && s.pcs[t].Looping? ==> Counts(s.pcs[t].op))
  }

  lemma StepCounts(s: System, t: Tid, a: Access)
    requires CountsOnly(s) && (a.Call? ==> Counts(a.op))
    ensures CountsOnly(Do(s, t, a))
  {
  }
}
