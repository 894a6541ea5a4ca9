/** The ticket spinlock (asm-generic/spinlock.h): one 32-bit word holding the next ticket in
    its high half and the ticket being served in its low half. The first part gives each
    atomic access to the word; the second runs them, interleaved in every possible way, over
    any set of threads with sequentially consistent memory. */
module TicketLock {
  import opened Words
  import opened Threads

  // ----- the lock word -----

  function NextTicket(word: U32): U16 { word / TWO16 }

  function Serving(word: U32): U16 { word % TWO16 }

  /** `atomic_fetch_add(1 << 16, lock)`: the new word. */
  function TakeTicket(word: U32): U32 { Wrap32(word + TWO16) }

  /** The 16-bit store of `val + 1` over the low half. */
  function ServeAfter(word: U32, val: U32): U32 { NextTicket(word) * TWO16 + (Serving(val) + 1) % TWO16 }

  /** `arch_spin_value_unlocked`. */
  predicate ValueUnlocked(word: U32) { NextTicket(word) == Serving(word) }

  function AsSigned16(x: int): int {
    var y := x % TWO16;
    if y >= 0x8000 then y - TWO16 else y
  }

  /** The test of `arch_spin_is_contended`. */
  predicate IsContended(word: U32) { AsSigned16(NextTicket(word) - Serving(word)) > 1 }

  /** The lock as an object; each method is one atomic access of the C functions. */
  class SpinLock {
    var counter: U32

    constructor ()
      ensures counter == 0
    {
      counter := 0;
    }

    /** Entry of `arch_spin_lock`: draws a ticket; granted at once if it is being served. */
    method Lock() returns (ticket: U16, granted: bool)
      modifies this
      ensures counter == TakeTicket(old(counter))
      ensures ticket == NextTicket(old(counter)) && (granted <==> ValueUnlocked(old(counter)))
    {
      var val := counter;
      counter := Wrap32(counter + TWO16);
      ticket := val / TWO16;
      granted := ticket == val % TWO16;
    }

    /** One turn of the wait in `arch_spin_lock`. */
    method Spin(ticket: U16) returns (granted: bool)
      ensures granted <==> ticket == Serving(counter)
    {
      granted := ticket == counter % TWO16;
    }

    /** `arch_spin_trylock` before its exchange. */
    method TryRead() returns (old_: U32, free: bool)
      ensures old_ == counter && (free <==> ValueUnlocked(counter))
    {
      old_ := counter;
      free := old_ / TWO16 == old_ % TWO16;
    }

    /** The compare-and-exchange of `arch_spin_trylock`. */
    method TryExchange(expected: U32) returns (ok: bool)
      modifies this
      ensures ok <==> old(counter) == expected
      ensures counter == if ok then TakeTicket(expected) else old(counter)
    {
      ok := counter == expected;
      if ok {
        counter := Wrap32(expected + TWO16);
      }
    }

    /** The plain read in `arch_spin_unlock`. */
    method UnlockRead() returns (val: U32)
      ensures val == counter
    {
      val := counter;
    }

    /** The release store of `arch_spin_unlock`: only the low half changes. */
    method UnlockStore(val: U32)
      modifies this
      ensures counter == ServeAfter(old(counter), val)
      ensures NextTicket(counter) == NextTicket(old(counter))
    {
      counter := counter - counter % TWO16 + (val % TWO16 + 1) % TWO16;
    }
  }

  // ----- interleavings -----

  /** Where a thread is: what it keeps between two of its atomic accesses. */
  datatype Pc =
    | Idle
    | Spinning(ticket: U16)
    | Trying(expected: U32)
    | Holding
    | Releasing(val: U32)
  {
    predicate InQueue() { Spinning? || Holding? || Releasing? }
    predicate Owns() { Holding? || Releasing? }
  }

  /** The lock word and the threads, with the history that the properties speak of: who drew a
      ticket and who was granted the lock, in order, and how many releases were stored. No step
      looks at the history. */
  datatype System = System(word: U32, pcs: map<Tid, Pc>,
                           drawn: seq<Tid>, granted: seq<Tid>, released: nat)

  datatype Access = Lock | Spin | TryRead | TryExchange | UnlockRead | UnlockStore

  function Init(threads: set<Tid>): System {
    System(0, map t | t in threads :: Idle, [], [], 0)
  }

  /** Thread t performs one access; one it cannot perform now changes nothing. A thread locks
      only when idle and unlocks only what it holds. */
  function Do(s: System, t: Tid, a: Access): System {
    if t !in s.pcs then s else
    match (s.pcs[t], a)
    case (Idle, Lock) =>
      if NextTicket(s.word) == Serving(s.word) then
        Enter(Draw(s, t), t)
      else
        Draw(s, t).(pcs := s.pcs[t := Spinning(NextTicket(s.word))])
    case (Spinning(ticket), Spin) =>
      if ticket == Serving(s.word) then Enter(s, t) else s
    case (Idle, TryRead) =>
      if NextTicket(s.word) == Serving(s.word) then s.(pcs := s.pcs[t := Trying(s.word)]) else s
    case (Trying(expected), TryExchange) =>
      if s.word == expected then Enter(Draw(s, t), t) else s.(pcs := s.pcs[t := Idle])
    case (Holding, UnlockRead) =>
      s.(pcs := s.pcs[t := Releasing(s.word)])
    case (Releasing(val), UnlockStore) =>
      s.(word := ServeAfter(s.word, val), pcs := s.pcs[t := Idle], released := s.released + 1)
    case _ => s
  }

  function Draw(s: System, t: Tid): System {
    s.(word := TakeTicket(s.word), drawn := s.drawn + [t])
  }

  function Enter(s: System, t: Tid): System {
    s.(pcs := s.pcs[t := Holding], granted := s.granted + [t])
  }

  /** A schedule: which thread performs which access, in order. */
  type Schedule = seq<(Tid, Access)>

  function Run(s: System, schedule: Schedule): System
    decreases |schedule|
  {
    if schedule == [] then s
    else
      var last := |schedule| - 1;
      Do(Run(s, schedule[..last]), schedule[last].0, schedule[last].1)
  }

  /** The lock with its threads, as code: every step is one call of a method of the lock. The
      history is ghost, for no step looks at it. */
  class Machine {
    const lock: SpinLock
    var pcs: map<Tid, Pc>
    ghost var drawn: seq<Tid>
    ghost var granted: seq<Tid>
    ghost var released: nat

    constructor (threads: set<Tid>)
      ensures State() == Init(threads) && fresh(lock)
    {
      lock := new SpinLock();
      pcs := map t | t in threads :: Idle;
      drawn, granted, released := [], [], 0;
    }

    ghost function State(): System
      reads this, lock
    {
      System(lock.counter, pcs, drawn, granted, released)
    }

    /** One access of thread t does to the lock and the thread what the state machine says. */
    method Step(t: Tid, a: Access)
      modifies this, lock
      ensures State() == Do(old(State()), t, a)
    {
      if t !in pcs {
        return;
      }
      match (pcs[t], a) {
        case (Idle, Lock) =>
          var ticket, entered := lock.Lock();
          drawn := drawn + [t];
          if entered {
            Grant(t);
          } else {
            pcs := pcs[t := Spinning(ticket)];
          }
        case (Spinning(ticket), Spin) =>
          var entered := lock.Spin(ticket);
          if entered {
            Grant(t);
          }
        case (Idle, TryRead) =>
          var val, free := lock.TryRead();
          if free {
            pcs := pcs[t := Trying(val)];
          }
        case (Trying(expected), TryExchange) =>
          var ok := lock.TryExchange(expected);
          if ok {
            drawn := drawn + [t];
            Grant(t);
          } else {
            pcs := pcs[t := Idle];
          }
        case (Holding, UnlockRead) =>
          var val := lock.UnlockRead();
          pcs := pcs[t := Releasing(val)];
        case (Releasing(val), UnlockStore) =>
          lock.UnlockStore(val);
          pcs := pcs[t := Idle];
          released := released + 1;
        case _ =>
      }
    }

    method Grant(t: Tid)
      modifies `pcs, `granted
      ensures State() == Enter(old(State()), t)
    {
      pcs := pcs[t := Holding];
      granted := granted + [t];
    }

    /** A whole schedule; with at most 2^16 threads nobody shares the lock after any part of it. */
    method Perform(schedule: Schedule)
      modifies this, lock
      ensures State() == Run(old(State()), schedule)
      ensures forall threads: set<Tid>, i :: |threads| <= TWO16 && old(State()) == Init(threads) && 0 <= i <= |schedule| ==>
        MutualExclusion(Run(old(State()), schedule[..i]))
    {
      ghost var start := State();
      var i := 0;
      while i < |schedule|
        invariant 0 <= i <= |schedule|
        invariant State() == Run(start, schedule[..i])
      {
        assert schedule[..i + 1][..i] == schedule[..i];
        Step(schedule[i].0, schedule[i].1);
        i := i + 1;
      }
      assert schedule[..i] == schedule;
      forall threads: set<Tid>, i | |threads| <= TWO16 && start == Init(threads) && 0 <= i <= |schedule|
        ensures MutualExclusion(Run(start, schedule[..i]))
      {
        RunKeepsInv(threads, schedule[..i]);
        InvExcludes(Run(start, schedule[..i]));
      }
    }
  }

  // ----- safety -----

  /** Who holds or waits, in ticket order. */
  function Queue(s: System): seq<Tid>
    requires s.released <= |s.drawn|
  {
    s.drawn[s.released..]
  }

  ghost predicate MutualExclusion(s: System) {
    forall t, u :: t in s.pcs && u in s.pcs && s.pcs[t].Owns() && s.pcs[u].Owns() ==> t == u
  }

  /** What every step keeps: the word mirrors the two ever-growing counts modulo 2^16, and
      ticket number i belongs to thread drawn[i]. */
  ghost predicate Inv(s: System) {
    && s.word == WordOf(|s.drawn|, s.released)
    && s.released <= |s.granted| <= s.released + 1 && |s.granted| <= |s.drawn|
    && s.granted == s.drawn[..|s.granted|]
    && (forall t :: t in s.pcs && s.pcs[t].InQueue() ==> t in Queue(s))
    && (forall i, j :: s.released <= i < j < |s.drawn| ==> s.drawn[i] != s.drawn[j])
    && (forall i :: s.released <= i < |s.drawn| ==> TicketHeld(s, i))
    && (forall t :: t in s.pcs ==> TryIsFree(s.pcs[t]))
  }

  /** trylock only ever attempts to exchange a word that read as free. */
  predicate TryIsFree(pc: Pc) { pc.Trying? ==> ValueUnlocked(pc.expected) }

  function WordOf(drawn: nat, released: nat): U32 { (drawn % TWO16) * TWO16 + released % TWO16 }

  lemma WordHalves(drawn: nat, released: nat)
    ensures NextTicket(WordOf(drawn, released)) == drawn % TWO16
    ensures Serving(WordOf(drawn, released)) == released % TWO16
  {
  }

  lemma TicketStep(drawn: nat, released: nat)
    ensures TakeTicket(WordOf(drawn, released)) == WordOf(drawn + 1, released)
  {
  }

  lemma ServeStep(drawn: nat, released: nat, val: U32)
    requires Serving(val) == released % TWO16
    ensures ServeAfter(WordOf(drawn, released), val) == WordOf(drawn, released + 1)
  {
    WordHalves(drawn, released);
  }

  lemma WordSteps(drawn: nat, released: nat, val: U32)
    ensures TakeTicket(WordOf(drawn, released)) == WordOf(drawn + 1, released)
    ensures Serving(val) == released % TWO16 ==>
      ServeAfter(WordOf(drawn, released), val) == WordOf(drawn, released + 1)
    ensures NextTicket(WordOf(drawn, released)) == drawn % TWO16
    ensures Serving(WordOf(drawn, released)) == released % TWO16
  {
    WordHalves(drawn, released);
    TicketStep(drawn, released);
    if Serving(val) == released % TWO16 { ServeStep(drawn, released, val); }
  }

  ghost predicate TicketHeld(s: System, i: nat)
    requires i < |s.drawn|
  {
    var t := s.drawn[i];
    && t in s.pcs && s.pcs[t].InQueue()
    && (s.pcs[t].Owns() <==> i < |s.granted|)
    && (s.pcs[t].Spinning? ==> s.pcs[t].ticket == i % TWO16)
    && (s.pcs[t].Releasing? ==> Serving(s.pcs[t].val) == s.released % TWO16)
  }

  /** A queue of distinct threads is no longer than the set they come from. */
  lemma {:induction false} DistinctBound<T>(q: seq<T>, threads: set<T>)
    requires forall i, j :: 0 <= i < j < |q| ==> q[i] != q[j]
    requires forall i :: 0 <= i < |q| ==> q[i] in threads
    ensures |q| <= |threads|
  {
    if q != [] {
      var last := |q| - 1;
      DistinctBound(q[..last], threads - {q[last]});
    }
  }

  lemma QueueBound(s: System)
    requires Inv(s)
    ensures |Queue(s)| <= |s.pcs.Keys|
    ensures forall t :: t in s.pcs && !s.pcs[t].InQueue() ==> |Queue(s)| < |s.pcs.Keys|
  {
    var q := Queue(s);
    forall i | 0 <= i < |q| ensures q[i] in s.pcs && s.pcs[q[i]].InQueue() {
      assert TicketHeld(s, s.released + i);
    }
    DistinctBound(q, s.pcs.Keys);
    forall t | t in s.pcs && !s.pcs[t].InQueue()
      ensures |q| < |s.pcs.Keys|
    {
      DistinctBound(q, s.pcs.Keys - {t});
    }
  }

  /** Fewer than 2^16 tickets outstanding: equal halves mean an empty queue. */
  lemma EqualHalves(s: System)
    requires Inv(s) && |Queue(s)| < TWO16
    ensures ValueUnlocked(s.word) <==> Queue(s) == []
  {
    WordSteps(|s.drawn|, s.released, 0);
    if ValueUnlocked(s.word) { SameTicket(s.released, |Queue(s)|); }
  }

  lemma InitHolds(threads: set<Tid>)
    ensures Inv(Init(threads))
  {
  }

  lemma NotQueued(s: System, t: Tid)
    requires Inv(s) && t in s.pcs && !s.pcs[t].InQueue()
    ensures forall i :: s.released <= i < |s.drawn| ==> s.drawn[i] != t
  {
    forall i | s.released <= i < |s.drawn| ensures s.drawn[i] != t {
      assert TicketHeld(s, i);
    }
  }

  /** Taking a free lock: by `arch_spin_lock` at once, or by the exchange of trylock, even when
      the word went round between its read and the exchange. */
  lemma TakeFreeLock(s: System, t: Tid)
    requires Inv(s) && |s.pcs.Keys| <= TWO16
    requires t in s.pcs && !s.pcs[t].InQueue() && ValueUnlocked(s.word)
    ensures Queue(s) == []
    ensures Inv(Enter(Draw(s, t), t))
  {
    QueueBound(s);
    EqualHalves(s);
    WordSteps(|s.drawn|, s.released, 0);
    var s' := Enter(Draw(s, t), t);
    assert |s.granted| == |s.drawn| == s.released;
    assert TicketHeld(s', |s.drawn|);
    assert Queue(s') == [t];
  }

  lemma WaitInLine(s: System, t: Tid)
    requires Inv(s) && t in s.pcs && !s.pcs[t].InQueue() && !ValueUnlocked(s.word)
    ensures Inv(Draw(s, t).(pcs := s.pcs[t := Spinning(NextTicket(s.word))]))
  {
    NotQueued(s, t);
    WordSteps(|s.drawn|, s.released, 0);
    var s' := Draw(s, t).(pcs := s.pcs[t := Spinning(NextTicket(s.word))]);
    assert |s.drawn| > s.released;
    StillHeld(s, t, s');
    assert Queue(s') == Queue(s) + [t];
  }

  lemma StillHeld(s: System, t: Tid, s': System)
    requires Inv(s) && t in s.pcs && !s.pcs[t].InQueue() && |s.drawn| > s.released
    requires NextTicket(s.word) == |s.drawn| % TWO16
    requires s' == Draw(s, t).(pcs := s.pcs[t := Spinning(NextTicket(s.word))])
    ensures forall i :: s'.released <= i < |s'.drawn| ==> TicketHeld(s', i)
  {
    NotQueued(s, t);
    forall i | s'.released <= i < |s'.drawn| ensures TicketHeld(s', i) {
      if i < |s.drawn| { assert TicketHeld(s, i); }
    }
  }

  /** A waiter sees its own number only at the front of the queue, and only once the previous
      owner has gone. */
  lemma WaiterIsNext(s: System, t: Tid)
    requires Inv(s) && |s.pcs.Keys| <= TWO16
    requires t in s.pcs && s.pcs[t].Spinning? && s.pcs[t].ticket == Serving(s.word)
    ensures |s.granted| == s.released < |s.drawn| && s.drawn[s.released] == t
  {
    QueueBound(s);
    WordSteps(|s.drawn|, s.released, 0);
    assert t in Queue(s);
    var k :| 0 <= k < |Queue(s)| && Queue(s)[k] == t;
    assert TicketHeld(s, s.released + k);
    SameTicket(s.released, k);
  }

  /** Two of fewer than 2^16 consecutive tickets never share their 16 bits. */
  lemma SameTicket(r: nat, k: nat)
    requires k < TWO16 && (r + k) % TWO16 == r % TWO16
    ensures k == 0
  {
  }

  lemma WaiterEnters(s: System, t: Tid)
    requires Inv(s) && |s.pcs.Keys| <= TWO16
    requires t in s.pcs && s.pcs[t].Spinning? && s.pcs[t].ticket == Serving(s.word)
    ensures Inv(Enter(s, t))
  {
    WaiterIsNext(s, t);
    var s' := Enter(s, t);
    forall i | s'.released <= i < |s'.drawn| ensures TicketHeld(s', i) {
      assert TicketHeld(s, i);
    }
  }

  /** The owner is the front of the queue. */
  lemma OwnerIsFirst(s: System, t: Tid)
    requires Inv(s) && t in s.pcs && s.pcs[t].Owns()
    ensures |s.granted| == s.released + 1 && s.drawn[s.released] == t
  {
    var k :| 0 <= k < |Queue(s)| && Queue(s)[k] == t;
    assert TicketHeld(s, s.released + k);
  }

  lemma ReadBeforeRelease(s: System, t: Tid)
    requires Inv(s) && t in s.pcs && s.pcs[t].Holding?
    ensures Inv(s.(pcs := s.pcs[t := Releasing(s.word)]))
  {
    OwnerIsFirst(s, t);
    WordSteps(|s.drawn|, s.released, 0);
    var s' := s.(pcs := s.pcs[t := Releasing(s.word)]);
    forall i | s'.released <= i < |s'.drawn| ensures TicketHeld(s', i) {
      assert TicketHeld(s, i);
    }
  }

  /** The half-word store passes the lock on and keeps every ticket drawn since the read. */
  lemma ReleaseStore(s: System, t: Tid)
    requires Inv(s) && t in s.pcs && s.pcs[t].Releasing?
    ensures var s' := Do(s, t, UnlockStore);
      Inv(s') && Queue(s') == Queue(s)[1..] && NextTicket(s'.word) == NextTicket(s.word)
  {
    OwnerIsFirst(s, t);
    assert TicketHeld(s, s.released);
    WordSteps(|s.drawn|, s.released, s.pcs[t].val);
    WordSteps(|s.drawn|, s.released + 1, 0);
    QueueMovesUp(s, t, Do(s, t, UnlockStore));
  }

  /** Everybody behind the leaving owner keeps ticket and place. */
  lemma QueueMovesUp(s: System, t: Tid, s': System)
    requires Inv(s) && t in s.pcs && s.released < |s.drawn| && s.drawn[s.released] == t
    requires |s.granted| == s.released + 1
    requires s'.pcs == s.pcs[t := Idle] && s'.drawn == s.drawn && s'.granted == s.granted
    requires s'.released == s.released + 1
    ensures forall i :: s'.released <= i < |s'.drawn| ==> TicketHeld(s', i)
    ensures forall u :: u in s'.pcs && s'.pcs[u].InQueue() ==> u in Queue(s')
  {
    forall i | s'.released <= i < |s'.drawn| ensures TicketHeld(s', i) {
      assert TicketHeld(s, i);
    }
    forall u | u in s'.pcs && s'.pcs[u].InQueue() ensures u in Queue(s') {
      var k :| 0 <= k < |Queue(s)| && Queue(s)[k] == u;
      assert k > 0;
      assert Queue(s')[k - 1] == u;
    }
  }

  lemma LockStep(s: System, t: Tid)
    requires Inv(s) && |s.pcs.Keys| <= TWO16 && t in s.pcs && s.pcs[t].Idle?
    ensures Inv(Do(s, t, Lock))
  {
    if ValueUnlocked(s.word) { TakeFreeLock(s, t); } else { WaitInLine(s, t); }
  }

  lemma SpinStep(s: System, t: Tid)
    requires Inv(s) && |s.pcs.Keys| <= TWO16 && t in s.pcs && s.pcs[t].Spinning?
    ensures Inv(Do(s, t, Spin))
  {
    if s.pcs[t].ticket == Serving(s.word) { WaiterEnters(s, t); }
  }

  lemma TryReadStep(s: System, t: Tid)
    requires Inv(s) && t in s.pcs && s.pcs[t].Idle?
    ensures Inv(Do(s, t, TryRead))
  {
    if ValueUnlocked(s.word) { KeepsQueue(s, t, Trying(s.word)); }
  }

  lemma TryExchangeStep(s: System, t: Tid)
    requires Inv(s) && |s.pcs.Keys| <= TWO16 && t in s.pcs && s.pcs[t].Trying?
    ensures Inv(Do(s, t, TryExchange))
  {
    if s.word == s.pcs[t].expected { TakeFreeLock(s, t); } else { KeepsQueue(s, t, Idle); }
  }

  lemma DoKeepsThreads(s: System, t: Tid, a: Access)
    ensures Do(s, t, a).pcs.Keys == s.pcs.Keys
  {
  }

  /** Every access of every thread keeps the invariant, with up to 2^16 threads. */
  lemma StepKeepsInv(s: System, t: Tid, a: Access)
    requires Inv(s) && |s.pcs.Keys| <= TWO16
    ensures Inv(Do(s, t, a)) && Do(s, t, a).pcs.Keys == s.pcs.Keys
  {
    DoKeepsThreads(s, t, a);
    if t in s.pcs {
      match (s.pcs[t], a)
      case (Idle, Lock) => LockStep(s, t);
      case (Spinning(ticket), Spin) => SpinStep(s, t);
      case (Idle, TryRead) => TryReadStep(s, t);
      case (Trying(expected), TryExchange) => TryExchangeStep(s, t);
      case (Holding, UnlockRead) => ReadBeforeRelease(s, t);
      case (Releasing(val), UnlockStore) => ReleaseStore(s, t);
      case _ => assert Do(s, t, a) == s;
    }
  }

  lemma KeepsQueue(s: System, t: Tid, pc: Pc)
    requires Inv(s) && t in s.pcs && !s.pcs[t].InQueue() && !pc.InQueue()
    requires TryIsFree(pc)
    ensures Inv(s.(pcs := s.pcs[t := pc]))
  {
    NotQueued(s, t);
    var s' := s.(pcs := s.pcs[t := pc]);
    forall i | s'.released <= i < |s'.drawn| ensures TicketHeld(s', i) {
      assert TicketHeld(s, i);
    }
  }

  lemma {:induction false} RunKeepsInv(threads: set<Tid>, schedule: Schedule)
    requires |threads| <= TWO16
    ensures Inv(Run(Init(threads), schedule))
    ensures Run(Init(threads), schedule).pcs.Keys == threads
  {
    if schedule == [] {
      InitHolds(threads);
    } else {
      var last := |schedule| - 1;
      RunKeepsInv(threads, schedule[..last]);
      StepKeepsInv(Run(Init(threads), schedule[..last]), schedule[last].0, schedule[last].1);
    }
  }

  lemma InvExcludes(s: System)
    requires Inv(s)
    ensures MutualExclusion(s)
  {
    forall t, u | t in s.pcs && u in s.pcs && s.pcs[t].Owns() && s.pcs[u].Owns() ensures t == u {
      OwnerIsFirst(s, t);
      OwnerIsFirst(s, u);
    }
  }

  /** First come, first served, in every interleaving: the threads granted the lock are the
      threads that drew tickets, in the order they drew them. */
  lemma FirstComeFirstServed(threads: set<Tid>, schedule: Schedule)
    requires |threads| <= TWO16
    ensures var s := Run(Init(threads), schedule);
      s.granted <= s.drawn && s.released <= |s.granted| <= s.released + 1
  {
    RunKeepsInv(threads, schedule);
  }

  lemma ShortQueueUnlocked(s: System)
    requires Inv(s) && |Queue(s)| < TWO16
    ensures ValueUnlocked(s.word) <==> forall t :: t in s.pcs ==> !s.pcs[t].InQueue()
    ensures (forall t :: t in s.pcs ==> s.pcs[t].InQueue()) ==> |s.pcs.Keys| < TWO16
  {
    EqualHalves(s);
    if Queue(s) != [] { assert TicketHeld(s, s.released); }
    if forall t :: t in s.pcs ==> s.pcs[t].InQueue() { CoversBound(s.pcs.Keys, Queue(s)); }
  }

  lemma FullQueueUnlocked(s: System)
    requires Inv(s) && |Queue(s)| == |s.pcs.Keys| == TWO16
    ensures ValueUnlocked(s.word)
    ensures forall t :: t in s.pcs ==> s.pcs[t].InQueue()
  {
    QueueBound(s);
    WordSteps(|s.drawn|, s.released, 0);
    DivideUnique(|s.drawn|, TWO16, s.released / TWO16 + 1, s.released % TWO16);
  }

  /** What `arch_spin_value_unlocked` says in any reachable state: with fewer than 2^16 threads,
      that nobody holds or waits; with 2^16 it also answers yes when every thread does. */
  lemma ValueUnlockedMeaning(threads: set<Tid>, schedule: Schedule)
    requires |threads| <= TWO16
    ensures var s := Run(Init(threads), schedule);
      ValueUnlocked(s.word) <==>
        (forall t :: t in s.pcs ==> !s.pcs[t].InQueue()) ||
        (|threads| == TWO16 && forall t :: t in s.pcs ==> s.pcs[t].InQueue())
  {
    RunKeepsInv(threads, schedule);
    var s := Run(Init(threads), schedule);
    QueueBound(s);
    if |Queue(s)| < TWO16 { ShortQueueUnlocked(s); } else { FullQueueUnlocked(s); }
  }

  /** A sequence that covers a set is at least as long. */
  lemma {:induction false} CoversBound<T>(covered: set<T>, q: seq<T>)
    requires forall t :: t in covered ==> t in q
    ensures |covered| <= |q|
  {
    if q != [] {
      var last := |q| - 1;
      CoversBound(covered - {q[last]}, q[..last]);
    } else {
      assert covered == {};
    }
  }

  /** What `arch_spin_is_contended` says in any reachable state: at least two are in line, but fewer
      than 2^15. */
  lemma IsContendedMeaning(threads: set<Tid>, schedule: Schedule)
    requires |threads| <= TWO16
    ensures var s := Run(Init(threads), schedule);
      s.released <= |s.drawn| && (IsContended(s.word) <==> 2 <= |Queue(s)| < 0x8000)
  {
    RunKeepsInv(threads, schedule);
    ContendedInState(Run(Init(threads), schedule));
  }

  lemma ContendedInState(s: System)
    requires Inv(s) && |s.pcs.Keys| <= TWO16
    ensures IsContended(s.word) <==> 2 <= |Queue(s)| < 0x8000
  {
    QueueBound(s);
    ContendedWord(|s.drawn|, s.released, |Queue(s)|);
  }

  lemma ContendedWord(drawn: nat, released: nat, k: nat)
    requires drawn == released + k && k <= TWO16
    ensures IsContended(WordOf(drawn, released)) <==> 2 <= k < 0x8000
  {
    WordHalves(drawn, released);
    ContendedDistance(drawn, released, k);
  }

  lemma ContendedDistance(drawn: nat, released: nat, k: nat)
    requires drawn == released + k && k <= TWO16
    ensures AsSigned16(drawn % TWO16 - released % TWO16) == if k < 0x8000 then k else if k < TWO16 then k - TWO16 else 0
  {
  }

  /** No ticket is stranded: while the lock is free and somebody waits, the next turn of the
      thread at the front of the queue enters, and a turn of any other waiter does not. */
  lemma FrontOfQueueEnters(s: System)
    requires Inv(s) && |s.pcs.Keys| <= TWO16
    requires |s.granted| == s.released < |s.drawn|
    ensures var front := Queue(s)[0];
      && Do(s, front, Spin).granted == s.granted + [front]
      && forall u :: u != front ==> Do(s, u, Spin) == s
  {
    var front := Queue(s)[0];
    assert TicketHeld(s, s.released);
    WordSteps(|s.drawn|, s.released, 0);
    forall u | u != front ensures Do(s, u, Spin) == s {
      if u in s.pcs && s.pcs[u].Spinning? && s.pcs[u].ticket == Serving(s.word) {
        WaiterIsNext(s, u);
      }
    }
  }

  // ----- what each call achieves -----

  /** Nobody holds or waits. */
  ghost predicate NobodyInLine(s: System) { forall u :: u in s.pcs ==> !s.pcs[u].InQueue() }

  lemma EmptyQueue(s: System)
    requires Inv(s)
    ensures Queue(s) == [] <==> NobodyInLine(s)
  {
    if Queue(s) != [] { assert TicketHeld(s, s.released); }
  }

  lemma IdleSeesFree(s: System, t: Tid)
    requires Inv(s) && |s.pcs.Keys| <= TWO16 && t in s.pcs && !s.pcs[t].InQueue()
    ensures ValueUnlocked(s.word) <==> NobodyInLine(s)
  {
    QueueBound(s);
    EqualHalves(s);
    EmptyQueue(s);
  }

  /** Lock puts an idle thread at the end of the line, and inside at once exactly if nobody was in it. */
  lemma LockExactly(s: System, t: Tid)
    requires Inv(s) && |s.pcs.Keys| <= TWO16 && t in s.pcs && s.pcs[t].Idle?
    ensures var u := Do(s, t, Lock);
      && Inv(u) && Queue(u) == Queue(s) + [t]
      && (if NobodyInLine(s) then u.pcs == s.pcs[t := Holding] && u.granted == s.granted + [t]
          else u.pcs[t].Spinning? && u.granted == s.granted)
  {
    IdleSeesFree(s, t);
    LockStep(s, t);
    LockByWord(s, t);
  }

  lemma LockByWord(s: System, t: Tid)
    requires s.released <= |s.drawn| && t in s.pcs && s.pcs[t].Idle?
    ensures var u := Do(s, t, Lock);
      && u.released <= |u.drawn| && Queue(u) == Queue(s) + [t]
      && (if ValueUnlocked(s.word) then u.pcs == s.pcs[t := Holding] && u.granted == s.granted + [t]
          else u.pcs[t].Spinning? && u.granted == s.granted)
  {
  }

  /** The first half of trylock goes on exactly if nobody is in line. */
  lemma TryReadExactly(s: System, t: Tid)
    requires Inv(s) && |s.pcs.Keys| <= TWO16 && t in s.pcs && s.pcs[t].Idle?
    ensures Do(s, t, TryRead) == if NobodyInLine(s) then s.(pcs := s.pcs[t := Trying(s.word)]) else s
  {
    IdleSeesFree(s, t);
  }

  /** With no access in between trylock takes a lock with nobody in line. */
  lemma TryLockTakesFreeLock(s: System, t: Tid)
    requires Inv(s) && |s.pcs.Keys| <= TWO16 && t in s.pcs && s.pcs[t].Idle? && NobodyInLine(s)
    ensures var u := Do(Do(s, t, TryRead), t, TryExchange);
      u.pcs == s.pcs[t := Holding] && Queue(u) == [t] && u.granted == s.granted + [t]
  {
    TryReadExactly(s, t);
    EmptyQueue(s);
  }

  /** After any accesses of others its second half takes the lock, or changes nothing but the thread,
      which is idle again; it takes it exactly if the word is the one read, and then nobody is in line. */
  lemma TryExchangeExactly(s: System, t: Tid)
    requires Inv(s) && |s.pcs.Keys| <= TWO16 && t in s.pcs && s.pcs[t].Trying?
    ensures var u := Do(s, t, TryExchange);
      if s.word == s.pcs[t].expected
        then NobodyInLine(s) && u.pcs == s.pcs[t := Holding] && Queue(u) == [t] && u.granted == s.granted + [t]
        else u == s.(pcs := s.pcs[t := Idle])
  {
    if s.word == s.pcs[t].expected {
      IdleSeesFree(s, t);
      EmptyQueue(s);
    }
  }

  /** Accesses of other threads leave the owner where it is and release nothing. */
  lemma {:induction false} OwnerWaits(s: System, t: Tid, others: Schedule)
    requires Inv(s) && |s.pcs.Keys| <= TWO16 && t in s.pcs && s.pcs[t].Owns()
    requires forall k :: 0 <= k < |others| ==> others[k].0 != t
    ensures var u := Run(s, others);
      Inv(u) && u.pcs.Keys == s.pcs.Keys && u.pcs[t] == s.pcs[t] && u.released == s.released
  {
    if others != [] {
      var last := |others| - 1;
      OwnerWaits(s, t, others[..last]);
      var u := Run(s, others[..last]);
      StepKeepsInv(u, others[last].0, others[last].1);
      InvExcludes(u);
      OthersDoNotRelease(u, t, others[last].0, others[last].1);
    }
  }

  lemma OthersDoNotRelease(s: System, t: Tid, other: Tid, a: Access)
    requires MutualExclusion(s) && t in s.pcs && s.pcs[t].Owns() && other != t
    ensures var u := Do(s, other, a); t in u.pcs && u.pcs[t] == s.pcs[t] && u.released == s.released
  {
  }

  /** Unlock, whatever others do between its two accesses: the holder is idle, the front of the queue is
      gone, and one more release is counted. */
  lemma UnlockReleases(s: System, t: Tid, others: Schedule)
    requires Inv(s) && |s.pcs.Keys| <= TWO16 && t in s.pcs && s.pcs[t].Holding?
    requires forall k :: 0 <= k < |others| ==> others[k].0 != t
    ensures var u := Run(Do(s, t, UnlockRead), others); var v := Do(u, t, UnlockStore);
      && Inv(u) && |Queue(u)| > 0 && Queue(u)[0] == t
      && Inv(v) && v.pcs == u.pcs[t := Idle] && Queue(v) == Queue(u)[1..]
      && v.released == s.released + 1
  {
    ReadBeforeRelease(s, t);
    var r := Do(s, t, UnlockRead);
    UnlockReadMoves(s, t);
    OwnerWaits(r, t, others);
    StoreReleases(Run(r, others), t);
  }

  lemma UnlockReadMoves(s: System, t: Tid)
    requires t in s.pcs && s.pcs[t].Holding?
    ensures Do(s, t, UnlockRead) == s.(pcs := s.pcs[t := Releasing(s.word)])
  {
  }

  lemma StoreReleases(s: System, t: Tid)
    requires Inv(s) && t in s.pcs && s.pcs[t].Releasing?
    ensures var v := Do(s, t, UnlockStore);
      && |Queue(s)| > 0 && Queue(s)[0] == t
      && Inv(v) && v.pcs == s.pcs[t := Idle] && Queue(v) == Queue(s)[1..] && v.released == s.released + 1
  {
    OwnerIsFirst(s, t);
    ReleaseStore(s, t);
  }

  // ----- the bound on threads is exact -----

  /** Everybody asks for the lock at once: thread ts[0] gets it, the rest draw tickets 1, 2, ... */
  function RushHour(ts: seq<Tid>): Schedule { seq(|ts|, i requires 0 <= i < |ts| => (ts[i], Lock)) }

  lemma {:induction false} RushHourState(threads: set<Tid>, ts: seq<Tid>)
    requires 1 <= |ts| <= TWO16
    requires forall i :: 0 <= i < |ts| ==> ts[i] in threads
    requires forall i, j :: 0 <= i < j < |ts| ==> ts[i] != ts[j]
    ensures var s := Run(Init(threads), RushHour(ts));
      && s.word == WordOf(|ts|, 0) && s.pcs.Keys == threads
      && s.pcs[ts[0]] == Holding
      && (forall t :: t in threads && t !in ts ==> s.pcs[t] == Idle)
  {
    var last := |ts| - 1;
    var before := ts[..last];
    assert RushHour(ts)[..last] == RushHour(before);
    if last > 0 {
      RushHourState(threads, before);
      WordSteps(last, 0, 0);
      assert ts[last] !in before;
    } else {
      assert Run(Init(threads), RushHour(before)) == Init(threads);
    }
  }

  lemma {:induction false} RushHourQueue(threads: set<Tid>, ts: seq<Tid>)
    requires forall i :: 0 <= i < |ts| ==> ts[i] in threads
    requires forall i, j :: 0 <= i < j < |ts| ==> ts[i] != ts[j]
    ensures var s := Run(Init(threads), RushHour(ts));
      s.drawn == ts && s.released == 0 && s.pcs.Keys == threads
      && (forall t :: t in threads && t !in ts ==> s.pcs[t] == Idle)
  {
    if |ts| > 0 {
      var last := |ts| - 1;
      assert RushHour(ts)[..last] == RushHour(ts[..last]);
      RushHourQueue(threads, ts[..last]);
      assert ts == ts[..last] + [ts[last]] && ts[last] !in ts[..last];
    }
  }

  /** From 2^15 in line on the contended lock says it is not: a schedule that reaches such a state,
      for every number of threads from there to 2^16. */
  lemma CrowdLooksUncontended(threads: set<Tid>, n: nat) returns (schedule: Schedule)
    requires 0x8000 <= n <= |threads| <= TWO16
    ensures var s := Run(Init(threads), schedule);
      s.released <= |s.drawn| && |Queue(s)| == n && !IsContended(s.word)
  {
    var ts := PickDistinct(threads, n);
    schedule := RushHour(ts);
    RushHourQueue(threads, ts);
    IsContendedMeaning(threads, schedule);
  }

  /** With more than 2^16 threads, some interleaving lets two of them own the lock. */
  lemma OneThreadTooMany(threads: set<Tid>) returns (schedule: Schedule)
    requires |threads| > TWO16
    ensures !MutualExclusion(Run(Init(threads), schedule))
  {
    var ts := PickDistinct(threads, TWO16 + 1);
    var rush, late := ts[..TWO16], ts[TWO16];
    RushHourState(threads, rush);
    WordSteps(TWO16, 0, 0);
    schedule := RushHour(rush) + [(late, Lock)];
    assert schedule[..|schedule| - 1] == RushHour(rush);
    var s' := Run(Init(threads), schedule);
    assert s'.pcs[late].Owns() && s'.pcs[rush[0]].Owns();
  }

  /** No interleaving breaks mutual exclusion. */
  ghost predicate AlwaysExclusive(threads: set<Tid>) {
    forall schedule: Schedule :: MutualExclusion(Run(Init(threads), schedule))
  }

  /** Mutual exclusion holds in every interleaving exactly up to 2^16 threads. */
  lemma SafeExactlyUpTo65536Threads(threads: set<Tid>)
    ensures AlwaysExclusive(threads) <==> |threads| <= TWO16
  {
    if |threads| <= TWO16 {
      forall schedule: Schedule ensures MutualExclusion(Run(Init(threads), schedule)) {
        RunKeepsInv(threads, schedule);
        InvExcludes(Run(Init(threads), schedule));
      }
    } else {
      var schedule := OneThreadTooMany(threads);
    }
  }
}
