/** The fast paths of the queued reader/writer lock (asm-generic/qrwlock.h): one 32-bit word
    with a writer byte, a waiting bit and a reader count in units of 512. Each method of the
    class is one atomic access; the interleavings of all of them follow. */
module QueuedRwLock {
  import opened Words
  import opened Threads

  const QW_LOCKED: int := 0xff
  const QR_BIAS: int := 512

  // ----- the lock word -----

  /** `cnts & _QW_WMASK`: the waiting bit and the writer byte. */
  function WriterBits(cnts: U32): nat { cnts % 512 }

  function AddReader(cnts: U32): U32 { Wrap32(cnts + QR_BIAS) }

  function SubReader(cnts: U32): U32 { Wrap32(cnts + (TWO32 - QR_BIAS)) }

  lemma AddKeepsWriterBits(cnts: U32)
    ensures WriterBits(AddReader(cnts)) == WriterBits(cnts)
  {
  }

  /** The byte store `wlocked = 0`. */
  function ClearWriter(cnts: U32): U32 { cnts - cnts % 256 }

  class RwLock {
    var cnts: U32

    constructor ()
      ensures cnts == 0
    {
      cnts := 0;
    }

    /** First test of `queued_read_trylock`. */
    method TryReadTest() returns (free: bool)
      ensures free <==> WriterBits(cnts) == 0
    {
      free := cnts % 512 == 0;
    }

    /** The addition in `queued_read_trylock` and `queued_read_lock`, and the test on its result. */
    method ReadAdd() returns (granted: bool)
      modifies this
      ensures cnts == AddReader(old(cnts))
      ensures granted <==> WriterBits(cnts) == 0
      ensures granted <==> WriterBits(old(cnts)) == 0
    {
      AddKeepsWriterBits(cnts);
      cnts := Wrap32(cnts + QR_BIAS);
      granted := cnts % 512 == 0;
    }

    /** `queued_read_unlock`, and the undo in `queued_read_trylock`. */
    method ReadSub()
      modifies this
      ensures cnts == SubReader(old(cnts))
    {
      cnts := Wrap32(cnts + TWO32 - QR_BIAS);
    }

    /** First test of `queued_write_trylock`. */
    method TryWriteTest() returns (free: bool)
      ensures free <==> cnts == 0
    {
      free := cnts == 0;
    }

    /** The compare-and-exchange of `queued_write_trylock` and `queued_write_lock`. */
    method WriteExchange() returns (granted: bool)
      modifies this
      ensures granted <==> old(cnts) == 0
      ensures cnts == if granted then QW_LOCKED else old(cnts)
    {
      granted := cnts == 0;
      if granted {
        cnts := QW_LOCKED;
      }
    }

    /** `queued_write_unlock`: a store to the low byte alone, which leaves the waiting bit and
        every reader in place. */
    method WriteUnlock()
      modifies this
      ensures cnts == ClearWriter(old(cnts))
      ensures cnts / 256 == old(cnts) / 256
    {
      cnts := cnts - cnts % 256;
    }
  }

  // ----- interleavings -----

  /** Where a thread is. `ReadUndo` has added its reader and must take it back; `ReadQueued` and
      `WriteQueued` have entered the slow path, whose code is elsewhere, and stay there. */
  datatype Pc = Idle | ReadTested | ReadUndo | Reader | ReadQueued | WriteTested | Writer | WriteQueued
  {
    /** Whether the thread's 512 is in the word. */
    predicate Counted() { Reader? || ReadUndo? || ReadQueued? }
  }

  datatype System = System(cnts: U32, pcs: map<Tid, Pc>)

  datatype Access =
    | TryReadTest | TryReadAdd | TryReadUndo | ReadLock | ReadUnlock
    | TryWriteTest | TryWriteExchange | WriteLock | WriteUnlock

  function Init(threads: set<Tid>): System {
    System(0, map t | t in threads :: Idle)
  }

  function At(s: System, t: Tid, cnts: U32, pc: Pc): System
    requires t in s.pcs
  {
    System(cnts, s.pcs[t := pc])
  }

  /** Thread t performs one access; one it cannot perform now changes nothing. */
  function Do(s: System, t: Tid, a: Access): System {
    if t !in s.pcs then s else
    match (s.pcs[t], a)
    case (Idle, TryReadTest) =>
      if WriterBits(s.cnts) == 0 then At(s, t, s.cnts, ReadTested) else s
    case (ReadTested, TryReadAdd) =>
      At(s, t, AddReader(s.cnts), if WriterBits(AddReader(s.cnts)) == 0 then Reader else ReadUndo)
    case (ReadUndo, TryReadUndo) =>
      At(s, t, SubReader(s.cnts), Idle)
    case (Idle, ReadLock) =>
      At(s, t, AddReader(s.cnts), if WriterBits(AddReader(s.cnts)) == 0 then Reader else ReadQueued)
    case (Reader, ReadUnlock) =>
      At(s, t, SubReader(s.cnts), Idle)
    case (Idle, TryWriteTest) =>
      if s.cnts == 0 then At(s, t, s.cnts, WriteTested) else s
    case (WriteTested, TryWriteExchange) =>
      if s.cnts == 0 then At(s, t, QW_LOCKED, Writer) else At(s, t, s.cnts, Idle)
    case (Idle, WriteLock) =>
      if s.cnts == 0 then At(s, t, QW_LOCKED, Writer) else At(s, t, s.cnts, WriteQueued)
    case (Writer, WriteUnlock) =>
      At(s, t, ClearWriter(s.cnts), Idle)
    case _ => s
  }

  type Schedule = seq<(Tid, Access)>

  function Run(s: System, schedule: Schedule): System
    decreases |schedule|
  {
    if schedule == [] then s
    else
      var last := |schedule| - 1;
      Do(Run(s, schedule[..last]), schedule[last].0, schedule[last].1)
  }

  /** The lock with its threads, as code: every step is one call of a method of the lock. */
  class Machine {
    const lock: RwLock
    var pcs: map<Tid, Pc>

    constructor (threads: set<Tid>)
      ensures State() == Init(threads) && fresh(lock)
    {
      lock := new RwLock();
      pcs := map t | t in threads :: Idle;
    }

    function State(): System
      reads this, lock
    {
      System(lock.cnts, pcs)
    }

    /** One access of thread t does to the lock and the thread what the state machine says. */
    method Step(t: Tid, a: Access)
      modifies this, lock
      ensures State() == Do(old(State()), t, a)
    {
      if t !in pcs {
        return;
      }
      match (pcs[t], a) {
        case (Idle, TryReadTest) =>
          var free := lock.TryReadTest();
          if free {
            pcs := pcs[t := ReadTested];
          }
        case (ReadTested, TryReadAdd) =>
          var granted := lock.ReadAdd();
          pcs := pcs[t := if granted then Reader else ReadUndo];
        case (ReadUndo, TryReadUndo) =>
          lock.ReadSub();
          pcs := pcs[t := Idle];
        case (Idle, ReadLock) =>
          var granted := lock.ReadAdd();
          pcs := pcs[t := if granted then Reader else ReadQueued];
        case (Reader, ReadUnlock) =>
          lock.ReadSub();
          pcs := pcs[t := Idle];
        case (Idle, TryWriteTest) =>
          var free := lock.TryWriteTest();
          if free {
            pcs := pcs[t := WriteTested];
          }
        case (WriteTested, TryWriteExchange) =>
          var granted := lock.WriteExchange();
          pcs := pcs[t := if granted then Writer else Idle];
        case (Idle, WriteLock) =>
          var granted := lock.WriteExchange();
          pcs := pcs[t := if granted then Writer else WriteQueued];
        case (Writer, WriteUnlock) =>
          lock.WriteUnlock();
          pcs := pcs[t := Idle];
        case _ =>
      }
    }

    /** A whole schedule; with at most 2^23 threads a writer is alone after every part of it. */
    method Perform(schedule: Schedule)
      modifies this, lock
      ensures State() == Run(old(State()), schedule)
      ensures forall threads: set<Tid>, i :: |threads| <= 0x80_0000 && old(State()) == Init(threads) && 0 <= i <= |schedule| ==>
        Exclusive(Run(old(State()), schedule[..i]))
    {
      ghost var start := State();
      var i := 0;
      while i < |schedule|
        invariant 0 <= i <= |schedule|
        invariant State() == Run(start, schedule[..i])
      {
        assert schedule[..i + 1][..i] == schedule[..i];
        Step(schedule[i].0, schedule[i].1);
        i := i + 1;
      }
      assert schedule[..i] == schedule;
      forall threads: set<Tid>, i | |threads| <= 0x80_0000 && start == Init(threads) && 0 <= i <= |schedule|
        ensures Exclusive(Run(start, schedule[..i]))
      {
        RunKeepsInv(threads, schedule[..i]);
      }
    }
  }

  // ----- safety -----

  /** Threads whose 512 is in the word: reader holders, and readers still to undo or to queue. */
  function CountedThreads(s: System): set<Tid> { set t | t in s.pcs && s.pcs[t].Counted() }

  function Readers(s: System): set<Tid> { set t | t in s.pcs && s.pcs[t].Reader? }

  function Writers(s: System): set<Tid> { set t | t in s.pcs && s.pcs[t].Writer? }

  /** A writer is alone: no other writer, and no reader. */
  predicate Exclusive(s: System) {
    |Writers(s)| <= 1 && (Writers(s) == {} || Readers(s) == {})
  }

  /** What every step keeps: the word is the sum of what its threads put there. */
  ghost predicate Inv(s: System) {
    s.cnts == WordOf(|CountedThreads(s)|, |Writers(s)|) && Exclusive(s)
  }

  function WordOf(readers: nat, writers: nat): U32 { Wrap32(QR_BIAS * readers + QW_LOCKED * writers) }

  lemma WriterBitsOf(readers: nat, writers: nat)
    requires writers <= 1
    ensures WriterBits(WordOf(readers, writers)) == QW_LOCKED * writers
  {
    assert QW_LOCKED * writers == if writers == 1 then QW_LOCKED else 0;
  }

  lemma ReaderSteps(readers: nat, writers: nat)
    ensures AddReader(WordOf(readers, writers)) == WordOf(readers + 1, writers)
    ensures readers >= 1 ==> SubReader(WordOf(readers, writers)) == WordOf(readers - 1, writers)
  {
    var sum := QR_BIAS * readers + QW_LOCKED * writers;
    WrapOfSum(sum, QR_BIAS);
    WrapOfSum(sum, TWO32 - QR_BIAS);
    WrapShift(sum + TWO32 - QR_BIAS, 1);
  }

  lemma ClearWriterOf(readers: nat)
    ensures ClearWriter(WordOf(readers, 1)) == WordOf(readers, 0)
  {
    var h, l := readers / 0x80_0000, readers % 0x80_0000;
    DivideUnique(QR_BIAS * readers, TWO32, h, QR_BIAS * l);
    DivideUnique(QR_BIAS * readers + QW_LOCKED, TWO32, h, QR_BIAS * l + QW_LOCKED);
    DivideUnique(QR_BIAS * l + QW_LOCKED, 256, 2 * l, QW_LOCKED);
  }

  lemma ZeroWord(readers: nat, writers: nat)
    requires writers <= 1
    ensures WordOf(readers, writers) == 0 <==> readers % 0x80_0000 == 0 && writers == 0
  {
    if writers == 0 {
      ReaderWord(readers);
    } else {
      WriterBitsOf(readers, writers);
    }
  }

  lemma ReaderWord(readers: nat)
    ensures WordOf(readers, 0) == QR_BIAS * (readers % 0x80_0000)
  {
    var h, l := readers / 0x80_0000, readers % 0x80_0000;
    DivideUnique(QR_BIAS * readers, TWO32, h, QR_BIAS * l);
  }

  /** How one thread's step moves the two sets. */
  lemma SetsAfter(s: System, t: Tid, cnts: U32, pc: Pc)
    requires t in s.pcs
    ensures var s' := At(s, t, cnts, pc);
      && CountedThreads(s') == (if pc.Counted() then CountedThreads(s) + {t} else CountedThreads(s) - {t})
      && Readers(s') == (if pc.Reader? then Readers(s) + {t} else Readers(s) - {t})
      && Writers(s') == (if pc.Writer? then Writers(s) + {t} else Writers(s) - {t})
      && s'.pcs.Keys == s.pcs.Keys
    ensures t in CountedThreads(s) <==> s.pcs[t].Counted()
    ensures t in Readers(s) <==> s.pcs[t].Reader?
    ensures t in Writers(s) <==> s.pcs[t].Writer?
    ensures Readers(s) <= CountedThreads(s)
  {
  }

  /** An uncounted thread leaves room: at most one fewer than all are counted. */
  lemma RoomLeft(s: System, t: Tid)
    requires t in s.pcs && !s.pcs[t].Counted()
    ensures |CountedThreads(s)| < |s.pcs.Keys|
  {
    SubsetSize(CountedThreads(s), s.pcs.Keys - {t});
  }

  lemma {:induction false} SubsetSize<T>(a: set<T>, b: set<T>)
    requires a <= b
    ensures |a| <= |b|
  {
    if a != {} {
      var x :| x in a;
      SubsetSize(a - {x}, b - {x});
    }
  }

  /** The sum shows a writer exactly when one holds the lock. */
  lemma AddSeesWriter(s: System)
    requires Inv(s)
    ensures AddReader(s.cnts) == WordOf(|CountedThreads(s)| + 1, |Writers(s)|)
    ensures WriterBits(AddReader(s.cnts)) == 0 <==> Writers(s) == {}
  {
    ReaderSteps(|CountedThreads(s)|, |Writers(s)|);
    WriterBitsOf(|CountedThreads(s)| + 1, |Writers(s)|);
  }

  lemma SetsAfterAdd(s: System, t: Tid, cnts: U32, pc: Pc)
    requires t in s.pcs && !s.pcs[t].Counted() && !s.pcs[t].Writer? && pc.Counted()
    ensures var s' := At(s, t, cnts, pc);
      && |CountedThreads(s')| == |CountedThreads(s)| + 1 && Writers(s') == Writers(s)
      && (!pc.Reader? ==> Readers(s') == Readers(s))
  {
    SetsAfter(s, t, cnts, pc);
    assert Writers(s) - {t} == Writers(s);
    assert Readers(s) - {t} == Readers(s);
  }

  lemma AddKeepsInv(s: System, t: Tid, pc: Pc)
    requires Inv(s) && t in s.pcs && !s.pcs[t].Counted() && !s.pcs[t].Writer?
    requires pc.Counted() && (pc.Reader? ==> WriterBits(AddReader(s.cnts)) == 0)
    ensures Inv(At(s, t, AddReader(s.cnts), pc))
  {
    AddSeesWriter(s);
    SetsAfterAdd(s, t, AddReader(s.cnts), pc);
  }

  lemma SubKeepsInv(s: System, t: Tid)
    requires Inv(s) && t in s.pcs && s.pcs[t].Counted()
    ensures Inv(At(s, t, SubReader(s.cnts), Idle))
  {
    SetsAfter(s, t, SubReader(s.cnts), Idle);
    ReaderSteps(|CountedThreads(s)|, |Writers(s)|);
    assert Writers(s) - {t} == Writers(s);
  }

  /** The exchange finds zero only when no reader is counted and no writer holds. */
  lemma ExchangeKeepsInv(s: System, t: Tid)
    requires Inv(s) && |s.pcs.Keys| <= 0x80_0000 && s.cnts == 0
    requires t in s.pcs && !s.pcs[t].Counted() && !s.pcs[t].Writer?
    ensures CountedThreads(s) == {} && Writers(s) == {}
    ensures Inv(At(s, t, QW_LOCKED, Writer))
  {
    RoomLeft(s, t);
    ZeroWord(|CountedThreads(s)|, |Writers(s)|);
    SetsAfter(s, t, QW_LOCKED, Writer);
    assert CountedThreads(s) - {t} == {} && {} + {t} == {t};
    assert WordOf(0, 1) == QW_LOCKED;
  }

  lemma WriteUnlockKeepsInv(s: System, t: Tid)
    requires Inv(s) && t in s.pcs && s.pcs[t].Writer?
    ensures Inv(At(s, t, ClearWriter(s.cnts), Idle))
    ensures CountedThreads(At(s, t, ClearWriter(s.cnts), Idle)) == CountedThreads(s)
  {
    SetsAfter(s, t, ClearWriter(s.cnts), Idle);
    assert |Writers(s) - {t}| == 0;
    ClearWriterOf(|CountedThreads(s)|);
    assert CountedThreads(s) - {t} == CountedThreads(s);
  }

  lemma MoveKeepsInv(s: System, t: Tid, pc: Pc)
    requires Inv(s) && t in s.pcs && !s.pcs[t].Counted() && !s.pcs[t].Writer?
    requires !pc.Counted() && !pc.Writer?
    ensures Inv(At(s, t, s.cnts, pc))
  {
    SetsAfter(s, t, s.cnts, pc);
    assert CountedThreads(s) - {t} == CountedThreads(s) && Writers(s) - {t} == Writers(s);
    assert Readers(s) - {t} == Readers(s);
  }

  /** Every access of every thread keeps the invariant, with up to 2^23 threads. */
  lemma StepKeepsInv(s: System, t: Tid, a: Access)
    requires Inv(s) && |s.pcs.Keys| <= 0x80_0000
    ensures Inv(Do(s, t, a)) && Do(s, t, a).pcs.Keys == s.pcs.Keys
  {
    if t in s.pcs {
      match (s.pcs[t], a)
      case (Idle, TryReadTest) => MoveKeepsInv(s, t, ReadTested);
      case (ReadTested, TryReadAdd) =>
        AddKeepsInv(s, t, if WriterBits(AddReader(s.cnts)) == 0 then Reader else ReadUndo);
      case (ReadUndo, TryReadUndo) => SubKeepsInv(s, t);
      case (Idle, ReadLock) =>
        AddKeepsInv(s, t, if WriterBits(AddReader(s.cnts)) == 0 then Reader else ReadQueued);
      case (Reader, ReadUnlock) => SubKeepsInv(s, t);
      case (Idle, TryWriteTest) => MoveKeepsInv(s, t, WriteTested);
      case (WriteTested, TryWriteExchange) =>
        if s.cnts == 0 { ExchangeKeepsInv(s, t); } else { MoveKeepsInv(s, t, Idle); }
      case (Idle, WriteLock) =>
        if s.cnts == 0 { ExchangeKeepsInv(s, t); } else { MoveKeepsInv(s, t, WriteQueued); }
      case (Writer, WriteUnlock) => WriteUnlockKeepsInv(s, t);
      case _ =>
    }
  }

  /** In every interleaving of up to 2^23 threads the word is 512 for each counted reader plus
      0xff for a writer, and a writer is alone. */
  lemma {:induction false} RunKeepsInv(threads: set<Tid>, schedule: Schedule)
    requires |threads| <= 0x80_0000
    ensures var s := Run(Init(threads), schedule);
      Inv(s) && s.pcs.Keys == threads
  {
    if schedule == [] {
      assert CountedThreads(Init(threads)) == {} && Writers(Init(threads)) == {};
      assert WordOf(0, 0) == 0;
    } else {
      var last := |schedule| - 1;
      RunKeepsInv(threads, schedule[..last]);
      StepKeepsInv(Run(Init(threads), schedule[..last]), schedule[last].0, schedule[last].1);
    }
  }

  /** Below 2^23 threads the count never wraps, so the word itself is the plain sum. */
  lemma WordIsPlainSum(threads: set<Tid>, schedule: Schedule)
    requires |threads| < 0x80_0000
    ensures var s := Run(Init(threads), schedule);
      s.cnts == QR_BIAS * |CountedThreads(s)| + QW_LOCKED * |Writers(s)|
  {
    RunKeepsInv(threads, schedule);
    var s := Run(Init(threads), schedule);
    SubsetSize(CountedThreads(s), s.pcs.Keys);
  }

  // ----- what each call achieves -----

  lemma TestSeesWriter(s: System)
    requires Inv(s)
    ensures WriterBits(s.cnts) == 0 <==> Writers(s) == {}
  {
    WriterBitsOf(|CountedThreads(s)|, |Writers(s)|);
  }

  /** The word is zero exactly if no reader is counted and no writer holds. */
  lemma ZeroMeansFree(s: System, t: Tid)
    requires Inv(s) && |s.pcs.Keys| <= 0x80_0000 && t in s.pcs && !s.pcs[t].Counted()
    ensures s.cnts == 0 <==> CountedThreads(s) == {} && Writers(s) == {}
  {
    RoomLeft(s, t);
    ZeroWord(|CountedThreads(s)|, |Writers(s)|);
  }

  /** The first half of the read trylock goes on exactly if no writer holds. */
  lemma TryReadTestExactly(s: System, t: Tid)
    requires Inv(s) && t in s.pcs && s.pcs[t].Idle?
    ensures Do(s, t, TryReadTest) == if Writers(s) == {} then s.(pcs := s.pcs[t := ReadTested]) else s
  {
    TestSeesWriter(s);
  }

  /** Its second half counts the thread, and makes it a reader exactly if no writer holds then. */
  lemma TryReadAddExactly(s: System, t: Tid)
    requires Inv(s) && t in s.pcs && s.pcs[t].ReadTested?
    ensures var u := Do(s, t, TryReadAdd);
      && u.pcs == s.pcs[t := if Writers(s) == {} then Reader else ReadUndo]
      && CountedThreads(u) == CountedThreads(s) + {t} && Writers(u) == Writers(s)
  {
    AddSeesWriter(s);
    var u := Do(s, t, TryReadAdd);
    SetsAfter(s, t, u.cnts, u.pcs[t]);
    assert Writers(s) - {t} == Writers(s);
  }

  /** Accesses of other threads leave a thread where it is. */
  lemma {:induction false} OthersLeave(s: System, t: Tid, others: Schedule)
    requires Inv(s) && |s.pcs.Keys| <= 0x80_0000 && t in s.pcs
    requires forall k :: 0 <= k < |others| ==> others[k].0 != t
    ensures var u := Run(s, others); Inv(u) && u.pcs.Keys == s.pcs.Keys && u.pcs[t] == s.pcs[t]
  {
    if others != [] {
      var last := |others| - 1;
      OthersLeave(s, t, others[..last]);
      StepKeepsInv(Run(s, others[..last]), others[last].0, others[last].1);
      OtherLeaves(Run(s, others[..last]), t, others[last].0, others[last].1);
    }
  }

  lemma OtherLeaves(s: System, t: Tid, other: Tid, a: Access)
    requires t in s.pcs && other != t
    ensures t in Do(s, other, a).pcs && Do(s, other, a).pcs[t] == s.pcs[t]
  {
  }

  /** A reader that saw a writer, or that unlocks, is idle after its subtraction and no longer counted;
      the others stay counted. */
  lemma ReaderLeaves(s: System, t: Tid)
    requires Inv(s) && t in s.pcs && (s.pcs[t].ReadUndo? || s.pcs[t].Reader?)
    ensures var u := Do(s, t, if s.pcs[t].ReadUndo? then TryReadUndo else ReadUnlock);
      && Inv(u) && u.pcs == s.pcs[t := Idle]
      && CountedThreads(u) == CountedThreads(s) - {t} && Writers(u) == Writers(s)
  {
    SubKeepsInv(s, t);
    SetsAfter(s, t, SubReader(s.cnts), Idle);
    assert Writers(s) - {t} == Writers(s);
  }

  /** A read trylock that meets a writer takes its count back, whatever others do in between. */
  lemma FailedTryReadUndone(s: System, t: Tid, others: Schedule)
    requires Inv(s) && |s.pcs.Keys| <= 0x80_0000 && t in s.pcs && s.pcs[t].ReadTested? && Writers(s) != {}
    requires forall k :: 0 <= k < |others| ==> others[k].0 != t
    ensures var u := Run(Do(s, t, TryReadAdd), others); var v := Do(u, t, TryReadUndo);
      && v.pcs == u.pcs[t := Idle] && CountedThreads(v) == CountedThreads(u) - {t}
      && (others == [] ==> CountedThreads(v) == CountedThreads(s))
  {
    TryReadAddExactly(s, t);
    StepKeepsInv(s, t, TryReadAdd);
    OthersLeave(Do(s, t, TryReadAdd), t, others);
    ReaderLeaves(Run(Do(s, t, TryReadAdd), others), t);
    assert CountedThreads(s) + {t} - {t} == CountedThreads(s);
  }

  /** The read lock counts the thread, and makes it a reader exactly if no writer holds. */
  lemma ReadLockExactly(s: System, t: Tid)
    requires Inv(s) && t in s.pcs && s.pcs[t].Idle?
    ensures var u := Do(s, t, ReadLock);
      && u.pcs == s.pcs[t := if Writers(s) == {} then Reader else ReadQueued]
      && CountedThreads(u) == CountedThreads(s) + {t} && Writers(u) == Writers(s)
  {
    AddSeesWriter(s);
    var u := Do(s, t, ReadLock);
    SetsAfter(s, t, u.cnts, u.pcs[t]);
    assert Writers(s) - {t} == Writers(s);
  }

  /** No reader is counted and no writer holds. */
  predicate Free(s: System) { CountedThreads(s) == {} && Writers(s) == {} }

  /** The first half of the write trylock goes on exactly if the lock is free. */
  lemma TryWriteTestExactly(s: System, t: Tid)
    requires Inv(s) && |s.pcs.Keys| <= 0x80_0000 && t in s.pcs && s.pcs[t].Idle?
    ensures Do(s, t, TryWriteTest) == if Free(s) then s.(pcs := s.pcs[t := WriteTested]) else s
  {
    ZeroMeansFree(s, t);
  }

  /** Its second half, and the write lock, make the thread the writer exactly if the lock is free; if not
      nothing but the thread changes. */
  lemma WriteExchangeExactly(s: System, t: Tid)
    requires Inv(s) && |s.pcs.Keys| <= 0x80_0000 && t in s.pcs && (s.pcs[t].WriteTested? || s.pcs[t].Idle?)
    ensures var u := Do(s, t, if s.pcs[t].Idle? then WriteLock else TryWriteExchange);
      if Free(s) then u.pcs == s.pcs[t := Writer] && Writers(u) == {t} && CountedThreads(u) == {}
      else u == s.(pcs := s.pcs[t := if s.pcs[t].Idle? then WriteQueued else Idle])
  {
    ZeroMeansFree(s, t);
    WriteExchangeByWord(s, t);
    if Free(s) { TakesFree(s, t); }
  }

  lemma WriteExchangeByWord(s: System, t: Tid)
    requires t in s.pcs && (s.pcs[t].WriteTested? || s.pcs[t].Idle?)
    ensures Do(s, t, if s.pcs[t].Idle? then WriteLock else TryWriteExchange)
         == if s.cnts == 0 then At(s, t, QW_LOCKED, Writer)
            else At(s, t, s.cnts, if s.pcs[t].Idle? then WriteQueued else Idle)
  {
  }

  lemma TakesFree(s: System, t: Tid)
    requires Free(s) && t in s.pcs
    ensures var u := At(s, t, QW_LOCKED, Writer); Writers(u) == {t} && CountedThreads(u) == {}
  {
    SetsAfter(s, t, QW_LOCKED, Writer);
    assert CountedThreads(s) - {t} == {} && Writers(s) + {t} == {t};
  }

  /** The write unlock leaves the thread idle, no writer, and the counted readers as they were. */
  lemma WriteUnlockExactly(s: System, t: Tid)
    requires Inv(s) && t in s.pcs && s.pcs[t].Writer?
    ensures var u := Do(s, t, WriteUnlock);
      && Inv(u) && u.pcs == s.pcs[t := Idle] && Writers(u) == {} && CountedThreads(u) == CountedThreads(s)
  {
    WriteUnlockKeepsInv(s, t);
    SetsAfter(s, t, ClearWriter(s.cnts), Idle);
    OneWriter(s, t);
  }

  lemma OneWriter(s: System, t: Tid)
    requires Exclusive(s) && t in s.pcs && s.pcs[t].Writer?
    ensures Writers(s) == {t}
  {
    assert t in Writers(s) && |Writers(s) - {t}| == 0;
  }

  // ----- the bound on threads is exact -----

  /** Everybody reads. */
  function AllRead(ts: seq<Tid>): Schedule { seq(|ts|, i requires 0 <= i < |ts| => (ts[i], ReadLock)) }

  lemma {:induction false} AllReadState(threads: set<Tid>, ts: seq<Tid>)
    requires forall i :: 0 <= i < |ts| ==> ts[i] in threads
    requires forall i, j :: 0 <= i < j < |ts| ==> ts[i] != ts[j]
    ensures var s := Run(Init(threads), AllRead(ts));
      && s.cnts == WordOf(|ts|, 0) && s.pcs.Keys == threads
      && (forall t :: t in threads ==> s.pcs[t] == if t in ts then Reader else Idle)
  {
    if ts != [] {
      var last := |ts| - 1;
      assert AllRead(ts)[..last] == AllRead(ts[..last]);
      AllReadState(threads, ts[..last]);
      ReaderSteps(last, 0);
      WriterBitsOf(last + 1, 0);
      assert ts[last] !in ts[..last];
    }
  }

  /** With more than 2^23 threads the count can wrap to zero under 2^23 readers and let a writer in. */
  lemma OneThreadTooMany(threads: set<Tid>) returns (schedule: Schedule)
    requires |threads| > 0x80_0000
    ensures !Exclusive(Run(Init(threads), schedule))
  {
    var ts := PickDistinct(threads, 0x80_0001);
    var readers, writer := ts[..0x80_0000], ts[0x80_0000];
    AllReadState(threads, readers);
    ZeroWord(0x80_0000, 0);
    schedule := AllRead(readers) + [(writer, WriteLock)];
    assert schedule[..|schedule| - 1] == AllRead(readers);
    var s := Run(Init(threads), schedule);
    assert readers[0] in readers && readers[0] in Readers(s) && writer in Writers(s);
  }

  ghost predicate AlwaysExclusive(threads: set<Tid>) {
    forall schedule: Schedule :: Exclusive(Run(Init(threads), schedule))
  }

  /** Writers are alone in every interleaving exactly up to 2^23 threads. */
  lemma SafeExactlyUpTo2To23Threads(threads: set<Tid>)
    ensures AlwaysExclusive(threads) <==> |threads| <= 0x80_0000
  {
    if |threads| <= 0x80_0000 {
      forall schedule: Schedule ensures Exclusive(Run(Init(threads), schedule)) {
        RunKeepsInv(threads, schedule);
      }
    } else {
      var schedule := OneThreadTooMany(threads);
    }
  }
}
