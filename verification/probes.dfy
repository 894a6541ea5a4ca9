/** Registration of the charging module's probes (src/K100PM_CHG_RUNTIME.c): an init that rolls back
    on the first failure, and an exit. The kernel's verdict on each registration is a parameter. */
module Probes {
  datatype Event = Registered(probe: nat) | Unregistered(probe: nat)

  /** The kernel's answer for each probe: 0, or an error. */
  type Verdicts = nat -> int

  /** The probes registered by a log of events: those registered more recently than unregistered. */
  function Live(log: seq<Event>): set<nat> {
    if |log| == 0 then {} else After(Live(log[..|log| - 1]), log[|log| - 1])
  }

  function After(live: set<nat>, e: Event): set<nat> {
    match e
    case Registered(p) => live + {p}
    case Unregistered(p) => live - {p}
  }

  function UpTo(n: nat): (s: set<nat>)
    ensures forall p: nat :: p in s <==> p < n
  {
    if n == 0 then {} else UpTo(n - 1) + {n - 1}
  }

  /** Unregistrations of the first n probes, last first. */
  function Rollback(n: nat): seq<Event> {
    if n == 0 then [] else [Unregistered(n - 1)] + Rollback(n - 1)
  }

  /** Registrations of the first n probes in order. */
  function Registrations(n: nat): seq<Event> {
    if n == 0 then [] else Registrations(n - 1) + [Registered(n - 1)]
  }

  /** Of n probes the kernel refuses probe f first, or none if f is n. */
  ghost predicate FailsAt(verdicts: Verdicts, n: nat, f: nat) {
    && f <= n && (forall p :: 0 <= p < f ==> verdicts(p) == 0)
    && (f < n ==> verdicts(f) != 0)
  }

  lemma {:induction false} SomeFirstFailure(verdicts: Verdicts, n: nat, i: nat) returns (f: nat)
    requires i <= n && forall p :: 0 <= p < i ==> verdicts(p) == 0
    ensures FailsAt(verdicts, n, f)
    decreases n - i
  {
    if i == n || verdicts(i) != 0 { f := i; } else { f := SomeFirstFailure(verdicts, n, i + 1); }
  }

  class ProbeTable {
    var registered: nat
    var log: seq<Event>
    const hasHandler: array<bool>
    const size: nat

    /** Only the last four probes come with a return handler. */
    constructor ()
      ensures registered == 0 && log == [] && Valid() && fresh(hasHandler) && size == 16
    {
      registered, log, size := 0, [], 16;
      hasHandler := new bool[16](i => i >= 12);
    }

    /** At every step the probes counted are exactly the registered ones, and each has a handler. */
    ghost predicate Valid()
      reads this, hasHandler
    {
      && hasHandler.Length == size && registered <= size
      && Live(log) == UpTo(registered)
      && forall p :: 0 <= p < registered ==> hasHandler[p]
    }

    /** `while (k100pm_registered) unregister_kretprobe(&k100pm_probes[--k100pm_registered])`. */
    method UnregisterAll()
      requires Valid()
      modifies this
      ensures Valid() && registered == 0
      ensures log == old(log) + Rollback(old(registered))
    {
      while registered > 0
        invariant Valid() && registered <= old(registered)
        invariant log + Rollback(registered) == old(log) + Rollback(old(registered))
      {
        ghost var before := log;
        registered := registered - 1;
        log := log + [Unregistered(registered)];
        LiveStep(before, Unregistered(registered));
        assert UpTo(registered + 1) - {registered as nat} == UpTo(registered);
        assert log + Rollback(registered) == before + Rollback(registered + 1);
      }
    }

    /** A probe without a return handler gets the one that does nothing. */
    method Prepare(i: nat)
      requires Valid() && registered == i && i < size
      modifies hasHandler
      ensures Valid() && hasHandler[i]
    {
      if !hasHandler[i] {
        hasHandler[i] := true;
      }
    }

    /** A registration the kernel accepts. */
    method Register(i: nat)
      requires Valid() && registered == i && i < size && hasHandler[i]
      modifies this
      ensures Valid() && registered == i + 1
      ensures log == old(log) + [Registered(i)]
    {
      LiveStep(log, Registered(i));
      log := log + [Registered(i)];
      registered := registered + 1;
      assert UpTo(i) + {i} == UpTo(i + 1);
    }

    /** `k100pm_chg_runtime_init`, when the kernel refuses probe f first. */
    method Init(armed: bool, verdicts: Verdicts, ghost f: nat) returns (ret: int)
      requires Valid() && registered == 0 && FailsAt(verdicts, size, f)
      modifies this, hasHandler
      ensures Valid()
      ensures ret == if armed && f < size then verdicts(f) else 0
      ensures registered == if armed && f == size then f else 0
      ensures !armed ==> log == old(log)
      ensures armed ==> log == old(log) + Registrations(f) + if f < size then Rollback(f) else []
    {
      if !armed {
        return 0;
      }
      var i: nat := 0;
      while i < size
        invariant i <= size && i <= f && registered == i && Valid()
        invariant log == old(log) + Registrations(i)
      {
        Prepare(i);
        ret := verdicts(i);
        if ret != 0 {
          UnregisterAll();
          return;
        }
        Register(i);
        i := i + 1;
      }
      return 0;
    }

    /** `k100pm_chg_runtime_exit`. */
    method Exit()
      requires Valid()
      modifies this
      ensures Valid() && registered == 0
      ensures log == old(log) + Rollback(old(registered))
    {
      UnregisterAll();
    }
  }

  lemma LiveStep(log: seq<Event>, e: Event)
    ensures Live(log + [e]) == After(Live(log), e)
  {
    assert (log + [e])[..|log|] == log;
  }

  // ----- what a whole life of the module does -----

  function Count(log: seq<Event>, e: Event): nat {
    if |log| == 0 then 0 else Count(log[1..], e) + if log[0] == e then 1 else 0
  }

  lemma {:induction false} CountConcat(a: seq<Event>, b: seq<Event>, e: Event)
    ensures Count(a + b, e) == Count(a, e) + Count(b, e)
  {
    if |a| == 0 {
      assert a + b == b;
    } else {
      assert (a + b)[1..] == a[1..] + b;
      CountConcat(a[1..], b, e);
    }
  }

  lemma {:induction false} CountRollback(n: nat, p: nat)
    ensures Count(Rollback(n), Unregistered(p)) == if p < n then 1 else 0
    ensures Count(Rollback(n), Registered(p)) == 0
  {
    if n > 0 {
      assert Rollback(n)[1..] == Rollback(n - 1);
      CountRollback(n - 1, p);
    }
  }

  lemma {:induction false} CountRegistrations(n: nat, p: nat)
    ensures Count(Registrations(n), Registered(p)) == if p < n then 1 else 0
    ensures Count(Registrations(n), Unregistered(p)) == 0
  {
    if n > 0 {
      CountRegistrations(n - 1, p);
      CountConcat(Registrations(n - 1), [Registered(n - 1)], Registered(p));
      CountConcat(Registrations(n - 1), [Registered(n - 1)], Unregistered(p));
    }
  }

  /** The log of an armed load and the unload that follows, when the kernel refuses probe f first. */
  function Life(f: nat): seq<Event> { Registrations(f) + Rollback(f) }

  /** Load then unload, whatever fails: every probe that was registered is unregistered exactly once,
      no other is, and each unregistration takes the probe registered last. */
  lemma EachProbeOnce(f: nat, p: nat)
    ensures Count(Life(f), Registered(p)) == Count(Life(f), Unregistered(p)) == if p < f then 1 else 0
  {
    CountConcat(Registrations(f), Rollback(f), Registered(p));
    CountConcat(Registrations(f), Rollback(f), Unregistered(p));
    CountRollback(f, p);
    CountRegistrations(f, p);
  }

  lemma {:induction false} RollbackAt(n: nat, k: nat)
    requires k < n
    ensures |Rollback(n)| == n && Rollback(n)[k] == Unregistered(n - 1 - k)
  {
    if k > 0 { RollbackAt(n - 1, k - 1); } else if n > 1 { RollbackAt(n - 1, 0); }
  }

  /** The first n probes were registered once and unregistered once each, and no other was. */
  ghost predicate OnceEach(log: seq<Event>, n: nat) {
    forall p: nat :: Count(log, Registered(p)) == Count(log, Unregistered(p)) == if p < n then 1 else 0
  }

  lemma LifeOnceEach(f: nat)
    ensures OnceEach(Life(f), f) && OnceEach([], 0)
  {
    forall p: nat
      ensures Count(Life(f), Registered(p)) == Count(Life(f), Unregistered(p)) == if p < f then 1 else 0
    {
      EachProbeOnce(f, p);
    }
  }

  lemma LoadedLife(before: seq<Event>, f: nat)
    requires before == []
    ensures before + Registrations(f) + Rollback(f) == Life(f)
  {
  }

  /** Loads the module and, if that succeeds, unloads it: whatever the kernel refuses, each probe
      before the first one refused is registered and unregistered once, and no other is. */
  method LoadAndUnload(table: ProbeTable, armed: bool, verdicts: Verdicts, ghost f: nat) returns (ret: int)
    requires table.Valid() && table.registered == 0 && table.log == [] && FailsAt(verdicts, table.size, f)
    modifies table, table.hasHandler
    ensures table.Valid() && table.registered == 0
    ensures ret == if armed && f < table.size then verdicts(f) else 0
    ensures table.log == if armed then Life(f) else []
    ensures OnceEach(table.log, if armed then f else 0)
  {
    LifeOnceEach(f);
    LoadedLife([], f);
    ret := table.Init(armed, verdicts, f);
    if ret == 0 {
      table.Exit();
    }
  }
}
