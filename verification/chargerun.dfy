/** Runs of the charging hooks: the gauge stores readings, the vendor code calls its getters and its
    charge functions, and the module replaces what passes through. */
module ChargingRuns {
  import opened Charging
  import opened Words

  /** What happens around the hooks: the gauge stores a reading in a cell, a getter given the address
      of a cell returns (address 0 is the null pointer), a charge function or the cutoff function is
      called, or a parameter is written. Several getters may be given the same cell. */
  datatype Call =
    | Sensor(cell: nat, reading: Int32)
    | TempReturn(cell: nat)
    | Charge(hook: Hook, register: U64)
    | Cutoff(thresholds: Thresholds)
    | NullCutoff
    | Configure(sw: Switches)

  /** A value the module replaced; for a charge parameter also the reading it went by. */
  datatype Write =
    | Parameter(hook: Hook, was: U32, now: U32, raw: U32)
    | Temperature(cell: nat, shown: Int32, instead: Int32)
    | Limits(before: Thresholds, after: Thresholds)

  datatype RunState = RunState(sw: Switches, raw: U32, hits: Counters, cells: map<nat, Int32>, written: seq<Write>)

  predicate ValidState(s: RunState) { forall c: Counter :: c in s.hits }

  function Cell(cells: map<nat, Int32>, p: nat): Int32 { if p in cells then cells[p] else 0 }

  function Counted(s: RunState, c: Counter, w: Write): (t: RunState)
    requires ValidState(s)
    ensures ValidState(t)
  {
    s.(hits := Bump(s.hits, c), written := s.written + [w])
  }

  function DoCharge(s: RunState, hook: Hook, register: U64): (t: RunState)
    requires ValidState(s)
    ensures ValidState(t)
  {
    var was := Wrap32(register);
    var target := Target(s.sw, s.raw, hook, was);
    if target == was then s
    else Counted(s, CounterOf(s.sw, s.raw, hook, was), Parameter(hook, was, target, s.raw))
  }

  function DoReturn(s: RunState, p: nat): (t: RunState)
    requires ValidState(s)
    ensures ValidState(t)
  {
    var shown := Cell(s.cells, p);
    var instead := Clamped(s.sw, shown);
    var t := s.(raw := Unsigned(shown), cells := s.cells[p := instead]);
    if instead == shown then t else Counted(t, TemperatureHits, Temperature(p, shown, instead))
  }

  function DoCutoff(s: RunState, t: Thresholds): (r: RunState)
    requires ValidState(s)
    ensures ValidState(r)
  {
    var now := CutoffTarget(s.sw, t);
    if now == t then s else Counted(s, CutoffHits, Limits(t, now))
  }

  function Do(s: RunState, call: Call): (t: RunState)
    requires ValidState(s)
    ensures ValidState(t)
  {
    match call
    case Sensor(p, reading) => s.(cells := s.cells[p := reading])
    case TempReturn(p) => if p == 0 then s else DoReturn(s, p)
    case Charge(hook, register) => DoCharge(s, hook, register)
    case Cutoff(t) => DoCutoff(s, t)
    case NullCutoff => s
    case Configure(sw) => s.(sw := sw)
  }

  function Run(s: RunState, calls: seq<Call>): (t: RunState)
    requires ValidState(s)
    ensures ValidState(t)
  {
    if |calls| == 0 then s else Do(Run(s, calls[..|calls| - 1]), calls[|calls| - 1])
  }

  lemma RunStep(s: RunState, calls: seq<Call>, call: Call)
    requires ValidState(s)
    ensures Run(s, calls + [call]) == Do(Run(s, calls), call)
  {
    assert (calls + [call])[..|calls|] == calls;
  }

  /** The hooks of the module around real registers and cells, call by call. */
  class Device {
    const mod: ChargeModule
    var cells: map<nat, Int32>
    var written: seq<Write>

    function State(): RunState
      reads this, mod
    {
      RunState(mod.sw, mod.raw, mod.hits, cells, written)
    }

    constructor (sw: Switches)
      ensures fresh(mod) && ValidState(State()) && State() == RunState(sw, 0, NoHits(), map[], [])
    {
      mod := new ChargeModule(sw);
      cells := map[];
      written := [];
    }

    /** Which hook function is attached to which call. */
    method Dispatch(hook: Hook, regs: array<U64>)
      requires regs.Length == 31 && mod.Valid()
      modifies mod`hits, regs
      ensures mod.Rewrote(regs, hook)
    {
      match hook {
        case Ichg => mod.IchgEntry(regs);
        case Cv => mod.CvEntry(regs);
        case FastCurve => mod.FastCurveEntry(regs);
        case DivSingle => mod.DivEntry(regs, false);
        case DivMulti => mod.DivEntry(regs, true);
        case CurrMax => mod.CurrMaxEntry(regs);
        case Thermal => mod.ThermalEntry(regs);
      }
    }

    /** The hook runs on a register file that holds the argument, of which the callee uses the low half. */
    method Pass(hook: Hook, register: U64) returns (now: U32)
      requires mod.Valid()
      modifies mod`hits
      ensures mod.Valid() && now == Target(mod.sw, mod.raw, hook, Wrap32(register))
      ensures mod.hits == if now == Wrap32(register) then old(mod.hits)
        else Bump(old(mod.hits), CounterOf(mod.sw, mod.raw, hook, Wrap32(register)))
    {
      var regs := new U64[31](_ => 0);
      var r := Register(hook);
      regs[r] := register;
      label called:
      Dispatch(hook, regs);
      now := Wrap32(regs[r]);
      Replaced(old@called(regs[..]), regs[..], r, register, Target(mod.sw, mod.raw, hook, Wrap32(register)));
    }

    method ChargeHook(hook: Hook, register: U64)
      requires ValidState(State())
      modifies `written, mod`hits
      ensures State() == DoCharge(old(State()), hook, register)
    {
      var was := Wrap32(register);
      var now := Pass(hook, register);
      if now != was {
        written := written + [Parameter(hook, was, now, mod.raw)];
      }
    }

    method ReturnHook(p: nat)
      requires ValidState(State())
      modifies this, mod`raw, mod`hits
      ensures State() == Do(old(State()), TempReturn(p))
    {
      if p == 0 {
        var none := new Int32[0];
        mod.TemperatureReturn(none);
        return;
      }
      var shown := Cell(cells, p);
      var temperature := new Int32[1](_ => shown);
      mod.TemperatureReturn(temperature);
      var instead := temperature[0];
      cells := cells[p := instead];
      if instead != shown {
        written := written + [Temperature(p, shown, instead)];
      }
    }

    method CutoffHook(t: Thresholds)
      requires ValidState(State())
      modifies `written, mod`hits
      ensures State() == DoCutoff(old(State()), t)
    {
      var context := new U32[3](i => if i == 0 then t.fw else if i == 1 then t.delay else t.sw);
      mod.ApplyCutoff(context);
      var now := Thresholds(context[0], context[1], context[2]);
      if now != t {
        written := written + [Limits(t, now)];
      }
    }

    method Step(call: Call)
      requires ValidState(State())
      modifies this, mod
      ensures State() == Do(old(State()), call)
    {
      match call {
        case Sensor(p, reading) => cells := cells[p := reading];
        case TempReturn(p) => ReturnHook(p);
        case Charge(hook, register) => ChargeHook(hook, register);
        case Cutoff(t) => CutoffHook(t);
        case NullCutoff =>
          var none := new U32[0];
          mod.ApplyCutoff(none);
        case Configure(sw) => mod.sw := sw;
      }
    }

    method Perform(calls: seq<Call>)
      requires ValidState(State())
      modifies this, mod
      ensures State() == Run(old(State()), calls)
    {
      for i := 0 to |calls|
        invariant ValidState(State()) && State() == Run(old(State()), calls[..i])
      {
        Step(calls[i]);
        RunStep(old(State()), calls[..i], calls[i]);
        assert calls[..i] + [calls[i]] == calls[..i + 1];
      }
      assert calls[..|calls|] == calls;
    }
  }

  lemma Replaced(before: seq<U64>, after: seq<U64>, r: nat, register: U64, target: U32)
    requires r < |before| && before[r] == register
    requires after == if target == Wrap32(register) then before else before[r := target]
    ensures Wrap32(after[r]) == target
  {
  }

  // ----- which reading the hooks go by -----

  /** The parameters after some calls. */
  function Settings(sw: Switches, calls: seq<Call>): Switches {
    if |calls| == 0 then sw
    else if calls[|calls| - 1].Configure? then calls[|calls| - 1].sw
    else Settings(sw, calls[..|calls| - 1])
  }

  /** What the gauge last stored in a cell. */
  function LastSensor(cells: map<nat, Int32>, calls: seq<Call>, p: nat): Int32 {
    if |calls| == 0 then Cell(cells, p)
    else
      var call := calls[|calls| - 1];
      if call.Sensor? && call.cell == p then call.reading else LastSensor(cells, calls[..|calls| - 1], p)
  }

  /** Whether since then some getter returned through the cell while clamping that reading. */
  predicate Lowered(sw: Switches, calls: seq<Call>, p: nat, reading: Int32) {
    |calls| > 0 &&
    var before, call := calls[..|calls| - 1], calls[|calls| - 1];
    if call.Sensor? && call.cell == p then false
    else Lowered(sw, before, p, reading) || (call == TempReturn(p) && Clamped(Settings(sw, before), reading) != reading)
  }

  lemma {:induction false} SettingsOfRun(s: RunState, calls: seq<Call>)
    requires ValidState(s)
    ensures Run(s, calls).sw == Settings(s.sw, calls)
  {
    if |calls| > 0 { SettingsOfRun(s, calls[..|calls| - 1]); }
  }

  /** A cell holds what the gauge last stored unless that was lowered since, and then less. */
  lemma {:induction false} CellOfRun(s: RunState, calls: seq<Call>, p: nat)
    requires ValidState(s) && p > 0
    ensures var reading := LastSensor(s.cells, calls, p); var now := Cell(Run(s, calls).cells, p);
      && now <= reading && (now == reading <==> !Lowered(s.sw, calls, p, reading))
  {
    if |calls| > 0 {
      var before, call := calls[..|calls| - 1], calls[|calls| - 1];
      CellOfRun(s, before, p);
      SettingsOfRun(s, before);
      CellStep(Run(s, before), call, p);
      ClampKeepsBelow(Settings(s.sw, before), Cell(Run(s, before).cells, p), LastSensor(s.cells, before, p));
    }
  }

  lemma CellStep(s: RunState, call: Call, p: nat)
    requires ValidState(s) && p > 0
    ensures Cell(Do(s, call).cells, p)
         == if call.Sensor? && call.cell == p then call.reading
            else if call == TempReturn(p) then Clamped(s.sw, Cell(s.cells, p)) else Cell(s.cells, p)
  {
  }

  /** A clamp lowers a value that is already below the reading no more than needed to stay below. */
  lemma ClampKeepsBelow(sw: Switches, now: Int32, reading: Int32)
    requires now <= reading
    ensures Clamped(sw, now) <= reading
    ensures Clamped(sw, now) == reading <==> now == reading && Clamped(sw, reading) == reading
  {
  }

  /** No getter returns through a pointer among the calls. */
  predicate NoReturns(calls: seq<Call>) {
    forall i :: 0 <= i < |calls| && calls[i].TempReturn? ==> calls[i].cell == 0
  }

  lemma {:induction false} RawStays(s: RunState, calls: seq<Call>)
    requires ValidState(s) && NoReturns(calls)
    ensures Run(s, calls).raw == s.raw
  {
    if |calls| > 0 { RawStays(s, calls[..|calls| - 1]); }
  }

  lemma {:induction false} RunConcat(s: RunState, a: seq<Call>, b: seq<Call>)
    requires ValidState(s)
    ensures Run(s, a + b) == Run(Run(s, a), b)
  {
    if |b| == 0 {
      assert a + b == a;
    } else {
      RunConcat(s, a, b[..|b| - 1]);
      assert (a + b)[..|a + b| - 1] == a + b[..|b| - 1];
    }
  }

  /** The reading the hooks go by is that of the gauge exactly if the gauge stored it anew since the
      last clamp; otherwise it is below it. */
  lemma RawIsSensorUnlessLowered(s: RunState, before: seq<Call>, p: nat, after: seq<Call>)
    requires ValidState(s) && p > 0 && NoReturns(after)
    ensures var reading := LastSensor(s.cells, before, p); var t := Run(s, before + [TempReturn(p)] + after);
      && (t.raw == Unsigned(reading) <==> !Lowered(s.sw, before, p, reading))
      && Signed(t.raw) <= reading
  {
    RunConcat(s, before + [TempReturn(p)], after);
    RunStep(s, before, TempReturn(p));
    RawStays(Run(s, before + [TempReturn(p)]), after);
    CellOfRun(s, before, p);
    SignedBack(Cell(Run(s, before).cells, p));
    SignedBack(LastSensor(s.cells, before, p));
  }

  lemma SignedBack(x: Int32)
    ensures Signed(Unsigned(x)) == x
  {
  }

  /** With the clamp at 36 degrees, two getters of one cell in a row make a gauge reading of 60 degrees
      count as 36, and the next charge call is raised. */
  lemma TwoGettersHideHeat(s: RunState)
    requires ValidState(s) && s.sw.spoof && s.sw.ceiling == 360 && s.sw.boost
    ensures var t := Run(s, [Sensor(1, 600), TempReturn(1), TempReturn(1), Charge(Ichg, 17600)]);
      && t.raw == 360
      && |t.written| > 0 && t.written[|t.written| - 1] == Parameter(Ichg, 17600, 19400, 360)
  {
    var a, b := [Sensor(1, 600), TempReturn(1)], [TempReturn(1), Charge(Ichg, 17600)];
    assert a + b == [Sensor(1, 600), TempReturn(1), TempReturn(1), Charge(Ichg, 17600)];
    RunConcat(s, a, b);
    RunOfTwo(s, a[0], a[1]);
    RunOfTwo(Run(s, a), b[0], b[1]);
    FirstGetter(s);
    SecondGetter(Run(s, a));
  }

  lemma FirstGetter(s: RunState)
    requires ValidState(s) && s.sw.spoof && s.sw.ceiling == 360
    ensures var t := Do(Do(s, Sensor(1, 600)), TempReturn(1)); t.sw == s.sw && Cell(t.cells, 1) == 360
  {
  }

  lemma SecondGetter(s: RunState)
    requires ValidState(s) && s.sw.boost && s.sw.ceiling == 360 && Cell(s.cells, 1) == 360
    ensures var t := Do(Do(s, TempReturn(1)), Charge(Ichg, 17600));
      && t.raw == 360
      && |t.written| > 0 && t.written[|t.written| - 1] == Parameter(Ichg, 17600, 19400, 360)
  {
    var t := Do(s, TempReturn(1));
    assert t.raw == 360 && t.sw == s.sw;
  }

  lemma RunOfTwo(s: RunState, a: Call, b: Call)
    requires ValidState(s)
    ensures Run(s, [a, b]) == Do(Do(s, a), b)
  {
    assert [a, b][..1] == [a];
    assert [a][..0] == [];
    assert Run(s, [a]) == Do(s, a);
  }

  // ----- what the hooks write along a run -----

  /** What the module may make of a charge parameter at a reading: nothing from 58 degrees on or below
      freezing, the recovery values from 55 degrees on, and a higher value of at most 22 A below. */
  predicate Allowed(w: Write, reading: Int32) {
    w.Parameter? ==>
      && 0 <= reading < 580
      && (reading >= 550 ==> w.now == if w.hook == Cv then 4120 else 4140)
      && (reading < 550 ==> w.was < w.now <= 22000)
  }

  lemma ChargeAllowed(s: RunState, hook: Hook, register: U64)
    requires ValidState(s)
    ensures var t := DoCharge(s, hook, register);
      t.written == s.written
      || (|t.written| == |s.written| + 1 && t.written[..|s.written|] == s.written
          && Allowed(t.written[|s.written|], Signed(s.raw)) && t.written[|s.written|].Parameter?
          && t.written[|s.written|].raw == s.raw)
  {
    var was := Wrap32(register);
    if Target(s.sw, s.raw, hook, was) != was {
      TargetAllowed(s.sw, s.raw, hook, was);
    }
  }

  lemma TargetAllowed(sw: Switches, raw: U32, hook: Hook, was: U32)
    requires Target(sw, raw, hook, was) != was
    ensures Allowed(Parameter(hook, was, Target(sw, raw, hook, was), raw), Signed(raw))
  {
    VendorBandUntouched(sw, Signed(raw), hook, was);
    if raw < 550 {
      CoolBandsNeverLower(sw, raw, hook, was);
    } else if raw < 580 {
      HotBandLimits(sw, raw, hook, was);
    }
  }

  /** Everything a run writes obeys those limits at the reading the hook went by. */
  lemma {:induction false} WritesAllowed(s: RunState, calls: seq<Call>)
    requires ValidState(s)
    ensures var t := Run(s, calls);
      && s.written <= t.written
      && forall i :: |s.written| <= i < |t.written| && t.written[i].Parameter? ==>
           Allowed(t.written[i], Signed(t.written[i].raw))
  {
    if |calls| > 0 {
      var before, call := calls[..|calls| - 1], calls[|calls| - 1];
      WritesAllowed(s, before);
      if call.Charge? { ChargeAllowed(Run(s, before), call.hook, call.register); }
    }
  }

  lemma {:induction false} WritesBetweenReturns(s: RunState, calls: seq<Call>)
    requires ValidState(s) && NoReturns(calls)
    ensures var t := Run(s, calls);
      && s.written <= t.written && t.raw == s.raw
      && forall i :: |s.written| <= i < |t.written| ==> Allowed(t.written[i], Signed(s.raw))
  {
    if |calls| > 0 {
      var before, call := calls[..|calls| - 1], calls[|calls| - 1];
      WritesBetweenReturns(s, before);
      if call.Charge? { ChargeAllowed(Run(s, before), call.hook, call.register); }
    }
  }

  /** And at the reading of the gauge, as long as the gauge stores anew before each getter. */
  lemma WritesObeyGauge(s: RunState, before: seq<Call>, p: nat, after: seq<Call>)
    requires ValidState(s) && p > 0 && NoReturns(after)
    requires !Lowered(s.sw, before, p, LastSensor(s.cells, before, p))
    ensures var u := Run(s, before + [TempReturn(p)]); var t := Run(s, before + [TempReturn(p)] + after);
      && u.written <= t.written
      && forall i :: |u.written| <= i < |t.written| ==> Allowed(t.written[i], LastSensor(s.cells, before, p))
  {
    RunConcat(s, before + [TempReturn(p)], after);
    RawIsSensorUnlessLowered(s, before, p, []);
    assert before + [TempReturn(p)] + [] == before + [TempReturn(p)];
    WritesBetweenReturns(Run(s, before + [TempReturn(p)]), after);
  }

  // ----- counting -----

  /** What a counter, or the two current counters together, stand for. */
  datatype Account = IchgAccount | CvAccount | CurrentAccount | ThermalAccount | TemperatureAccount | CutoffAccount

  function AccountOf(w: Write): Account {
    match w
    case Parameter(Ichg, _, _, _) => IchgAccount
    case Parameter(Cv, _, _, _) => CvAccount
    case Parameter(Thermal, _, _, _) => ThermalAccount
    case Parameter(_, _, _, _) => CurrentAccount
    case Temperature(_, _, _) => TemperatureAccount
    case Limits(_, _) => CutoffAccount
  }

  function Total(hits: Counters, a: Account): nat
    requires forall c: Counter :: c in hits
  {
    match a
    case IchgAccount => hits[IchgHits]
    case CvAccount => hits[CvHits]
    case CurrentAccount => (hits[CurveHits] as int) + (hits[PpsHits] as int)
    case ThermalAccount => hits[ThermalHits]
    case TemperatureAccount => hits[TemperatureHits]
    case CutoffAccount => hits[CutoffHits]
  }

  function WritesIn(written: seq<Write>, a: Account): nat {
    if |written| == 0 then 0
    else WritesIn(written[..|written| - 1], a) + if AccountOf(written[|written| - 1]) == a then 1 else 0
  }

  function Owner(c: Counter): Account {
    match c
    case IchgHits => IchgAccount
    case CvHits => CvAccount
    case CurveHits => CurrentAccount
    case PpsHits => CurrentAccount
    case ThermalHits => ThermalAccount
    case TemperatureHits => TemperatureAccount
    case CutoffHits => CutoffAccount
  }

  lemma BumpTotal(hits: Counters, c: Counter, a: Account)
    requires forall d: Counter :: d in hits
    ensures Wrap32(Total(Bump(hits, c), a)) == Wrap32(Total(hits, a) + if Owner(c) == a then 1 else 0)
  {
    if a == CurrentAccount && Owner(c) == a {
      var n: int := if c.CurveHits? then hits[CurveHits] else hits[PpsHits];
      WrapOfSum(n + 1, Total(hits, a) - n);
    }
  }

  lemma CountAdds(s: RunState, c: Counter, w: Write, a: Account)
    requires ValidState(s) && AccountOf(w) == Owner(c)
    ensures Keeps(s, Counted(s, c, w), a)
  {
    assert (s.written + [w])[..|s.written|] == s.written;
    BumpTotal(s.hits, c, a);
  }

  /** An account grew by as much as the values replaced for it. */
  predicate Keeps(s: RunState, t: RunState, a: Account)
    requires ValidState(s) && ValidState(t)
  {
    Wrap32(Total(t.hits, a)) == Wrap32(Total(s.hits, a) + (WritesIn(t.written, a) - WritesIn(s.written, a)))
  }

  lemma KeepsChain(s: RunState, t: RunState, u: RunState, a: Account)
    requires ValidState(s) && ValidState(t) && ValidState(u) && Keeps(s, t, a) && Keeps(t, u, a)
    ensures Keeps(s, u, a)
  {
    AddWraps(Total(s.hits, a), Total(t.hits, a), Total(u.hits, a),
             WritesIn(t.written, a) - WritesIn(s.written, a), WritesIn(u.written, a) - WritesIn(t.written, a));
  }

  lemma AddWraps(x: int, y: int, z: int, m: int, n: int)
    requires Wrap32(y) == Wrap32(x + m) && Wrap32(z) == Wrap32(y + n)
    ensures Wrap32(z) == Wrap32(x + (m + n))
  {
    WrapOfSum(y, n);
    WrapOfSum(x + m, n);
  }

  lemma ChargeCounts(s: RunState, hook: Hook, register: U64, a: Account)
    requires ValidState(s)
    ensures Keeps(s, DoCharge(s, hook, register), a)
  {
    var was := Wrap32(register);
    var target := Target(s.sw, s.raw, hook, was);
    var c := CounterOf(s.sw, s.raw, hook, was);
    CountAdds(s, c, Parameter(hook, was, target, s.raw), a);
  }

  lemma ReturnCounts(s: RunState, p: nat, a: Account)
    requires ValidState(s)
    ensures Keeps(s, DoReturn(s, p), a)
  {
    var shown := Cell(s.cells, p);
    var instead := Clamped(s.sw, shown);
    var t := s.(raw := Unsigned(shown), cells := s.cells[p := instead]);
    CountAdds(t, TemperatureHits, Temperature(p, shown, instead), a);
  }

  lemma StepCounts(s: RunState, call: Call, a: Account)
    requires ValidState(s)
    ensures Keeps(s, Do(s, call), a)
  {
    match call
    case Sensor(_, _) =>
    case TempReturn(p) => if p > 0 { ReturnCounts(s, p, a); }
    case Charge(hook, register) => ChargeCounts(s, hook, register, a);
    case Cutoff(t) => CountAdds(s, CutoffHits, Limits(t, CutoffTarget(s.sw, t)), a);
    case NullCutoff =>
    case Configure(_) =>
  }

  /** Along every run each replaced value is counted once and nothing else is: modulo 2^32 every
      counter (or the two current counters together) grows by the number of values replaced. */
  lemma {:induction false} CountersCountWrites(s: RunState, calls: seq<Call>, a: Account)
    requires ValidState(s)
    ensures Keeps(s, Run(s, calls), a)
  {
    if |calls| > 0 {
      var before := calls[..|calls| - 1];
      CountersCountWrites(s, before, a);
      StepCounts(Run(s, before), calls[|calls| - 1], a);
      KeepsChain(s, Run(s, before), Run(s, calls), a);
    }
  }

  /** The hook of a fast-charging curve counts on the PPS counter exactly if the PPS table alone would
      change the value, and the other current hooks exactly if boost is off. */
  lemma PpsCounter(s: RunState, hook: Hook, register: U64)
    requires ValidState(s) && AccountOf(Parameter(hook, 0, 0, 0)) == CurrentAccount
    requires DoCharge(s, hook, register) != s
    ensures var t := DoCharge(s, hook, register);
      t.hits[PpsHits] != s.hits[PpsHits]
      <==> if hook == FastCurve then s.sw.pps && MapPps(s.raw, Wrap32(register)) != Wrap32(register) else !s.sw.boost
  {
  }

  lemma VendorUntouched(sw: Switches, raw: U32, hook: Hook, was: U32)
    requires BandOf(raw) == Vendor
    ensures Target(sw, raw, hook, was) == was
  {
  }

  predicate GaugeInVendorBand(s: RunState, before: seq<Call>, p: nat) {
    var reading := LastSensor(s.cells, before, p);
    (reading >= 580 || reading < 0) && !Lowered(s.sw, before, p, reading)
  }

  /** While every gauge reading a getter returns is in the vendor band and was not clamped before, no
      charge parameter is replaced and no charge counter moves. */
  lemma {:induction false} VendorBandStopsCharging(s: RunState, calls: seq<Call>, c: Counter)
    requires ValidState(s) && BandOf(s.raw) == Vendor && c != TemperatureHits && c != CutoffHits
    requires forall i :: 0 <= i < |calls| && calls[i].TempReturn? && calls[i].cell > 0 ==>
      GaugeInVendorBand(s, calls[..i], calls[i].cell)
    ensures BandOf(Run(s, calls).raw) == Vendor
    ensures Run(s, calls).hits[c] == s.hits[c]
    ensures forall w :: w in Run(s, calls).written && w.Parameter? ==> w in s.written
  {
    if |calls| > 0 {
      var n := |calls| - 1;
      var before, call := calls[..n], calls[n];
      assert forall i :: 0 <= i < n ==> before[..i] == calls[..i];
      VendorBandStopsCharging(s, before, c);
      if call.Charge? {
        VendorUntouched(Run(s, before).sw, Run(s, before).raw, call.hook, Wrap32(call.register));
      } else if call.TempReturn? && call.cell > 0 {
        CellOfRun(s, before, call.cell);
      }
    }
  }
}
