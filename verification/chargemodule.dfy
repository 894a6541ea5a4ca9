/** The charging hooks of src/K100PM_CHG_RUNTIME.c. Each rewrites one argument register of a vendor
    function; a hook on the temperature reading remembers the raw value, on which the others depend,
    before it clamps what the vendor code sees. */
module Charging {
  import opened Words

  datatype Counter = IchgHits | CvHits | CurveHits | PpsHits | ThermalHits | TemperatureHits | CutoffHits

  /** The module parameters. */
  datatype Switches = Switches(boost: bool, pps: bool, thermal: bool, spoof: bool, cutoff: bool,
                               ceiling: U32, cutoffFw: U32, cutoffDelay: U32, cutoffSw: U32)

  type Int32 = x: int | -0x8000_0000 <= x < 0x8000_0000

  /** Conversions between `int` and `unsigned int`. */
  function Unsigned(x: Int32): U32 { if x < 0 then x + TWO32 else x }

  function Signed(x: U32): Int32 { if x < TWO31 then x else x - TWO32 }

  // ----- the tables -----

  datatype Band = Vendor | Hot | Warm | Normal

  /** `k100pm_temperature_band`: the comparison is unsigned. */
  function BandOf(raw: U32): Band {
    if raw >= 580 then Vendor else if raw >= 550 then Hot else if raw >= 480 then Warm else Normal
  }

  /** The currents that `k100pm_apply_temperature_current` lists. */
  predicate InCurrentTable(value: U32) {
    value == 0 || value == 500 || value == 1000 || value == 1200 || value == 1445 || value == 1500
    || value == 2000 || value == 2107 || value == 2400 || value == 2500 || value == 2958 || value == 3000
    || value == 3500 || value == 3880 || value == 4000 || value == 4315 || value == 4500 || value == 5000
    || value == 6000 || value == 6904 || value == 7000 || value == 8000 || value == 8630 || value == 9000
    || value == 10000 || value == 10356 || value == 11000 || value == 12000 || value == 12400
    || value == 12945 || value == 13500 || value == 15000 || value == 17500 || value == 17600
    || value == 18300 || value == 18400 || value == 19400 || value == 20500 || value == 22000
  }

  function ApplyTemperatureCurrent(raw: U32, value: U32): U32 {
    if BandOf(raw) == Hot && InCurrentTable(value) then 4140 else value
  }

  function MapIchg(raw: U32, value: U32): U32 {
    if BandOf(raw) == Vendor then value
    else if BandOf(raw) == Hot then ApplyTemperatureCurrent(raw, value)
    else if value == 12945 then 14270
    else if value == 17600 || value == 18300 || value == 17500 || value == 18400 || value == 4315 || value == 3880
      then 19400
    else value
  }

  function MapCv(raw: U32, value: U32): U32 {
    if BandOf(raw) == Vendor then value
    else if BandOf(raw) == Hot && value >= 4080 then 4120
    else if value == 4530 then 4540
    else if value == 4510 then 4530
    else if value == 4500 || value == 4490 || value == 4080 then 4520
    else value
  }

  function MapFastCurve(raw: U32, value: U32): U32 {
    if BandOf(raw) == Vendor then value
    else if BandOf(raw) == Hot then ApplyTemperatureCurrent(raw, value)
    else if value == 18300 || value == 17600 then 19400
    else if value == 12400 then 16000
    else if value == 10356 then 14000
    else if value == 8630 then 12000
    else if value == 6904 then 10000
    else if value == 2958 || value == 2107 || value == 1445 then 7000
    else value
  }

  function MapPps(raw: U32, value: U32): U32 {
    if BandOf(raw) == Vendor then value
    else if BandOf(raw) == Hot then ApplyTemperatureCurrent(raw, value)
    else if value == 4500 then 5000
    else if value == 11000 then 12000
    else if value == 18400 then 19400
    else value
  }

  /** The targets that `k100pm_map_thermal` lists. */
  predicate InThermalTable(value: U32) {
    value == 500 || value == 1000 || value == 1500 || value == 2000 || value == 2500 || value == 3000
    || value == 3500 || value == 4000 || value == 5000 || value == 6000 || value == 7000 || value == 8000
    || value == 9000 || value == 11000 || value == 13500
  }

  function MapThermal(raw: U32, value: U32): U32 {
    if BandOf(raw) == Vendor then value
    else if BandOf(raw) == Hot then if value == 0 || InThermalTable(value) then 4140 else value
    else if InThermalTable(value) then 15000 else value
  }

  // ----- the hooks as functions -----

  datatype Hook = Ichg | Cv | FastCurve | DivSingle | DivMulti | CurrMax | Thermal

  /** The argument register a hook rewrites. */
  function Register(hook: Hook): nat { if hook.Ichg? || hook.Cv? then 1 else 2 }

  function BoostDiv(value: U32, top: U32): U32 {
    if value == 4500 then 5000 else if value == 11000 then 12000 else if value == 18400 then top else value
  }

  /** The value a hook wants in its register. */
  function Target(sw: Switches, raw: U32, hook: Hook, was: U32): U32 {
    match hook
    case Ichg => if sw.boost then MapIchg(raw, was) else was
    case Cv => if sw.boost then MapCv(raw, was) else was
    case FastCurve =>
      var v := if sw.boost then MapFastCurve(raw, was) else was;
      if sw.pps then MapPps(raw, v) else v
    case DivSingle => DivTarget(sw, raw, was, 20500)
    case DivMulti => DivTarget(sw, raw, was, 22000)
    case CurrMax =>
      if BandOf(raw) == Vendor || !(sw.boost || sw.pps) then was
      else ApplyTemperatureCurrent(raw,
        if sw.boost && was == 17500 then 19400 else if sw.pps then MapPps(raw, was) else was)
    case Thermal => if sw.thermal then MapThermal(raw, was) else was
  }

  function DivTarget(sw: Switches, raw: U32, was: U32, top: U32): U32 {
    if BandOf(raw) == Vendor || !(sw.boost || sw.pps) then was
    else ApplyTemperatureCurrent(raw, if sw.boost then BoostDiv(was, top) else MapPps(raw, was))
  }

  /** The counter a rewrite bumps. */
  function CounterOf(sw: Switches, raw: U32, hook: Hook, was: U32): Counter {
    match hook
    case Ichg => IchgHits
    case Cv => CvHits
    case FastCurve => if sw.pps && MapPps(raw, was) != was then PpsHits else CurveHits
    case DivSingle => if sw.boost then CurveHits else PpsHits
    case DivMulti => if sw.boost then CurveHits else PpsHits
    case CurrMax => if sw.boost then CurveHits else PpsHits
    case Thermal => ThermalHits
  }

  /** What `k100pm_fg_temp_return` leaves for its caller. */
  function Clamped(sw: Switches, reading: Int32): Int32 {
    if sw.spoof && sw.ceiling != 0 && reading > Signed(sw.ceiling) then Signed(sw.ceiling) else reading
  }

  datatype Thresholds = Thresholds(fw: U32, delay: U32, sw: U32)

  predicate ValidThresholds(t: Thresholds) {
    2500 <= t.fw <= 3300 && 2500 <= t.delay <= 3300 && 2500 <= t.sw <= 3300
  }

  function Configured(sw: Switches): Thresholds { Thresholds(sw.cutoffFw, sw.cutoffDelay, sw.cutoffSw) }

  /** What `k100pm_apply_cutoff` leaves. */
  function CutoffTarget(sw: Switches, t: Thresholds): Thresholds {
    if sw.cutoff && ValidThresholds(t) then Configured(sw) else t
  }

  // ----- the hooks as code -----

  type Counters = map<Counter, U32>

  function Bump(hits: Counters, c: Counter): Counters
    requires c in hits
  {
    var n: int := hits[c];
    hits[c := Wrap32(n + 1)]
  }

  class ChargeModule {
    var sw: Switches
    var raw: U32
    var hits: Counters

    constructor (sw: Switches)
      ensures this.sw == sw && raw == 0 && Valid() && hits == NoHits()
    {
      this.sw := sw;
      raw := 0;
      hits := NoHits();
      forall c: Counter
        ensures c in NoHits()
      {
        NoHitsIsTotal(c);
      }
    }

    predicate Valid()
      reads this
    {
      forall c: Counter :: c in hits
    }

    /** `k100pm_count`. */
    method Count(c: Counter)
      requires Valid()
      modifies this`hits
      ensures Valid() && hits == Bump(old(hits), c)
    {
      var n: int := hits[c];
      hits := hits[c := Wrap32(n + 1)];
    }

    /** What every charge hook must do: compare the low half of its register with its target, and
        replace the whole register and count if they differ. */
    twostate predicate Rewrote(regs: array<U64>, hook: Hook)
      requires regs.Length == 31 && old(Valid())
      reads this, regs
    {
      var r := Register(hook);
      var was := Wrap32(old(regs[r]));
      var target := Target(sw, old(raw), hook, was);
      && Valid() && raw == old(raw) && sw == old(sw)
      && regs[..] == (if target == was then old(regs[..]) else old(regs[..])[r := target])
      && hits == if target == was then old(hits) else Bump(old(hits), CounterOf(sw, old(raw), hook, was))
    }

    twostate predicate OnlyRegister(regs: array<U64>, r: nat)
      reads regs
    {
      forall i :: 0 <= i < regs.Length && i != r ==> regs[i] == old(regs[i])
    }

    method IchgEntry(regs: array<U64>)
      requires regs.Length == 31 && Valid()
      modifies this`hits, regs
      ensures Rewrote(regs, Ichg) && OnlyRegister(regs, 1)
    {
      var was := Wrap32(regs[1]);
      if !sw.boost {
        return;
      }
      var value := MapIchg(raw, was);
      if value == was {
        return;
      }
      regs[1] := value;
      Count(IchgHits);
    }

    method CvEntry(regs: array<U64>)
      requires regs.Length == 31 && Valid()
      modifies this`hits, regs
      ensures Rewrote(regs, Cv) && OnlyRegister(regs, 1)
    {
      var was := Wrap32(regs[1]);
      if !sw.boost {
        return;
      }
      var value := MapCv(raw, was);
      if value == was {
        return;
      }
      regs[1] := value;
      Count(CvHits);
    }

    method FastCurveEntry(regs: array<U64>)
      requires regs.Length == 31 && Valid()
      modifies this`hits, regs
      ensures Rewrote(regs, FastCurve) && OnlyRegister(regs, 2)
    {
      var was := Wrap32(regs[2]);
      var value := was;
      if sw.boost {
        value := MapFastCurve(raw, value);
      }
      if sw.pps {
        value := MapPps(raw, value);
      }
      if value == was {
        return;
      }
      regs[2] := value;
      if sw.pps && MapPps(raw, was) != was {
        Count(PpsHits);
      } else {
        Count(CurveHits);
      }
    }

    /** `k100pm_div_single_entry` (top 20500) and `k100pm_div_multi_entry` (top 22000). */
    method DivEntry(regs: array<U64>, multi: bool)
      requires regs.Length == 31 && Valid()
      modifies this`hits, regs
      ensures Rewrote(regs, if multi then DivMulti else DivSingle) && OnlyRegister(regs, 2)
    {
      var was := Wrap32(regs[2]);
      var value := was;
      if BandOf(raw) == Vendor {
        return;
      }
      if sw.boost {
        if value == 4500 {
          value := 5000;
        } else if value == 11000 {
          value := 12000;
        } else if value == 18400 {
          value := if multi then 22000 else 20500;
        }
      } else if sw.pps {
        value := MapPps(raw, value);
      }
      if sw.boost || sw.pps {
        value := ApplyTemperatureCurrent(raw, value);
      }
      if value == was {
        return;
      }
      regs[2] := value;
      if sw.boost {
        Count(CurveHits);
      } else {
        Count(PpsHits);
      }
    }

    method CurrMaxEntry(regs: array<U64>)
      requires regs.Length == 31 && Valid()
      modifies this`hits, regs
      ensures Rewrote(regs, CurrMax) && OnlyRegister(regs, 2)
    {
      var was := Wrap32(regs[2]);
      var value := was;
      if BandOf(raw) == Vendor {
        return;
      }
      if sw.boost && value == 17500 {
        value := 19400;
      } else if sw.pps {
        value := MapPps(raw, value);
      }
      if sw.boost || sw.pps {
        value := ApplyTemperatureCurrent(raw, value);
      }
      if value == was {
        return;
      }
      regs[2] := value;
      if sw.boost {
        Count(CurveHits);
      } else {
        Count(PpsHits);
      }
    }

    method ThermalEntry(regs: array<U64>)
      requires regs.Length == 31 && Valid()
      modifies this`hits, regs
      ensures Rewrote(regs, Thermal) && OnlyRegister(regs, 2)
    {
      var was := Wrap32(regs[2]);
      if !sw.thermal {
        return;
      }
      var value := MapThermal(raw, was);
      if value == was {
        return;
      }
      regs[2] := value;
      Count(ThermalHits);
    }

    /** `k100pm_fg_temp_return`; a null pointer is an array of length 0. */
    method TemperatureReturn(temperature: array<Int32>)
      requires temperature.Length <= 1 && Valid()
      modifies this`raw, this`hits, temperature
      ensures Valid()
      ensures temperature.Length == 0 ==> raw == old(raw) && hits == old(hits)
      ensures temperature.Length == 1 ==>
        var reading := old(temperature[0]);
        && raw == Unsigned(reading) && temperature[0] == Clamped(sw, reading)
        && hits == if Clamped(sw, reading) == reading then old(hits) else Bump(old(hits), TemperatureHits)
    {
      if temperature.Length == 0 {
        return;
      }
      var reading := temperature[0];
      raw := Unsigned(reading);
      if !sw.spoof || sw.ceiling == 0 {
        return;
      }
      if reading <= Signed(sw.ceiling) {
        return;
      }
      temperature[0] := Signed(sw.ceiling);
      Count(TemperatureHits);
    }

    /** `k100pm_apply_cutoff` on the three thresholds of a context; a null context is length 0. */
    method ApplyCutoff(context: array<U32>)
      requires (context.Length == 0 || context.Length == 3) && Valid()
      modifies this`hits, context
      ensures Valid()
      ensures context.Length == 0 ==> hits == old(hits)
      ensures context.Length == 3 ==>
        var was := Thresholds(old(context[0]), old(context[1]), old(context[2]));
        var now := CutoffTarget(sw, was);
        && context[0] == now.fw && context[1] == now.delay && context[2] == now.sw
        && hits == if now == was then old(hits) else Bump(old(hits), CutoffHits)
    {
      if !sw.cutoff || context.Length == 0 {
        return;
      }
      var oldFw, oldDelay, oldSw := context[0], context[1], context[2];
      if !ValidThresholds(Thresholds(oldFw, oldDelay, oldSw)) {
        return;
      }
      if oldFw == sw.cutoffFw && oldDelay == sw.cutoffDelay && oldSw == sw.cutoffSw {
        return;
      }
      context[0] := sw.cutoffFw;
      context[1] := sw.cutoffDelay;
      context[2] := sw.cutoffSw;
      Count(CutoffHits);
    }
  }

  function NoHits(): Counters {
    map[IchgHits := 0, CvHits := 0, CurveHits := 0, PpsHits := 0, ThermalHits := 0,
        TemperatureHits := 0, CutoffHits := 0]
  }

  lemma NoHitsIsTotal(c: Counter)
    ensures c in NoHits() && NoHits()[c] == 0
  {
    match c
    case IchgHits => assert c == IchgHits;
    case CvHits => assert c == CvHits;
    case CurveHits => assert c == CurveHits;
    case PpsHits => assert c == PpsHits;
    case ThermalHits => assert c == ThermalHits;
    case TemperatureHits => assert c == TemperatureHits;
    case CutoffHits => assert c == CutoffHits;
  }

  // ----- single calls -----

  /** At or above 58 degrees, and also below freezing because the comparison is unsigned, no charge
      hook rewrites anything. */
  lemma VendorBandUntouched(sw: Switches, reading: Int32, hook: Hook, was: U32)
    ensures BandOf(Unsigned(reading)) == Vendor <==> reading >= 580 || reading < 0
    ensures reading >= 580 || reading < 0 ==> Target(sw, Unsigned(reading), hook, was) == was
  {
  }

  /** From 55 to 58 degrees a current ends at its old value or at 4140 mA, and a voltage at its old
      value if below 4080 mV and otherwise at 4120 mV. */
  lemma HotBandLimits(sw: Switches, raw: U32, hook: Hook, was: U32)
    requires 550 <= raw < 580
    ensures hook != Cv ==> Target(sw, raw, hook, was) == was || Target(sw, raw, hook, was) == 4140
    ensures hook == Cv && sw.boost ==> Target(sw, raw, hook, was) == if was < 4080 then was else 4120
  {
  }

  /** In the two cooler bands no hook lowers a target. */
  lemma CoolBandsNeverLower(sw: Switches, raw: U32, hook: Hook, was: U32)
    requires raw < 550
    ensures was <= Target(sw, raw, hook, was)
    ensures Target(sw, raw, hook, was) == was || Target(sw, raw, hook, was) <= 22000
  {
  }

  /** With the clamp on, the vendor code sees the smaller of the reading and the ceiling as an `int`;
      without it, or with a ceiling of 0, the reading. */
  lemma ClampIsMinimum(sw: Switches, reading: Int32)
    ensures sw.spoof && 0 < sw.ceiling < TWO31 ==>
      Clamped(sw, reading) == if reading < sw.ceiling then reading else sw.ceiling
    ensures sw.spoof && sw.ceiling >= TWO31 ==>
      Clamped(sw, reading) == if reading < sw.ceiling - TWO32 then reading else sw.ceiling - TWO32
    ensures !sw.spoof || sw.ceiling == 0 ==> Clamped(sw, reading) == reading
  {
  }

  /** Thresholds are replaced by the configured ones if all three are between 2.5 and 3.3 V and the cutoff
      is on, and otherwise kept. */
  lemma CutoffExactly(sw: Switches, t: Thresholds)
    ensures CutoffTarget(sw, t) ==
      if sw.cutoff && 2500 <= t.fw <= 3300 && 2500 <= t.delay <= 3300 && 2500 <= t.sw <= 3300
      then Thresholds(sw.cutoffFw, sw.cutoffDelay, sw.cutoffSw) else t
  {
  }

  /** Applying the cutoff again changes nothing, even if the configured thresholds are not valid. */
  lemma CutoffIsIdempotent(sw: Switches, t: Thresholds)
    ensures CutoffTarget(sw, CutoffTarget(sw, t)) == CutoffTarget(sw, t)
  {
  }

  // ----- the tables, value by value -----

  /** The currents that the hot band limits, and the targets that the thermal hook raises. */
  lemma TablesListed(value: U32)
    ensures InCurrentTable(value) <==>
      value in {0, 500, 1000, 1200, 1445, 1500, 2000, 2107, 2400, 2500, 2958, 3000, 3500, 3880, 4000, 4315, 4500,
                5000, 6000, 6904, 7000, 8000, 8630, 9000, 10000, 10356, 11000, 12000, 12400, 12945, 13500, 15000,
                17500, 17600, 18300, 18400, 19400, 20500, 22000}
    ensures InThermalTable(value) <==>
      value in {500, 1000, 1500, 2000, 2500, 3000, 3500, 4000, 5000, 6000, 7000, 8000, 9000, 11000, 13500}
  {
  }

  function Lookup(table: map<U32, U32>, was: U32): U32 { if was in table then table[was] else was }

  const ICHG_TABLE: map<U32, U32> := map[12945 := 14270, 17600 := 19400, 18300 := 19400, 17500 := 19400,
                                         18400 := 19400, 4315 := 19400, 3880 := 19400]
  const CV_TABLE: map<U32, U32> := map[4530 := 4540, 4510 := 4530, 4500 := 4520, 4490 := 4520, 4080 := 4520]
  const CURVE_TABLE: map<U32, U32> := map[18300 := 19400, 17600 := 19400, 12400 := 16000, 10356 := 14000,
                                          8630 := 12000, 6904 := 10000, 2958 := 7000, 2107 := 7000, 1445 := 7000]
  const PPS_TABLE: map<U32, U32> := map[4500 := 5000, 11000 := 12000, 18400 := 19400]
  const SINGLE_TABLE: map<U32, U32> := map[4500 := 5000, 11000 := 12000, 18400 := 20500]
  const MULTI_TABLE: map<U32, U32> := map[4500 := 5000, 11000 := 12000, 18400 := 22000]

  lemma BuckTables(raw: U32, was: U32)
    requires raw < 550
    ensures MapIchg(raw, was) == Lookup(ICHG_TABLE, was) && MapCv(raw, was) == Lookup(CV_TABLE, was)
  {
  }

  lemma CurveTable(raw: U32, was: U32)
    requires raw < 550
    ensures MapFastCurve(raw, was) == Lookup(CURVE_TABLE, was)
  {
  }

  lemma SmallTables(raw: U32, was: U32)
    requires raw < 550
    ensures MapPps(raw, was) == Lookup(PPS_TABLE, was)
    ensures BoostDiv(was, 20500) == Lookup(SINGLE_TABLE, was) && BoostDiv(was, 22000) == Lookup(MULTI_TABLE, was)
  {
  }

  /** Below 55 degrees each hook sends exactly the values of its table to what the table says, and keeps
      all others; the curve applies the PPS table after its own, the dividers only instead of their own,
      and the cap to all values but the one it raises. */
  lemma CoolTargets(sw: Switches, raw: U32, was: U32)
    requires raw < 550
    ensures Target(sw, raw, Ichg, was) == if sw.boost then Lookup(ICHG_TABLE, was) else was
    ensures Target(sw, raw, Cv, was) == if sw.boost then Lookup(CV_TABLE, was) else was
    ensures Target(sw, raw, FastCurve, was) ==
      var v := if sw.boost then Lookup(CURVE_TABLE, was) else was; if sw.pps then Lookup(PPS_TABLE, v) else v
    ensures Target(sw, raw, DivSingle, was) ==
      if sw.boost then Lookup(SINGLE_TABLE, was) else if sw.pps then Lookup(PPS_TABLE, was) else was
    ensures Target(sw, raw, DivMulti, was) ==
      if sw.boost then Lookup(MULTI_TABLE, was) else if sw.pps then Lookup(PPS_TABLE, was) else was
    ensures Target(sw, raw, CurrMax, was) ==
      if sw.boost && was == 17500 then 19400 else if sw.pps then Lookup(PPS_TABLE, was) else was
    ensures Target(sw, raw, Thermal, was) == if sw.thermal && InThermalTable(was) then 15000 else was
  {
    BuckTables(raw, was);
    SmallTables(raw, was);
    CurveTargets(sw, raw, was);
  }

  lemma CurveTargets(sw: Switches, raw: U32, was: U32)
    requires raw < 550
    ensures Target(sw, raw, FastCurve, was) ==
      var v := if sw.boost then Lookup(CURVE_TABLE, was) else was; if sw.pps then Lookup(PPS_TABLE, v) else v
  {
    CurveTable(raw, was);
    SmallTables(raw, if sw.boost then MapFastCurve(raw, was) else was);
  }

  /** Boost keeps the steps of the fast-charging curve in order and raises each. */
  lemma CurveKeepsOrder(sw: Switches, raw: U32, a: U32, b: U32)
    requires raw < 550 && sw.boost && a in CURVE_TABLE && b in CURVE_TABLE && a <= b
    ensures a < Target(sw, raw, FastCurve, a) <= Target(sw, raw, FastCurve, b) <= 19400
  {
  }

  // ----- what the documentation promises -----

  /** The table in the repository's README.md has bands of 18 to 23, 23 to 48 and 48 to 55 degrees;
      the code treats all readings below 55 degrees alike. */
  lemma CoolBandsAlike(sw: Switches, raw1: U32, raw2: U32, hook: Hook, was: U32)
    requires raw1 < 550 && raw2 < 550
    ensures Target(sw, raw1, hook, was) == Target(sw, raw2, hook, was)
  {
  }

  /** The values below 55 degrees that a hook sends to 19.4 A. */
  predicate SentTo19400(sw: Switches, hook: Hook, was: U32) {
    match hook
    case Ichg => sw.boost && (was == 17600 || was == 18300 || was == 17500 || was == 18400 || was == 4315 || was == 3880)
    case Cv => false
    case FastCurve => (sw.boost && (was == 18300 || was == 17600)) || (sw.pps && was == 18400)
    case DivSingle => !sw.boost && sw.pps && was == 18400
    case DivMulti => !sw.boost && sw.pps && was == 18400
    case CurrMax => (sw.boost && was == 17500) || (sw.pps && was == 18400)
    case Thermal => false
  }

  /** The values from 55 to 58 degrees that a hook sends to 4.14 A. */
  predicate SentTo4140(sw: Switches, hook: Hook, was: U32) {
    match hook
    case Ichg => sw.boost && InCurrentTable(was)
    case Cv => false
    case Thermal => sw.thermal && (was == 0 || InThermalTable(was))
    case _ => (sw.boost || sw.pps) && InCurrentTable(was)
  }

  lemma DocumentedCurrents(sw: Switches, raw: U32, hook: Hook, was: U32)
    requires hook != Cv
    ensures var now := Target(sw, raw, hook, was);
      && (180 <= raw < 230 ==> (now == 14270 <==> was == 14270 || (hook == Ichg && sw.boost && was == 12945)))
      && (230 <= raw < 550 ==> (now == 19400 <==> was == 19400 || SentTo19400(sw, hook, was)))
      && (550 <= raw < 580 ==> (now == 4140 <==> was == 4140 || SentTo4140(sw, hook, was)))
  {
  }

  /** For each row of the table and each column, exactly which values end where it says: 14.27 A from 18
      to 23 degrees; 19.4 A from 23 to 55; 4.54, 4.53 or 4.52 V from 23 to 48; 4.52 V from 48 to 55;
      4.14 A and 4.12 V from 55 to 58; and from 58 on what they were. */
  lemma DocumentedTableExactly(sw: Switches, raw: U32, hook: Hook, was: U32)
    ensures var now := Target(sw, raw, hook, was); var voltage := Target(sw, raw, Cv, was);
      && (180 <= raw < 230 && hook != Cv ==>
            (now == 14270 <==> was == 14270 || (hook == Ichg && sw.boost && was == 12945)))
      && (230 <= raw < 550 && hook != Cv ==> (now == 19400 <==> was == 19400 || SentTo19400(sw, hook, was)))
      && (230 <= raw < 480 ==>
            (voltage in {4540, 4530, 4520} <==>
              was in {4540, 4530, 4520} || (sw.boost && (was == 4510 || was == 4500 || was == 4490 || was == 4080))))
      && (480 <= raw < 550 ==>
            (voltage == 4520 <==> was == 4520 || (sw.boost && (was == 4500 || was == 4490 || was == 4080))))
      && (550 <= raw < 580 && hook != Cv ==> (now == 4140 <==> was == 4140 || SentTo4140(sw, hook, was)))
      && (550 <= raw < 580 ==> (voltage == 4120 <==> was == 4120 || (sw.boost && was >= 4080)))
      && (raw >= 580 ==> now == was)
  {
    if hook != Cv { DocumentedCurrents(sw, raw, hook, was); }
  }

  /** So with everything switched on, each of these rows of the table fails at each of its readings. */
  lemma DocumentedTableFails(sw: Switches, raw: U32)
    requires sw.boost && sw.pps && sw.thermal
    ensures 180 <= raw < 230 ==> Target(sw, raw, Ichg, 17600) == 19400
    ensures 230 <= raw < 550 ==> Target(sw, raw, Ichg, 12945) == 14270
    ensures 230 <= raw < 480 ==> Target(sw, raw, Cv, 4400) == 4400
    ensures 480 <= raw < 550 ==> Target(sw, raw, Cv, 4530) == 4540
    ensures 550 <= raw < 580 ==> Target(sw, raw, Ichg, 4200) == 4200 && Target(sw, raw, Cv, 4000) == 4000
  {
  }
}
