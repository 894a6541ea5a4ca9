/** The sparse set of virtual processors that Hyper-V takes (`__cpumask_to_vpset`,
    asm-generic/mshyperv.h): up to 64 banks of 64 bits and a mask of valid banks. */
module VpSets {
  import opened Words

  const BANKS: int := 64
  const VCPUS_PER_BANK: int := 64
  const VP_INVAL: U32 := 0xffff_ffff

  // ----- bits -----

  lemma {:induction false} SetBitTests(b: nat, o: nat, p: nat)
    ensures TestBit(Or(b, Pow2(o)), p) <==> p == o || TestBit(b, p)
  {
    OrStep(b, Pow2(o));
    if o == 0 {
      if p > 0 { OrZero(b / 2); }
    } else if p > 0 {
      SetBitTests(b / 2, o - 1, p - 1);
    }
  }

  /** `__set_bit`. */
  function SetBit(b: U64, o: nat): U64
    requires o < 64
  {
    BitIsWord(o);
    BitwiseBelow(b, Pow2(o), 64);
    Or(b, Pow2(o))
  }

  lemma BitIsWord(o: nat)
    requires o < 64
    ensures Pow2(o) < Pow2(64) == TWO64
  {
    Pow2Values();
    Pow2Monotone(o, 63);
  }

  /** `GENMASK_ULL(h, 0)`. */
  function LowMask(h: nat): U64
    requires h < 64
  {
    And(Wrap64(TWO64 - 1 - 1 + 1), (TWO64 - 1) / Pow2(63 - h))
  }

  lemma LastMultiple(q: nat, p: nat)
    requires p >= 1 && q >= 1
    ensures q * p >= 1 && (q * p - 1) / p == q - 1
  {
    MulStep(q - 1, q, p);
    assert (q - 1) * p + (p - 1) == q * p - 1;
    DivideUnique(q * p - 1, p, q - 1, p - 1);
  }

  lemma AllOnesShifted(h: nat)
    requires h < 64
    ensures (TWO64 - 1) / Pow2(63 - h) == Pow2(h + 1) - 1
  {
    Pow2Values();
    Pow2Sum(h + 1, 63 - h);
    LastMultiple(Pow2(h + 1), Pow2(63 - h));
  }

  lemma LowMaskIsOnes(h: nat)
    requires h < 64
    ensures LowMask(h) == Pow2(h + 1) - 1
  {
    var q := Pow2(h + 1);
    BitIsBelow(h + 1);
    AllOnesShifted(h);
    AndWithAllOnes(q - 1);
  }

  lemma AndWithAllOnes(x: U64)
    ensures And(TWO64 - 1, x) == x
  {
    Pow2Values();
    AndCommutes(TWO64 - 1, x);
    AndLowMask(x, 64);
  }

  lemma BitIsBelow(o: nat)
    requires o <= 64
    ensures Pow2(o) <= Pow2(64) == TWO64
  {
    Pow2Values();
    Pow2Monotone(o, 64);
  }

  lemma {:induction false} OnesTest(k: nat, p: nat)
    ensures TestBit(Pow2(k) - 1, p) <==> p < k
  {
    if k == 0 {
      ZeroTests(p);
    } else {
      assert (Pow2(k) - 1) / 2 == Pow2(k - 1) - 1 && (Pow2(k) - 1) % 2 == 1;
      if p > 0 { OnesTest(k - 1, p - 1); }
    }
  }

  // ----- the set wanted -----

  /** `func`, which may be absent. */
  datatype Skip = NoFunction | Function(skip: nat -> bool)

  predicate Skipped(func: Skip, cpu: nat) { func.Function? && func.skip(cpu) }

  /** Virtual-processor numbers of the processors in the mask that are not skipped. */
  function Wanted(cpus: seq<nat>, func: Skip, vp: nat -> U32): set<nat> {
    if |cpus| == 0 then {}
    else
      var cpu := cpus[|cpus| - 1];
      Wanted(cpus[..|cpus| - 1], func, vp) + if Skipped(func, cpu) then {} else {vp(cpu) as nat}
  }

  /** Which are those that some processor in the mask has whom the given function, if any, does not skip. */
  lemma {:induction false} WantedMeaning(cpus: seq<nat>, func: Skip, vp: nat -> U32, v: nat)
    ensures v in Wanted(cpus, func, vp) <==>
      exists i :: 0 <= i < |cpus| && vp(cpus[i]) == v && (func.NoFunction? || !func.skip(cpus[i]))
  {
    if |cpus| > 0 {
      var n := |cpus| - 1;
      WantedMeaning(cpus[..n], func, vp, v);
      forall i | 0 <= i < n
        ensures cpus[..n][i] == cpus[i]
      {
      }
    }
  }

  /** Some processor in the mask that is not skipped has no number. */
  ghost predicate SomeInvalid(cpus: seq<nat>, func: Skip, vp: nat -> U32) {
    exists i :: 0 <= i < |cpus| && vp(cpus[i]) == 0xffff_ffff && (func.NoFunction? || !func.skip(cpus[i]))
  }

  lemma InvalidWanted(cpus: seq<nat>, func: Skip, vp: nat -> U32)
    ensures SomeInvalid(cpus, func, vp) <==> VP_INVAL as nat in Wanted(cpus, func, vp)
  {
    WantedMeaning(cpus, func, vp, VP_INVAL);
  }

  /** One more than the highest bank in use, or 1. */
  ghost predicate IsBankCount(vps: set<nat>, n: nat) {
    && n >= 1 && (forall v :: v in vps ==> v / 64 < n)
    && (n == 1 || exists v :: v in vps && v / 64 == n - 1)
  }

  class VpSet {
    var validBankMask: U64
    const bankContents: array<U64>

    constructor (banks: nat)
      ensures bankContents.Length == banks && fresh(bankContents)
    {
      bankContents := new U64[banks](_ => 0);
      validBankMask := 0;
    }

    /** What the hypervisor reads: the bits of the valid banks. */
    ghost function Decoded(): set<nat>
      reads this, bankContents
    {
      set v: nat | v < 4096 && v / 64 < bankContents.Length
        && TestBit(validBankMask, v / 64) && TestBit(bankContents[v / 64], v % 64)
    }

    /** The first n banks hold exactly the bits of a set. */
    ghost predicate Holds(n: nat, vps: set<nat>)
      requires n <= bankContents.Length
      reads this, bankContents
    {
      forall b, o :: 0 <= b < n && 0 <= o < 64 ==> (TestBit(bankContents[b], o) <==> 64 * b + o in vps)
    }

    method ClearBanks(n: nat)
      requires n <= bankContents.Length
      modifies bankContents
      ensures Holds(n, {})
      ensures forall b :: n <= b < bankContents.Length ==> bankContents[b] == old(bankContents[b])
    {
      var bank := 0;
      while bank < n
        invariant bank <= n
        invariant forall b :: 0 <= b < bank ==> bankContents[b] == 0
        invariant forall b :: n <= b < bankContents.Length ==> bankContents[b] == old(bankContents[b])
      {
        bankContents[bank] := 0;
        bank := bank + 1;
      }
      forall b, o | 0 <= b < n && 0 <= o < 64
        ensures !TestBit(bankContents[b], o)
      {
        ZeroTests(o);
      }
    }

    method AddVp(n: nat, v: nat, ghost vps: set<nat>)
      requires n <= bankContents.Length && v / 64 < n && Holds(n, vps)
      modifies bankContents
      ensures Holds(n, vps + {v})
      ensures forall b :: n <= b < bankContents.Length ==> bankContents[b] == old(bankContents[b])
    {
      bankContents[v / 64] := SetBit(bankContents[v / 64], v % 64);
      forall b, o | 0 <= b < n && 0 <= o < 64
        ensures TestBit(bankContents[b], o) <==> 64 * b + o in vps + {v}
      {
        assert 64 * b + o == v <==> b == v / 64 && o == v % 64;
        SetBitTests(old(bankContents[v / 64]), v % 64, o);
      }
    }

    /** `__cpumask_to_vpset`: 0 if the banks cannot cover every processor number, -1 if a processor
        that is not skipped has no number, and otherwise the number of banks. */
    method FromCpuMask(cpus: seq<nat>, func: Skip, vp: nat -> U32, maxVpIndex: U32) returns (r: int)
      requires forall i :: 0 <= i < |cpus| && !Skipped(func, cpus[i]) ==>
        vp(cpus[i]) == VP_INVAL || vp(cpus[i]) <= maxVpIndex
      requires maxVpIndex / 64 < BANKS ==> maxVpIndex / 64 < bankContents.Length
      modifies this, bankContents
      ensures r == 0 <==> maxVpIndex / 64 >= BANKS
      ensures r == -1 <==> maxVpIndex / 64 < BANKS && VP_INVAL as nat in Wanted(cpus, func, vp)
      ensures r == -1 <==> maxVpIndex < 4096 && SomeInvalid(cpus, func, vp)
      ensures r == 0 ==> bankContents[..] == old(bankContents[..])
      ensures r <= 0 ==> validBankMask == old(validBankMask)
      ensures r > 0 ==> IsBankCount(Wanted(cpus, func, vp), r) && validBankMask == Pow2(r) - 1
      ensures r > 0 ==> Decoded() == Wanted(cpus, func, vp)
      ensures forall b :: maxVpIndex / 64 < b < bankContents.Length ==> bankContents[b] == old(bankContents[b])
    {
      var maxBank: nat := maxVpIndex / VCPUS_PER_BANK;
      InvalidWanted(cpus, func, vp);
      if maxBank >= BANKS {
        return 0;
      }
      ClearBanks(maxBank + 1);
      r := FillBanks(cpus, func, vp, maxVpIndex, maxBank);
      if r < 0 {
        return;
      }
      LowMaskIsOnes(r - 1);
      validBankMask := LowMask(r - 1);
      DecodedIsWanted(Wanted(cpus, func, vp), r, maxBank + 1);
    }

    /** The loop over the processors: the number of banks in use, or -1 at one without a number. */
    method FillBanks(cpus: seq<nat>, func: Skip, vp: nat -> U32, maxVpIndex: U32, maxBank: nat) returns (r: int)
      requires forall i :: 0 <= i < |cpus| && !Skipped(func, cpus[i]) ==>
        vp(cpus[i]) == VP_INVAL || vp(cpus[i]) <= maxVpIndex
      requires maxBank == maxVpIndex / VCPUS_PER_BANK < BANKS && maxBank < bankContents.Length
      requires Holds(maxBank + 1, {})
      modifies bankContents
      ensures r == -1 || 1 <= r <= maxBank + 1
      ensures r == -1 <==> VP_INVAL as nat in Wanted(cpus, func, vp)
      ensures r > 0 ==> IsBankCount(Wanted(cpus, func, vp), r) && Holds(maxBank + 1, Wanted(cpus, func, vp))
      ensures r > 0 ==> forall v :: v in Wanted(cpus, func, vp) ==> v <= maxVpIndex
      ensures forall b :: maxBank < b < bankContents.Length ==> bankContents[b] == old(bankContents[b])
    {
      var nrBank: nat := 1;
      var i: nat := 0;
      while i < |cpus|
        invariant i <= |cpus|
        invariant Holds(maxBank + 1, Wanted(cpus[..i], func, vp))
        invariant IsBankCount(Wanted(cpus[..i], func, vp), nrBank) && nrBank <= maxBank + 1
        invariant forall v :: v in Wanted(cpus[..i], func, vp) ==> v <= maxVpIndex
        invariant forall b :: maxBank < b < bankContents.Length ==> bankContents[b] == old(bankContents[b])
      {
        var cpu := cpus[i];
        ghost var before := Wanted(cpus[..i], func, vp);
        WantedStep(cpus, func, vp, i);
        i := i + 1;
        if !Skipped(func, cpu) {
          var vcpu := vp(cpu);
          if vcpu == VP_INVAL {
            WantedGrows(cpus, func, vp, i, |cpus|);
            return -1;
          }
          AddVp(maxBank + 1, vcpu, before);
          if vcpu / VCPUS_PER_BANK >= nrBank {
            nrBank := vcpu / VCPUS_PER_BANK + 1;
          }
        }
      }
      assert cpus[..i] == cpus;
      return nrBank;
    }

    lemma DecodedIsWanted(vps: set<nat>, nrBank: nat, n: nat)
      requires n <= bankContents.Length && n <= 64 && nrBank <= 64
      requires Holds(n, vps) && IsBankCount(vps, nrBank) && (forall v :: v in vps ==> v / 64 < n)
      requires n >= 1 && validBankMask == Pow2(nrBank) - 1
      ensures Decoded() == vps
    {
      forall v: nat
        ensures v in Decoded() <==> v in vps
      {
        OnesTest(nrBank, v / 64);
        if v / 64 < n {
          assert 64 * (v / 64) + v % 64 == v;
        }
      }
    }
  }

  lemma WantedStep(cpus: seq<nat>, func: Skip, vp: nat -> U32, i: nat)
    requires i < |cpus|
    ensures Wanted(cpus[..i + 1], func, vp)
         == Wanted(cpus[..i], func, vp) + if Skipped(func, cpus[i]) then {} else {vp(cpus[i]) as nat}
  {
    assert cpus[..i + 1][..i] == cpus[..i];
  }

  lemma {:induction false} WantedGrows(cpus: seq<nat>, func: Skip, vp: nat -> U32, i: nat, j: nat)
    requires i <= j <= |cpus|
    ensures Wanted(cpus[..i], func, vp) <= Wanted(cpus[..j], func, vp)
    ensures cpus[..|cpus|] == cpus
    decreases j
  {
    if i < j {
      WantedGrows(cpus, func, vp, i, j - 1);
      WantedStep(cpus, func, vp, j - 1);
    }
  }
}
