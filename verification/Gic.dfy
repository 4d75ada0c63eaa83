/**
 The interrupt controller routines of cpu/gic.c, over a model of the distributor's registers taken from
 sections 4.3.4 to 4.3.12 of the ARM GIC Architecture Specification v2 (IHI 0048).

 Enable, pending and group state is banked 32 interrupts to a word; priorities and targets are a byte each.
 The code declares eight words of group bits, but numbers from 256 on reach, by address, the words that the
 architecture has behind those. Writing a one to a set (clear) register sets (clears) that bit, writing a zero
 does nothing. `Wiring` says which bits an implementation lets software change: the enable bit of a permanently
 enabled SGI, the pending bits of SGIs and the target bytes of interrupts 0 to 31 are among those it may hold
 fixed.
 */
module Gic {
  import opened Words

  datatype Wiring = Wiring(enable: seq<nat>, pending: seq<nat>, group: seq<nat>, target: seq<nat>) {
    predicate Valid() {
      |enable| == 32 && |pending| == 32 && |group| == 32 && |target| == 1020
    }

    predicate CanEnable(irq: nat)
      requires Valid() && irq < 1024
    {
      Bit(enable[irq / 32], irq % 32)
    }

    predicate CanClearPending(irq: nat)
      requires Valid() && irq < 1024
    {
      Bit(pending[irq / 32], irq % 32)
    }

    predicate CanGroup(irq: nat)
      requires Valid() && irq < 1024
    {
      Bit(group[irq / 32], irq % 32)
    }

    predicate CanTarget(irq: nat, cpu: nat)
      requires Valid() && irq < 1020
    {
      Bit(target[irq], cpu)
    }
  }

  datatype Regs = Regs(ctlr: nat, group: seq<nat>, enable: seq<nat>, pending: seq<nat>, priority: seq<nat>,
                       target: seq<nat>, cpuCtlr: nat, pmr: nat, bpr: nat) {
    predicate Valid() {
      |group| == 32 && |enable| == 32 && |pending| == 32 && |priority| == 1020 && |target| == 1020
    }

    predicate Enabled(irq: nat)
      requires Valid() && irq < 1024
    {
      Bit(enable[irq / 32], irq % 32)
    }

    predicate Pending(irq: nat)
      requires Valid() && irq < 1024
    {
      Bit(pending[irq / 32], irq % 32)
    }

    predicate Group1(irq: nat)
      requires Valid() && irq < 1024
    {
      Bit(group[irq / 32], irq % 32)
    }

    predicate Targets(irq: nat, cpu: nat)
      requires Valid() && irq < 1020
    {
      Bit(target[irq], cpu)
    }

    /** Both distributor group enables are off. */
    predicate Quiet() {
      !Bit(ctlr, 0) && !Bit(ctlr, 1)
    }
  }

  // ----- How a register reacts to a write of `v` when only the bits of `w` can change -----

  function SetOnes(x: nat, v: nat, w: nat): nat { Or(x, And(v, w)) }

  function ClearOnes(x: nat, v: nat, w: nat): nat { AndNot(x, And(v, w)) }

  function Store(x: nat, v: nat, w: nat): nat { Or(AndNot(x, w), And(v, w)) }

  lemma {:induction false} SetOnesBit(x: nat, v: nat, w: nat, k: nat)
    ensures Bit(SetOnes(x, v, w), k) <==> Bit(x, k) || (Bit(v, k) && Bit(w, k))
  {
    OrBit(x, And(v, w), k);
    AndBit(v, w, k);
  }

  lemma {:induction false} ClearOnesBit(x: nat, v: nat, w: nat, k: nat)
    ensures Bit(ClearOnes(x, v, w), k) <==> Bit(x, k) && !(Bit(v, k) && Bit(w, k))
  {
    AndNotBit(x, And(v, w), k);
    AndBit(v, w, k);
  }

  lemma {:induction false} StoreBit(x: nat, v: nat, w: nat, k: nat)
    ensures Bit(Store(x, v, w), k) <==> if Bit(w, k) then Bit(v, k) else Bit(x, k)
  {
    OrBit(AndNot(x, w), And(v, w), k);
    AndNotBit(x, w, k);
    AndBit(v, w, k);
  }

  lemma {:induction false} ByteMask(x: nat)
    ensures And(x, 0xff) == x % 256
  {
    Pow2Known();
    LowMask(x, 8);
    ShrIs(x, 8);
  }

  // ----- cpu/gic.c -----

  class GicDevice {
    const wiring: Wiring
    var regs: Regs
    ghost var log: seq<Regs> // every register state since reset, in order

    ghost predicate Valid()
      reads this
    {
      wiring.Valid() && regs.Valid()
    }

    constructor (wiring: Wiring, reset: Regs)
      requires wiring.Valid() && reset.Valid()
      ensures Valid() && this.wiring == wiring && regs == reset && log == []
    {
      this.wiring, regs, log := wiring, reset, [];
    }

    method Become(r: Regs)
      requires Valid() && r.Valid()
      modifies this
      ensures Valid() && regs == r && log == old(log) + [r]
    {
      regs := r;
      log := log + [r];
    }

    /** gic_enable */
    method Enable(enableIt: bool)
      requires Valid()
      modifies this
      ensures Valid() && log == old(log) + [regs]
      ensures forall k: nat :: Bit(regs.ctlr, k) == if k < 2 then enableIt else Bit(old(regs.ctlr), k)
      ensures regs == old(regs).(ctlr := regs.ctlr)
    {
      var ctlr := if enableIt then Or(regs.ctlr, 3) else AndNot(regs.ctlr, 3);
      LowTwo(regs.ctlr);
      Become(regs.(ctlr := ctlr));
    }

    /** gic_set_irq_security: the bit is set for "secure", whatever the architecture calls it. */
    method SetIrqSecurity(irq: nat, isSecure: bool)
      requires Valid() && irq < 1024
      modifies this
      ensures Valid() && log == old(log) + [regs] && regs == old(regs).(group := regs.group)
      ensures forall j :: 0 <= j < 1024 ==>
                regs.Group1(j) == if j == irq && wiring.CanGroup(j) then isSecure else old(regs).Group1(j)
    {
      var reg, mask := irq / 32, Pow2(irq % 32);
      var value := regs.group[reg];
      value := if !isSecure then AndNot(value, mask) else Or(value, mask);
      ghost var before := regs.group[reg];
      Become(regs.(group := regs.group[reg := Store(regs.group[reg], value, wiring.group[reg])]));
      forall j | 0 <= j < 1024
        ensures regs.Group1(j) == if j == irq && wiring.CanGroup(j) then isSecure else old(regs).Group1(j)
      {
        StoreBit(before, value, wiring.group[reg], j % 32);
        AndNotBit(before, mask, j % 32);
        OrBit(before, mask, j % 32);
        Pow2Bit(irq % 32, j % 32);
      }
    }

    /** gic_enable_irq */
    method EnableIrq(irq: nat, isEnabled: bool)
      requires Valid() && irq < 1024
      modifies this
      ensures Valid() && log == old(log) + [regs] && regs == old(regs).(enable := regs.enable)
      ensures forall j :: 0 <= j < 1024 ==>
                regs.Enabled(j) == if j == irq && wiring.CanEnable(j) then isEnabled else old(regs).Enabled(j)
    {
      var reg, mask := irq / 32, Pow2(irq % 32);
      ghost var before := regs.enable[reg];
      if isEnabled {
        Become(regs.(enable := regs.enable[reg := SetOnes(regs.enable[reg], mask, wiring.enable[reg])]));
      } else {
        Become(regs.(enable := regs.enable[reg := ClearOnes(regs.enable[reg], mask, wiring.enable[reg])]));
      }
      forall j | 0 <= j < 1024
        ensures regs.Enabled(j) == if j == irq && wiring.CanEnable(j) then isEnabled else old(regs).Enabled(j)
      {
        SetOnesBit(before, mask, wiring.enable[reg], j % 32);
        ClearOnesBit(before, mask, wiring.enable[reg], j % 32);
        Pow2Bit(irq % 32, j % 32);
      }
    }

    /** gic_set_irq_priority */
    method SetIrqPriority(irq: nat, priority: nat)
      requires Valid() && irq < 1020
      modifies this
      ensures Valid() && log == old(log) + [regs]
      ensures regs == old(regs).(priority := old(regs).priority[irq := priority % 256])
    {
      ByteMask(priority);
      Become(regs.(priority := regs.priority[irq := And(priority, 0xff)]));
    }

    /** gic_set_cpu_target */
    method SetCpuTarget(irq: nat, cpu: nat, enableIt: bool)
      requires Valid() && irq < 1020 && cpu <= 7
      modifies this
      ensures Valid() && log == old(log) + [regs] && regs == old(regs).(target := regs.target)
      ensures forall j, c: nat :: 0 <= j < 1020 ==>
                regs.Targets(j, c) ==
                if j == irq && c == cpu && wiring.CanTarget(j, c) then enableIt else old(regs).Targets(j, c)
    {
      var mask := Pow2(cpu);
      ghost var before := regs.target[irq];
      var value := if enableIt then Or(regs.target[irq], mask) else AndNot(regs.target[irq], mask);
      Become(regs.(target := regs.target[irq := Store(regs.target[irq], value, wiring.target[irq])]));
      forall j, c: nat | 0 <= j < 1020
        ensures regs.Targets(j, c) ==
                if j == irq && c == cpu && wiring.CanTarget(j, c) then enableIt else old(regs).Targets(j, c)
      {
        StoreBit(before, value, wiring.target[irq], c);
        AndNotBit(before, mask, c);
        OrBit(before, mask, c);
        Pow2Bit(cpu, c);
      }
    }

    /** gic_init_cpu */
    method InitCpu()
      requires Valid()
      modifies this
      ensures Valid() && |log| == |old(log)| + 3 && log[..|old(log)|] == old(log) && log[|log| - 1] == regs
      ensures forall k :: |old(log)| <= k < |log| ==> log[k].ctlr == old(regs).ctlr
      ensures regs == old(regs).(pmr := 0xff, bpr := 7, cpuCtlr := regs.cpuCtlr)
      ensures forall k: nat :: Bit(regs.cpuCtlr, k) == (k < 2 || Bit(old(regs.cpuCtlr), k))
    {
      LowTwo(regs.cpuCtlr);
      Become(regs.(pmr := And(0xff, 0xff)));
      ByteMask(0xff);
      Become(regs.(bpr := 7));
      Become(regs.(cpuCtlr := Or(regs.cpuCtlr, 3)));
    }

    /** gic_init. The distributor stays disabled from its first write to its last, every pending and group
        bit that can be cleared is, the group bits only up to interrupt 255, and no unrelated control bit
        changes. */
    method Init()
      requires Valid()
      modifies this
      ensures Valid() && |log| == |old(log)| + 45 && log[..|old(log)|] == old(log) && log[|log| - 1] == regs
      ensures forall k :: |old(log)| <= k < |log| - 1 ==> log[k].Quiet()
      ensures forall i :: 0 <= i < 1024 ==> regs.Pending(i) == (old(regs).Pending(i) && !wiring.CanClearPending(i))
      ensures forall i :: 0 <= i < 1024 ==>
                regs.Group1(i) == (old(regs).Group1(i) && !(i < 256 && wiring.CanGroup(i)))
      ensures forall k: nat :: Bit(regs.ctlr, k) == (k < 2 || Bit(old(regs.ctlr), k))
      ensures forall k: nat :: Bit(regs.cpuCtlr, k) == (k < 2 || Bit(old(regs.cpuCtlr), k))
      ensures regs.pmr == 0xff && regs.bpr == 7
      ensures regs.enable == old(regs.enable) && regs.priority == old(regs.priority) && regs.target == old(regs.target)
    {
      ghost var n := |log|;
      Enable(false);
      ghost var off := regs;
      var i := 0;
      while i < 32
        invariant 0 <= i <= 32 && Valid() && |log| == n + 1 + i && log[..n] == old(log)
        invariant regs == off.(pending := regs.pending)
        invariant forall k :: n <= k < |log| ==> log[k].ctlr == off.ctlr
        invariant forall j :: 0 <= j < 32 ==>
          regs.pending[j] == if j < i then ClearOnes(off.pending[j], 0xffff_ffff, wiring.pending[j]) else off.pending[j]
      {
        Become(regs.(pending := regs.pending[i := ClearOnes(regs.pending[i], 0xffff_ffff, wiring.pending[i])]));
        i := i + 1;
      }
      i := 0;
      ghost var cleared := regs.pending;
      while i < 8
        invariant 0 <= i <= 8 && Valid() && |log| == n + 33 + i && log[..n] == old(log)
        invariant regs == off.(pending := cleared, group := regs.group)
        invariant forall k :: n <= k < |log| ==> log[k].ctlr == off.ctlr
        invariant forall j :: 0 <= j < 32 ==>
          regs.group[j] == if j < i then Store(off.group[j], 0, wiring.group[j]) else off.group[j]
      {
        Become(regs.(group := regs.group[i := Store(regs.group[i], 0, wiring.group[i])]));
        i := i + 1;
      }
      InitCpu();
      Enable(true);
      AllOnes();
      forall i | 0 <= i < 1024
        ensures regs.Pending(i) == (old(regs).Pending(i) && !wiring.CanClearPending(i))
      {
        ClearOnesBit(off.pending[i / 32], 0xffff_ffff, wiring.pending[i / 32], i % 32);
      }
      forall i | 0 <= i < 1024
        ensures regs.Group1(i) == (old(regs).Group1(i) && !(i < 256 && wiring.CanGroup(i)))
      {
        StoreBit(off.group[i / 32], 0, wiring.group[i / 32], i % 32);
        ZeroBit(i % 32);
      }
    }
  }

  lemma {:induction false} LowTwo(x: nat)
    ensures forall k: nat :: Bit(Or(x, 3), k) == (k < 2 || Bit(x, k))
    ensures forall k: nat :: Bit(AndNot(x, 3), k) == (k >= 2 && Bit(x, k))
  {
    assert Pow2(2) - 1 == 3;
    forall k: nat
      ensures Bit(Or(x, 3), k) == (k < 2 || Bit(x, k)) && Bit(AndNot(x, 3), k) == (k >= 2 && Bit(x, k))
    {
      OrBit(x, 3, k);
      AndNotBit(x, 3, k);
      OnesBit(2, k);
    }
  }

  lemma AllOnes()
    ensures forall k: nat :: k < 32 ==> Bit(0xffff_ffff, k)
  {
    Pow2Known();
    forall k: nat | k < 32 ensures Bit(0xffff_ffff, k) { OnesBit(32, k); }
  }
}
