/**
 Masking and unmasking: enable_interrupt and disable_interrupt of cpu/interrupt.c, on top of the controller of
 module `Gic`, and what any sequence of the two leaves of each interrupt.
 */
module Interrupts {
  import opened Options
  import opened Words
  import opened Gic

  // ----- One interrupt's share of the banked registers -----

  datatype Line = Line(enabled: bool, group1: bool, priority: nat, cpus: set<nat>)

  function LineOf(r: Regs, irq: nat): Line
    requires r.Valid() && irq < 1020
  {
    Line(r.Enabled(irq), r.Group1(irq), r.priority[irq], set c: nat | c < 8 && r.Targets(irq, c))
  }

  function Lines(r: Regs): (ls: seq<Line>)
    requires r.Valid()
    ensures |ls| == 1020
  {
    seq(1020, irq requires 0 <= irq < 1020 => LineOf(r, irq))
  }

  function WithCpu(cpus: set<nat>, cpu: nat, on: bool): set<nat> {
    if on then cpus + {cpu} else cpus - {cpu}
  }

  function Unmasked(w: Wiring, l: Line, irq: nat): Line
    requires w.Valid() && irq < 1020
  {
    Line(w.CanEnable(irq) || l.enabled,
         l.group1 && !w.CanGroup(irq),
         0,
         if w.CanTarget(irq, 0) then WithCpu(l.cpus, 0, true) else l.cpus)
  }

  function Masked(w: Wiring, l: Line, irq: nat): Line
    requires w.Valid() && irq < 1020
  {
    l.(enabled := l.enabled && !w.CanEnable(irq),
       cpus := if w.CanTarget(irq, 0) then WithCpu(l.cpus, 0, false) else l.cpus)
  }

  datatype Switch = Switch(irq: nat, on: bool) // rt_hw_interrupt_umask or rt_hw_interrupt_mask

  ghost predicate InBank(ops: seq<Switch>) {
    forall k :: 0 <= k < |ops| ==> ops[k].irq < 1020
  }

  function Toggle(w: Wiring, ls: seq<Line>, op: Switch): (r: seq<Line>)
    requires w.Valid() && |ls| == 1020 && op.irq < 1020
    ensures |r| == 1020
  {
    ls[op.irq := if op.on then Unmasked(w, ls[op.irq], op.irq) else Masked(w, ls[op.irq], op.irq)]
  }

  ghost function ToggleAll(w: Wiring, ls: seq<Line>, ops: seq<Switch>): (r: seq<Line>)
    requires w.Valid() && |ls| == 1020 && InBank(ops)
    ensures |r| == 1020
  {
    if ops == [] then ls else Toggle(w, ToggleAll(w, ls, ops[..|ops| - 1]), ops[|ops| - 1])
  }

  /** Whether the latest of `ops` on `irq`, if any, is an unmask. */
  function Latest(ops: seq<Switch>, irq: nat): Option<bool> {
    if ops == [] then None
    else if ops[|ops| - 1].irq == irq then Some(ops[|ops| - 1].on)
    else Latest(ops[..|ops| - 1], irq)
  }

  ghost predicate EverUnmasked(ops: seq<Switch>, irq: nat) {
    exists k :: 0 <= k < |ops| && ops[k] == Switch(irq, true)
  }

  /** After any history of mask and unmask calls each interrupt is as the latest call on it left it, where
      the controller lets software decide at all, and no call shows in another interrupt of its word. */
  lemma {:induction false} LatestCallDecides(w: Wiring, ls: seq<Line>, ops: seq<Switch>, irq: nat)
    requires w.Valid() && |ls| == 1020 && InBank(ops) && irq < 1020
    ensures var l, now, was := Latest(ops, irq), ToggleAll(w, ls, ops)[irq], ls[irq];
            && now.enabled == (if l.Some? && w.CanEnable(irq) then l.value else was.enabled)
            && (0 in now.cpus) == (if l.Some? && w.CanTarget(irq, 0) then l.value else 0 in was.cpus)
            && now.cpus - {0} == was.cpus - {0}
            && now.group1 == (was.group1 && !(EverUnmasked(ops, irq) && w.CanGroup(irq)))
            && now.priority == (if EverUnmasked(ops, irq) then 0 else was.priority)
  {
    if ops != [] {
      var n := |ops| - 1;
      LatestCallDecides(w, ls, ops[..n], irq);
      assert EverUnmasked(ops, irq) <==> EverUnmasked(ops[..n], irq) || ops[n] == Switch(irq, true) by {
        if EverUnmasked(ops[..n], irq) {
          var k :| 0 <= k < n && ops[..n][k] == Switch(irq, true);
          assert ops[k] == Switch(irq, true);
        }
        if EverUnmasked(ops, irq) {
          var k :| 0 <= k < |ops| && ops[k] == Switch(irq, true);
          if k < n { assert ops[..n][k] == Switch(irq, true); }
        }
      }
    }
  }

  /** The control registers of distributor and CPU interface, and what is pending */
  predicate KeepsInterface(before: Regs, after: Regs) {
    && after.ctlr == before.ctlr && after.cpuCtlr == before.cpuCtlr && after.pmr == before.pmr
    && after.bpr == before.bpr && after.pending == before.pending
  }

  /** enable_interrupt */
  method EnableInterrupt(gic: GicDevice, irq: nat, cpu: nat, priority: nat)
    requires gic.Valid() && irq < 1020 && cpu <= 7
    modifies gic
    ensures gic.Valid() && KeepsInterface(old(gic.regs), gic.regs)
    ensures gic.regs.priority == old(gic.regs.priority)[irq := priority % 256]
    ensures gic.wiring.CanGroup(irq) ==> !Bit(gic.regs.group[irq / 32], irq % 32)
    ensures gic.wiring.CanTarget(irq, cpu) ==> Bit(gic.regs.target[irq], cpu)
    ensures gic.wiring.CanEnable(irq) ==> Bit(gic.regs.enable[irq / 32], irq % 32)
    ensures forall j :: 0 <= j < 1020 ==>
              LineOf(gic.regs, j) ==
                var l := LineOf(old(gic.regs), j);
                if j != irq then l
                else Line(gic.wiring.CanEnable(j) || l.enabled, l.group1 && !gic.wiring.CanGroup(j), priority % 256,
                          if gic.wiring.CanTarget(j, cpu) then WithCpu(l.cpus, cpu, true) else l.cpus)
    ensures forall j :: 0 <= j < 1024 ==>
              gic.regs.Enabled(j) == (old(gic.regs).Enabled(j) || (j == irq && gic.wiring.CanEnable(j)))
  {
    gic.SetIrqPriority(irq, priority);
    gic.SetIrqSecurity(irq, false);
    ghost var before := gic.regs;
    gic.SetCpuTarget(irq, cpu, true);
    ghost var after := gic.regs;
    gic.EnableIrq(irq, true);
    forall j | 0 <= j < 1020
      ensures LineOf(gic.regs, j).cpus ==
              var cpus := LineOf(old(gic.regs), j).cpus;
              if j == irq && gic.wiring.CanTarget(j, cpu) then WithCpu(cpus, cpu, true) else cpus
      ensures gic.regs.Group1(j) == (old(gic.regs).Group1(j) && !(j == irq && gic.wiring.CanGroup(j)))
      ensures gic.regs.Enabled(j) == (old(gic.regs).Enabled(j) || (j == irq && gic.wiring.CanEnable(j)))
    {
      assert before.Group1(j) == after.Group1(j) == gic.regs.Group1(j);
      assert before.Enabled(j) == old(gic.regs).Enabled(j) == after.Enabled(j);
      forall c: nat
        ensures gic.regs.Targets(j, c) ==
                ((j == irq && c == cpu && gic.wiring.CanTarget(j, c)) || old(gic.regs).Targets(j, c))
      {
        assert before.Targets(j, c) == old(gic.regs).Targets(j, c);
        assert after.Targets(j, c) == gic.regs.Targets(j, c);
      }
    }
  }

  /** disable_interrupt */
  method DisableInterrupt(gic: GicDevice, irq: nat, cpu: nat)
    requires gic.Valid() && irq < 1020 && cpu <= 7
    modifies gic
    ensures gic.Valid() && KeepsInterface(old(gic.regs), gic.regs)
    ensures gic.regs.priority == old(gic.regs.priority) && gic.regs.group == old(gic.regs.group)
    ensures gic.wiring.CanTarget(irq, cpu) ==> !Bit(gic.regs.target[irq], cpu)
    ensures gic.wiring.CanEnable(irq) ==> !Bit(gic.regs.enable[irq / 32], irq % 32)
    ensures forall j :: 0 <= j < 1020 ==>
              LineOf(gic.regs, j) ==
                var l := LineOf(old(gic.regs), j);
                if j != irq then l
                else l.(enabled := l.enabled && !gic.wiring.CanEnable(j),
                        cpus := if gic.wiring.CanTarget(j, cpu) then WithCpu(l.cpus, cpu, false) else l.cpus)
    ensures forall j :: 0 <= j < 1024 ==>
              gic.regs.Enabled(j) == (old(gic.regs).Enabled(j) && !(j == irq && gic.wiring.CanEnable(j)))
  {
    gic.EnableIrq(irq, false);
    gic.SetCpuTarget(irq, cpu, false);
    forall j | 0 <= j < 1020
      ensures LineOf(gic.regs, j).cpus ==
              var cpus := LineOf(old(gic.regs), j).cpus;
              if j == irq && gic.wiring.CanTarget(j, cpu) then WithCpu(cpus, cpu, false) else cpus
    {}
  }
}
