/**
 The handler table and rt_hw_trap_irq (cpu/interrupt.c:22-106, cpu/trap.c:132-174).

 What the rest of the system does is a parameter: which word the controller's acknowledge register
 returns, and which calls a running handler makes back into this module.
 */
module Dispatch {
  import opened Options
  import opened Words
  import opened Gic
  import opened Interrupts

  const MAX_HANDLERS := 160
  const NULL := 0
  const WRAP := 0x1_0000_0000

  datatype IrqDesc = IrqDesc(handler: nat, param: nat, counter: nat)

  const EMPTY := IrqDesc(NULL, 0, 0)

  datatype Op =
    | Init
    | Install(vector: nat, handler: nat, param: nat)
    | Mask(vector: nat)
    | Unmask(vector: nat)

  datatype Event =
    | Api(op: Op)
    | Trap(ack: nat, body: seq<Op>)

  /** One entry of the history: a call into this module, an access to an interface register of the
      controller, or the call of a handler. */
  datatype Obs =
    | Did(op: Op)
    | Ack(word: nat)
    | Called(irq: nat, handler: nat, param: nat)
    | Eoi(word: nat)

  // ----- What the history says -----

  predicate Installs(o: Obs, v: nat) {
    o.Did? && o.op.Install? && o.op.vector == v && o.op.handler != NULL
  }

  predicate Spurious(word: nat) { And(word, 0x200) != 0 }

  predicate Counts(o: Obs, v: nat) {
    o.Ack? && !Spurious(o.word) && And(o.word, 0x1FF) == v
  }

  /** The handler and parameter most recently installed for v since the last initialization. */
  function Installed(h: seq<Obs>, v: nat): Option<(nat, nat)> {
    if h == [] || h[|h| - 1] == Did(Init) then None
    else if Installs(h[|h| - 1], v) then Some((h[|h| - 1].op.handler, h[|h| - 1].op.param))
    else Installed(h[..|h| - 1], v)
  }

  /** The traps on v since its last installation or initialization. */
  function TrapsSince(h: seq<Obs>, v: nat): nat {
    if h == [] || h[|h| - 1] == Did(Init) || Installs(h[|h| - 1], v) then 0
    else TrapsSince(h[..|h| - 1], v) + if Counts(h[|h| - 1], v) then 1 else 0
  }

  /** Where the history stands in the acknowledge, handle, end-of-interrupt protocol. */
  datatype Phase = Idle | Acked(word: nat) | Handling(word: nat) | Broken

  /** An acknowledged word must be ended with the identical word: at once if it is spurious or has no
      handler, else after the call of exactly the handler and parameter installed for it. */
  function PhaseOf(h: seq<Obs>): Phase {
    if h == [] then Idle
    else
      var before, o := h[..|h| - 1], h[|h| - 1];
      match PhaseOf(before)
      case Idle => (match o case Did(_) => Idle case Ack(w) => Acked(w) case _ => Broken)
      case Acked(w) =>
        var irq := And(w, 0x1FF);
        var handler := if Spurious(w) then None else Installed(before, irq);
        if handler.None? && o == Eoi(w) then Idle
        else if handler.Some? && o == Called(irq, handler.value.0, handler.value.1) then Handling(w)
        else Broken
      case Handling(w) =>
        (match o case Did(_) => Handling(w) case Eoi(x) => if x == w then Idle else Broken case _ => Broken)
      case Broken => Broken
  }

  /** No acknowledged word waits to be handled or ended. */
  predicate TakesCalls(h: seq<Obs>) {
    PhaseOf(h).Idle? || PhaseOf(h).Handling?
  }

  /** The table is what the history says it is. */
  ghost predicate Agrees(table: seq<IrqDesc>, h: seq<Obs>) {
    && |table| == MAX_HANDLERS
    && forall v :: 0 <= v < MAX_HANDLERS ==>
         && (match Installed(h, v)
             case None => table[v].handler == NULL
             case Some(hp) => table[v].handler == hp.0 && table[v].param == hp.1 && hp.0 != NULL)
         && table[v].counter == TrapsSince(h, v) % WRAP
  }

  // ----- The machine: handler table and enabled interrupts -----

  datatype Sys = Sys(table: seq<IrqDesc>, enabled: set<nat>)

  function OpStep(can: set<nat>, s: Sys, op: Op): Sys
    requires |s.table| == MAX_HANDLERS
  {
    match op
    case Init => s.(table := seq(MAX_HANDLERS, _ => EMPTY))
    case Install(v, h, p) =>
      if v < MAX_HANDLERS && h != NULL then s.(table := s.table[v := IrqDesc(h, p, 0)]) else s
    case Mask(v) => if v in can then s.(enabled := s.enabled - {v}) else s
    case Unmask(v) => if v in can then s.(enabled := s.enabled + {v}) else s
  }

  ghost function OpsStep(can: set<nat>, s: Sys, ops: seq<Op>): (r: Sys)
    requires |s.table| == MAX_HANDLERS
    ensures |r.table| == MAX_HANDLERS
    decreases |ops|
  {
    if ops == [] then s else OpsStep(can, OpStep(can, s, ops[0]), ops[1..])
  }

  function OpsSeen(ops: seq<Op>): (h: seq<Obs>)
    ensures |h| == |ops|
  {
    seq(|ops|, k requires 0 <= k < |ops| => Did(ops[k]))
  }

  /** The index that dispatch uses is inside the table. */
  predicate Safe(ev: Event) {
    ev.Trap? && !Spurious(ev.ack) ==> And(ev.ack, 0x1FF) < MAX_HANDLERS
  }

  function Counted(s: Sys, irq: nat): Sys
    requires irq < |s.table|
  {
    s.(table := s.table[irq := s.table[irq].(counter := (s.table[irq].counter + 1) % WRAP)])
  }

  ghost function Step(can: set<nat>, s: Sys, ev: Event): (r: Sys)
    requires |s.table| == MAX_HANDLERS && Safe(ev)
    ensures |r.table| == MAX_HANDLERS
  {
    match ev
    case Api(op) => OpStep(can, s, op)
    case Trap(ack, body) =>
      if Spurious(ack) then s
      else
        var irq := And(ack, 0x1FF);
        if s.table[irq].handler == NULL then Counted(s, irq) else OpsStep(can, Counted(s, irq), body)
  }

  ghost function Seen(s: Sys, ev: Event): seq<Obs>
    requires |s.table| == MAX_HANDLERS && Safe(ev)
  {
    match ev
    case Api(op) => [Did(op)]
    case Trap(ack, body) =>
      var irq := And(ack, 0x1FF);
      if Spurious(ack) || s.table[irq].handler == NULL then [Ack(ack), Eoi(ack)]
      else [Ack(ack), Called(irq, s.table[irq].handler, s.table[irq].param)] + OpsSeen(body) + [Eoi(ack)]
  }

  // ----- Every run is safe exactly when no interrupt between the table and the spurious range is live -----

  predicate OpInRange(op: Op) {
    op.Mask? || op.Unmask? ==> op.vector < MAX_HANDLERS
  }

  /** The controller acknowledges an enabled interrupt (bits 12:10 name the CPU of a software-generated
      one) or a spurious number. */
  predicate CanAck(s: Sys, ack: nat) {
    ack < 0x2000 && (ack % 1024 in s.enabled || ack % 1024 == 1022 || ack % 1024 == 1023)
  }

  ghost predicate Possible(s: Sys, ev: Event) {
    match ev
    case Api(op) => OpInRange(op)
    case Trap(ack, body) => CanAck(s, ack) && forall k :: 0 <= k < |body| ==> OpInRange(body[k])
  }

  /** `evs` can happen from `s`, up to and including the first unsafe trap. */
  ghost predicate Run(can: set<nat>, s: Sys, evs: seq<Event>)
    requires |s.table| == MAX_HANDLERS
    decreases |evs|
  {
    evs == [] ||
    (Possible(s, evs[0]) && (Safe(evs[0]) ==> Run(can, Step(can, s, evs[0]), evs[1..])))
  }

  ghost predicate SafeRun(evs: seq<Event>) {
    forall k :: 0 <= k < |evs| ==> Safe(evs[k])
  }

  /** The numbers that index past the table without counting as spurious. */
  predicate Stray(irq: nat) { MAX_HANDLERS <= irq < 512 }

  ghost predicate NoStray(s: Sys) {
    forall irq: nat :: irq in s.enabled ==> !Stray(irq)
  }

  lemma {:induction false} AckFields(ack: nat)
    ensures Spurious(ack) <==> ack / 512 % 2 == 1
    ensures And(ack, 0x1FF) == ack % 512
  {
    Pow2Known();
    LowMask(ack, 9);
    ShrIs(ack, 9);
    FieldMask(ack, 1, 9);
    ShlIs(1, 9);
    ShrIs(Shr(ack, 9), 1);
    ShlIs(Low(Shr(ack, 9), 1), 9);
  }

  lemma {:induction false} LowTenBits(ack: nat)
    ensures ack % 1024 == ack / 512 % 2 * 512 + ack % 512
  {}

  lemma {:induction false} NoStrayIsSafe(s: Sys, ev: Event)
    requires NoStray(s) && Possible(s, ev)
    ensures Safe(ev)
  {
    if ev.Trap? {
      AckFields(ev.ack);
      LowTenBits(ev.ack);
    }
  }

  lemma {:induction false} OpsKeepNoStray(can: set<nat>, s: Sys, ops: seq<Op>)
    requires |s.table| == MAX_HANDLERS && NoStray(s)
    requires forall k :: 0 <= k < |ops| ==> OpInRange(ops[k])
    ensures NoStray(OpsStep(can, s, ops))
    decreases |ops|
  {
    if ops != [] {
      assert OpInRange(ops[0]);
      OpsKeepNoStray(can, OpStep(can, s, ops[0]), ops[1..]);
    }
  }

  lemma {:induction false} StepKeepsNoStray(can: set<nat>, s: Sys, ev: Event)
    requires |s.table| == MAX_HANDLERS && NoStray(s) && Possible(s, ev) && Safe(ev)
    ensures NoStray(Step(can, s, ev))
  {
    if ev.Trap? && !Spurious(ev.ack) {
      OpsKeepNoStray(can, Counted(s, And(ev.ack, 0x1FF)), ev.body);
    }
  }

  lemma {:induction false} NoStrayRunsSafely(can: set<nat>, s: Sys, evs: seq<Event>)
    requires |s.table| == MAX_HANDLERS && NoStray(s) && Run(can, s, evs)
    ensures SafeRun(evs)
    decreases |evs|
  {
    if evs != [] {
      NoStrayIsSafe(s, evs[0]);
      StepKeepsNoStray(can, s, evs[0]);
      NoStrayRunsSafely(can, Step(can, s, evs[0]), evs[1..]);
      forall k | 0 <= k < |evs| ensures Safe(evs[k]) {
        if k > 0 { assert evs[k] == evs[1..][k - 1]; }
      }
    }
  }

  /** With vectors kept below 160, dispatch stays inside the table over every run exactly when no interrupt
      numbered 160 to 511 is enabled to begin with. Neither the hardware nor gic_init guarantees that. */
  lemma {:induction false} SafeExactlyWithoutStray(can: set<nat>, s: Sys)
    requires |s.table| == MAX_HANDLERS
    ensures NoStray(s) <==> forall evs :: Run(can, s, evs) ==> SafeRun(evs)
  {
    if NoStray(s) {
      forall evs | Run(can, s, evs) ensures SafeRun(evs) {
        NoStrayRunsSafely(can, s, evs);
      }
    } else {
      var irq: nat :| irq in s.enabled && Stray(irq);
      StrayIsUnsafe(can, s, irq);
    }
  }

  lemma {:induction false} BelowSpurious(irq: nat)
    requires irq < 512
    ensures !Spurious(irq) && And(irq, 0x1FF) == irq
  {
    AckFields(irq);
  }

  lemma {:induction false} StrayTrap(s: Sys, irq: nat)
    requires irq in s.enabled && Stray(irq)
    ensures CanAck(s, irq) && !Safe(Trap(irq, []))
  {
    BelowSpurious(irq);
    assert irq % 1024 == irq;
  }

  /** One trap on such a number is a possible run, and it indexes past the table. */
  lemma {:induction false} StrayIsUnsafe(can: set<nat>, s: Sys, irq: nat)
    requires |s.table| == MAX_HANDLERS && irq in s.enabled && Stray(irq)
    ensures Run(can, s, [Trap(irq, [])]) && !SafeRun([Trap(irq, [])])
  {
    StrayTrap(s, irq);
    var evs := [Trap(irq, [])];
    assert Possible(s, evs[0]) && !Safe(evs[0]);
  }

  // ----- The history of every run -----

  lemma {:induction false} Snoc(h: seq<Obs>, o: Obs)
    ensures (h + [o])[..|h|] == h && (h + [o])[|h + [o]| - 1] == o && h + [o] != []
  {}

  lemma {:induction false} OpAgrees(can: set<nat>, s: Sys, h: seq<Obs>, op: Op)
    requires Agrees(s.table, h)
    ensures Agrees(OpStep(can, s, op).table, h + [Did(op)])
    ensures TakesCalls(h) ==> PhaseOf(h + [Did(op)]) == PhaseOf(h)
  {
    Snoc(h, Did(op));
  }

  lemma {:induction false} OpsAgree(can: set<nat>, s: Sys, h: seq<Obs>, ops: seq<Op>)
    requires Agrees(s.table, h)
    ensures Agrees(OpsStep(can, s, ops).table, h + OpsSeen(ops))
    ensures TakesCalls(h) ==> PhaseOf(h + OpsSeen(ops)) == PhaseOf(h)
    decreases |ops|
  {
    if ops == [] {
      assert h + OpsSeen(ops) == h;
    } else {
      OpAgrees(can, s, h, ops[0]);
      OpsAgree(can, OpStep(can, s, ops[0]), h + [Did(ops[0])], ops[1..]);
      assert h + OpsSeen(ops) == h + [Did(ops[0])] + OpsSeen(ops[1..]);
    }
  }

  /** The protocol is broken by anything but what it asks for next. */
  lemma {:induction false} ProtocolIsStrict(h: seq<Obs>, o: Obs)
    ensures PhaseOf(h).Idle? ==> (PhaseOf(h + [o]).Broken? <==> o.Called? || o.Eoi?)
    ensures PhaseOf(h).Handling? ==>
              (PhaseOf(h + [o]).Broken? <==> o.Ack? || o.Called? || (o.Eoi? && o.word != PhaseOf(h).word))
    ensures PhaseOf(h).Acked? ==>
              var w := PhaseOf(h).word;
              var hp := Installed(h, w % 512);
              if w / 512 % 2 == 1 || hp.None? then PhaseOf(h + [o]).Broken? <==> o != Eoi(w)
              else PhaseOf(h + [o]).Broken? <==> o != Called(w % 512, hp.value.0, hp.value.1)
    ensures PhaseOf(h).Broken? ==> PhaseOf(h + [o]).Broken?
  {
    Snoc(h, o);
    if PhaseOf(h).Acked? { AckFields(PhaseOf(h).word); }
  }

  lemma {:induction false} AckPhase(h: seq<Obs>, ack: nat)
    requires PhaseOf(h).Idle?
    ensures PhaseOf(h + [Ack(ack)]) == Acked(ack)
    ensures forall v: nat :: Installed(h + [Ack(ack)], v) == Installed(h, v)
  {
    Snoc(h, Ack(ack));
  }

  lemma {:induction false} SpuriousAgrees(s: Sys, h: seq<Obs>, ack: nat)
    requires Agrees(s.table, h) && Spurious(ack)
    ensures Agrees(s.table, h + [Ack(ack)])
  {
    Snoc(h, Ack(ack));
  }

  /** Acknowledging counts the trap. */
  lemma {:induction false} CountAgrees(s: Sys, h: seq<Obs>, ack: nat)
    requires Agrees(s.table, h) && !Spurious(ack) && And(ack, 0x1FF) < MAX_HANDLERS
    ensures Agrees(Counted(s, And(ack, 0x1FF)).table, h + [Ack(ack)])
  {
    var irq := And(ack, 0x1FF);
    Snoc(h, Ack(ack));
    forall v | 0 <= v < MAX_HANDLERS
      ensures TrapsSince(h + [Ack(ack)], v) == TrapsSince(h, v) + if v == irq then 1 else 0
    {}
    CountWraps(s.table[irq].counter, TrapsSince(h, irq));
  }

  /** What counts as a trap on v: an acknowledge whose bit 9 is clear and whose low nine bits are v. */
  lemma {:induction false} TrapCounts(h: seq<Obs>, word: nat, v: nat)
    ensures TrapsSince(h + [Ack(word)], v) ==
            TrapsSince(h, v) + if word / 512 % 2 == 0 && word % 512 == v then 1 else 0
  {
    Snoc(h, Ack(word));
    AckFields(word);
  }

  /** What an installation leaves for a vector: the handler, its parameter, and no trap counted. */
  lemma {:induction false} InstallStarts(h: seq<Obs>, v: nat, handler: nat, param: nat)
    requires handler != 0
    ensures var h' := h + [Did(Install(v, handler, param))];
            Installed(h', v) == Some((handler, param)) && TrapsSince(h', v) == 0
    ensures forall w: nat :: w != v ==>
              var h' := h + [Did(Install(v, handler, param))];
              Installed(h', w) == Installed(h, w) && TrapsSince(h', w) == TrapsSince(h, w)
  {
    Snoc(h, Did(Install(v, handler, param)));
  }

  lemma {:induction false} CountWraps(c: nat, n: nat)
    requires c == n % WRAP
    ensures (c + 1) % WRAP == (n + 1) % WRAP
  {}

  lemma {:induction false} CallAgrees(s: Sys, h: seq<Obs>, ack: nat)
    requires Agrees(s.table, h) && PhaseOf(h) == Acked(ack)
    requires h != [] && h[|h| - 1] == Ack(ack) && !Spurious(ack)
    requires And(ack, 0x1FF) < MAX_HANDLERS && s.table[And(ack, 0x1FF)].handler != NULL
    ensures var irq := And(ack, 0x1FF);
            var h' := h + [Called(irq, s.table[irq].handler, s.table[irq].param)];
            PhaseOf(h') == Handling(ack) && Agrees(s.table, h')
  {
    var irq := And(ack, 0x1FF);
    Snoc(h, Called(irq, s.table[irq].handler, s.table[irq].param));
  }

  lemma {:induction false} EoiAgrees(s: Sys, h: seq<Obs>, ack: nat)
    requires Agrees(s.table, h)
    requires PhaseOf(h) == Handling(ack) ||
             (PhaseOf(h) == Acked(ack) && (Spurious(ack) || Installed(h, And(ack, 0x1FF)).None?))
    ensures PhaseOf(h + [Eoi(ack)]).Idle? && Agrees(s.table, h + [Eoi(ack)])
  {
    Snoc(h, Eoi(ack));
  }

  /** A trap that calls no handler: spurious, or nothing installed. */
  lemma {:induction false} QuietTrapAgrees(s: Sys, h: seq<Obs>, ack: nat)
    requires Agrees(s.table, h) && PhaseOf(h).Idle? && Safe(Trap(ack, []))
    requires Spurious(ack) || s.table[And(ack, 0x1FF)].handler == NULL
    ensures PhaseOf(h + [Ack(ack)] + [Eoi(ack)]).Idle?
    ensures Agrees(if Spurious(ack) then s.table else Counted(s, And(ack, 0x1FF)).table, h + [Ack(ack)] + [Eoi(ack)])
  {
    AckPhase(h, ack);
    if Spurious(ack) {
      SpuriousAgrees(s, h, ack);
      EoiAgrees(s, h + [Ack(ack)], ack);
    } else {
      CountAgrees(s, h, ack);
      EoiAgrees(Counted(s, And(ack, 0x1FF)), h + [Ack(ack)], ack);
    }
  }

  lemma {:induction false} HandledTrapAgrees(can: set<nat>, s: Sys, h: seq<Obs>, ack: nat, body: seq<Op>)
    requires Agrees(s.table, h) && PhaseOf(h).Idle? && Safe(Trap(ack, body))
    requires !Spurious(ack) && s.table[And(ack, 0x1FF)].handler != NULL
    ensures var d := s.table[And(ack, 0x1FF)];
            var h' := h + [Ack(ack)] + [Called(And(ack, 0x1FF), d.handler, d.param)] + OpsSeen(body) + [Eoi(ack)];
            PhaseOf(h').Idle? && Agrees(OpsStep(can, Counted(s, And(ack, 0x1FF)), body).table, h')
  {
    var irq := And(ack, 0x1FF);
    var t, h1 := Counted(s, irq), h + [Ack(ack)];
    var h2 := h1 + [Called(irq, s.table[irq].handler, s.table[irq].param)];
    AckPhase(h, ack);
    CountAgrees(s, h, ack);
    CallAgrees(t, h1, ack);
    OpsAgree(can, t, h2, body);
    EoiAgrees(OpsStep(can, t, body), h2 + OpsSeen(body), ack);
  }

  lemma {:induction false} TrapSeen(s: Sys, h: seq<Obs>, ack: nat, body: seq<Op>)
    requires |s.table| == MAX_HANDLERS && Safe(Trap(ack, body))
    ensures Spurious(ack) || s.table[And(ack, 0x1FF)].handler == NULL ==>
              h + Seen(s, Trap(ack, body)) == h + [Ack(ack)] + [Eoi(ack)]
    ensures !Spurious(ack) && s.table[And(ack, 0x1FF)].handler != NULL ==>
              var d := s.table[And(ack, 0x1FF)];
              h + Seen(s, Trap(ack, body)) ==
                h + [Ack(ack)] + [Called(And(ack, 0x1FF), d.handler, d.param)] + OpsSeen(body) + [Eoi(ack)]
  {}

  lemma {:induction false} StepAgrees(can: set<nat>, s: Sys, h: seq<Obs>, ev: Event)
    requires Agrees(s.table, h) && PhaseOf(h).Idle? && Safe(ev)
    ensures Agrees(Step(can, s, ev).table, h + Seen(s, ev)) && PhaseOf(h + Seen(s, ev)).Idle?
  {
    match ev
    case Api(op) => OpAgrees(can, s, h, op);
    case Trap(ack, body) =>
      TrapSeen(s, h, ack, body);
      if Spurious(ack) || s.table[And(ack, 0x1FF)].handler == NULL {
        QuietTrapAgrees(s, h, ack);
      } else {
        HandledTrapAgrees(can, s, h, ack, body);
      }
  }

  lemma {:induction false} SafeTail(evs: seq<Event>)
    requires SafeRun(evs) && evs != []
    ensures Safe(evs[0]) && SafeRun(evs[1..])
  {
    assert forall k :: 0 <= k < |evs[1..]| ==> evs[1..][k] == evs[k + 1];
  }

  /** The observations of a safe run. */
  ghost function History(can: set<nat>, s: Sys, evs: seq<Event>): seq<Obs>
    requires |s.table| == MAX_HANDLERS && SafeRun(evs)
    decreases |evs|
  {
    if evs == [] then []
    else
      SafeTail(evs);
      Seen(s, evs[0]) + History(can, Step(can, s, evs[0]), evs[1..])
  }

  ghost function Final(can: set<nat>, s: Sys, evs: seq<Event>): (r: Sys)
    requires |s.table| == MAX_HANDLERS && SafeRun(evs)
    ensures |r.table| == MAX_HANDLERS
    decreases |evs|
  {
    if evs == [] then s
    else
      SafeTail(evs);
      Final(can, Step(can, s, evs[0]), evs[1..])
  }

  lemma {:induction false} HistoryUnfolds(can: set<nat>, s: Sys, h: seq<Obs>, evs: seq<Event>)
    requires |s.table| == MAX_HANDLERS && SafeRun(evs) && evs != [] && Safe(evs[0]) && SafeRun(evs[1..])
    ensures h + History(can, s, evs) == h + Seen(s, evs[0]) + History(can, Step(can, s, evs[0]), evs[1..])
    ensures Final(can, s, evs) == Final(can, Step(can, s, evs[0]), evs[1..])
  {}

  lemma {:induction false} SafeRunKeepsProtocol(can: set<nat>, s: Sys, h: seq<Obs>, evs: seq<Event>)
    requires Agrees(s.table, h) && PhaseOf(h).Idle? && SafeRun(evs)
    ensures PhaseOf(h + History(can, s, evs)).Idle?
    ensures Agrees(Final(can, s, evs).table, h + History(can, s, evs))
    decreases |evs|
  {
    if evs == [] {
      assert h + History(can, s, evs) == h;
    } else {
      SafeTail(evs);
      var t, h1 := Step(can, s, evs[0]), h + Seen(s, evs[0]);
      StepAgrees(can, s, h, evs[0]);
      SafeRunKeepsProtocol(can, t, h1, evs[1..]);
      HistoryUnfolds(can, s, h, evs);
    }
  }

  /** Over every run every acknowledge is ended once, with the identical word and after the handler; the
      handler called is the one most recently installed; and each counter is its number of traps since. */
  lemma {:induction false} EveryRunKeepsProtocol(can: set<nat>, s: Sys, h: seq<Obs>, evs: seq<Event>)
    requires Agrees(s.table, h) && PhaseOf(h).Idle?
    requires NoStray(s) && Run(can, s, evs)
    ensures SafeRun(evs)
    ensures PhaseOf(h + History(can, s, evs)).Idle?
    ensures Agrees(Final(can, s, evs).table, h + History(can, s, evs))
  {
    NoStrayRunsSafely(can, s, evs);
    SafeRunKeepsProtocol(can, s, h, evs);
  }

  /** The zeroed table of a freshly loaded image agrees with an empty history. */
  lemma BootAgrees()
    ensures Agrees(seq(MAX_HANDLERS, _ => EMPTY), []) && PhaseOf([]).Idle?
  {}

  // ----- The imperative form -----

  class InterruptSystem {
    const gic: GicDevice
    const isrTable: array<IrqDesc>
    ghost var history: seq<Obs>

    ghost predicate Valid()
      reads this, gic, isrTable
    {
      gic.Valid() && isrTable.Length == MAX_HANDLERS && Agrees(isrTable[..], history)
    }

    ghost function Now(): Sys
      requires gic.Valid()
      reads this, gic, isrTable
    {
      Sys(isrTable[..], set i: nat | i < 1024 && gic.regs.Enabled(i))
    }

    ghost function Can(): set<nat>
      requires gic.Valid()
      reads this, gic
    {
      set i: nat | i < 1024 && gic.wiring.CanEnable(i)
    }

    constructor (gic: GicDevice)
      requires gic.Valid()
      ensures Valid() && this.gic == gic && history == [] && fresh(isrTable)
    {
      this.gic := gic;
      isrTable := new IrqDesc[MAX_HANDLERS](_ => EMPTY);
      history := [];
    }

    /** rt_hw_interrupt_init */
    method Initialize()
      requires Valid()
      modifies this, gic, isrTable
      ensures Valid() && history == old(history) + [Did(Init)]
      ensures forall v :: 0 <= v < 160 ==> isrTable[v] == IrqDesc(0, 0, 0)
      ensures forall k :: 0 <= k < 2 ==> Bit(gic.regs.ctlr, k) && Bit(gic.regs.cpuCtlr, k)
      ensures gic.regs.pmr == 0xff && gic.regs.bpr == 7
      ensures forall i :: 0 <= i < 1024 && Bit(gic.wiring.pending[i / 32], i % 32) ==>
                !Bit(gic.regs.pending[i / 32], i % 32)
      ensures forall i :: 0 <= i < 256 && Bit(gic.wiring.group[i / 32], i % 32) ==>
                !Bit(gic.regs.group[i / 32], i % 32)
      ensures gic.regs.enable == old(gic.regs.enable) && gic.regs.target == old(gic.regs.target)
      ensures gic.regs.priority == old(gic.regs.priority)
      ensures Now() == OpStep(old(Can()), old(Now()), Init)
      ensures TakesCalls(old(history)) ==> PhaseOf(history) == PhaseOf(old(history))
    {
      ghost var was := Now();
      gic.Init();
      forall v | 0 <= v < MAX_HANDLERS { isrTable[v] := EMPTY; }
      OpAgrees(Can(), was, history, Init);
      history := history + [Did(Init)];
      assert isrTable[..] == seq(MAX_HANDLERS, _ => EMPTY);
      forall i | 0 <= i < 1024 && Bit(gic.wiring.pending[i / 32], i % 32)
        ensures !Bit(gic.regs.pending[i / 32], i % 32)
      {
        assert gic.wiring.CanClearPending(i) && !gic.regs.Pending(i);
      }
      forall i | 0 <= i < 256 && Bit(gic.wiring.group[i / 32], i % 32)
        ensures !Bit(gic.regs.group[i / 32], i % 32)
      {
        assert gic.wiring.CanGroup(i) && !gic.regs.Group1(i);
      }
    }

    /** rt_hw_interrupt_mask */
    method MaskVector(vector: nat)
      requires Valid() && vector < 1020
      modifies this, gic
      ensures Valid() && history == old(history) + [Did(Mask(vector))]
      ensures isrTable[..] == old(isrTable[..]) && KeepsInterface(old(gic.regs), gic.regs)
      ensures gic.wiring.CanEnable(vector) ==> Bit(gic.regs.enable[vector / 32], vector % 32) == false
      ensures forall j :: 0 <= j < 1024 ==>
                gic.regs.Enabled(j) == (old(gic.regs).Enabled(j) && !(j == vector && gic.wiring.CanEnable(j)))
      ensures gic.wiring.CanTarget(vector, 0) ==> Bit(gic.regs.target[vector], 0) == false
      ensures Now() == OpStep(old(Can()), old(Now()), Mask(vector))
      ensures Lines(gic.regs) == Toggle(gic.wiring, old(Lines(gic.regs)), Switch(vector, false))
      ensures TakesCalls(old(history)) ==> PhaseOf(history) == PhaseOf(old(history))
    {
      ghost var was := Now();
      DisableInterrupt(gic, vector, 0);
      OpAgrees(Can(), was, history, Mask(vector));
      history := history + [Did(Mask(vector))];
    }

    /** rt_hw_interrupt_umask */
    method UnmaskVector(vector: nat)
      requires Valid() && vector < 1020
      modifies this, gic
      ensures Valid() && history == old(history) + [Did(Unmask(vector))]
      ensures isrTable[..] == old(isrTable[..]) && KeepsInterface(old(gic.regs), gic.regs)
      ensures gic.wiring.CanEnable(vector) ==> Bit(gic.regs.enable[vector / 32], vector % 32) == true
      ensures forall j :: 0 <= j < 1024 ==>
                gic.regs.Enabled(j) == (old(gic.regs).Enabled(j) || (j == vector && gic.wiring.CanEnable(j)))
      ensures gic.wiring.CanTarget(vector, 0) ==> Bit(gic.regs.target[vector], 0) == true
      ensures gic.wiring.CanGroup(vector) ==> !Bit(gic.regs.group[vector / 32], vector % 32)
      ensures gic.regs.priority[vector] == 0
      ensures Now() == OpStep(old(Can()), old(Now()), Unmask(vector))
      ensures Lines(gic.regs) == Toggle(gic.wiring, old(Lines(gic.regs)), Switch(vector, true))
      ensures TakesCalls(old(history)) ==> PhaseOf(history) == PhaseOf(old(history))
    {
      ghost var was := Now();
      EnableInterrupt(gic, vector, 0, 0);
      OpAgrees(Can(), was, history, Unmask(vector));
      history := history + [Did(Unmask(vector))];
    }

    /** rt_hw_interrupt_install */
    method InstallHandler(vector: nat, handler: nat, param: nat) returns (oldHandler: nat)
      requires Valid()
      modifies this, isrTable
      ensures Valid() && history == old(history) + [Did(Install(vector, handler, param))]
      ensures Now() == OpStep(old(Can()), old(Now()), Install(vector, handler, param))
      ensures oldHandler == if vector < 160 then old(isrTable[vector].handler) else 0
      ensures isrTable[..] ==
              if vector < 160 && handler != 0 then old(isrTable[..])[vector := IrqDesc(handler, param, 0)]
              else old(isrTable[..])
      ensures oldHandler ==
              match Installed(old(history), vector)
              case Some(hp) => if vector < MAX_HANDLERS then hp.0 else NULL
              case None => NULL
      ensures TakesCalls(old(history)) ==> PhaseOf(history) == PhaseOf(old(history))
    {
      ghost var was := Now();
      oldHandler := NULL;
      if vector < MAX_HANDLERS {
        oldHandler := isrTable[vector].handler;
        if handler != NULL {
          isrTable[vector] := isrTable[vector].(counter := 0);
          isrTable[vector] := isrTable[vector].(handler := handler);
          isrTable[vector] := isrTable[vector].(param := param);
        }
      }
      OpAgrees(Can(), was, history, Install(vector, handler, param));
      history := history + [Did(Install(vector, handler, param))];
    }

    /** A handler's body: the calls it makes back into this module. */
    method RunHandler(body: seq<Op>)
      requires Valid() && PhaseOf(history).Handling?
      requires forall k :: 0 <= k < |body| ==> OpInRange(body[k])
      modifies this, gic, isrTable
      ensures Valid() && history == old(history) + OpsSeen(body)
      ensures Now() == OpsStep(old(Can()), old(Now()), body)
      ensures PhaseOf(history) == PhaseOf(old(history))
      ensures Init !in body ==> KeepsInterface(old(gic.regs), gic.regs)
      ensures body == [] ==> gic.regs == old(gic.regs) && isrTable[..] == old(isrTable[..])
    {
      ghost var can := Can();
      assert body[0..] == body;
      for k := 0 to |body|
        invariant Valid() && Can() == can && PhaseOf(history) == PhaseOf(old(history))
        invariant history == old(history) + OpsSeen(body[..k])
        invariant Init !in body ==> KeepsInterface(old(gic.regs), gic.regs)
        invariant k == 0 ==> gic.regs == old(gic.regs) && isrTable[..] == old(isrTable[..])
        invariant OpsStep(can, old(Now()), body) == OpsStep(can, Now(), body[k..])
      {
        assert OpInRange(body[k]) && body[k..][1..] == body[k + 1..] && body[k..][0] == body[k];
        match body[k] {
          case Init => Initialize();
          case Install(v, h, p) => var _ := InstallHandler(v, h, p);
          case Mask(v) => MaskVector(v);
          case Unmask(v) => UnmaskVector(v);
        }
        assert OpsSeen(body[..k + 1]) == OpsSeen(body[..k]) + [Did(body[k])];
      }
      assert body[..|body|] == body;
    }

    /** rt_hw_trap_irq. The bound on `ack` is the condition of SafeExactlyWithoutStray. */
    method TrapIrq(ack: nat, body: seq<Op>)
      requires Valid() && PhaseOf(history).Idle? && Safe(Trap(ack, body))
      requires forall k :: 0 <= k < |body| ==> OpInRange(body[k])
      modifies this, gic, isrTable
      ensures Valid() && PhaseOf(history).Idle?
      ensures history == old(history) + Seen(old(Now()), Trap(ack, body))
      ensures Init !in body ==> KeepsInterface(old(gic.regs), gic.regs)
      ensures body == [] ==> gic.regs == old(gic.regs)
      ensures body == [] ==>
                forall v :: 0 <= v < 160 ==>
                  isrTable[v] ==
                  if And(ack, 0x200) == 0 && v == And(ack, 0x1FF) then
                    old(isrTable[v]).(counter := (old(isrTable[v].counter) + 1) % 0x1_0000_0000)
                  else old(isrTable[v])
      ensures var n, irq := |old(history)|, And(ack, 0x1FF);
              if And(ack, 0x200) != 0 || old(isrTable[irq].handler) == 0 then
                history[n..] == [Ack(ack), Eoi(ack)]
              else
                history[n..] == [Ack(ack), Called(irq, old(isrTable[irq].handler), old(isrTable[irq].param))]
                                + OpsSeen(body) + [Eoi(ack)]
    {
      ghost var was, before := Now(), history;
      AckPhase(history, ack);
      history := history + [Ack(ack)];
      if And(ack, 0x200) != 0 {
        SpuriousAgrees(was, before, ack);
        EoiAgrees(was, history, ack);
        history := history + [Eoi(ack)];
      } else {
        var irq := And(ack, 0x1FF);
        var isrFunc := isrTable[irq].handler;
        isrTable[irq] := isrTable[irq].(counter := (isrTable[irq].counter + 1) % WRAP);
        assert Now() == Counted(was, irq);
        CountAgrees(was, before, ack);
        if isrFunc != NULL {
          var param := isrTable[irq].param;
          CallAgrees(Now(), history, ack);
          history := history + [Called(irq, isrFunc, param)];
          RunHandler(body);
        }
        EoiAgrees(Now(), history, ack);
        history := history + [Eoi(ack)];
      }
      TrapSeen(was, before, ack, body);
    }
  }
}
