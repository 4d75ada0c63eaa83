/**
 The level-1 translation table built by cpu/mmu.c, read through the short-descriptor format of section
 B3.5.1 of the ARMv7-A Architecture Reference Manual.
 */
module PageTable {
  import opened Words

  const MB := 0x10_0000
  const SECTIONS := 0x1000
  const SPACE := 0x1_0000_0000

  type u32 = x: int | 0 <= x < 0x1_0000_0000

  // Descriptor constants (cpu/mmu.c:21-47); their bits are disjoint, so their OR is their sum.
  const DESC_SEC := 0x2
  const XN := 0x10
  const AP_RW := 0xC00
  const CB := 0xC
  const NCNB := 0x0
  const DOMAIN0 := 0x0
  const TEX_MEM := 0x1000
  const RW_CB: u32 := AP_RW + DOMAIN0 + CB + DESC_SEC + XN
  const RW_NCNB: u32 := AP_RW + DOMAIN0 + NCNB + DESC_SEC + XN

  // RT_HW_HEAP_END (driver/board.h:34).
  const HEAP_END: u32 := 0x4380_0000

  // ----- What the architecture makes of a table -----

  datatype Attributes = Attributes(tex: int, c: bool, b: bool, ap: int, apx: bool, xn: bool, domain: int,
                                   shared: bool, notGlobal: bool, nonSecure: bool)

  datatype Translation =
    | Fault
    | SecondLevel(table: int)
    | Section(pa: u32, attributes: Attributes)
    | Supersection(base: int, attributes: Attributes)

  datatype MemoryType = StronglyOrdered | Device | WriteThrough | WriteBack | NonCacheable | Other

  /** The attribute fields, from the low 20 bits of a descriptor. */
  function AttributesOf(low: u32): Attributes {
    Attributes(low / 0x1000 % 8, low / 8 % 2 == 1, low / 4 % 2 == 1, low / 0x400 % 4, low / 0x8000 % 2 == 1,
               low / 0x10 % 2 == 1, low / 0x20 % 16, low / 0x1_0000 % 2 == 1, low / 0x2_0000 % 2 == 1,
               low / 0x8_0000 % 2 == 1)
  }

  /** The memory type of a TEX, C, B combination, without TEX remap. */
  function TypeOf(a: Attributes): MemoryType {
    if a.tex == 0 then
      if a.c then (if a.b then WriteBack else WriteThrough) else (if a.b then Device else StronglyOrdered)
    else if a.tex == 1 && !a.c && !a.b then NonCacheable
    else Other
  }

  function Decode(w: u32, va: u32): Translation {
    if w % 4 == 0 || w % 4 == 3 then Fault
    else if w % 4 == 1 then SecondLevel(w / 0x400)
    else if w / 0x4_0000 % 2 == 0 then Section(w / MB * MB + va % MB, AttributesOf(w % MB))
    else Supersection(w / 0x100_0000, AttributesOf(w % MB))
  }

  function Translate(table: seq<u32>, va: u32): Translation
    requires |table| == SECTIONS
  {
    Decode(table[va / MB], va)
  }

  // ----- rt_hw_mmu_setmtt -----

  datatype Call = Call(vStart: u32, vEnd: u32, pStart: u32, attr: u32)

  predicate Covers(c: Call, sec: int) {
    c.vStart / MB <= sec <= c.vEnd / MB
  }

  /** The section frame a call pairs with section `sec`: a 32-bit shift left by 20 keeps 12 bits. */
  function FrameFor(c: Call, sec: int): (f: int)
    ensures 0 <= f < SECTIONS
  {
    (c.pStart / MB + (sec - c.vStart / MB)) % SECTIONS
  }

  function Word(attr: u32, frame: int): (w: u32)
    requires 0 <= frame < SECTIONS
  {
    WordSplits(attr, frame);
    Or(attr, Shl(frame, 20))
  }

  function Apply(table: seq<u32>, c: Call): (r: seq<u32>)
    requires |table| == SECTIONS
    ensures |r| == SECTIONS
  {
    seq(SECTIONS, sec requires 0 <= sec < SECTIONS =>
      if Covers(c, sec) then Word(c.attr, FrameFor(c, sec)) else table[sec])
  }

  function ApplyAll(table: seq<u32>, calls: seq<Call>): (r: seq<u32>)
    requires |table| == SECTIONS
    ensures |r| == SECTIONS
  {
    if calls == [] then table else Apply(ApplyAll(table, calls[..|calls| - 1]), calls[|calls| - 1])
  }

  /** `k` is the last of `calls` that covers section `sec`. */
  predicate LastCover(calls: seq<Call>, sec: int, k: nat) {
    && k < |calls|
    && Covers(calls[k], sec)
    && forall j :: k < j < |calls| ==> !Covers(calls[j], sec)
  }

  /** Where a call that covers `va` means to send it. */
  function Target(c: Call, va: u32): u32 {
    (c.pStart - c.pStart % MB + (va - (c.vStart - c.vStart % MB))) % SPACE
  }

  /** A section descriptor without address bits. */
  predicate SectionAttr(attr: u32) {
    attr < MB && attr % 4 == 2 && attr / 0x4_0000 % 2 == 0
  }

  lemma {:induction false} Shift20(x: nat)
    ensures Shl(x, 20) == x * MB && Shr(x, 20) == x / MB && Low(x, 20) == x % MB && Pow2(20) == MB
  {
    Pow2Known();
    ShlIs(x, 20);
    ShrIs(x, 20);
  }

  lemma {:induction false} FrameBelow(hi: nat, frame: nat)
    requires hi < SECTIONS && frame < SECTIONS
    ensures Or(hi, frame) < SECTIONS
  {
    Pow2Known();
    OrBelow(hi, frame, 12);
  }

  /** A word is its attribute's low 20 bits under the OR of the two address fields. */
  lemma {:induction false} WordSplits(attr: u32, frame: int)
    requires 0 <= frame < SECTIONS
    ensures Or(attr, Shl(frame, 20)) == Or(attr / MB, frame) * MB + attr % MB
    ensures 0 <= Or(attr / MB, frame) < SECTIONS
  {
    Shift20(attr);
    Split(attr, 20);
    ShiftedOperand(Shr(attr, 20), Low(attr, 20), frame, 20);
    Shift20(Or(attr / MB, frame));
    FrameBelow(attr / MB, frame);
  }

  lemma {:induction false} FrameIsTarget(c: Call, va: u32)
    ensures FrameFor(c, va / MB) * MB + va % MB == Target(c, va)
  {
    var n := c.pStart / MB + (va / MB - c.vStart / MB);
    assert c.pStart - c.pStart % MB + (va - (c.vStart - c.vStart % MB)) == n * MB + va % MB;
    assert n == n / SECTIONS * SECTIONS + n % SECTIONS;
    assert n * MB + va % MB == n / SECTIONS * SPACE + (n % SECTIONS * MB + va % MB);
  }

  lemma {:induction false} WordKind(f: nat, low: nat)
    ensures (f * MB + low) % 4 == low % 4
  {
    DivisionIs(f * MB + low, 4, 0x4_0000 * f + low / 4, low % 4);
  }

  lemma {:induction false} WordFrame(f: nat, low: nat)
    requires low < MB
    ensures (f * MB + low) / MB == f && (f * MB + low) % MB == low
  {
    DivisionIs(f * MB + low, MB, f, low);
  }

  lemma {:induction false} EvenPart(f: nat, q: nat)
    ensures (2 * f + q) % 2 == q % 2
  {}

  lemma {:induction false} WordSuperBit(f: nat, low: nat)
    ensures (f * MB + low) / 0x4_0000 % 2 == low / 0x4_0000 % 2
  {
    DivisionIs(f * MB + low, 0x4_0000, 4 * f + low / 0x4_0000, low % 0x4_0000);
    EvenPart(2 * f, low / 0x4_0000);
  }

  lemma {:induction false} WordFields(f: nat, low: nat)
    requires low < MB
    ensures var w := f * MB + low;
            w % 4 == low % 4 && w / MB == f && w % MB == low && w / 0x4_0000 % 2 == low / 0x4_0000 % 2
  {
    WordKind(f, low);
    WordFrame(f, low);
    WordSuperBit(f, low);
  }

  lemma {:induction false} DecodeSection(f: int, low: int, va: u32)
    requires 0 <= f < SECTIONS && 0 <= low < MB && low % 4 == 2 && low / 0x4_0000 % 2 == 0
    ensures Decode(f * MB + low, va) == Section(f * MB + va % MB, AttributesOf(low))
  {
    WordFields(f, low);
  }

  lemma {:induction false} LowAttribute(attr: u32)
    requires attr % 4 == 2 && attr / 0x4_0000 % 2 == 0
    ensures attr % MB % 4 == 2 && attr % MB / 0x4_0000 % 2 == 0
  {
    WordFields(attr / MB, attr % MB);
  }

  /** The address bits of a word built from a section attribute are right exactly when the attribute's own
      bits 31:20 lie inside the frame; every attribute field comes through unchanged. */
  lemma {:induction false} WordDecodes(attr: u32, frame: int, va: u32)
    requires 0 <= frame < SECTIONS && attr % 4 == 2 && attr / 0x4_0000 % 2 == 0
    ensures Decode(Word(attr, frame), va) == Section(frame * MB + va % MB, AttributesOf(attr % MB)) <==>
            AndNot(attr / MB, frame) == 0
  {
    var f := Or(attr / MB, frame);
    WordSplits(attr, frame);
    LowAttribute(attr);
    DecodeSection(f, attr % MB, va);
    OrAbsorbs(attr / MB, frame);
  }

  /** For an attribute without address bits the word always decodes as intended. */
  lemma {:induction false} PlainWordDecodes(attr: u32, frame: int, va: u32)
    requires 0 <= frame < SECTIONS && SectionAttr(attr)
    ensures Decode(Word(attr, frame), va) == Section(frame * MB + va % MB, AttributesOf(attr))
  {
    assert attr / MB == 0 && attr % MB == attr;
    WordDecodes(attr, frame, va);
  }

  lemma {:induction false} ApplyAt(table: seq<u32>, c: Call, sec: int)
    requires |table| == SECTIONS && 0 <= sec < SECTIONS
    ensures Apply(table, c)[sec] == if Covers(c, sec) then Word(c.attr, FrameFor(c, sec)) else table[sec]
  {}

  /** A section holds the word of the last call that covers it, or is untouched. */
  lemma {:induction false} LastCallWins(table: seq<u32>, calls: seq<Call>, sec: int)
    requires |table| == SECTIONS && 0 <= sec < SECTIONS
    ensures (forall j :: 0 <= j < |calls| ==> !Covers(calls[j], sec)) ==> ApplyAll(table, calls)[sec] == table[sec]
    ensures forall k: nat :: LastCover(calls, sec, k) ==>
              ApplyAll(table, calls)[sec] == Word(calls[k].attr, FrameFor(calls[k], sec))
  {
    if calls != [] {
      var n := |calls| - 1;
      var before := calls[..n];
      LastCallWins(table, before, sec);
      ApplyAt(ApplyAll(table, before), calls[n], sec);
      forall k: nat | LastCover(calls, sec, k)
        ensures ApplyAll(table, calls)[sec] == Word(calls[k].attr, FrameFor(calls[k], sec))
      {
        if k < n {
          assert !Covers(calls[n], sec);
          assert LastCover(before, sec, k);
        }
      }
      if forall j :: 0 <= j < |calls| ==> !Covers(calls[j], sec) {
        assert !Covers(calls[n], sec);
      }
    }
  }

  /** After any sequence of calls an address translates by the last call that covers its section, and an
      address no call covers translates as before. */
  lemma {:induction false} TranslatesByLastCall(table: seq<u32>, calls: seq<Call>, va: u32)
    requires |table| == SECTIONS
    ensures (forall j :: 0 <= j < |calls| ==> !Covers(calls[j], va / MB)) ==>
              Translate(ApplyAll(table, calls), va) == Translate(table, va)
    ensures forall k: nat :: LastCover(calls, va / MB, k) && SectionAttr(calls[k].attr) ==>
              Translate(ApplyAll(table, calls), va) == Section(Target(calls[k], va), AttributesOf(calls[k].attr))
  {
    LastCallWins(table, calls, va / MB);
    forall k: nat | LastCover(calls, va / MB, k) && SectionAttr(calls[k].attr)
      ensures Translate(ApplyAll(table, calls), va) == Section(Target(calls[k], va), AttributesOf(calls[k].attr))
    {
      PlainWordDecodes(calls[k].attr, FrameFor(calls[k], va / MB), va);
      FrameIsTarget(calls[k], va);
    }
  }

  /** The condition can fail: one stray address bit turns a word meant for 0x200000 into one for 0x300000. */
  lemma StrayBitMisdirects()
    ensures Decode(Word(RW_NCNB + MB, 2), 0x20_0000) == Section(0x30_0000, AttributesOf(RW_NCNB))
  {
    WordSplits(RW_NCNB + MB, 2);
    assert Or(1, 2) == 3;
    DecodeSection(3, RW_NCNB, 0x20_0000);
  }

  // ----- rt_hw_mmu_init -----

  function InitCalls(): seq<Call> {
    [Call(0x0000_0000, 0xFFFF_FFFF, 0x0000_0000, RW_NCNB),
     Call(0x4000_0000, HEAP_END - 1, 0x4000_0000, RW_CB),
     Call(0x0000_0000, 0x000F_FFFF, 0x0000_0000, RW_NCNB + TEX_MEM),
     Call(HEAP_END, 0x43FF_FFFF, HEAP_END, RW_NCNB + TEX_MEM)]
  }

  /** The memory type of each address once the four calls are made. */
  function InitType(va: u32): MemoryType {
    if va < MB || HEAP_END <= va < 0x4400_0000 then NonCacheable
    else if 0x4000_0000 <= va < HEAP_END then WriteBack
    else StronglyOrdered
  }

  /** Which of the four calls decides section `sec`. */
  function Deciding(sec: int): nat {
    if HEAP_END / MB <= sec <= 0x43F then 3
    else if sec == 0 then 2
    else if 0x400 <= sec < HEAP_END / MB then 1
    else 0
  }

  lemma {:induction false} DecidingIsLast(sec: int)
    requires 0 <= sec < SECTIONS
    ensures LastCover(InitCalls(), sec, Deciding(sec))
  {}

  lemma {:induction false} InitTargets(va: u32)
    ensures Target(InitCalls()[Deciding(va / MB)], va) == va
  {}

  lemma {:induction false} InitAttributes(va: u32)
    ensures var attr := InitCalls()[Deciding(va / MB)].attr;
            && SectionAttr(attr)
            && TypeOf(AttributesOf(attr)) == InitType(va)
            && HasType(AttributesOf(attr), va)
            && var a := AttributesOf(attr);
               a.ap == 3 && !a.apx && a.xn && a.domain == 0 && !a.shared && !a.notGlobal && !a.nonSecure
  {}

  /** The three kinds of memory as the architecture encodes them in TEX, C and B */
  predicate HasType(a: Attributes, va: u32) {
    if va < 0x10_0000 || 0x4380_0000 <= va < 0x4400_0000 then a.tex == 1 && !a.c && !a.b
    else if 0x4000_0000 <= va < 0x4380_0000 then a.tex == 0 && a.c && a.b
    else a.tex == 0 && !a.c && !a.b
  }

  predicate MapsToItself(t: Translation, va: u32) {
    t.Section? && t.pa == va && TypeOf(t.attributes) == InitType(va)
  }

  /** Whatever the table held before, afterwards every 32-bit address maps to itself, readable and writable
      in both modes, in domain 0, never executable, and with exactly the memory type of `InitType`. */
  lemma {:induction false} InitMapsEverything(table: seq<u32>, va: u32)
    requires |table| == SECTIONS
    ensures var t := Translate(ApplyAll(table, InitCalls()), va);
            && MapsToItself(t, va) && HasType(t.attributes, va)
            && t.attributes.ap == 3 && !t.attributes.apx && t.attributes.xn && t.attributes.domain == 0
            && !t.attributes.shared && !t.attributes.notGlobal && !t.attributes.nonSecure
  {
    DecidingIsLast(va / MB);
    InitTargets(va);
    InitAttributes(va);
    TranslatesByLastCall(table, InitCalls(), va);
  }

  class MmuTable {
    const table: array<u32>

    constructor ()
      ensures table.Length == SECTIONS && fresh(table)
    {
      table := new u32[SECTIONS];
    }

    method SetMtt(vStart: u32, vEnd: u32, pStart: u32, attr: u32)
      requires table.Length == SECTIONS
      modifies table
      ensures table[..] == Apply(old(table[..]), Call(vStart, vEnd, pStart, attr))
    {
      var c := Call(vStart, vEnd, pStart, attr);
      var pTT := vStart / MB;
      var nSec := vEnd / MB - vStart / MB;
      var i := 0;
      while i <= nSec
        invariant 0 <= i && pTT == vStart / MB + i && (i <= nSec + 1 || i == 0)
        invariant forall sec :: 0 <= sec < SECTIONS ==>
          table[sec] == if vStart / MB <= sec < pTT then Word(attr, FrameFor(c, sec)) else old(table[sec])
      {
        table[pTT] := Word(attr, (pStart / MB + i) % SECTIONS);
        pTT := pTT + 1;
        i := i + 1;
      }
      assert table[..] == Apply(old(table[..]), c);
    }

    /** The table-building part of rt_hw_mmu_init. */
    method Init()
      requires table.Length == SECTIONS
      modifies table
      ensures table[..] == ApplyAll(old(table[..]), InitCalls())
      ensures forall va: u32 ::
                var t := Translate(table[..], va);
                t.Section? && t.pa == va && HasType(t.attributes, va) && MapsToItself(t, va)
    {
      var noCache := HEAP_END;
      SetMtt(0x0000_0000, 0xFFFF_FFFF, 0x0000_0000, RW_NCNB);
      SetMtt(0x4000_0000, noCache - 1, 0x4000_0000, RW_CB);
      SetMtt(0x0000_0000, 0x000F_FFFF, 0x0000_0000, RW_NCNB + TEX_MEM);
      SetMtt(noCache, 0x43FF_FFFF, noCache, RW_NCNB + TEX_MEM);
      var calls := InitCalls();
      ghost var was := old(table[..]);
      assert calls[..4] == calls;
      assert calls[..4][..3] == calls[..3] && calls[..3][..2] == calls[..2] && calls[..2][..1] == calls[..1];
      assert ApplyAll(was, calls[..1]) == Apply(was, calls[0]);
      assert ApplyAll(was, calls[..2]) == Apply(ApplyAll(was, calls[..1]), calls[1]);
      assert ApplyAll(was, calls[..3]) == Apply(ApplyAll(was, calls[..2]), calls[2]);
      assert ApplyAll(was, calls) == Apply(ApplyAll(was, calls[..3]), calls[3]);
      forall va: u32
        ensures var t := Translate(table[..], va); MapsToItself(t, va) && HasType(t.attributes, va)
      {
        InitMapsEverything(was, va);
      }
    }
  }
}
