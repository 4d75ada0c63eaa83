/**
 The double-buffered frame buffer of driver/drv_lcd.c, and where it lies in the address map of cpu/mmu.c.

 sunxi_composer_fbbase_set (uboot/sunxi_display.c:643-653) writes the new base address and then the register
 `dbuff`, with which the display engine takes over double-buffered registers at its next vertical sync; that
 moment is an event of its own. An engine that takes the address at once is one whose vertical sync follows
 every update.
 */
module Lcd {
  import opened Words
  import opened PageTable

  const BUFFER := 0x40_0000
  const WINDOW_END := 0x4400_0000

  type Memory = int -> bv8

  function FbAddress(index: nat): int
    requires index < 2
  {
    if index == 0 then HEAP_END else HEAP_END + BUFFER
  }

  // ----- Sizes -----

  function PixelBytes(width: nat, height: nat, bitsPerPixel: nat): nat {
    width * height * if bitsPerPixel == 16 then 2 else 4
  }

  /** RT_ALIGN(pixels, 64) */
  function BufSize(pixels: nat): nat {
    AndNot(pixels + 63, 63)
  }

  /** The aligned size covers the pixels with less than 64 bytes to spare, and both buffers are disjoint and
      inside the window up to 0x44000000 exactly when the pixels fit one buffer. */
  lemma {:induction false} BuffersFitExactly(pixels: nat)
    ensures pixels <= BufSize(pixels) < pixels + 64 && BufSize(pixels) % 64 == 0
    ensures FbAddress(0) == 0x4380_0000 && FbAddress(1) == 0x43C0_0000
    ensures (FbAddress(0) + BufSize(pixels) <= FbAddress(1) && FbAddress(1) + BufSize(pixels) <= 0x4400_0000) <==>
            pixels <= 0x40_0000
  {
    assert Pow2(6) == 64;
    LowMask(pixels + 63, 6);
    ShrIs(pixels + 63, 6);
  }

  lemma {:induction false} WholeUnits(pixels: nat)
    requires pixels % 64 == 0
    ensures BufSize(pixels) == pixels
  {
    BuffersFitExactly(pixels);
  }

  /** Pixels of 16 bits take two bytes and pixels of 32 take four. The panel of the board configuration at hand has 800
      by 480 of 16: 768000 bytes, which is a whole number of 64-byte units. */
  lemma {:induction false} PanelSizes(width: nat, height: nat, bits: nat)
    ensures bits == 16 || bits == 32 ==> PixelBytes(width, height, bits) * 8 == width * height * bits
    ensures width == 800 && height == 480 && bits == 16 ==> BufSize(PixelBytes(width, height, bits)) == 768_000
  {
    if width == 800 && height == 480 && bits == 16 { WholeUnits(PixelBytes(width, height, bits)); }
  }

  /** A panel of 1280 by 1024 pixels of 32 bits: the buffers overlap, and the second leaves the window. The board
      configuration at hand has 800 by 480 pixels of 16 bits, so this takes another one. */
  lemma {:induction false} LargePanelOverlaps(width: nat, height: nat, bits: nat)
    requires width == 1280 && height == 1024 && bits == 32
    ensures var size := BufSize(PixelBytes(width, height, bits));
            size == 0x50_0000 && FbAddress(0) + size > FbAddress(1) && FbAddress(1) + size > WINDOW_END
  {
    WholeUnits(PixelBytes(width, height, bits));
  }

  /** Whatever the table held before it was built, above the first megabyte the window is exactly the memory
      that is normal and uncached, and it is mapped to itself. */
  lemma {:induction false} WindowIsUncached(table: seq<u32>, a: u32)
    requires |table| == SECTIONS && a >= MB
    ensures var t := Translate(ApplyAll(table, InitCalls()), a);
            t.Section? && t.pa == a && (TypeOf(t.attributes) == NonCacheable <==> HEAP_END <= a < WINDOW_END)
  {
    InitMapsEverything(table, a);
  }

  // ----- Updates -----

  /** `scan` is the address being scanned out, `next` the one it takes at the next vertical sync. */
  datatype Screen = Screen(index: nat, size: nat, frame: int, mem: Memory, scan: int, next: int)

  datatype Event =
    | Update             // RTGRAPHIC_CTRL_RECT_UPDATE
    | Vsync              // the controller takes the base address
    | Draw(mem: Memory)  // other code writes memory outside the window

  function Copied(mem: Memory, dst: int, src: int, n: nat): Memory {
    a => if dst <= a < dst + n then mem(src + (a - dst)) else mem(a)
  }

  function Contents(mem: Memory, base: int, n: nat): seq<bv8> {
    seq(n, i => mem(base + i))
  }

  /** The buffers are disjoint and in the window, and the frame is outside it. */
  predicate Laid(s: Screen) {
    s.index < 2 && s.size <= BUFFER && (s.frame + s.size <= HEAP_END || WINDOW_END <= s.frame)
  }

  ghost predicate OutsideOnly(before: Memory, after: Memory) {
    forall a :: HEAP_END <= a < WINDOW_END ==> after(a) == before(a)
  }

  ghost predicate Possible(s: Screen, ev: Event) {
    ev.Draw? ==> OutsideOnly(s.mem, ev.mem)
  }

  /** The address an update copies to. */
  function CopyTarget(s: Screen): int {
    FbAddress((s.index + 1) % 2)
  }

  function Step(s: Screen, ev: Event): Screen {
    match ev
    case Update =>
      s.(index := (s.index + 1) % 2, mem := Copied(s.mem, CopyTarget(s), s.frame, s.size), next := CopyTarget(s))
    case Vsync => s.(scan := s.next)
    case Draw(mem) => s.(mem := mem)
  }

  /** Every byte an update writes lies in the uncached window. */
  lemma {:induction false} UpdateWritesUncached(table: seq<u32>, s: Screen, a: u32)
    requires |table| == SECTIONS && Laid(s)
    ensures Step(s, Update).mem(a) != s.mem(a) ==>
              var t := Translate(ApplyAll(table, InitCalls()), a);
              t.Section? && t.pa == a && TypeOf(t.attributes) == NonCacheable
  {
    if Step(s, Update).mem(a) != s.mem(a) {
      assert CopyTarget(s) <= a < CopyTarget(s) + s.size;
      WindowIsUncached(table, a);
    }
  }

  /** The state of rt_hw_lcd_init: both buffers cleared, the first one on screen. */
  ghost predicate Started(s: Screen) {
    s.index == 0 && s.scan == s.next == FbAddress(0) && forall a :: HEAP_END <= a < WINDOW_END ==> s.mem(a) == 0
  }

  ghost predicate Fresh(s: Screen) {
    Started(s) && Laid(s)
  }

  ghost predicate Run(s: Screen, evs: seq<Event>)
    decreases |evs|, 0
  {
    evs == [] || (Run(s, evs[..|evs| - 1]) && Possible(After(s, evs[..|evs| - 1]), evs[|evs| - 1]))
  }

  ghost function After(s: Screen, evs: seq<Event>): Screen
    requires Run(s, evs)
    decreases |evs|, 1
  {
    if evs == [] then s else Step(After(s, evs[..|evs| - 1]), evs[|evs| - 1])
  }

  /** An update copies to the buffer that is being scanned out. */
  predicate Tears(s: Screen) {
    CopyTarget(s) == s.scan
  }

  ghost predicate NeverTears(s: Screen, evs: seq<Event>)
    requires Run(s, evs)
    decreases |evs|
  {
    evs == [] ||
    (NeverTears(s, evs[..|evs| - 1]) && (evs[|evs| - 1] == Update ==> !Tears(After(s, evs[..|evs| - 1]))))
  }

  /** No update since the last vertical sync. */
  predicate Settled(evs: seq<Event>) {
    evs == [] || evs[|evs| - 1] == Vsync || (evs[|evs| - 1] != Update && Settled(evs[..|evs| - 1]))
  }

  /** Every update finds the previous one taken by a vertical sync. */
  predicate Paced(evs: seq<Event>) {
    evs == [] || (Paced(evs[..|evs| - 1]) && (evs[|evs| - 1] == Update ==> Settled(evs[..|evs| - 1])))
  }

  lemma {:induction false} PacedState(s: Screen, evs: seq<Event>)
    requires Fresh(s) && Run(s, evs) && Paced(evs)
    ensures var t := After(s, evs);
            && Laid(t) && t.size == s.size && t.frame == s.frame
            && t.next == FbAddress(t.index)
            && t.scan == FbAddress(if Settled(evs) then t.index else 1 - t.index)
  {
    if evs != [] { PacedState(s, evs[..|evs| - 1]); }
  }

  /** Over every run, no update ever copies to the buffer on screen exactly when a vertical sync falls
      between any two updates. */
  lemma {:induction false} TearFreeExactlyWhenPaced(s: Screen, evs: seq<Event>)
    requires Fresh(s) && Run(s, evs)
    ensures NeverTears(s, evs) <==> Paced(evs)
  {
    if evs != [] {
      var before := evs[..|evs| - 1];
      TearFreeExactlyWhenPaced(s, before);
      if Paced(before) { PacedState(s, before); }
    }
  }

  /** Two updates with no vertical sync in between: the second copies to the buffer on screen. */
  lemma {:induction false} TwoUpdatesTear(s: Screen)
    requires Fresh(s)
    ensures Run(s, [Update, Update]) && !NeverTears(s, [Update, Update])
  {
    assert [Update, Update][..1] == [Update] && [Update][..0] == [];
    assert Run(s, [Update]);
    assert After(s, [Update]) == Step(s, Update);
  }

  /** An engine that takes the address at once is always paced. */
  lemma {:induction false} AtOnceIsPaced(evs: seq<Event>)
    requires forall k :: 0 <= k < |evs| - 1 && evs[k] == Update ==> evs[k + 1] == Vsync
    ensures Paced(evs)
    ensures evs != [] && evs[|evs| - 1] != Update ==> Settled(evs)
  {
    if evs != [] {
      var before := evs[..|evs| - 1];
      AtOnceIsPaced(before);
      if before != [] {
        assert evs[|evs| - 2] == before[|before| - 1];
      }
    }
  }

  // ----- What is on screen -----

  /** The frame as of the latest update. */
  ghost function LatestFrame(s: Screen, evs: seq<Event>): seq<bv8>
    requires Run(s, evs)
  {
    if evs == [] then seq(s.size, _ => 0)
    else
      var before := evs[..|evs| - 1];
      if evs[|evs| - 1] == Update then Contents(After(s, before).mem, s.frame, s.size) else LatestFrame(s, before)
  }

  /** The frame as of the latest update that a vertical sync has taken. */
  ghost function ShownFrame(s: Screen, evs: seq<Event>): seq<bv8>
    requires Run(s, evs)
  {
    if evs == [] then seq(s.size, _ => 0)
    else
      var before := evs[..|evs| - 1];
      if evs[|evs| - 1] == Vsync then LatestFrame(s, before) else ShownFrame(s, before)
  }

  lemma {:induction false} ClearContents(mem: Memory, base: int, n: nat)
    requires HEAP_END <= base && base + n <= WINDOW_END && forall a :: HEAP_END <= a < WINDOW_END ==> mem(a) == 0
    ensures Contents(mem, base, n) == seq(n, _ => 0)
  {}

  lemma {:induction false} CopyArrives(mem: Memory, dst: int, src: int, n: nat)
    ensures Contents(Copied(mem, dst, src, n), dst, n) == Contents(mem, src, n)
  {}

  lemma {:induction false} CopyElsewhere(mem: Memory, dst: int, src: int, n: nat, base: int, m: nat)
    requires base + m <= dst || dst + n <= base
    ensures Contents(Copied(mem, dst, src, n), base, m) == Contents(mem, base, m)
  {}

  lemma {:induction false} DrawElsewhere(before: Memory, after: Memory, base: int, m: nat)
    requires OutsideOnly(before, after) && HEAP_END <= base && base + m <= WINDOW_END
    ensures Contents(after, base, m) == Contents(before, base, m)
  {}

  /** In every paced run the screen shows the frame as of the latest update that a vertical sync has taken,
      whatever is drawn meanwhile, and the latest frame waits in the buffer to be shown next. */
  lemma {:induction false} ScreenShowsLatestFrame(s: Screen, evs: seq<Event>)
    requires Fresh(s) && Run(s, evs) && Paced(evs)
    ensures var t := After(s, evs);
            && Contents(t.mem, t.scan, s.size) == ShownFrame(s, evs)
            && Contents(t.mem, t.next, s.size) == LatestFrame(s, evs)
  {
    if evs == [] {
      ClearContents(s.mem, s.scan, s.size);
    } else {
      var before := evs[..|evs| - 1];
      var t := After(s, before);
      ScreenShowsLatestFrame(s, before);
      PacedState(s, before);
      match evs[|evs| - 1]
      case Update =>
        CopyArrives(t.mem, CopyTarget(t), t.frame, t.size);
        CopyElsewhere(t.mem, CopyTarget(t), t.frame, t.size, t.scan, t.size);
      case Vsync =>
      case Draw(mem) =>
        DrawElsewhere(t.mem, mem, t.scan, t.size);
        DrawElsewhere(t.mem, mem, t.next, t.size);
    }
  }

  // ----- The imperative form -----

  datatype Command = GetInfo | RectUpdate | Unknown

  class LcdFb {
    var index: nat
    var bufsize: nat
    var framebuffer: int
    var mem: Memory
    var scan: int
    var next: int
    ghost var start: Screen
    ghost var history: seq<Event>

    ghost function Now(): Screen
      reads this
    {
      Screen(index, bufsize, framebuffer, mem, scan, next)
    }

    ghost predicate Valid()
      reads this
    {
      Started(start) && Run(start, history) && After(start, history) == Now() && index < 2
    }

    /** rt_hw_lcd_init for a panel of the given geometry; `framebuffer` is what rt_malloc returned. */
    constructor (width: nat, height: nat, bitsPerPixel: nat, framebuffer: int, mem: Memory)
      ensures Valid() && history == [] && bufsize == BufSize(PixelBytes(width, height, bitsPerPixel))
      ensures index == 0 && scan == next == 0x4380_0000 && this.framebuffer == framebuffer
      ensures forall a :: 0x4380_0000 <= a < 0x4400_0000 ==> this.mem(a) == 0
      ensures forall a :: !(HEAP_END <= a < WINDOW_END) ==> this.mem(a) == mem(a)
      ensures framebuffer + bufsize <= HEAP_END ==>
                (Laid(Now()) <==> PixelBytes(width, height, bitsPerPixel) <= BUFFER)
    {
      var pixels := PixelBytes(width, height, bitsPerPixel);
      BuffersFitExactly(pixels);
      var cleared: Memory := a => if HEAP_END <= a < WINDOW_END then 0 else mem(a);
      index, bufsize, this.framebuffer := 0, BufSize(pixels), framebuffer;
      this.mem, scan, next := cleared, FbAddress(0), FbAddress(0);
      start := Screen(0, BufSize(pixels), framebuffer, cleared, FbAddress(0), FbAddress(0));
      history := [];
    }

    ghost method Add(ev: Event)
      requires Run(start, history) && Possible(After(start, history), ev)
      modifies this`history
      ensures history == old(history) + [ev] && Run(start, history)
      ensures After(start, history) == Step(After(start, old(history)), ev)
    {
      assert (history + [ev])[..|history|] == history;
      history := history + [ev];
    }

    /** _lcd_control: only a rectangle update acts. The other buffer takes the frame and is shown next; where the
        buffers are laid out as they should be, the one indexed before keeps its contents, and with a sync between
        any two updates that is the one on screen. */
    method Control(cmd: Command)
      requires Valid()
      modifies this
      ensures Valid() && start == old(start)
      ensures cmd != RectUpdate ==> Now() == old(Now()) && history == old(history)
      ensures cmd == RectUpdate ==>
                && history == old(history) + [Update] && index == 1 - old(index) && next == FbAddress(index)
                && scan == old(scan) && bufsize == old(bufsize) && framebuffer == old(framebuffer)
                && Contents(mem, next, bufsize) == old(Contents(mem, framebuffer, bufsize))
                && (Laid(old(Now())) ==>
                     Contents(mem, FbAddress(old(index)), bufsize) == old(Contents(mem, FbAddress(index), bufsize)))
                && (Laid(start) && Paced(history) ==> scan == FbAddress(old(index)))
    {
      if cmd == RectUpdate {
        if Laid(start) && Paced(history + [Update]) {
          assert (history + [Update])[..|history|] == history;
          PacedState(start, history);
        }
        CopyArrives(mem, FbAddress(1 - index), framebuffer, bufsize);
        if bufsize <= BUFFER {
          CopyElsewhere(mem, FbAddress(1 - index), framebuffer, bufsize, FbAddress(index), bufsize);
        }
        index := (index + 1) % 2;
        mem := Copied(mem, FbAddress(index), framebuffer, bufsize);
        next := FbAddress(index);
        Add(Update);
      }
    }

    /** The display engine takes the base address. */
    method Vsync()
      requires Valid()
      modifies this`scan, this`history
      ensures Valid() && history == old(history) + [Event.Vsync] && Now() == old(Now()).(scan := old(next))
    {
      scan := next;
      Add(Event.Vsync);
    }

    /** Other code writes memory, but not the buffers. */
    method Draw(newMem: Memory)
      requires Valid() && OutsideOnly(mem, newMem)
      modifies this`mem, this`history
      ensures Valid() && history == old(history) + [Event.Draw(newMem)] && Now() == old(Now()).(mem := newMem)
    {
      mem := newMem;
      Add(Event.Draw(newMem));
    }
  }
}
