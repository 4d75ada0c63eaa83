/**
 Reception: _emac_rx of driver/drv_emac.c with _sun8i_eth_recv and _sun8i_free_pkt of uboot/sun8i_emac.c.

 The DMA engine fills the descriptors of the ring in turn. _sun8i_eth_recv reports the length of the current
 one, and sets the frame pointer only from 64 bytes on; _emac_rx tests only the length.
 */
module EmacRx {
  import opened EmacRing
  import opened Options
  import opened Pbufs
  import opened Words

  const RXSIZE := 2044
  const MIN_FRAME := 0x40
  const EAGAIN := 11
  const EMSGSIZE := 90

  /** rxbuffer, the status words, and rx_currdescnum */
  datatype Rx = Rx(mem: Bytes, status: seq<nat>, cur: nat) {
    predicate Valid() {
      && |mem| == DESCS * BUFSIZE && |status| == DESCS && cur < DESCS
      && forall d :: 0 <= d < DESCS ==> status[d] < 0x1_0000_0000
    }
  }

  predicate DmaOwns(word: nat) {
    word >= OWNED
  }

  /** Bits 29:16 of a status word: the length of the received frame. */
  function LengthOf(word: nat): (n: nat)
    ensures n < 0x4000
  {
    word / 0x1_0000 % 0x4000
  }

  /** The return value of _sun8i_eth_recv, and whether it has set *packetp. */
  datatype Received = Received(length: int, pointer: bool)

  function Recv(rx: Rx): Received
    requires rx.Valid()
  {
    var word := rx.status[rx.cur];
    if DmaOwns(word) then Received(-EAGAIN, false)
    else if LengthOf(word) < MIN_FRAME then Received(LengthOf(word), false)
    else if LengthOf(word) > RXSIZE then Received(-EMSGSIZE, false)
    else Received(LengthOf(word), true)
  }

  function FreePkt(rx: Rx): (r: Rx)
    requires rx.Valid()
    ensures r.Valid()
  {
    var word := rx.status[rx.cur];
    rx.(status := rx.status[rx.cur := if DmaOwns(word) then word else word + OWNED], cur := Next(rx.cur))
  }

  /** The n bytes that a descriptor's buffer starts with */
  function Stored(rx: Rx, d: nat, n: nat): Bytes
    requires rx.Valid() && d < DESCS && n <= BUFSIZE
  {
    rx.mem[Base(d)..Base(d) + n]
  }

  /** What _emac_rx copies if it finds memory. Without a frame pointer it copies from address 0 on, where
      memory holds `low`. */
  function Taken(rx: Rx, low: Bytes): Option<Bytes>
    requires rx.Valid() && |low| >= MIN_FRAME
  {
    var r := Recv(rx);
    if r.length <= 0 then None
    else Some(if r.pointer then Stored(rx, rx.cur, r.length) else low[..r.length])
  }

  /** _emac_rx, where `found` is whether pbuf_alloc finds memory. */
  function Poll(rx: Rx, low: Bytes, found: bool): (r: (Rx, Option<Bytes>))
    requires rx.Valid() && |low| >= MIN_FRAME
    ensures r.0.Valid()
  {
    if found && Taken(rx, low).Some? then (FreePkt(rx), Taken(rx, low)) else (rx, None)
  }

  lemma {:induction false} StatusDecodes(word: nat)
    requires word < 0x1_0000_0000
    ensures And(word, OWNED) != 0 <==> DmaOwns(word)
    ensures Or(word, OWNED) == if DmaOwns(word) then word else word + OWNED
    ensures And(Shr(word, 16), 0x3FFF) == LengthOf(word)
  {
    Pow2Known();
    Pow2Add(15, 16);
    assert Pow2(14) == 0x4000;
    ShrIs(word, 16);
    LowMask(Shr(word, 16), 14);
    ShrIs(Shr(word, 16), 14);
    ShrIs(word, 31);
    ShlIs(1, 31);
    Split(word, 31);
    ShiftedOperand(Shr(word, 31), Low(word, 31), 1, 31);
    Shl0(31);
  }

  // ----- When a poll delivers, and when the ring moves on -----

  /** The poll delivers what the current descriptor holds. */
  predicate DeliversFrame(rx: Rx, low: Bytes, found: bool)
    requires rx.Valid() && |low| >= MIN_FRAME
  {
    var n := LengthOf(rx.status[rx.cur]);
    n <= BUFSIZE && Poll(rx, low, found).1 == Some(Stored(rx, rx.cur, n))
  }

  /** Whatever memory holds at address 0, the chain holds the received frame exactly when the engine has handed
      one over whose length is from 64 to 2044, and there is memory for it. */
  lemma {:induction false} DeliversExactly(rx: Rx, found: bool)
    requires rx.Valid()
    ensures (forall low: Bytes :: |low| >= MIN_FRAME ==> DeliversFrame(rx, low, found)) <==>
            (found && !DmaOwns(rx.status[rx.cur]) && 64 <= LengthOf(rx.status[rx.cur]) <= 2044)
  {
    var n := LengthOf(rx.status[rx.cur]);
    var low: Bytes := seq(MIN_FRAME, _ => rx.mem[Base(rx.cur)] ^ 1);
    if 0 < n < MIN_FRAME {
      assert low[..n][0] != Stored(rx, rx.cur, n)[0];
    }
    assert DeliversFrame(rx, low, found) ==> n >= MIN_FRAME;
  }

  /** The ring moves on exactly when a frame of 1 to 2044 bytes is there and memory for it; a shorter or
      longer one stays at its head. */
  lemma {:induction false} MovesOnExactly(rx: Rx, low: Bytes, found: bool)
    requires rx.Valid() && |low| >= MIN_FRAME
    ensures var r, word := Poll(rx, low, found).0, rx.status[rx.cur];
            && (r.cur != rx.cur <==> found && !DmaOwns(word) && 1 <= LengthOf(word) <= 2044)
            && (if r.cur != rx.cur then r.cur == (rx.cur + 1) % 32 && DmaOwns(r.status[rx.cur]) else r == rx)
  {}

  /** A frame of 16 bytes: the chain gets what lies at address 0. */
  lemma {:induction false} RuntDeliversLowMemory(rx: Rx, low: Bytes)
    requires rx.Valid() && |low| >= MIN_FRAME && rx.status[rx.cur] == 0x0010_0000
    ensures Poll(rx, low, true).1 == Some(low[..16])
  {
    assert LengthOf(0x0010_0000) == 16;
  }

  // ----- Runs of the engine, the driver and the PHY thread -----

  datatype Arrival = Arrival(word: nat, data: Bytes)

  /** A poll between _sun8i_eth_recv and _sun8i_free_pkt: the length, the descriptor that the frame pointer refers to
      if it is set, and whether the rings have been initialized again since. */
  datatype Pending = Pending(length: nat, at: Option<nat>, stale: bool)

  /** `dma` is the descriptor the engine fills next. `accepted` are the frames it has stored since the rings were last
      initialized, without those given back unread, and `delivered` what polls begun since then have delivered. */
  datatype World = World(rx: Rx, dma: nat, poll: Option<Pending>, accepted: seq<Arrival>, delivered: seq<Bytes>)

  datatype Event =
    | Arrive(frame: Arrival)            // a frame comes in: the engine stores it if it owns the descriptor
    | Begin                             // _emac_rx calls _sun8i_eth_recv
    | Finish(low: Bytes, found: bool)   // pbuf_alloc returns; with memory, the copy and _sun8i_free_pkt
    | Restart                           // the PHY thread initializes the rings again

  predicate Possible(ev: Event) {
    match ev
    case Arrive(f) =>
      f.word < OWNED && |f.data| == if LengthOf(f.word) <= RXSIZE then LengthOf(f.word) else RXSIZE
    case Finish(low, _) => |low| >= MIN_FRAME
    case _ => true
  }

  /** rx_descs_init */
  function InitDescs(mem: Bytes): (rx: Rx)
    requires |mem| == DESCS * BUFSIZE
    ensures rx.Valid()
  {
    Rx(mem, seq(DESCS, _ => OWNED), 0)
  }

  predicate WellFormed(s: World) {
    && s.rx.Valid() && s.dma < DESCS
    && (s.poll.Some? ==>
         var p := s.poll.value;
         0 < p.length <= RXSIZE && if p.at.Some? then p.at.value < DESCS else p.length < MIN_FRAME)
  }

  /** The bytes that a poll copies */
  function Fetched(rx: Rx, p: Pending, low: Bytes): Bytes
    requires rx.Valid() && p.length <= RXSIZE && |low| >= MIN_FRAME
    requires if p.at.Some? then p.at.value < DESCS else p.length < MIN_FRAME
  {
    if p.at.Some? then Stored(rx, p.at.value, p.length) else low[..p.length]
  }

  /** `accepted` when the current descriptor goes back to the engine unread */
  function GivenBack(s: World): seq<Arrival>
    requires WellFormed(s)
  {
    var n := |s.delivered|;
    if !DmaOwns(s.rx.status[s.rx.cur]) && n < |s.accepted| then s.accepted[..n] + s.accepted[n + 1..] else s.accepted
  }

  /** A poll begins only when none is open, and ends only when one is. What one that spans an initialization of the
      rings delivers is not recorded. */
  function Step(s: World, ev: Event): (r: World)
    requires WellFormed(s) && Possible(ev)
    ensures WellFormed(r)
  {
    match ev
    case Arrive(f) =>
      if !DmaOwns(s.rx.status[s.dma]) then s
      else
        s.(rx := s.rx.(mem := Put(s.rx.mem, Base(s.dma), f.data), status := s.rx.status[s.dma := f.word]),
           dma := Next(s.dma), accepted := s.accepted + [f])
    case Begin =>
      var r := Recv(s.rx);
      if s.poll.Some? || r.length <= 0 then s
      else s.(poll := Some(Pending(r.length, if r.pointer then Some(s.rx.cur) else None, false)))
    case Finish(low, found) =>
      if s.poll.None? || !found then s.(poll := None)
      else if s.poll.value.stale then s.(poll := None, rx := FreePkt(s.rx), accepted := GivenBack(s))
      else
        s.(poll := None, rx := FreePkt(s.rx), delivered := s.delivered + [Fetched(s.rx, s.poll.value, low)])
    case Restart =>
      World(InitDescs(s.rx.mem), 0, if s.poll.Some? then Some(s.poll.value.(stale := true)) else None, [], [])
  }

  ghost predicate AllPossible(evs: seq<Event>) {
    forall k :: 0 <= k < |evs| ==> Possible(evs[k])
  }

  function After(s: World, evs: seq<Event>): (r: World)
    requires WellFormed(s) && AllPossible(evs)
    ensures WellFormed(r)
  {
    if evs == [] then s else Step(After(s, evs[..|evs| - 1]), evs[|evs| - 1])
  }

  /** Without interference the two steps of a poll are the whole of it. */
  lemma {:induction false} TwoStepsArePoll(s: World, low: Bytes, found: bool)
    requires WellFormed(s) && s.poll.None? && |low| >= MIN_FRAME
    ensures var r, t := Poll(s.rx, low, found), Step(Step(s, Begin), Finish(low, found));
            t.poll == None && t.rx == r.0 && t.dma == s.dma && t.accepted == s.accepted &&
            t.delivered == s.delivered + if r.1.Some? then [r.1.value] else []
  {}

  /** The descriptor i places after c */
  function Slot(c: nat, i: nat): (d: nat)
    requires c < DESCS && i <= DESCS
    ensures d < DESCS
  {
    if c + i < DESCS then c + i else c + i - DESCS
  }

  /** Frames accepted and not yet delivered */
  function Waiting(s: World): int {
    |s.accepted| - |s.delivered|
  }

  /** The descriptor holds this arrival. */
  predicate Holds(rx: Rx, d: nat, f: Arrival)
    requires rx.Valid() && d < DESCS
  {
    rx.status[d] == f.word && |f.data| <= RXSIZE && Stored(rx, d, |f.data|) == f.data
  }

  /** From the current descriptor on, the ring holds the waiting frames in order, and the engine owns the rest. */
  ghost predicate IsQueue(s: World)
    requires WellFormed(s)
  {
    && 0 <= Waiting(s) <= DESCS && s.dma == Slot(s.rx.cur, Waiting(s))
    && (forall i :: 0 <= i < Waiting(s) ==> Holds(s.rx, Slot(s.rx.cur, i), s.accepted[|s.delivered| + i]))
    && (forall i :: Waiting(s) <= i < DESCS ==> DmaOwns(s.rx.status[Slot(s.rx.cur, i)]))
  }

  /** What was delivered for an arrival: as many bytes, and from 64 on the very bytes. */
  predicate Answers(f: Arrival, got: Bytes) {
    && 0 < LengthOf(f.word) <= RXSIZE && |got| == LengthOf(f.word)
    && (|got| >= MIN_FRAME ==> got == f.data)
  }

  /** An open poll is for the frame at the head, or the rings have been initialized again since and no poll has begun
      after that. */
  predicate PollFits(s: World)
    requires WellFormed(s)
  {
    s.poll.Some? ==>
      var p, r := s.poll.value, Recv(s.rx);
      if p.stale then s.rx.cur == 0 && s.delivered == []
      else r.length > 0 && p == Pending(r.length, if r.pointer then Some(s.rx.cur) else None, false)
  }

  ghost predicate Fifo(s: World) {
    && WellFormed(s) && IsQueue(s) && PollFits(s)
    && (forall k :: 0 <= k < |s.accepted| ==> Possible(Arrive(s.accepted[k])))
    && (forall k :: 0 <= k < |s.delivered| ==> Answers(s.accepted[k], s.delivered[k]))
  }

  /** What rx_descs_init leaves the first time */
  ghost predicate Primed(s: World) {
    && WellFormed(s) && s.dma == s.rx.cur && s.poll == None && s.accepted == [] && s.delivered == []
    && forall d :: 0 <= d < DESCS ==> DmaOwns(s.rx.status[d])
  }

  lemma {:induction false} SlotsDiffer(c: nat, i: nat, j: nat)
    requires c < DESCS && i < DESCS && j < DESCS && i != j
    ensures Slot(c, i) != Slot(c, j)
  {}

  lemma {:induction false} OtherStored(rx: Rx, at: nat, data: Bytes, d: nat, n: nat)
    requires rx.Valid() && at < DESCS && d < DESCS && at != d && |data| <= BUFSIZE && n <= BUFSIZE
    ensures Stored(rx.(mem := Put(rx.mem, Base(at), data)), d, n) == Stored(rx, d, n)
  {
    assert forall a :: Base(d) <= a < Base(d) + n ==> Put(rx.mem, Base(at), data)[a] == rx.mem[a];
  }

  /** The current descriptor is handed over exactly when a frame waits, and then holds the first that does. */
  lemma {:induction false} HeadIsFirst(s: World)
    requires Fifo(s)
    ensures Waiting(s) > 0 <==> !DmaOwns(s.rx.status[s.rx.cur])
    ensures Waiting(s) > 0 ==> Holds(s.rx, s.rx.cur, s.accepted[|s.delivered|])
  {
    assert Slot(s.rx.cur, 0) == s.rx.cur;
    if Waiting(s) > 0 {
      assert Holds(s.rx, Slot(s.rx.cur, 0), s.accepted[|s.delivered| + 0]);
    }
  }

  /** A frame that comes in is stored exactly when fewer than 32 wait. */
  lemma {:induction false} AcceptsExactlyWithRoom(s: World, f: Arrival)
    requires Fifo(s) && Possible(Arrive(f))
    ensures DmaOwns(s.rx.status[s.dma]) <==> Waiting(s) < 32
    ensures Step(s, Arrive(f)).accepted == s.accepted + if Waiting(s) < DESCS then [f] else []
  {
    HeadIsFirst(s);
  }

  lemma {:induction false} ArrivalKeepsQueue(s: World, f: Arrival)
    requires Fifo(s) && Possible(Arrive(f))
    ensures IsQueue(Step(s, Arrive(f)))
  {
    var t, n, c := Step(s, Arrive(f)), Waiting(s), s.rx.cur;
    AcceptsExactlyWithRoom(s, f);
    if n < DESCS {
      forall i | 0 <= i < n + 1 ensures Holds(t.rx, Slot(c, i), t.accepted[|s.delivered| + i]) {
        if i < n {
          SlotsDiffer(c, i, n);
          OtherStored(s.rx, s.dma, f.data, Slot(c, i), |s.accepted[|s.delivered| + i].data|);
        }
      }
      forall i | n + 1 <= i < DESCS ensures DmaOwns(t.rx.status[Slot(c, i)]) {
        SlotsDiffer(c, i, n);
      }
    }
  }

  /** An arrival never touches the descriptor of a frame that waits. */
  lemma {:induction false} ArrivalKeepsHead(s: World, f: Arrival)
    requires WellFormed(s) && Possible(Arrive(f)) && !DmaOwns(s.rx.status[s.rx.cur])
    ensures var t := Step(s, Arrive(f)); t.rx.cur == s.rx.cur && t.rx.status[t.rx.cur] == s.rx.status[s.rx.cur]
  {}

  lemma {:induction false} ArrivalKeepsFifo(s: World, f: Arrival)
    requires Fifo(s) && Possible(Arrive(f))
    ensures Fifo(Step(s, Arrive(f)))
  {
    ArrivalKeepsQueue(s, f);
    if s.poll.Some? && !s.poll.value.stale { ArrivalKeepsHead(s, f); }
  }

  lemma {:induction false} FreeKeepsQueue(s: World, t: World)
    requires Fifo(s) && Waiting(s) > 0
    requires WellFormed(t) && t.rx == FreePkt(s.rx) && t.dma == s.dma && Waiting(t) == Waiting(s) - 1
    requires t.accepted[|t.delivered|..] == s.accepted[|s.delivered| + 1..]
    ensures IsQueue(t)
  {
    var n, c := Waiting(s), s.rx.cur;
    forall i | 0 <= i < n - 1 ensures Holds(t.rx, Slot(t.rx.cur, i), t.accepted[|t.delivered| + i]) {
      assert Slot(t.rx.cur, i) == Slot(c, i + 1);
      SlotsDiffer(c, 0, i + 1);
      assert Holds(s.rx, Slot(c, i + 1), s.accepted[|s.delivered| + (i + 1)]);
      assert t.accepted[|t.delivered| + i] == t.accepted[|t.delivered|..][i] == s.accepted[|s.delivered| + 1..][i];
    }
    forall i | n - 1 <= i < DESCS ensures DmaOwns(t.rx.status[Slot(t.rx.cur, i)]) {
      if i < DESCS - 1 {
        assert Slot(t.rx.cur, i) == Slot(c, i + 1);
        SlotsDiffer(c, 0, i + 1);
      }
    }
  }

  lemma {:induction false} DeliveryKeepsFifo(s: World, low: Bytes)
    requires Fifo(s) && |low| >= MIN_FRAME && s.poll.Some? && !s.poll.value.stale
    ensures Fifo(Step(s, Finish(low, true)))
  {
    var t, got := Step(s, Finish(low, true)), Fetched(s.rx, s.poll.value, low);
    HeadIsFirst(s);
    FreeKeepsQueue(s, t);
    assert Possible(Arrive(s.accepted[|s.delivered|]));
    assert Answers(s.accepted[|s.delivered|], got);
  }

  /** A poll that spans an initialization of the rings gives back, unread, the first frame that came in since. */
  lemma {:induction false} StalePollLosesFrame(s: World, low: Bytes)
    requires Fifo(s) && |low| >= MIN_FRAME && s.poll.Some? && s.poll.value.stale && s.accepted != []
    ensures var t := Step(s, Finish(low, true));
            Fifo(t) && t.accepted == s.accepted[1..] && t.delivered == []
  {
    HeadIsFirst(s);
    FreeKeepsQueue(s, Step(s, Finish(low, true)));
  }

  /** An initialization of the rings makes an empty queue of any state. */
  lemma {:induction false} RestartFrees(s: World)
    requires WellFormed(s)
    ensures var t := Step(s, Restart);
            Fifo(t) && t.accepted == [] && t.delivered == [] && (t.poll.Some? <==> s.poll.Some?)
  {}

  // ----- When the queue survives -----

  /** A poll that spans an initialization of the rings ends with memory found before any frame has come in since. */
  predicate Tears(s: World, ev: Event) {
    ev.Finish? && ev.found && s.poll.Some? && s.poll.value.stale && s.accepted == []
  }

  /** That has happened since the rings were last initialized. */
  ghost predicate Torn(s: World, evs: seq<Event>)
    requires WellFormed(s) && AllPossible(evs)
  {
    evs != [] &&
    var before, ev := evs[..|evs| - 1], evs[|evs| - 1];
    ev != Restart && (Torn(s, before) || Tears(After(s, before), ev))
  }

  /** The driver is one descriptor ahead. Counted from where both started, the engine has filled e of the ring's
      places and the driver looks at place d. Places from d up to e are handed over, and the first one, which the
      driver has skipped, since the engine has filled it. */
  ghost predicate SkewedAt(s: World, e: nat, d: nat)
    requires WellFormed(s)
  {
    && e <= DESCS && 1 <= d <= DESCS && (d <= e || d == 1)
    && s.dma == Slot(0, e) && s.rx.cur == Slot(0, d)
    && (DmaOwns(s.rx.status[0]) <==> e == 0)
    && (forall i :: 1 <= i < DESCS ==> (DmaOwns(s.rx.status[i]) <==> !(d <= i < e)))
  }

  ghost predicate Skewed(s: World) {
    && WellFormed(s) && (exists e: nat, d: nat :: SkewedAt(s, e, d))
    && (s.poll.Some? ==> !s.poll.value.stale && !DmaOwns(s.rx.status[s.rx.cur]))
  }

  /** Places counted from any descriptor c: those of the waiting frames are handed over, and no other. */
  lemma {:induction false} QueueOwns(s: World)
    requires Fifo(s)
    ensures var c, n := s.rx.cur, Waiting(s);
            && s.dma == Slot(c, n)
            && forall j :: 0 <= j < DESCS ==>
                 (DmaOwns(s.rx.status[j]) <==> !((c <= j && j - c < n) || j + DESCS - c < n))
  {
    var c, n := s.rx.cur, Waiting(s);
    forall j | 0 <= j < DESCS
      ensures DmaOwns(s.rx.status[j]) <==> !((c <= j && j - c < n) || j + DESCS - c < n)
    {
      var i := if c <= j then j - c else j + DESCS - c;
      assert Slot(c, i) == j;
      if i < n { assert Holds(s.rx, Slot(c, i), s.accepted[|s.delivered| + i]); }
    }
  }

  lemma {:induction false} SkewedIsNoQueue(s: World)
    requires Skewed(s)
    ensures !Fifo(s)
  {
    var e: nat, d: nat :| SkewedAt(s, e, d);
    var first, second, last := DmaOwns(s.rx.status[0]), DmaOwns(s.rx.status[1]), DmaOwns(s.rx.status[DESCS - 1]);
    if Fifo(s) {
      QueueOwns(s);
      assert false;
    }
  }

  lemma {:induction false} SkewedStep(s: World, ev: Event)
    requires Skewed(s) && Possible(ev) && ev != Restart
    ensures Skewed(Step(s, ev))
  {
    var t := Step(s, ev);
    var e: nat, d: nat :| SkewedAt(s, e, d);
    match ev
    case Arrive(f) =>
      if DmaOwns(s.rx.status[s.dma]) {
        assert e < DESCS;
        assert SkewedAt(t, e + 1, d);
      }
    case Begin =>
      assert SkewedAt(t, e, d);
    case Finish(low, found) =>
      if s.poll.Some? && found {
        if d < DESCS {
          assert d < e;
          assert SkewedAt(t, e, d + 1);
        } else {
          assert SkewedAt(t, 0, 1);
        }
      } else {
        assert SkewedAt(t, e, d);
      }
    case Restart =>
  }

  lemma {:induction false} TearingSkews(s: World, ev: Event)
    requires Fifo(s) && Possible(ev) && Tears(s, ev)
    ensures Skewed(Step(s, ev))
  {
    var t := Step(s, ev);
    forall i | 0 <= i < DESCS ensures DmaOwns(s.rx.status[i]) {
      assert Slot(0, i) == i;
    }
    assert SkewedAt(t, 0, 1);
  }

  lemma {:induction false} OtherStepsKeepFifo(s: World, ev: Event)
    requires Fifo(s) && Possible(ev) && !Tears(s, ev)
    ensures Fifo(Step(s, ev))
  {
    match ev
    case Arrive(f) => ArrivalKeepsFifo(s, f);
    case Begin =>
    case Restart => RestartFrees(s);
    case Finish(low, found) =>
      if s.poll.Some? && found {
        if s.poll.value.stale {
          StalePollLosesFrame(s, low);
        } else {
          DeliveryKeepsFifo(s, low);
        }
      }
  }

  lemma {:induction false} FifoOrSkewed(s: World, evs: seq<Event>)
    requires Primed(s) && AllPossible(evs)
    ensures if Torn(s, evs) then Skewed(After(s, evs)) else Fifo(After(s, evs))
  {
    if evs != [] {
      var before, ev := evs[..|evs| - 1], evs[|evs| - 1];
      FifoOrSkewed(s, before);
      if ev == Restart {
        RestartFrees(After(s, before));
      } else if Torn(s, before) {
        SkewedStep(After(s, before), ev);
      } else if Tears(After(s, before), ev) {
        TearingSkews(After(s, before), ev);
      } else {
        OtherStepsKeepFifo(After(s, before), ev);
      }
    }
  }

  /** Over every run, with frames coming in and the rings initialized again at any point of a poll, the ring is a
      first-in first-out queue of at most 32 frames, and each frame delivered answers the one accepted in its place,
      byte for byte from 64 bytes on, exactly when since the rings were last initialized no poll begun before that has
      ended with memory found before the first frame came in. */
  lemma {:induction false} FifoExactlyUnlessTorn(s: World, evs: seq<Event>)
    requires Primed(s) && AllPossible(evs)
    ensures Fifo(After(s, evs)) <==> !Torn(s, evs)
  {
    FifoOrSkewed(s, evs);
    if Torn(s, evs) { SkewedIsNoQueue(After(s, evs)); }
  }

  /** Such a run: a poll of one frame is open while the rings are initialized again. Of the two frames that come in
      then, the second is the one delivered. */
  lemma {:induction false} TornPollSkipsFrame(s: World, f: Arrival, g: Arrival, h: Arrival, low: Bytes)
    requires Primed(s) && |low| >= MIN_FRAME && Possible(Arrive(f)) && Possible(Arrive(g)) && Possible(Arrive(h))
    requires MIN_FRAME <= LengthOf(f.word) <= RXSIZE && MIN_FRAME <= LengthOf(h.word) <= RXSIZE
    ensures var finish := Finish(low, true);
            var open := Step(Step(s, Arrive(f)), Begin);
            var torn := Step(Step(open, Restart), finish);
            var full := Step(Step(torn, Arrive(g)), Arrive(h));
            var t := Step(Step(full, Begin), finish);
            full.accepted == [g, h] && t.delivered == [h.data] && !DmaOwns(t.rx.status[0])
  {
    var open := Step(Step(s, Arrive(f)), Begin);
    assert Recv(Step(s, Arrive(f)).rx).pointer;
    var torn := Step(Step(open, Restart), Finish(low, true));
    assert torn.rx.cur == 1 && torn.dma == 0 && torn.poll == None;
    var full := Step(Step(torn, Arrive(g)), Arrive(h));
    assert full.rx.status[1] == h.word && Stored(full.rx, 1, |h.data|) == h.data;
  }

  // ----- When reception stops -----

  /** The frame at the head of the queue has a length that is never released: 0, or more than 2044. */
  predicate Stuck(rx: Rx)
    requires rx.Valid()
  {
    var word := rx.status[rx.cur];
    !DmaOwns(word) && (LengthOf(word) == 0 || LengthOf(word) > RXSIZE)
  }

  predicate StaleOpen(s: World) {
    s.poll.Some? && s.poll.value.stale
  }

  /** The head is stuck, and so is the next frame if a poll that spans an initialization of the rings may still give
      the head back. */
  predicate Blocked(s: World)
    requires WellFormed(s)
  {
    Stuck(s.rx) && (StaleOpen(s) ==> Stuck(FreePkt(s.rx)))
  }

  /** Events before the rings are initialized again */
  ghost predicate Running(evs: seq<Event>) {
    AllPossible(evs) && forall k :: 0 <= k < |evs| ==> evs[k] != Restart
  }

  lemma {:induction false} BlockedStep(s: World, ev: Event)
    requires Fifo(s) && Blocked(s) && Possible(ev) && ev != Restart
    ensures var t := Step(s, ev); Fifo(t) && Blocked(t) && t.delivered == s.delivered
  {
    HeadIsFirst(s);
    assert !Tears(s, ev);
    OtherStepsKeepFifo(s, ev);
    if ev.Arrive? && StaleOpen(s) { assert s.dma != Next(s.rx.cur) || !DmaOwns(s.rx.status[s.dma]); }
  }

  lemma {:induction false} BlockedStays(s: World, evs: seq<Event>)
    requires Fifo(s) && Blocked(s) && Running(evs)
    ensures var t := After(s, evs); Fifo(t) && Blocked(t) && t.delivered == s.delivered
  {
    if evs != [] {
      BlockedStays(s, evs[..|evs| - 1]);
      BlockedStep(After(s, evs[..|evs| - 1]), evs[|evs| - 1]);
    }
  }

  ghost predicate DeliversNothingMore(s: World)
    requires WellFormed(s)
  {
    forall evs: seq<Event> :: Running(evs) ==> After(s, evs).delivered == s.delivered
  }

  lemma {:induction false} AfterBoth(s: World, xs: seq<Event>, ys: seq<Event>)
    requires WellFormed(s) && AllPossible(xs) && AllPossible(ys)
    ensures After(s, xs + ys) == After(After(s, xs), ys)
  {
    if ys == [] {
      assert xs + ys == xs;
    } else {
      AfterBoth(s, xs, ys[..|ys| - 1]);
      assert (xs + ys)[..|xs + ys| - 1] == xs + ys[..|ys| - 1];
    }
  }

  lemma {:induction false} AfterOne(s: World, ev: Event)
    requires WellFormed(s) && Possible(ev)
    ensures After(s, [ev]) == Step(s, ev)
  {
    assert [ev][..0] == [];
  }

  const ZEROS: Bytes := seq(MIN_FRAME, _ => 0)

  lemma {:induction false} PollDelivers(s: World)
    requires WellFormed(s) && s.poll.None? && Recv(s.rx).length > 0
    ensures After(s, [Begin, Finish(ZEROS, true)]).delivered != s.delivered
  {
    var t := Step(s, Begin);
    AfterOne(s, Begin);
    AfterOne(t, Finish(ZEROS, true));
    AfterBoth(s, [Begin], [Finish(ZEROS, true)]);
    assert [Begin, Finish(ZEROS, true)] == [Begin] + [Finish(ZEROS, true)];
  }

  /** With no poll open and the head not stuck, a run that delivers */
  lemma {:induction false} DeliversFromRest(s: World) returns (evs: seq<Event>)
    requires Fifo(s) && s.poll.None? && !Stuck(s.rx)
    ensures Running(evs) && After(s, evs).delivered != s.delivered
  {
    var arrive := Arrive(Arrival(0x0001_0000, [0]));
    assert LengthOf(0x0001_0000) == 1;
    HeadIsFirst(s);
    var first := if DmaOwns(s.rx.status[s.rx.cur]) then [arrive] else [];
    var t := After(s, first);
    AfterOne(s, arrive);
    assert t.delivered == s.delivered && t.poll.None? && Recv(t.rx).length > 0;
    PollDelivers(t);
    AfterBoth(s, first, [Begin, Finish(ZEROS, true)]);
    evs := first + [Begin, Finish(ZEROS, true)];
  }

  lemma {:induction false} DeliversUnlessBlocked(s: World) returns (evs: seq<Event>)
    requires Fifo(s) && !Blocked(s)
    ensures Running(evs) && After(s, evs).delivered != s.delivered
  {
    if s.poll.None? {
      evs := DeliversFromRest(s);
    } else {
      var end := Finish(ZEROS, !StaleOpen(s) || Stuck(s.rx));
      AfterOne(s, end);
      evs := [end];
      if StaleOpen(s) {
        HeadIsFirst(s);
        OtherStepsKeepFifo(s, end);
        var more := DeliversFromRest(Step(s, end));
        AfterBoth(s, [end], more);
        evs := [end] + more;
      }
    }
  }

  /** In every state of a queue: until the rings are initialized again nothing more is delivered, whatever comes in
      and however often the driver polls, exactly when the frame at the head has length 0 or more than 2044, and with
      a poll open that spans an initialization of the rings the one after it as well. */
  lemma {:induction false} StopsExactlyWhenBlocked(s: World)
    requires Fifo(s)
    ensures DeliversNothingMore(s) <==> Blocked(s)
  {
    if Blocked(s) {
      forall evs: seq<Event> | Running(evs) ensures After(s, evs).delivered == s.delivered {
        BlockedStays(s, evs);
      }
    } else {
      var evs := DeliversUnlessBlocked(s);
    }
  }

  // ----- The imperative form -----

  class RxRing {
    const mem: array<bv8>
    const status: array<nat>
    var cur: nat

    ghost predicate Valid()
      reads this, mem, status
    {
      && mem.Length == DESCS * BUFSIZE && status.Length == DESCS && cur < DESCS
      && forall d :: 0 <= d < DESCS ==> status[d] < 0x1_0000_0000
    }

    ghost function State(): (rx: Rx)
      requires Valid()
      reads this, mem, status
      ensures rx.Valid()
    {
      Rx(mem[..], status[..], cur)
    }

    /** The state of rx_descs_init */
    constructor ()
      ensures Valid() && cur == 0 && fresh(mem) && fresh(status)
      ensures forall d :: 0 <= d < DESCS ==> DmaOwns(status[d])
    {
      mem, status, cur := new bv8[DESCS * BUFSIZE], new nat[DESCS](_ => OWNED), 0;
    }

    /** _sun8i_eth_recv */
    method EthRecv() returns (length: int, pointer: bool)
      requires Valid()
      ensures var word := status[cur];
              var n := word / 0x1_0000 % 0x4000;
              && length == (if word >= 0x8000_0000 then -11 else if n > 2044 then -90 else n)
              && (pointer <==> word < 0x8000_0000 && 64 <= n <= 2044)
      ensures Received(length, pointer) == Recv(State())
    {
      length, pointer := -EAGAIN, false;
      var goodPacket := true;
      StatusDecodes(status[cur]);
      if And(status[cur], OWNED) == 0 {
        length := And(Shr(status[cur], 16), 0x3FFF);
        if length < MIN_FRAME {
          goodPacket := false;
        }
        if goodPacket {
          if length > RXSIZE {
            return -EMSGSIZE, false;
          }
          pointer := true;
        }
      }
    }

    /** _sun8i_free_pkt */
    method FreePacket()
      requires Valid()
      modifies status, this`cur
      ensures cur == (old(cur) + 1) % 32 && mem[..] == old(mem[..])
      ensures var word := old(status[cur]);
              status[old(cur)] == if word >= 0x8000_0000 then word else word + 0x8000_0000
      ensures forall d :: 0 <= d < 32 && d != old(cur) ==> status[d] == old(status[d])
      ensures Valid() && State() == FreePkt(old(State()))
    {
      StatusDecodes(status[cur]);
      status[cur] := Or(status[cur], OWNED);
      assert mem[..] == old(mem[..]);
      cur := cur + 1;
      if cur >= DESCS {
        cur := 0;
      }
    }

    /** _emac_rx, run without interference. `p` is what pbuf_alloc returns: a new chain for the length it is asked
        for, or nothing. */
    method Receive(low: Bytes, p: Pbuf?, ghost chain: seq<Pbuf>) returns (r: Pbuf?)
      requires Valid() && |low| >= MIN_FRAME && IsChain(p, chain) && Distinct(chain)
      requires p != null && Taken(State(), low).Some? ==> TotalLen(chain) == |Taken(State(), low).value|
      requires forall k :: 0 <= k < |chain| ==> chain[k].payload != mem && (chain[k].payload as object) != status
      modifies Payloads(chain), status, this`cur
      ensures Valid() && Fits(chain)
      ensures State() == Poll(old(State()), low, p != null).0
      ensures var word := old(status[cur]);
              var n, at := word / 0x1_0000 % 0x4000, 2048 * old(cur);
              && (r != null <==> p != null && word < 0x8000_0000 && 1 <= n <= 2044)
              && (r != null ==>
                   && r == p
                   && Concat(Pieces(chain)) == if n >= 64 then old(mem[..])[at..at + n] else low[..n])
      ensures r == if Poll(old(State()), low, p != null).1.Some? then p else null
      ensures r != null ==> Concat(Pieces(chain)) == Poll(old(State()), low, true).1.value
    {
      ChainFits(p, chain);
      var length, pointer := EthRecv();
      if length <= 0 {
        return null;
      }
      if p == null {
        return null;
      }
      var frame := if pointer then mem[Base(cur)..Base(cur) + length] else low[..length];
      Scatter(frame, p, chain);
      CutLosesNothing(frame, chain, 0);
      FreePacket();
      r := p;
    }
  }

  /** rt_memcpy into a payload */
  method Memcpy(dst: array<bv8>, src: Bytes, offset: nat, len: nat)
    requires len <= dst.Length && offset + len <= |src|
    modifies dst
    ensures dst[..len] == src[offset..offset + len]
  {
    forall i | 0 <= i < len { dst[i] := src[offset + i]; }
  }

  /** One round of the copy loop */
  method CopyPiece(q: Pbuf, frame: Bytes, offset: nat, ghost chain: seq<Pbuf>, ghost done: seq<Bytes>)
    requires Fits(chain) && Distinct(chain) && Pbufs.Holds(chain, done)
    requires |done| < |chain| && q == chain[|done|] && offset + q.len <= |frame|
    modifies q.payload
    ensures Pbufs.Holds(chain, done + [frame[offset..offset + q.len]])
  {
    Memcpy(q.payload, frame, offset, q.len);
    assert forall j :: 0 <= j < |done| ==> chain[j].payload != q.payload;
  }

  /** The copy loop of _emac_rx */
  method Scatter(frame: Bytes, p: Pbuf?, ghost chain: seq<Pbuf>)
    requires IsChain(p, chain) && Fits(chain) && Distinct(chain) && TotalLen(chain) <= |frame|
    modifies Payloads(chain)
    ensures Pieces(chain) == Cut(frame, chain, 0)
  {
    var offset: nat, q := 0, p;
    ghost var k, done: seq<Bytes> := 0, [];
    while q != null
      invariant 0 <= k == |done| <= |chain| && IsChain(q, chain[k..])
      invariant offset + TotalLen(chain[k..]) == TotalLen(chain)
      invariant Cut(frame, chain, 0) == done + Cut(frame, chain[k..], offset)
      invariant Pbufs.Holds(chain, done)
      decreases |chain| - k
    {
      CutMoves(frame, q, chain, k, offset, done);
      assert chain[k].payload in Payloads(chain);
      CopyPiece(q, frame, offset, chain, done);
      done := done + [frame[offset..offset + q.len]];
      offset := offset + q.len;
      q := q.next;
      k := k + 1;
    }
    assert chain[k..] == [];
    HoldsAll(chain, done);
  }
}
