/**
 Transmission: _emac_tx of driver/drv_emac.c and _sun8i_emac_eth_send of uboot/sun8i_emac.c.

 _emac_tx sends one segment per pbuf, with a word that packs the running offset and, in bit 16, whether more
 segments follow. _sun8i_emac_eth_send copies each segment into the buffer of the current descriptor; the
 last one hands the descriptor to the DMA engine and moves on to the next of the ring.
 */
module EmacTx {
  import opened EmacRing
  import opened Pbufs
  import opened Words

  const MORE := 0x1_0000

  /** Bits 24, 29, 30 and 31: a mandatory bit, the begin of the frame, and two for its end. */
  const FLAGS := 0xE100_0000

  /** txbuffer, 65536 bytes, and the memory after it as far as any segment can reach. */
  const AREA := 0x3_0000

  datatype Desc = Desc(st: nat, status: nat)

  /** The buffers, the descriptors, and tx_currdescnum. */
  datatype Tx = Tx(mem: Bytes, descs: seq<Desc>, cur: nat) {
    predicate Valid() {
      |mem| == AREA && |descs| == DESCS && cur < DESCS
    }
  }

  /** One segment of at most 65535 bytes, for its place in the current buffer. Only the last one of a packet
      hands the descriptor over, with flags and the length up to there. */
  function Send(t: Tx, data: Bytes, at: nat, last: bool): (r: Tx)
    requires t.Valid() && |data| < MORE && at < MORE
    ensures r.Valid()
  {
    var mem := Put(t.mem, Base(t.cur) + at, data);
    if last then Tx(mem, t.descs[t.cur := Desc(FLAGS + at + |data|, OWNED)], Next(t.cur))
    else t.(mem := mem)
  }

  /** Where a segment goes, byte by byte, and what the last one does to the ring */
  lemma {:induction false} SegmentPlaced(t: Tx, data: Bytes, at: nat, last: bool)
    requires t.Valid() && |data| < MORE && at < MORE
    ensures var r, start := Send(t, data, at, last), 2048 * t.cur + at;
            && r.mem[start..start + |data|] == data
            && (forall a :: 0 <= a < AREA && !(start <= a < start + |data|) ==> r.mem[a] == t.mem[a])
            && if last then
                 && r.cur == (t.cur + 1) % 32
                 && r.descs == t.descs[t.cur := Desc(0xE100_0000 + at + |data|, 0x8000_0000)]
               else r.cur == t.cur && r.descs == t.descs
  {}

  predicate Lengths16(pieces: seq<Bytes>) {
    forall k :: 0 <= k < |pieces| ==> |pieces[k]| < MORE
  }

  /** Where piece k of a packet starts. */
  function Offset(pieces: seq<Bytes>, k: nat): nat
    requires k <= |pieces|
  {
    |Concat(pieces[..k])|
  }

  /** The first k rounds of _emac_tx: a piece is taken for the last one when it is and its offset leaves bit 16
      of the word clear. */
  function SendFirst(t: Tx, pieces: seq<Bytes>, k: nat): (r: Tx)
    requires t.Valid() && Lengths16(pieces) && k <= |pieces|
    ensures r.Valid()
  {
    if k == 0 then t
    else
      var offset := Offset(pieces, k - 1);
      Send(SendFirst(t, pieces, k - 1), pieces[k - 1], offset % MORE, k == |pieces| && offset < MORE)
  }

  function SendAll(t: Tx, pieces: seq<Bytes>): (r: Tx)
    requires t.Valid() && Lengths16(pieces)
    ensures r.Valid()
  {
    SendFirst(t, pieces, |pieces|)
  }

  // ----- The packed word and the flags -----

  lemma {:induction false} LowHalf(offs: nat)
    ensures And(offs, 0xFFFF) == offs % MORE
  {
    Pow2Known();
    LowMask(offs, 16);
    ShrIs(offs, 16);
  }

  /** Below 2^16 bit 16 of the packed word tells whether more segments follow; the low half is always the low
      half of the offset. */
  lemma {:induction false} WordDecodes(offset: nat)
    ensures Or(offset, 0) == offset && Or(offset, MORE) >= MORE && Or(offset, MORE) % MORE == offset % MORE
  {
    OrSymmetric(offset, 0);
    OrAtLeast(offset, MORE);
    Pow2Known();
    ShlIs(1, 16);
    Split(offset, 16);
    ShiftedOperand(Shr(offset, 16), Low(offset, 16), 1, 16);
    Join(Or(Shr(offset, 16), 1), Low(offset, 16), 16);
    ShrIs(Or(offset, MORE), 16);
    ShrIs(offset, 16);
  }

  lemma FlagPlaces()
    ensures Pow2(24) == 0x0100_0000 && Pow2(29) == 0x2000_0000 && Pow2(30) == 0x4000_0000 && Pow2(31) == 0x8000_0000
    ensures forall k :: Shl(1, k) == Pow2(k)
  {
    Pow2Known();
    Pow2Add(8, 16);
    Pow2Add(9, 20);
    forall k ensures Shl(1, k) == Pow2(k) { ShlIs(1, k); }
  }

  /** The flags are set above the length and leave it readable. */
  lemma {:induction false} FlagsAbove(n: nat)
    requires n < 0x0100_0000
    ensures Or(Or(Or(Or(n, 0x0100_0000), 0x4000_0000), 0x8000_0000), 0x2000_0000) == FLAGS + n
  {
    FlagPlaces();
    OrDisjoint(1, n, 24);
    OrDisjoint(1, n + 0x0100_0000, 30);
    OrDisjoint(1, n + 0x4100_0000, 31);
    ShlIs(6, 29);
    ShlIs(7, 29);
    assert Or(6, 1) == 7;
    ShiftedOperand(6, n + 0x0100_0000, 1, 29);
  }

  // ----- A whole packet -----

  lemma {:induction false} NextOffset(pieces: seq<Bytes>, k: nat)
    requires k < |pieces|
    ensures Concat(pieces[..k + 1]) == Concat(pieces[..k]) + pieces[k]
  {
    ConcatLast(pieces[..k], pieces[k]);
    assert pieces[..k + 1] == pieces[..k] + [pieces[k]];
  }

  lemma {:induction false} PutTwice(mem: Bytes, at: nat, x: Bytes, y: Bytes)
    requires at + |x| + |y| <= |mem|
    ensures Put(Put(mem, at, x), at + |x|, y) == Put(mem, at, x + y)
  {}

  function Begun(t: Tx, done: Bytes): (r: Tx)
    requires t.Valid() && |done| < MORE
    ensures r.Valid()
  {
    t.(mem := Put(t.mem, Base(t.cur), done))
  }

  lemma {:induction false} SendMore(t: Tx, done: Bytes, x: Bytes)
    requires t.Valid() && |done| < MORE && |done + x| < MORE
    ensures Send(Begun(t, done), x, |done|, false) == Begun(t, done + x)
  {
    PutTwice(t.mem, Base(t.cur), done, x);
  }

  /** As long as more follow, the buffer takes the pieces one after the other. */
  lemma {:induction false} EarlierPieces(t: Tx, pieces: seq<Bytes>, k: nat)
    requires t.Valid() && Lengths16(pieces) && k < |pieces| && Offset(pieces, k) < MORE
    ensures SendFirst(t, pieces, k) == Begun(t, Concat(pieces[..k]))
  {
    if k > 0 {
      NextOffset(pieces, k - 1);
      var s := SendFirst(t, pieces, k - 1);
      assert s == Begun(t, Concat(pieces[..k - 1])) by { EarlierPieces(t, pieces, k - 1); }
      var offset := Offset(pieces, k - 1);
      assert offset % MORE == offset;
      assert SendFirst(t, pieces, k) == Send(s, pieces[k - 1], offset, false);
      SendMore(t, Concat(pieces[..k - 1]), pieces[k - 1]);
    }
  }

  /** The whole frame as one segment. */
  function Sent(t: Tx, frame: Bytes): Tx
    requires t.Valid() && Base(t.cur) + |frame| <= AREA
  {
    Tx(Put(t.mem, Base(t.cur), frame), t.descs[t.cur := Desc(FLAGS + |frame|, OWNED)], Next(t.cur))
  }

  lemma {:induction false} SendLast(t: Tx, done: Bytes, x: Bytes)
    requires t.Valid() && |done| < MORE && |x| < MORE
    ensures Send(Begun(t, done), x, |done|, true) == Sent(t, done + x)
  {
    PutTwice(t.mem, Base(t.cur), done, x);
  }

  lemma {:induction false} WholeFrame(pieces: seq<Bytes>)
    requires pieces != [] && Lengths16(pieces)
    ensures Concat(pieces) == Concat(pieces[..|pieces| - 1]) + pieces[|pieces| - 1]
    ensures Offset(pieces, |pieces| - 1) <= |Concat(pieces)| < Offset(pieces, |pieces| - 1) + MORE
  {
    NextOffset(pieces, |pieces| - 1);
    assert pieces[..|pieces|] == pieces;
  }

  lemma {:induction false} LastRound(t: Tx, pieces: seq<Bytes>, k: nat)
    requires t.Valid() && Lengths16(pieces) && |pieces| == k + 1 && Offset(pieces, k) < MORE
    ensures SendAll(t, pieces) == Send(SendFirst(t, pieces, k), pieces[k], Offset(pieces, k), true)
  {
    assert Offset(pieces, k) % MORE == Offset(pieces, k);
  }

  lemma {:induction false} SendsAsOne(t: Tx, pieces: seq<Bytes>)
    requires t.Valid() && pieces != [] && Lengths16(pieces) && Offset(pieces, |pieces| - 1) < MORE
    ensures Base(t.cur) + |Concat(pieces)| <= AREA && SendAll(t, pieces) == Sent(t, Concat(pieces))
  {
    var k := |pieces| - 1;
    var s, done, x := SendFirst(t, pieces, k), Concat(pieces[..k]), pieces[k];
    assert Concat(pieces) == done + x by { WholeFrame(pieces); }
    assert SendAll(t, pieces) == Send(s, x, |done|, true) by { LastRound(t, pieces, k); }
    assert SendAll(t, pieces) == Sent(t, done + x) by {
      EarlierPieces(t, pieces, k);
      SendLast(t, done, x);
    }
  }

  /** A last piece that starts at 2^16 or beyond is taken for one that more follow. */
  lemma {:induction false} NeverSent(t: Tx, pieces: seq<Bytes>, k: nat)
    requires t.Valid() && Lengths16(pieces) && k <= |pieces| && pieces != [] && Offset(pieces, |pieces| - 1) >= MORE
    ensures SendFirst(t, pieces, k).cur == t.cur && SendFirst(t, pieces, k).descs == t.descs
  {
    if k > 0 { NeverSent(t, pieces, k - 1); }
  }

  /** The current buffer holds the frame, its descriptor the length and the flags, the ring has moved on by
      one, and nothing else has changed. */
  ghost predicate Intact(t: Tx, r: Tx, frame: Bytes)
    requires t.Valid() && r.Valid()
  {
    var at := Base(t.cur);
    && r.cur == (t.cur + 1) % DESCS
    && r.descs == t.descs[t.cur := Desc(FLAGS + |frame|, OWNED)]
    && at + |frame| <= AREA && r.mem[at..at + |frame|] == frame
    && forall a :: 0 <= a < AREA && !(at <= a < at + BUFSIZE) ==> r.mem[a] == t.mem[a]
  }

  ghost predicate AlwaysIntact(t: Tx, pieces: seq<Bytes>)
    requires t.Valid() && Lengths16(pieces)
  {
    forall mem: Bytes :: |mem| == AREA ==>
      Intact(t.(mem := mem), SendAll(t.(mem := mem), pieces), Concat(pieces))
  }

  lemma {:induction false} SentIsIntact(t: Tx, frame: Bytes)
    requires t.Valid() && |frame| <= BUFSIZE
    ensures Intact(t, Sent(t, frame), frame)
  {}

  lemma {:induction false} FittingIsIntact(t: Tx, pieces: seq<Bytes>)
    requires t.Valid() && pieces != [] && Lengths16(pieces) && |Concat(pieces)| <= BUFSIZE
    ensures Intact(t, SendAll(t, pieces), Concat(pieces))
  {
    WholeFrame(pieces);
    SendsAsOne(t, pieces);
    SentIsIntact(t, Concat(pieces));
  }

  /** A longer frame reaches the byte after its buffer, so it shows wherever that held another value. */
  lemma {:induction false} LongIsNotIntact(t: Tx, pieces: seq<Bytes>) returns (mem: Bytes)
    requires t.Valid() && pieces != [] && Lengths16(pieces) && |Concat(pieces)| > BUFSIZE
    ensures |mem| == AREA && !Intact(t.(mem := mem), SendAll(t.(mem := mem), pieces), Concat(pieces))
  {
    var frame, past := Concat(pieces), Base(t.cur) + BUFSIZE;
    mem := seq(AREA, _ => frame[BUFSIZE] ^ 1);
    var s := t.(mem := mem);
    if Offset(pieces, |pieces| - 1) < MORE {
      SendsAsOne(s, pieces);
      assert SendAll(s, pieces).mem[past] == frame[BUFSIZE] != mem[past];
    } else {
      NeverSent(s, pieces, |pieces|);
    }
  }

  /** Whatever the shape of the chain and the memory around it, a packet leaves intact exactly when it has a
      pbuf and its bytes fit the buffer of a descriptor. */
  lemma {:induction false} IntactExactlyWhenItFits(t: Tx, pieces: seq<Bytes>)
    requires t.Valid() && Lengths16(pieces)
    ensures AlwaysIntact(t, pieces) <==> pieces != [] && |Concat(pieces)| <= 2048
  {
    if pieces == [] {
      assert !Intact(t.(mem := t.mem), SendAll(t.(mem := t.mem), pieces), Concat(pieces));
    } else if |Concat(pieces)| <= BUFSIZE {
      forall mem: Bytes | |mem| == AREA
        ensures Intact(t.(mem := mem), SendAll(t.(mem := mem), pieces), Concat(pieces))
      {
        FittingIsIntact(t.(mem := mem), pieces);
      }
    } else {
      var mem := LongIsNotIntact(t, pieces);
    }
  }

  /** One pbuf of 4096 bytes on descriptor 0 fills the whole buffer of descriptor 1 as well. On descriptor 31
      it leaves txbuffer. */
  lemma {:induction false} LongFrameOverruns(t: Tx, frame: Bytes)
    requires t.Valid() && |frame| == 4096 && (t.cur == 0 || t.cur == DESCS - 1)
    ensures var r := SendAll(t, [frame]);
            if t.cur == 0 then r.mem[Base(1)..Base(2)] == frame[BUFSIZE..]
            else r.mem[Base(DESCS)..Base(DESCS + 1)] == frame[BUFSIZE..]
  {
    assert Concat([frame]) == frame + Concat([]) == frame;
    SendsAsOne(t, [frame]);
    var r := SendAll(t, [frame]);
    assert r.mem[Base(t.cur)..Base(t.cur) + 4096] == frame;
    assert r.mem[Base(t.cur)..Base(t.cur) + 4096][BUFSIZE..] == r.mem[Base(t.cur + 1)..Base(t.cur + 2)];
  }

  // ----- Many packets -----

  predicate Fitting(packets: seq<seq<Bytes>>) {
    forall k :: 0 <= k < |packets| ==>
      packets[k] != [] && Lengths16(packets[k]) && |Concat(packets[k])| <= BUFSIZE
  }

  /** The states of a run that sends these packets. */
  function States(t: Tx, packets: seq<seq<Bytes>>): (ts: seq<Tx>)
    requires t.Valid() && Fitting(packets)
    ensures |ts| == |packets| + 1 && forall k :: 0 <= k < |ts| ==> ts[k].Valid()
  {
    if packets == [] then [t]
    else
      var n := |packets| - 1;
      var before := States(t, packets[..n]);
      before + [SendAll(before[n], packets[n])]
  }

  function Frames(packets: seq<seq<Bytes>>): (frames: seq<Bytes>)
    ensures |frames| == |packets|
  {
    seq(|packets|, k requires 0 <= k < |packets| => Concat(packets[k]))
  }

  ghost predicate IntactRun(states: seq<Tx>, frames: seq<Bytes>) {
    && |states| == |frames| + 1
    && (forall k :: 0 <= k < |states| ==> states[k].Valid())
    && (forall k :: 0 <= k < |frames| ==> |frames[k]| <= BUFSIZE && Intact(states[k], states[k + 1], frames[k]))
  }

  lemma {:induction false} RunExtends(states: seq<Tx>, frames: seq<Bytes>, r: Tx, frame: Bytes)
    requires IntactRun(states, frames) && r.Valid() && |frame| <= BUFSIZE
    requires Intact(states[|frames|], r, frame)
    ensures IntactRun(states + [r], frames + [frame])
  {}

  lemma {:induction false} StatesAreIntact(t: Tx, packets: seq<seq<Bytes>>)
    requires t.Valid() && Fitting(packets)
    ensures IntactRun(States(t, packets), Frames(packets)) && States(t, packets)[0] == t
  {
    if packets != [] {
      var n := |packets| - 1;
      var before := States(t, packets[..n]);
      StatesAreIntact(t, packets[..n]);
      FittingIsIntact(before[n], packets[n]);
      RunExtends(before, Frames(packets[..n]), SendAll(before[n], packets[n]), Concat(packets[n]));
      assert Frames(packets) == Frames(packets[..n]) + [Concat(packets[n])];
    }
  }

  /** Descriptor d and its buffer hold this frame. */
  predicate Holding(t: Tx, d: nat, frame: Bytes)
    requires t.Valid() && d < DESCS && |frame| <= BUFSIZE
  {
    t.descs[d] == Desc(FLAGS + |frame|, OWNED) && t.mem[Base(d)..Base(d) + |frame|] == frame
  }

  lemma {:induction false} FrameHeld(t: Tx, r: Tx, frame: Bytes)
    requires t.Valid() && r.Valid() && Intact(t, r, frame) && |frame| <= BUFSIZE
    ensures Holding(r, t.cur, frame)
  {}

  lemma {:induction false} OtherSlotKept(t: Tx, r: Tx, frame: Bytes, d: nat, held: Bytes)
    requires t.Valid() && r.Valid() && Intact(t, r, frame) && d < DESCS && d != t.cur
    requires |held| <= BUFSIZE && Holding(t, d, held)
    ensures Holding(r, d, held)
  {
    assert forall a :: Base(d) <= a < Base(d) + |held| ==> r.mem[a] == t.mem[a];
    assert r.mem[Base(d)..Base(d) + |held|] == t.mem[Base(d)..Base(d) + |held|];
  }

  lemma {:induction false} SlotsDiffer(c: nat, k: nat, n: nat)
    requires k < n < k + DESCS
    ensures (c + k) % DESCS != (c + n) % DESCS
  {}

  lemma {:induction false} NextTurn(c: nat, n: nat)
    ensures ((c + n) % DESCS + 1) % DESCS == (c + (n + 1)) % DESCS
  {}

  lemma {:induction false} RingMoves(states: seq<Tx>, frames: seq<Bytes>, n: nat)
    requires IntactRun(states, frames) && n <= |frames|
    ensures states[n].cur == (states[0].cur + n) % DESCS
  {
    if n > 0 {
      RingMoves(states, frames, n - 1);
      NextTurn(states[0].cur, n - 1);
      assert Intact(states[n - 1], states[n - 1 + 1], frames[n - 1]);
    }
  }

  /** After any number of packets the latest 32 of them are each in its own descriptor and buffer. */
  lemma {:induction false} RingHoldsLatest(states: seq<Tx>, frames: seq<Bytes>, n: nat, k: nat)
    requires IntactRun(states, frames) && k < n <= |frames| && n <= k + DESCS
    ensures Holding(states[n], (states[0].cur + k) % DESCS, frames[k])
  {
    RingMoves(states, frames, n - 1);
    assert Intact(states[n - 1], states[n - 1 + 1], frames[n - 1]);
    if k == n - 1 {
      FrameHeld(states[k], states[n], frames[k]);
    } else {
      RingHoldsLatest(states, frames, n - 1, k);
      SlotsDiffer(states[0].cur, k, n - 1);
      OtherSlotKept(states[n - 1], states[n], frames[n - 1], (states[0].cur + k) % DESCS, frames[k]);
    }
  }

  /** Every frame of the run is still in the ring at its end. */
  ghost predicate KeepsEvery(states: seq<Tx>, frames: seq<Bytes>) {
    && IntactRun(states, frames)
    && forall k :: 0 <= k < |frames| ==> Holding(states[|frames|], (states[0].cur + k) % DESCS, frames[k])
  }

  ghost predicate KeepsAll(t: Tx, n: nat)
    requires t.Valid()
  {
    forall packets: seq<seq<Bytes>> :: Fitting(packets) && |packets| == n ==>
      KeepsEvery(States(t, packets), Frames(packets))
  }

  /** n packets of one byte, 0 and then 1 throughout. */
  function OneByteFrames(n: nat): (packets: seq<seq<Bytes>>)
    ensures |packets| == n && Fitting(packets)
    ensures forall k :: 0 <= k < n ==> Frames(packets)[k] == if k == 0 then [0] else [1]
  {
    assert Concat([[0]]) == [0] + Concat([]) && Concat([[1]]) == [1] + Concat([]);
    seq(n, i => if i == 0 then [[0]] else [[1]])
  }

  lemma {:induction false} HeldOnce(t: Tx, d: nat, x: bv8, y: bv8)
    requires t.Valid() && d < DESCS && Holding(t, d, [x]) && Holding(t, d, [y])
    ensures x == y
  {
    assert [x] == [y];
  }

  lemma {:induction false} WholeTurns(c: nat, turns: nat)
    ensures (c + DESCS * turns) % DESCS == c % DESCS
  {}

  lemma {:induction false} FirstIsOverwritten(states: seq<Tx>, frames: seq<Bytes>)
    requires IntactRun(states, frames) && |frames| > DESCS
    requires forall k :: 0 <= k < |frames| ==> frames[k] == if k == 0 then [0] else [1]
    ensures !KeepsEvery(states, frames)
  {
    var n, c := |frames|, states[0].cur;
    var last := DESCS * ((n - 1) / DESCS);
    RingHoldsLatest(states, frames, n, last);
    WholeTurns(c, (n - 1) / DESCS);
    if Holding(states[n], (c + 0) % DESCS, frames[0]) {
      HeldOnce(states[n], c % DESCS, 0, 1);
    }
  }

  lemma {:induction false} FewAreKept(states: seq<Tx>, frames: seq<Bytes>)
    requires IntactRun(states, frames) && |frames| <= DESCS
    ensures KeepsEvery(states, frames)
  {
    forall k | 0 <= k < |frames| ensures Holding(states[|frames|], (states[0].cur + k) % DESCS, frames[k]) {
      RingHoldsLatest(states, frames, |frames|, k);
    }
  }

  /** The sender never looks at whether the DMA engine still owns a descriptor: of n packets sent meanwhile
      every one is still in the ring exactly when there are at most 32. */
  lemma {:induction false} KeepsAllExactlyUpTo32(t: Tx, n: nat)
    requires t.Valid()
    ensures KeepsAll(t, n) <==> n <= 32
  {
    if n <= DESCS {
      forall packets: seq<seq<Bytes>> | Fitting(packets) && |packets| == n
        ensures KeepsEvery(States(t, packets), Frames(packets))
      {
        StatesAreIntact(t, packets);
        FewAreKept(States(t, packets), Frames(packets));
      }
    } else {
      var packets := OneByteFrames(n);
      StatesAreIntact(t, packets);
      FirstIsOverwritten(States(t, packets), Frames(packets));
    }
  }

  // ----- The imperative form -----

  class TxRing {
    const mem: array<bv8>
    const descs: array<Desc>
    var cur: nat

    ghost predicate Valid()
      reads this
    {
      mem.Length == AREA && descs.Length == DESCS && cur < DESCS
    }

    ghost function State(): (t: Tx)
      requires Valid()
      reads this, mem, descs
      ensures t.Valid()
    {
      Tx(mem[..], descs[..], cur)
    }

    /** A payload is not part of the driver's own memory. */
    ghost predicate Apart(packet: array<bv8>) {
      packet != mem && (packet as object) != descs
    }

    constructor ()
      ensures Valid() && cur == 0 && fresh(mem) && fresh(descs)
    {
      mem, descs, cur := new bv8[AREA], new Desc[DESCS], 0;
    }

    /** tx_descs_init */
    method InitDescs()
      requires Valid()
      modifies descs, this`cur
      ensures Valid() && cur == 0 && descs[..] == seq(DESCS, _ => Desc(0, OWNED))
    {
      for i := 0 to DESCS
        invariant forall k :: 0 <= k < i ==> descs[k] == Desc(0, OWNED)
      {
        descs[i] := Desc(0, OWNED);
      }
      cur := 0;
    }

    /** memcpy into the current buffer */
    method Copy(at: nat, packet: array<bv8>, len: u16)
      requires Valid() && Apart(packet) && len <= packet.Length && at < MORE
      modifies mem
      ensures State() == Send(old(State()), packet[..len], at, false) && packet[..len] == old(packet[..len])
    {
      ghost var start := Base(cur) + at;
      forall i | 0 <= i < len { mem[Base(cur) + at + i] := packet[i]; }
      assert mem[..] == Put(old(mem[..]), start, packet[..len]);
    }

    /** What _sun8i_emac_eth_send builds in `st` */
    method FrameWord(n: nat) returns (st: nat)
      requires n < 0x0100_0000
      ensures st == FLAGS + n
    {
      FlagsAbove(n);
      st := n;
      st := Or(st, 0x0100_0000);
      st := Or(st, 0x4000_0000);
      st := Or(st, 0x8000_0000);
      st := Or(st, 0x2000_0000);
    }

    /** The end of _sun8i_emac_eth_send: the descriptor goes to the DMA engine and the ring moves on. */
    method HandOver(n: nat)
      requires Valid() && n < 0x0100_0000
      modifies this`cur, descs
      ensures Valid() && mem[..] == old(mem[..])
      ensures descs[..] == old(descs[..])[old(cur) := Desc(FLAGS + n, OWNED)] && cur == Next(old(cur))
    {
      var st := FrameWord(n);
      descs[cur] := Desc(st, OWNED);
      cur := cur + 1;
      if cur >= DESCS {
        cur := 0;
      }
    }

    /** _sun8i_emac_eth_send */
    method EthSend(packet: array<bv8>, len: u16, offs: nat)
      requires Valid() && Apart(packet) && len <= packet.Length
      modifies this`cur, mem, descs
      ensures Valid() && State() == Send(old(State()), packet[..len], offs % MORE, offs < MORE)
    {
      if offs >= MORE {
        var low := And(offs, 0xFFFF);
        assert low == offs % MORE by { LowHalf(offs); }
        Copy(low, packet, len);
      } else {
        Copy(offs, packet, len);
        HandOver(offs + len);
      }
    }

    /** One round of the loop in _emac_tx */
    method SendNext(q: Pbuf, offset: nat, ghost was: Tx, ghost pieces: seq<Bytes>, ghost k: nat)
      requires Valid() && Apart(q.payload) && q.len <= q.payload.Length
      requires was.Valid() && Lengths16(pieces) && k < |pieces| && pieces[k] == q.payload[..q.len]
      requires (q.next == null <==> k + 1 == |pieces|) && offset == Offset(pieces, k)
      requires State() == SendFirst(was, pieces, k)
      modifies this`cur, mem, descs
      ensures Valid() && State() == SendFirst(was, pieces, k + 1)
    {
      WordDecodes(offset);
      EthSend(q.payload, q.len, Or(offset, if q.next != null then MORE else 0));
    }

    /** The loop of _emac_tx */
    method SendPieces(p: Pbuf?, ghost chain: seq<Pbuf>, ghost pieces: seq<Bytes>)
      requires Valid() && IsChain(p, chain) && Fits(chain) && pieces == Pieces(chain) && Lengths16(pieces)
      requires forall k :: 0 <= k < |chain| ==> Apart(chain[k].payload)
      modifies this`cur, mem, descs
      ensures Valid() && State() == SendAll(old(State()), pieces)
    {
      ghost var k, was := 0, State();
      var offset: nat, q := 0, p;
      while q != null
        invariant 0 <= k <= |chain| && IsChain(q, chain[k..]) && Valid()
        invariant forall j :: k <= j < |chain| ==> chain[j].payload[..chain[j].len] == pieces[j]
        invariant State() == SendFirst(was, pieces, k) && offset == Offset(pieces, k)
        decreases |chain| - k
      {
        NextPbuf(q, chain, k);
        NextOffset(pieces, k);
        SendNext(q, offset, was, pieces, k);
        offset := offset + q.len;
        q := q.next;
        k := k + 1;
      }
    }

    /** _emac_tx */
    method Transmit(p: Pbuf?, ghost chain: seq<Pbuf>)
      requires Valid() && IsChain(p, chain) && forall k :: 0 <= k < |chain| ==> Apart(chain[k].payload)
      modifies this`cur, mem, descs
      ensures Valid() && Fits(chain) && Lengths16(old(Pieces(chain)))
      ensures State() == SendAll(old(State()), old(Pieces(chain)))
      ensures chain != [] && |Concat(old(Pieces(chain)))| <= BUFSIZE ==>
                Intact(old(State()), State(), Concat(old(Pieces(chain))))
    {
      ChainFits(p, chain);
      ghost var pieces, was := Pieces(chain), State();
      assert Lengths16(pieces);
      SendPieces(p, chain, pieces);
      if chain != [] && |Concat(pieces)| <= BUFSIZE {
        FittingIsIntact(was, pieces);
      }
    }
  }

  lemma {:induction false} NextPbuf(q: Pbuf, chain: seq<Pbuf>, k: nat)
    requires k < |chain| && IsChain(q, chain[k..])
    ensures q == chain[k] && IsChain(q.next, chain[k + 1..]) && (q.next == null <==> k + 1 == |chain|)
  {
    assert chain[k..][1..] == chain[k + 1..];
  }
}
