/**
 lwIP pbuf chains, as driver/drv_emac.c walks them. struct pbuf is not part of this repository; a pbuf has a
 payload, a 16-bit length and the next pbuf of its packet.
 */
module Pbufs {

  type Bytes = seq<bv8>

  type u16 = x: int | 0 <= x < 0x1_0000

  class Pbuf {
    const payload: array<bv8>
    const len: u16
    const next: Pbuf?

    constructor (payload: array<bv8>, len: u16, next: Pbuf?)
      requires len <= payload.Length
      ensures this.payload == payload && this.len == len && this.next == next
    {
      this.payload, this.len, this.next := payload, len, next;
    }
  }

  /** `p` starts the linked chain whose pbufs are `chain`. */
  ghost predicate IsChain(p: Pbuf?, chain: seq<Pbuf>) {
    if chain == [] then p == null
    else
      && p == chain[0]
      && p.len <= p.payload.Length
      && IsChain(p.next, chain[1..])
  }

  ghost function Payloads(chain: seq<Pbuf>): set<array<bv8>> {
    set k | 0 <= k < |chain| :: chain[k].payload
  }

  ghost predicate Fits(chain: seq<Pbuf>) {
    forall k :: 0 <= k < |chain| ==> chain[k].len <= chain[k].payload.Length
  }

  /** What each pbuf of a chain holds. */
  ghost function Pieces(chain: seq<Pbuf>): (ps: seq<Bytes>)
    requires Fits(chain)
    reads Payloads(chain)
    ensures |ps| == |chain|
  {
    seq(|chain|, k requires 0 <= k < |chain| reads Payloads(chain) => chain[k].payload[..chain[k].len])
  }

  ghost function TotalLen(chain: seq<Pbuf>): nat {
    if chain == [] then 0 else chain[0].len + TotalLen(chain[1..])
  }

  /** Each pbuf has its own payload. */
  ghost predicate Distinct(chain: seq<Pbuf>) {
    forall i, j :: 0 <= i < j < |chain| ==> chain[i].payload != chain[j].payload
  }

  lemma {:induction false} ChainFits(p: Pbuf?, chain: seq<Pbuf>)
    requires IsChain(p, chain)
    ensures Fits(chain)
  {
    if chain != [] {
      ChainFits(p.next, chain[1..]);
      assert forall k :: 0 < k < |chain| ==> chain[k] == chain[1..][k - 1];
    }
  }

  // ----- The bytes of a frame in pieces -----

  function Concat(pieces: seq<Bytes>): Bytes {
    if pieces == [] then [] else pieces[0] + Concat(pieces[1..])
  }

  lemma {:induction false} ConcatLast(pieces: seq<Bytes>, last: Bytes)
    ensures Concat(pieces + [last]) == Concat(pieces) + last
  {
    if pieces == [] {
      assert [last][1..] == [] && Concat([last]) == last + Concat([]);
    } else {
      ConcatLast(pieces[1..], last);
      assert (pieces + [last])[1..] == pieces[1..] + [last];
    }
  }

  /** A frame cut to the lengths of a chain, from `offset` on. */
  ghost function Cut(frame: Bytes, chain: seq<Pbuf>, offset: nat): (ps: seq<Bytes>)
    requires offset + TotalLen(chain) <= |frame|
    ensures |ps| == |chain|
  {
    if chain == [] then []
    else [frame[offset..offset + chain[0].len]] + Cut(frame, chain[1..], offset + chain[0].len)
  }

  lemma {:induction false} JoinSlices(s: Bytes, a: nat, b: nat, c: nat)
    requires a <= b <= c <= |s|
    ensures s[a..b] + s[b..c] == s[a..c]
  {}

  lemma {:induction false} CutLosesNothing(frame: Bytes, chain: seq<Pbuf>, offset: nat)
    requires offset + TotalLen(chain) <= |frame|
    ensures Concat(Cut(frame, chain, offset)) == frame[offset..offset + TotalLen(chain)]
  {
    if chain != [] {
      var mid, end := offset + chain[0].len, offset + TotalLen(chain);
      CutLosesNothing(frame, chain[1..], mid);
      JoinSlices(frame, offset, mid, end);
      assert Cut(frame, chain, offset)[1..] == Cut(frame, chain[1..], mid);
    }
  }

  lemma {:induction false} CutStep(frame: Bytes, p: Pbuf, chain: seq<Pbuf>, k: nat, offset: nat)
    requires k < |chain| && IsChain(p, chain[k..]) && offset + TotalLen(chain[k..]) <= |frame|
    ensures p == chain[k] && IsChain(p.next, chain[k + 1..])
    ensures TotalLen(chain[k..]) == p.len + TotalLen(chain[k + 1..])
    ensures Cut(frame, chain[k..], offset) ==
            [frame[offset..offset + p.len]] + Cut(frame, chain[k + 1..], offset + p.len)
  {
    assert chain[k..][1..] == chain[k + 1..];
  }

  lemma {:induction false} CutMoves(frame: Bytes, p: Pbuf, chain: seq<Pbuf>, k: nat, offset: nat, done: seq<Bytes>)
    requires k < |chain| && IsChain(p, chain[k..]) && offset + TotalLen(chain[k..]) <= |frame|
    ensures p == chain[k] && IsChain(p.next, chain[k + 1..])
    ensures TotalLen(chain[k..]) == p.len + TotalLen(chain[k + 1..])
    ensures done + Cut(frame, chain[k..], offset) ==
            done + [frame[offset..offset + p.len]] + Cut(frame, chain[k + 1..], offset + p.len)
  {
    CutStep(frame, p, chain, k, offset);
  }

  /** The first pbufs of the chain hold these pieces. */
  ghost predicate Holds(chain: seq<Pbuf>, done: seq<Bytes>)
    requires Fits(chain)
    reads Payloads(chain)
  {
    |done| <= |chain| && forall j :: 0 <= j < |done| ==> chain[j].payload[..chain[j].len] == done[j]
  }

  lemma {:induction false} HoldsAll(chain: seq<Pbuf>, done: seq<Bytes>)
    requires Fits(chain) && Holds(chain, done) && |done| == |chain|
    ensures Pieces(chain) == done
  {}
}
