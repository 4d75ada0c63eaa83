/**
 The read-through block cache that wraps every legacy block device (include/blk.h).

 `BlockLayer` is the imperative form of blk_dread, blk_dwrite and blk_derase. The cache itself is
 known only by its contract (include/blk.h:92-132), so what it does beyond that contract (which entry
 answers a lookup, what it evicts, whether it keeps an offered entry) is chosen by the environment, and
 so are the outcomes of the driver's own read, write and erase.
 */
module BlockCache {
  import opened Options

  /** The contents of one block. */
  datatype Block = Block(bytes: seq<bv8>)

  /** A block descriptor: its cache key, its block size, and the medium its driver reaches. */
  datatype Desc = Desc(ifType: nat, devnum: int, blksz: nat, medium: nat)

  /** A cached run of blocks, filed under (ifType, devnum, blksz). */
  datatype Entry = Entry(ifType: nat, devnum: int, blksz: nat, start: nat, data: seq<Block>)

  type Media = map<nat, seq<Block>>

  datatype Disk = Disk(media: Media, cache: set<Entry>)

  /** What a driver call reports: its return value, and what it leaves behind. */
  datatype Reply = Reply(count: nat, blocks: seq<Block>)

  /** Environment choices of one read: evictions before the lookup, the entry that answers (if any),
      the driver's reply on a miss, and whether and at whose expense the cache keeps the new data. */
  datatype ReadEnv = ReadEnv(drop: set<Entry>, answer: Option<Entry>, driver: Reply, keep: bool, evict: set<Entry>)

  datatype Event =
    | Read(d: Desc, start: nat, cnt: nat, env: ReadEnv)
    | Write(d: Desc, start: nat, data: seq<Block>, driver: Reply)
    | Erase(d: Desc, start: nat, cnt: nat, driver: Reply)

  /** What the caller of an operation sees. */
  datatype Obs =
    | SawRead(d: Desc, start: nat, cnt: nat, count: nat, data: seq<Block>)
    | SawWrite(d: Desc, start: nat, data: seq<Block>, count: nat)
    | SawErase(d: Desc, start: nat, cnt: nat, count: nat)

  // ----- The plain device: no cache at all -----

  /** A completed read returns exactly the blocks of the medium; a short one promises nothing. */
  predicate PlainRead(m: seq<Block>, start: nat, cnt: nat, r: Reply) {
    && |r.blocks| == cnt
    && (r.count == cnt ==> start + cnt <= |m| && r.blocks == m[start..start + cnt])
  }

  /** A write or an erase touches only the requested blocks; `r.blocks` is the medium afterwards.
      A short one may have changed any subset of them, to anything. */
  predicate PlainChange(m: seq<Block>, start: nat, cnt: nat, r: Reply) {
    && |r.blocks| == |m|
    && (forall i :: 0 <= i < |m| && !(start <= i < start + cnt) ==> r.blocks[i] == m[i])
    && (r.count == cnt ==> start + cnt <= |m|)
  }

  predicate PlainWrite(m: seq<Block>, start: nat, data: seq<Block>, r: Reply) {
    && PlainChange(m, start, |data|, r)
    && (r.count == |data| ==> r.blocks[start..start + |data|] == data)
  }

  /** One operation of the plain device, as its caller sees it. */
  predicate PlainStep(m: Media, o: Obs, m': Media) {
    && o.d.medium in m
    && match o
       case SawRead(d, start, cnt, count, data) =>
         m' == m && PlainRead(m[d.medium], start, cnt, Reply(count, data))
       case SawWrite(d, start, data, count) =>
         && m'.Keys == m.Keys && m' == m[d.medium := m'[d.medium]]
         && PlainWrite(m[d.medium], start, data, Reply(count, m'[d.medium]))
       case SawErase(d, start, cnt, count) =>
         && m'.Keys == m.Keys && m' == m[d.medium := m'[d.medium]]
         && PlainChange(m[d.medium], start, cnt, Reply(count, m'[d.medium]))
  }

  /** The observations are a possible history of plain devices that start with contents `m`. */
  ghost predicate PlainTrace(m: Media, obs: seq<Obs>) {
    obs == [] || exists m' :: PlainStep(m, obs[0], m') && PlainTrace(m', obs[1..])
  }

  // ----- The cached device -----

  predicate SameKey(e: Entry, d: Desc) { e.ifType == d.ifType && e.devnum == d.devnum }

  predicate Matches(e: Entry, d: Desc) { SameKey(e, d) && e.blksz == d.blksz }

  predicate Serves(e: Entry, d: Desc, start: nat, cnt: nat) {
    Matches(e, d) && e.start <= start && start + cnt <= e.start + |e.data|
  }

  /** blkcache_invalidate: nothing filed under (ifType, devnum) is left. */
  function Invalidated(cache: set<Entry>, d: Desc): set<Entry> {
    set e | e in cache && !SameKey(e, d)
  }

  predicate Hits(s: Disk, d: Desc, start: nat, cnt: nat, env: ReadEnv) {
    env.answer.Some? && env.answer.value in s.cache - env.drop && Serves(env.answer.value, d, start, cnt)
  }

  function ReadReply(s: Disk, d: Desc, start: nat, cnt: nat, env: ReadEnv): Reply {
    if Hits(s, d, start, cnt, env) then
      var e := env.answer.value;
      Reply(cnt, e.data[start - e.start..start - e.start + cnt])
    else
      env.driver
  }

  function CacheAfterRead(s: Disk, d: Desc, start: nat, cnt: nat, env: ReadEnv): set<Entry> {
    var cache := s.cache - env.drop;
    if !Hits(s, d, start, cnt, env) && env.driver.count == cnt then
      (cache + if env.keep then {Entry(d.ifType, d.devnum, d.blksz, start, env.driver.blocks)} else {}) - env.evict
    else
      cache
  }

  /** The driver keeps its own contract: it behaves as a plain device would. */
  predicate DriverObeys(s: Disk, ev: Event) {
    && ev.d.medium in s.media
    && var m := s.media[ev.d.medium];
       match ev
       case Read(d, start, cnt, env) => PlainRead(m, start, cnt, env.driver)
       case Write(d, start, data, driver) => PlainWrite(m, start, data, driver)
       case Erase(d, start, cnt, driver) => PlainChange(m, start, cnt, driver)
  }

  /** Every state the operation passes through after its first action, in order. */
  function Path(s: Disk, ev: Event): (path: seq<Disk>)
    requires DriverObeys(s, ev)
    ensures path != []
  {
    match ev
    case Read(d, start, cnt, env) =>
      [s.(cache := s.cache - env.drop), s.(cache := CacheAfterRead(s, d, start, cnt, env))]
    case Write(d, _, _, driver) =>
      var t := s.(cache := Invalidated(s.cache, d));
      [t, t.(media := t.media[d.medium := driver.blocks])]
    case Erase(d, _, _, driver) =>
      var t := s.(cache := Invalidated(s.cache, d));
      [t, t.(media := t.media[d.medium := driver.blocks])]
  }

  function Step(s: Disk, ev: Event): Disk
    requires DriverObeys(s, ev)
  {
    Path(s, ev)[|Path(s, ev)| - 1]
  }

  function Observe(s: Disk, ev: Event): Obs
    requires DriverObeys(s, ev)
  {
    match ev
    case Read(d, start, cnt, env) =>
      var r := ReadReply(s, d, start, cnt, env);
      SawRead(d, start, cnt, r.count, r.blocks)
    case Write(d, start, data, driver) => SawWrite(d, start, data, driver.count)
    case Erase(d, start, cnt, driver) => SawErase(d, start, cnt, driver.count)
  }

  /** A run over the descriptors `descs` in which every driver keeps its contract. */
  ghost predicate Run(descs: set<Desc>, s: Disk, evs: seq<Event>)
    decreases |evs|
  {
    evs == [] ||
    (evs[0].d in descs && DriverObeys(s, evs[0]) && Run(descs, Step(s, evs[0]), evs[1..]))
  }

  ghost function Trace(descs: set<Desc>, s: Disk, evs: seq<Event>): (obs: seq<Obs>)
    requires Run(descs, s, evs)
    ensures |obs| == |evs|
    decreases |evs|
  {
    if evs == [] then [] else [Observe(s, evs[0])] + Trace(descs, Step(s, evs[0]), evs[1..])
  }

  // ----- Coherence -----

  predicate EntryCurrent(e: Entry, m: seq<Block>) {
    e.start + |e.data| <= |m| && e.data == m[e.start..e.start + |e.data|]
  }

  /** Every cached entry a descriptor can hit equals the blocks of that descriptor's medium. */
  ghost predicate Coherent(descs: set<Desc>, s: Disk) {
    && (forall d :: d in descs ==> d.medium in s.media)
    && (forall e, d :: e in s.cache && d in descs && Matches(e, d) ==> EntryCurrent(e, s.media[d.medium]))
  }

  /** Keys name media: descriptors that can share entries share their medium, and descriptors of one
      medium share their key. */
  ghost predicate Disciplined(descs: set<Desc>) {
    forall c, d :: c in descs && d in descs ==>
      && (c.ifType == d.ifType && c.devnum == d.devnum && c.blksz == d.blksz ==> c.medium == d.medium)
      && (c.medium == d.medium ==> c.ifType == d.ifType && c.devnum == d.devnum)
  }

  /** The coherence invariant holds in every state an operation passes through, a write or erase that
      fails half way included. */
  lemma {:induction false} EveryStateCoherent(descs: set<Desc>, s: Disk, ev: Event, k: nat)
    requires Disciplined(descs) && Coherent(descs, s)
    requires ev.d in descs && DriverObeys(s, ev) && k < |Path(s, ev)|
    ensures Coherent(descs, Path(s, ev)[k])
  {
    var t := Path(s, ev)[k];
    forall e, d | e in t.cache && d in descs && Matches(e, d)
      ensures EntryCurrent(e, t.media[d.medium])
    {
      if ev.Read? {
        if e !in s.cache {
          assert d.medium == ev.d.medium;
        }
      } else {
        assert d.medium != ev.d.medium;
      }
    }
  }

  lemma {:induction false} SliceOfSlice(m: seq<Block>, a: nat, b: nat, k: nat, cnt: nat)
    requires a + k + cnt <= b <= |m|
    ensures m[a..b][k..k + cnt] == m[a + k..a + k + cnt]
  {
    var x, y := m[a..b][k..k + cnt], m[a + k..a + k + cnt];
    assert forall i :: 0 <= i < cnt ==> x[i] == y[i];
  }

  /** A read of a coherent layer, hit or miss, reports what a plain device may report. */
  lemma {:induction false} StepRefinesPlain(descs: set<Desc>, s: Disk, ev: Event)
    requires Coherent(descs, s) && ev.d in descs && DriverObeys(s, ev)
    ensures PlainStep(s.media, Observe(s, ev), Step(s, ev).media)
  {
    match ev
    case Read(d, start, cnt, env) =>
      if Hits(s, d, start, cnt, env) {
        var e, m := env.answer.value, s.media[d.medium];
        assert EntryCurrent(e, m);
        SliceOfSlice(m, e.start, e.start + |e.data|, start - e.start, cnt);
      }
    case Write(d, start, data, driver) =>
    case Erase(d, start, cnt, driver) =>
  }

  /** Over every run the cached layer refines plain devices: each complete read returns exactly what the
      medium holds at that moment. */
  lemma {:induction false} CachedRefinesPlain(descs: set<Desc>, s: Disk, evs: seq<Event>)
    requires Disciplined(descs) && Coherent(descs, s) && Run(descs, s, evs)
    ensures PlainTrace(s.media, Trace(descs, s, evs))
    decreases |evs|
  {
    if evs != [] {
      var t := Step(s, evs[0]);
      EveryStateCoherent(descs, s, evs[0], |Path(s, evs[0])| - 1);
      StepRefinesPlain(descs, s, evs[0]);
      CachedRefinesPlain(descs, t, evs[1..]);
      var obs := Trace(descs, s, evs);
      assert obs[1..] == Trace(descs, t, evs[1..]);
      assert PlainStep(s.media, obs[0], t.media) && PlainTrace(t.media, obs[1..]);
    }
  }

  // ----- Completeness, and what a history of plain devices promises -----

  /** The driver's own call, if the operation makes one, transfers every block. */
  predicate DriverCompletes(ev: Event) {
    match ev
    case Read(_, _, cnt, env) => env.driver.count == cnt
    case Write(_, _, data, driver) => driver.count == |data|
    case Erase(_, _, cnt, driver) => driver.count == cnt
  }

  predicate Complete(o: Obs) {
    match o
    case SawRead(_, _, cnt, count, _) => count == cnt
    case SawWrite(_, _, data, count) => count == |data|
    case SawErase(_, _, cnt, count) => count == cnt
  }

  /** Over every run, an operation is complete whenever its driver call is: the cache never makes one short. */
  lemma {:induction false} CompleteDriversComplete(descs: set<Desc>, s: Disk, evs: seq<Event>, k: nat)
    requires Run(descs, s, evs) && k < |evs| && DriverCompletes(evs[k])
    ensures Complete(Trace(descs, s, evs)[k])
    decreases |evs|
  {
    if k > 0 { CompleteDriversComplete(descs, Step(s, evs[0]), evs[1..], k - 1); }
  }

  /** Each observation names its own operation and request. */
  lemma {:induction false} TraceNames(descs: set<Desc>, s: Disk, evs: seq<Event>, k: nat)
    requires Run(descs, s, evs) && k < |evs|
    ensures match (evs[k], Trace(descs, s, evs)[k])
            case (Read(d, start, cnt, _), SawRead(d', start', cnt', _, data)) =>
              d' == d && start' == start && cnt' == cnt
            case (Write(d, start, data, driver), o) => o == SawWrite(d, start, data, driver.count)
            case (Erase(d, start, cnt, driver), o) => o == SawErase(d, start, cnt, driver.count)
            case _ => false
    decreases |evs|
  {
    if k > 0 { TraceNames(descs, Step(s, evs[0]), evs[1..], k - 1); }
  }

  lemma {:induction false} Between(m: Media, o: Obs, r: Obs) returns (m': Media)
    requires r.SawRead? && PlainTrace(m, [o, r])
    ensures PlainStep(m, o, m') && PlainStep(m', r, m')
  {
    assert [o, r][1..] == [r];
    m' :| PlainStep(m, o, m') && PlainTrace(m', [r]);
  }

  /** After a complete write a complete read of its blocks returns what was written. */
  lemma {:induction false} ReadAfterWrite(m: Media, w: Obs, r: Obs)
    requires w.SawWrite? && r.SawRead? && PlainTrace(m, [w, r])
    requires r.d.medium == w.d.medium && r.start == w.start && r.count == r.cnt == |w.data| == w.count
    ensures r.data == w.data
  {
    var m' := Between(m, w, r);
  }

  /** After a write or an erase, complete or not, a complete read of another medium, or of blocks that were not asked
      for, returns what was there before. */
  lemma {:induction false} ReadBeside(m: Media, o: Obs, r: Obs, cnt: nat)
    requires (o.SawWrite? && cnt == |o.data|) || (o.SawErase? && cnt == o.cnt)
    requires r.SawRead? && PlainTrace(m, [o, r]) && r.count == r.cnt
    requires r.d.medium != o.d.medium || r.start + r.cnt <= o.start || o.start + cnt <= r.start
    ensures r.d.medium in m && r.start + r.cnt <= |m[r.d.medium]|
    ensures r.data == m[r.d.medium][r.start..r.start + r.cnt]
  {
    var m' := Between(m, o, r);
  }

  // ----- The discipline is exactly what refinement needs -----

  const A := Block([0])
  const B := Block([1])

  function ReadOne(d: Desc, got: Block): Event {
    Read(d, 0, 1, ReadEnv({}, None, Reply(1, [got]), true, {}))
  }

  function HitOne(d: Desc, e: Entry, driver: Reply): Event {
    Read(d, 0, 1, ReadEnv({}, Some(e), driver, true, {}))
  }

  /** Every medium the descriptors reach holds one block: A if it is `hot`, else B. */
  function OneBlockMedia(descs: set<Desc>, hot: nat): (m: Media)
    ensures forall d :: d in descs ==> d.medium in m && m[d.medium] == [if d.medium == hot then A else B]
  {
    var ids := set d | d in descs :: d.medium;
    map x | x in ids :: [if x == hot then A else B]
  }

  /** Two descriptors that share entries but not their medium: the second reads the first one's block. */
  lemma {:induction false} SharedEntriesBreak(descs: set<Desc>, c: Desc, d: Desc)
    requires c in descs && d in descs && c.medium != d.medium
    requires c.ifType == d.ifType && c.devnum == d.devnum && c.blksz == d.blksz
    ensures exists m: Media, evs ::
              && (forall x :: x in descs ==> x.medium in m)
              && Run(descs, Disk(m, {}), evs)
              && !PlainTrace(m, Trace(descs, Disk(m, {}), evs))
  {
    var m := OneBlockMedia(descs, c.medium);
    var e := Entry(c.ifType, c.devnum, c.blksz, 0, [A]);
    var s0 := Disk(m, {});
    var evs := [ReadOne(c, A), HitOne(d, e, Reply(1, [B]))];
    var s1 := Step(s0, evs[0]);
    assert s1.cache == {e};
    assert Serves(e, d, 0, 1) && Hits(s1, d, 0, 1, evs[1].env);
    assert evs[1..] == [evs[1]] && evs[1..][1..] == [];
    assert Run(descs, s1, evs[1..]);
    assert Run(descs, s0, evs);
    var obs := Trace(descs, s0, evs);
    assert Trace(descs, s1, evs[1..]) == [Observe(s1, evs[1])];
    assert obs[1..] == [SawRead(d, 0, 1, 1, [A])];
    assert m[d.medium][0..1] == [B];
    assert A != B;
    assert forall m' :: PlainStep(m, obs[0], m') ==> m' == m;
    assert !PlainTrace(m, obs[1..]);
    assert !PlainTrace(m, obs);
  }

  /** Two descriptors of one medium filed under different keys: the second writes, the first still hits. */
  lemma {:induction false} SplitKeysBreak(descs: set<Desc>, c: Desc, d: Desc)
    requires c in descs && d in descs && c.medium == d.medium
    requires !(c.ifType == d.ifType && c.devnum == d.devnum)
    ensures exists m: Media, evs ::
              && (forall x :: x in descs ==> x.medium in m)
              && Run(descs, Disk(m, {}), evs)
              && !PlainTrace(m, Trace(descs, Disk(m, {}), evs))
  {
    var m := OneBlockMedia(descs, c.medium);
    var e := Entry(c.ifType, c.devnum, c.blksz, 0, [A]);
    var s0 := Disk(m, {});
    var evs := [ReadOne(c, A), Write(d, 0, [B], Reply(1, [B])), HitOne(c, e, Reply(1, [B]))];
    var s1 := Step(s0, evs[0]);
    assert s1.cache == {e};
    var s2 := Step(s1, evs[1]);
    assert !SameKey(e, d) && s2.cache == {e};
    assert Serves(e, c, 0, 1) && Hits(s2, c, 0, 1, evs[2].env);
    assert evs[1..][1..] == [evs[2]] && evs[1..][1..][1..] == [];
    assert Run(descs, s2, evs[1..][1..]);
    assert Run(descs, s1, evs[1..]);
    assert Run(descs, s0, evs);
    var obs := Trace(descs, s0, evs);
    assert Trace(descs, s2, evs[1..][1..]) == [Observe(s2, evs[2])];
    var rest := obs[1..];
    assert rest == Trace(descs, s1, evs[1..]);
    assert rest[1..] == [SawRead(c, 0, 1, 1, [A])];
    assert forall m' :: PlainStep(m, obs[0], m') ==> m' == m;
    forall m' | PlainStep(m, rest[0], m')
      ensures !PlainTrace(m', rest[1..])
    {
      assert m'[c.medium][0..1] == [B] && A != B;
    }
    assert !PlainTrace(m, rest);
  }

  /** The cached layer refines plain devices over every run from an empty cache, whatever the media hold,
      exactly when the descriptors are disciplined. */
  lemma {:induction false} RefinesExactlyWhenDisciplined(descs: set<Desc>)
    ensures Disciplined(descs) <==>
            forall m: Media, evs ::
              (forall d :: d in descs ==> d.medium in m) && Run(descs, Disk(m, {}), evs) ==>
                PlainTrace(m, Trace(descs, Disk(m, {}), evs))
  {
    if Disciplined(descs) {
      forall m: Media, evs | (forall d :: d in descs ==> d.medium in m) && Run(descs, Disk(m, {}), evs)
        ensures PlainTrace(m, Trace(descs, Disk(m, {}), evs))
      {
        CachedRefinesPlain(descs, Disk(m, {}), evs);
      }
    } else {
      var c, d :| c in descs && d in descs &&
        !(&& (c.ifType == d.ifType && c.devnum == d.devnum && c.blksz == d.blksz ==> c.medium == d.medium)
          && (c.medium == d.medium ==> c.ifType == d.ifType && c.devnum == d.devnum));
      if c.medium == d.medium {
        SplitKeysBreak(descs, c, d);
      } else {
        SharedEntriesBreak(descs, c, d);
      }
    }
  }

  // ----- blk_dread, blk_dwrite and blk_derase -----

  class BlockLayer {
    const descs: set<Desc>
    var media: Media
    var cache: set<Entry>
    ghost var passed: seq<Disk> // every state reached since construction, in order

    ghost function Now(): Disk
      reads this
    {
      Disk(media, cache)
    }

    ghost predicate Valid()
      reads this
    {
      Disciplined(descs) && Coherent(descs, Now()) && (forall k :: 0 <= k < |passed| ==> Coherent(descs, passed[k]))
    }

    constructor (descs: set<Desc>, media: Media)
      requires Disciplined(descs) && forall d :: d in descs ==> d.medium in media
      ensures Valid() && this.descs == descs && Now() == Disk(media, {}) && passed == []
    {
      this.descs, this.media, this.cache, this.passed := descs, media, {}, [];
    }

    method CacheRead(d: Desc, start: nat, cnt: nat, buffer: array<Block>, env: ReadEnv) returns (hit: bool)
      requires cnt <= buffer.Length
      modifies this`cache, this`passed, buffer
      ensures hit == Hits(old(Now()), d, start, cnt, env)
      ensures cache == old(cache) - env.drop && passed == old(passed) + [Now()]
      ensures hit ==> buffer[..cnt] == ReadReply(old(Now()), d, start, cnt, env).blocks
      ensures buffer[cnt..] == old(buffer[cnt..])
    {
      hit := Hits(Disk(media, cache), d, start, cnt, env);
      cache := cache - env.drop;
      if hit {
        var e := env.answer.value;
        forall i | 0 <= i < cnt { buffer[i] := e.data[start - e.start + i]; }
      }
      passed := passed + [Now()];
    }

    method DriverRead(d: Desc, cnt: nat, buffer: array<Block>, driver: Reply) returns (count: nat)
      requires cnt <= buffer.Length && |driver.blocks| == cnt
      modifies buffer
      ensures count == driver.count && buffer[..cnt] == driver.blocks && buffer[cnt..] == old(buffer[cnt..])
    {
      forall i | 0 <= i < cnt { buffer[i] := driver.blocks[i]; }
      count := driver.count;
    }

    method CacheFill(d: Desc, start: nat, cnt: nat, buffer: array<Block>, env: ReadEnv)
      requires cnt <= buffer.Length
      modifies this`cache
      ensures var kept := if env.keep then {Entry(d.ifType, d.devnum, d.blksz, start, buffer[..cnt])} else {};
              cache == (old(cache) + kept) - env.evict
    {
      if env.keep {
        cache := cache + {Entry(d.ifType, d.devnum, d.blksz, start, buffer[..cnt])};
      }
      cache := cache - env.evict;
    }

    method Invalidate(d: Desc)
      modifies this`cache, this`passed
      ensures cache == Invalidated(old(cache), d) && passed == old(passed) + [Now()]
    {
      cache := set e | e in cache && !SameKey(e, d);
      passed := passed + [Now()];
    }

    method Dread(d: Desc, start: nat, cnt: nat, buffer: array<Block>, env: ReadEnv) returns (count: nat)
      requires Valid() && d in descs && cnt <= buffer.Length
      requires DriverObeys(Now(), Read(d, start, cnt, env))
      modifies this, buffer
      ensures Valid()
      ensures count == cnt ==>
                start + cnt <= |media[d.medium]| && buffer[..cnt] == media[d.medium][start..start + cnt]
      ensures var e, driver := env.answer, env.driver;
              if e.Some? && e.value in old(cache) && e.value !in env.drop &&
                 e.value.ifType == d.ifType && e.value.devnum == d.devnum && e.value.blksz == d.blksz &&
                 e.value.start <= start && start + cnt <= e.value.start + |e.value.data| then
                && count == cnt && cache == old(cache) - env.drop
                && buffer[..cnt] == e.value.data[start - e.value.start..start - e.value.start + cnt]
              else
                && count == driver.count && buffer[..cnt] == driver.blocks
                && cache == if count != cnt then old(cache) - env.drop
                            else if !env.keep then old(cache) - env.drop - env.evict
                            else old(cache) - env.drop
                                 + {Entry(d.ifType, d.devnum, d.blksz, start, driver.blocks)} - env.evict
      ensures Observe(old(Now()), Read(d, start, cnt, env)) == SawRead(d, start, cnt, count, buffer[..cnt])
      ensures Now() == Step(old(Now()), Read(d, start, cnt, env)) && media == old(media)
      ensures passed == old(passed) + Path(old(Now()), Read(d, start, cnt, env))
      ensures buffer[cnt..] == old(buffer[cnt..])
    {
      ghost var ev, was, before := Read(d, start, cnt, env), Now(), passed;
      var hit := CacheRead(d, start, cnt, buffer, env);
      if hit {
        count := cnt;
      } else {
        count := DriverRead(d, cnt, buffer, env.driver);
        if count == cnt {
          CacheFill(d, start, cnt, buffer, env);
        }
      }
      passed := passed + [Now()];
      AllCoherent(ev, was, before);
      StepRefinesPlain(descs, was, ev);
    }

    method Dwrite(d: Desc, start: nat, data: seq<Block>, driver: Reply) returns (count: nat)
      requires Valid() && d in descs
      requires DriverObeys(Now(), Write(d, start, data, driver))
      modifies this
      ensures Valid()
      ensures count == |data| ==>
                start + |data| <= |media[d.medium]| && media[d.medium][start..start + |data|] == data
      ensures forall e :: e in cache <==> e in old(cache) && !(e.ifType == d.ifType && e.devnum == d.devnum)
      ensures count == driver.count && media == old(media)[d.medium := driver.blocks]
      ensures Observe(old(Now()), Write(d, start, data, driver)) == SawWrite(d, start, data, count)
      ensures Now() == Step(old(Now()), Write(d, start, data, driver))
      ensures passed == old(passed) + Path(old(Now()), Write(d, start, data, driver))
    {
      ghost var ev, was, before := Write(d, start, data, driver), Now(), passed;
      Invalidate(d);
      count := DriverChange(d, driver);
      AllCoherent(ev, was, before);
    }

    method Derase(d: Desc, start: nat, cnt: nat, driver: Reply) returns (count: nat)
      requires Valid() && d in descs
      requires DriverObeys(Now(), Erase(d, start, cnt, driver))
      modifies this
      ensures Valid()
      ensures forall e :: e in cache <==> e in old(cache) && !(e.ifType == d.ifType && e.devnum == d.devnum)
      ensures count == driver.count && media == old(media)[d.medium := driver.blocks]
      ensures Observe(old(Now()), Erase(d, start, cnt, driver)) == SawErase(d, start, cnt, count)
      ensures Now() == Step(old(Now()), Erase(d, start, cnt, driver))
      ensures passed == old(passed) + Path(old(Now()), Erase(d, start, cnt, driver))
    {
      ghost var ev, was, before := Erase(d, start, cnt, driver), Now(), passed;
      Invalidate(d);
      count := DriverChange(d, driver);
      AllCoherent(ev, was, before);
    }

    method DriverChange(d: Desc, driver: Reply) returns (count: nat)
      requires d.medium in media
      modifies this`media, this`passed
      ensures count == driver.count && media == old(media)[d.medium := driver.blocks]
      ensures passed == old(passed) + [Now()]
    {
      media := media[d.medium := driver.blocks];
      count := driver.count;
      passed := passed + [Now()];
    }

    lemma {:induction false} AllCoherent(ev: Event, was: Disk, before: seq<Disk>)
      requires Disciplined(descs) && Coherent(descs, was) && ev.d in descs && DriverObeys(was, ev)
      requires forall k :: 0 <= k < |before| ==> Coherent(descs, before[k])
      requires passed == before + Path(was, ev) && Now() == Step(was, ev)
      ensures Valid()
    {
      forall k | 0 <= k < |Path(was, ev)| ensures Coherent(descs, Path(was, ev)[k]) {
        EveryStateCoherent(descs, was, ev, k);
      }
    }
  }
}
