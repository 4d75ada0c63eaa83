/**
 The SD card driver of driver/drv_tf.c: the request path that counts failed commands, the monitor thread
 that rescans and mounts, and the cached clock and bus width, on top of the controller of module `SdHost`.

 `err` is shared without a lock. A success and the monitor's reset store 0, but a failure runs `err++`,
 a load and a later store, so the steps of both threads are modelled at that grain and interleave freely.
 */
module TfCard {
  import opened Options
  import opened SdHost
  import opened Words

  /** What mmcsd_wait_cd_changed returned: MMCSD_HOST_PLUGED or any other code. */
  datatype Plug = Plugged | NotPlugged(code: int)

  /** A signed 32-bit int after wrap-around. */
  function Wrap32(x: int): int {
    (x + 0x8000_0000) % 0x1_0000_0000 - 0x8000_0000
  }

  // ----- The two threads -----

  /** mmc_mci_request is between commands, or has loaded `err` and not yet stored the incremented value. */
  datatype Requester = Ready | Bumping(loaded: int)

  /** Where the monitor stands: at its loop head, waiting for the rescan of either branch, about to mount,
      or about to clear `err`. */
  datatype Monitor = Head | Probing | Mounting | Tearing | Clearing

  datatype Card = Card(err: int, plug: Plug, status: Plug, card: bool, requester: Requester, monitor: Monitor)

  datatype Act =
    | CommandOk          // the command or stop command succeeds: err = 0
    | CommandFails       // it fails and err is loaded
    | StoreErr           // the incremented value is stored
    | Look               // the monitor evaluates the two guards of its loop
    | Rescanned(p: Plug) // mmcsd_wait_cd_changed returns and plug is stored
    | Mount              // dfs_mount is tried, and status takes plug
    | ClearErr           // the tear-down branch ends: err = 0
    | CardChanges(present: bool) // the host core sets or clears host->card

  predicate Enabled(s: Card, a: Act) {
    match a
    case CommandOk => s.requester.Ready?
    case CommandFails => s.requester.Ready?
    case StoreErr => s.requester.Bumping?
    case Look => s.monitor.Head?
    case Rescanned(_) => s.monitor.Probing? || s.monitor.Tearing?
    case Mount => s.monitor.Mounting?
    case ClearErr => s.monitor.Clearing?
    case CardChanges(_) => true
  }

  function Step(s: Card, a: Act): Card
    requires Enabled(s, a)
  {
    match a
    case CommandOk => s.(err := 0)
    case CommandFails => s.(requester := Bumping(s.err))
    case StoreErr => s.(err := Wrap32(s.requester.loaded + 1), requester := Ready)
    case Look =>
      if s.status != Plugged && !s.card then s.(monitor := Probing)
      else if s.err > 10 && s.card then s.(monitor := Tearing)
      else s
    case Rescanned(p) =>
      if s.monitor.Probing? then s.(plug := p, monitor := if p == Plugged then Mounting else Head)
      else s.(plug := p, status := p, monitor := Clearing)
    case Mount => s.(status := s.plug, monitor := Head)
    case ClearErr => s.(err := 0, monitor := Head)
    case CardChanges(present) => s.(card := present)
  }

  /** rt_hw_tf_init up to the start of the monitor: one rescan, and a mount if it reports a card. */
  function Boot(p: Plug, card: bool): Card {
    Card(0, p, p, card, Ready, Head)
  }

  ghost predicate Run(p: Plug, card: bool, acts: seq<Act>)
    decreases |acts|, 0
  {
    acts == [] || (Run(p, card, acts[..|acts| - 1]) && Enabled(After(p, card, acts[..|acts| - 1]), acts[|acts| - 1]))
  }

  ghost function After(p: Plug, card: bool, acts: seq<Act>): Card
    requires Run(p, card, acts)
    decreases |acts|, 1
  {
    if acts == [] then Boot(p, card) else Step(After(p, card, acts[..|acts| - 1]), acts[|acts| - 1])
  }

  // ----- What the history says -----

  /** Failed commands since the last success, resets ignored. */
  function InARow(acts: seq<Act>): nat {
    if acts == [] || acts[|acts| - 1] == CommandOk then 0
    else InARow(acts[..|acts| - 1]) + if acts[|acts| - 1] == CommandFails then 1 else 0
  }

  /** Failed commands since the last success or reset of the monitor. */
  function SinceReset(acts: seq<Act>): nat {
    if acts == [] || acts[|acts| - 1] == CommandOk || acts[|acts| - 1] == ClearErr then 0
    else SinceReset(acts[..|acts| - 1]) + if acts[|acts| - 1] == CommandFails then 1 else 0
  }

  /** An increment is open: a failure has been loaded and not yet stored. */
  predicate Open(acts: seq<Act>) {
    acts != [] &&
    (acts[|acts| - 1] == CommandFails || (acts[|acts| - 1] != StoreErr && Open(acts[..|acts| - 1])))
  }

  /** How far `err` runs ahead of the failures since the last reset. A reset that falls into an open
      increment is lost: the store that follows brings back everything it meant to forget. */
  function Lag(acts: seq<Act>): nat {
    if acts == [] || acts[|acts| - 1] == CommandOk then 0
    else if acts[|acts| - 1] == ClearErr then
      (if Open(acts[..|acts| - 1]) then SinceReset(acts[..|acts| - 1]) + Lag(acts[..|acts| - 1]) else 0)
    else Lag(acts[..|acts| - 1])
  }

  /** No reset falls into an open increment. */
  ghost predicate NoLostReset(acts: seq<Act>) {
    forall k :: 0 <= k < |acts| && acts[k] == ClearErr ==> !Open(acts[..k])
  }

  lemma {:induction false} WrapAdd(x: int)
    ensures Wrap32(Wrap32(x) + 1) == Wrap32(x + 1)
  {}

  /** In every interleaving `err` is the number of failures since the last success or reset plus the lag of
      lost resets, whenever no increment is open; an open increment has loaded one less. */
  lemma {:induction false} ErrCountsFailures(p: Plug, card: bool, acts: seq<Act>)
    requires Run(p, card, acts)
    ensures var s, n := After(p, card, acts), SinceReset(acts) + Lag(acts);
            && (Open(acts) <==> s.requester.Bumping?)
            && (s.requester.Ready? ==> s.err == Wrap32(n))
            && (s.requester.Bumping? ==> n >= 1 && s.requester.loaded == Wrap32(n - 1))
            && n <= InARow(acts)
            && (s.requester.Bumping? ==> s.err == s.requester.loaded || s.err == 0)
  {
    if acts != [] {
      var before := acts[..|acts| - 1];
      ErrCountsFailures(p, card, before);
      WrapAdd(SinceReset(before) + Lag(before) - 1);
    }
  }

  lemma {:induction false} NoLostResetNoLag(acts: seq<Act>)
    requires NoLostReset(acts)
    ensures Lag(acts) == 0
  {
    if acts != [] {
      var n := |acts| - 1;
      forall k | 0 <= k < n && acts[..n][k] == ClearErr ensures !Open(acts[..n][..k]) {
        assert acts[..n][..k] == acts[..k];
      }
      NoLostResetNoLag(acts[..n]);
    }
  }

  /** Since the last success, the latest reset fell into an open increment. */
  predicate LostShows(acts: seq<Act>) {
    acts != [] && acts[|acts| - 1] != CommandOk &&
    if acts[|acts| - 1] == ClearErr then Open(acts[..|acts| - 1]) else LostShows(acts[..|acts| - 1])
  }

  /** An open increment has counted its failure, so a reset that falls into it always leaves a lag. */
  lemma {:induction false} LagShows(p: Plug, card: bool, acts: seq<Act>)
    requires Run(p, card, acts)
    ensures Lag(acts) > 0 <==> LostShows(acts)
    ensures SinceReset(acts) + Lag(acts) <= |acts|
  {
    if acts != [] {
      ErrCountsFailures(p, card, acts[..|acts| - 1]);
      LagShows(p, card, acts[..|acts| - 1]);
    }
  }

  /** Between commands `err` counts the failures since the last success or reset unless a lost reset shows:
      exactly then, in every run too short for the count to come round. */
  lemma {:induction false} CountsExactlyUnlessLostShows(p: Plug, card: bool, acts: seq<Act>)
    requires Run(p, card, acts) && After(p, card, acts).requester.Ready?
    ensures !LostShows(acts) ==> After(p, card, acts).err == Wrap32(SinceReset(acts))
    ensures |acts| < 0x1_0000_0000 ==>
              (After(p, card, acts).err == Wrap32(SinceReset(acts)) <==> !LostShows(acts))
  {
    ErrCountsFailures(p, card, acts);
    LagShows(p, card, acts);
  }

  /** A tear-down starts only after at least eleven commands in a row have failed, whatever the interleaving;
      without lost resets those eleven all came after the last reset. */
  lemma {:induction false} TearDownNeedsElevenFailures(p: Plug, card: bool, acts: seq<Act>)
    requires Run(p, card, acts + [Look])
    requires After(p, card, acts + [Look]).monitor.Tearing?
    ensures InARow(acts) >= 11
    ensures NoLostReset(acts) ==> SinceReset(acts) >= 11
  {
    assert (acts + [Look])[..|acts|] == acts;
    ErrCountsFailures(p, card, acts);
    if NoLostReset(acts) { NoLostResetNoLag(acts); }
  }

  // ----- A lost reset tears the card down again at once -----

  function Failures(k: nat): (acts: seq<Act>)
    ensures |acts| == 2 * k
  {
    if k == 0 then [] else Failures(k - 1) + [CommandFails] + [StoreErr]
  }

  lemma {:induction false} Extend(p: Plug, card: bool, acts: seq<Act>, a: Act)
    requires Run(p, card, acts) && Enabled(After(p, card, acts), a)
    ensures Run(p, card, acts + [a]) && After(p, card, acts + [a]) == Step(After(p, card, acts), a)
    ensures SinceReset(acts + [a]) ==
            if a == CommandOk || a == ClearErr then 0 else SinceReset(acts) + if a == CommandFails then 1 else 0
    ensures InARow(acts + [a]) == if a == CommandOk then 0 else InARow(acts) + if a == CommandFails then 1 else 0
  {
    assert (acts + [a])[..|acts|] == acts;
  }

  const INT_MAX := 0x7fff_ffff

  lemma {:induction false} SmallWrap(x: int)
    requires 0 <= x <= INT_MAX
    ensures Wrap32(x) == x
  {}

  /** One failed command, from a state with nothing open. */
  lemma {:induction false} FailOnce(p: Plug, card: bool, acts: seq<Act>)
    requires Run(p, card, acts)
    requires After(p, card, acts).requester.Ready? && 0 <= After(p, card, acts).err < INT_MAX
    ensures Run(p, card, acts + [CommandFails] + [StoreErr])
    ensures var s := After(p, card, acts);
            After(p, card, acts + [CommandFails] + [StoreErr]) == s.(err := s.err + 1)
  {
    var s := After(p, card, acts);
    Extend(p, card, acts, CommandFails);
    Extend(p, card, acts + [CommandFails], StoreErr);
    SmallWrap(s.err + 1);
  }

  lemma {:induction false} FailuresInARow(k: nat)
    ensures InARow(Failures(k)) == k
  {
    if k > 0 {
      var before, loaded := Failures(k - 1), Failures(k - 1) + [CommandFails];
      FailuresInARow(k - 1);
      assert loaded[..|before|] == before && (loaded + [StoreErr])[..|loaded|] == loaded;
    }
  }

  lemma {:induction false} FailuresRun(k: nat)
    requires k <= INT_MAX
    ensures Run(Plugged, true, Failures(k)) && After(Plugged, true, Failures(k)) == Boot(Plugged, true).(err := k)
  {
    if k > 0 {
      var before := Failures(k - 1);
      assert Run(Plugged, true, before) && After(Plugged, true, before) == Boot(Plugged, true).(err := k - 1) by {
        FailuresRun(k - 1);
      }
      FailOnce(Plugged, true, before);
      assert Failures(k) == before + [CommandFails] + [StoreErr];
    }
  }

  /** A command that fails while a tear-down ends, its store coming after the reset. */
  lemma {:induction false} ResetIsLost(acts: seq<Act>)
    requires Run(Plugged, true, acts)
    requires var s := After(Plugged, true, acts);
             s.requester.Ready? && s.monitor.Clearing? && s.card && 10 <= s.err < INT_MAX
    ensures var a3 := acts + [CommandFails] + [ClearErr] + [StoreErr];
            && Run(Plugged, true, a3 + [Look]) && After(Plugged, true, a3 + [Look]).monitor.Tearing?
            && SinceReset(a3) == 0 && InARow(a3) == InARow(acts) + 1
  {
    var s := After(Plugged, true, acts);
    var a1, a2 := acts + [CommandFails], acts + [CommandFails] + [ClearErr];
    Extend(Plugged, true, acts, CommandFails);
    Extend(Plugged, true, a1, ClearErr);
    Extend(Plugged, true, a2, StoreErr);
    SmallWrap(s.err + 1);
    Extend(Plugged, true, a2 + [StoreErr], Look);
  }

  lemma {:induction false} StartTearDown(acts: seq<Act>)
    requires Run(Plugged, true, acts)
    requires var s := After(Plugged, true, acts); s.monitor.Head? && s.err > 10 && s.card
    ensures var s, a := After(Plugged, true, acts), acts + [Look] + [Rescanned(Plugged)];
            && Run(Plugged, true, a) && InARow(a) == InARow(acts)
            && After(Plugged, true, a) == s.(plug := Plugged, status := Plugged, monitor := Clearing)
  {
    Extend(Plugged, true, acts, Look);
    Extend(Plugged, true, acts + [Look], Rescanned(Plugged));
  }

  /** For any k from eleven on that an int can count up from: k failures start a tear-down, and one more that
      falls into its reset swallows that reset, so that the next look of the monitor starts another tear-down,
      k + 1 failures in a row and none of them since the reset. */
  lemma {:induction false} LostResetTearsDownAgain(k: nat)
    requires 11 <= k < INT_MAX
    ensures exists acts ::
              && Run(Plugged, true, acts + [Look])
              && After(Plugged, true, acts + [Look]).monitor.Tearing?
              && SinceReset(acts) == 0 && InARow(acts) == k + 1
  {
    var acts := Failures(k);
    FailuresRun(k);
    FailuresInARow(k);
    StartTearDown(acts);
    ResetIsLost(acts + [Look] + [Rescanned(Plugged)]);
  }

  // ----- Stop commands hide failures -----

  function CommandsIn(acts: seq<Act>): nat {
    if acts == [] then 0
    else
      var a := acts[|acts| - 1];
      CommandsIn(acts[..|acts| - 1]) + if a == CommandOk || a == CommandFails then 1 else 0
  }

  /** Every second command succeeds, as a stop command does that sunxi_mmc_send_cmd answers by itself. */
  ghost predicate StopsSucceed(acts: seq<Act>) {
    acts == [] ||
    (StopsSucceed(acts[..|acts| - 1]) &&
     (acts[|acts| - 1] == CommandFails ==> CommandsIn(acts[..|acts| - 1]) % 2 == 0))
  }

  lemma {:induction false} StopsBreakRows(acts: seq<Act>)
    requires StopsSucceed(acts)
    ensures InARow(acts) <= CommandsIn(acts) % 2
  {
    if acts != [] { StopsBreakRows(acts[..|acts| - 1]); }
  }

  /** While every request carries a stop command that succeeds, no tear-down ever starts, however many of the
      requests fail and however the threads interleave. */
  lemma {:induction false} StopsPreventTearDown(p: Plug, card: bool, acts: seq<Act>)
    requires Run(p, card, acts) && StopsSucceed(acts)
    ensures !After(p, card, acts).monitor.Tearing? && !After(p, card, acts).monitor.Clearing?
  {
    if acts != [] {
      var before := acts[..|acts| - 1];
      StopsPreventTearDown(p, card, before);
      ErrCountsFailures(p, card, before);
      StopsBreakRows(before);
    }
  }

  // ----- Mounts -----

  /** Act k is the rescan of a tear-down, and it did not report a card. */
  ghost predicate TearsDown(p: Plug, card: bool, acts: seq<Act>, k: nat)
    requires Run(p, card, acts)
  {
    k < |acts| && acts[k].Rescanned? && acts[k].p != Plugged &&
    Run(p, card, acts[..k]) && After(p, card, acts[..k]).monitor.Tearing?
  }

  /** The latest mount attempt before the end of the run, if any: -1 stands for the one at boot. */
  function LastMount(p: Plug, acts: seq<Act>): (k: Option<int>)
    ensures k.Some? ==> k.value < |acts|
  {
    if acts == [] then (if p == Plugged then Some(-1) else None)
    else if acts[|acts| - 1] == Mount then Some(|acts| - 1)
    else LastMount(p, acts[..|acts| - 1])
  }

  /** At the loop head `status` and `plug` agree on whether a card is in; off the loop head the monitor only
      probes without a card; and `status` has left "plugged" only through a tear-down since the last mount. */
  lemma {:induction false} MonitorInvariant(p: Plug, card: bool, acts: seq<Act>)
    requires Run(p, card, acts)
    ensures var s := After(p, card, acts);
            && (s.monitor.Head? ==> (s.status == Plugged <==> s.plug == Plugged))
            && (s.monitor.Probing? || s.monitor.Mounting? ==> s.status != Plugged)
            && (s.monitor.Mounting? ==> s.plug == Plugged)
            && (s.monitor.Tearing? || s.monitor.Clearing? ==> (s.status == Plugged <==> s.plug == Plugged))
            && (s.status != Plugged && LastMount(p, acts).Some? ==>
                 exists k: nat :: LastMount(p, acts).value < k && TearsDown(p, card, acts, k))
  {
    if acts != [] {
      var n := |acts| - 1;
      var before := acts[..n];
      MonitorInvariant(p, card, before);
      var s, t := After(p, card, before), After(p, card, acts);
      if t.status != Plugged && LastMount(p, acts).Some? {
        if s.status == Plugged {
          assert TearsDown(p, card, acts, n);
        } else {
          var k: nat :| LastMount(p, before).value < k && TearsDown(p, card, before, k);
          assert before[..k] == acts[..k];
          assert TearsDown(p, card, acts, k);
        }
      }
    }
  }

  /** Any two mount attempts, the one of rt_hw_tf_init included, are separated by the rescan of a tear-down
      that did not report a card. */
  lemma {:induction false} MountsAreSeparated(p: Plug, card: bool, acts: seq<Act>)
    requires Run(p, card, acts + [Mount]) && LastMount(p, acts).Some?
    ensures Run(p, card, acts) && exists k: nat :: LastMount(p, acts).value < k && TearsDown(p, card, acts, k)
    ensures LastMount(p, acts + [Mount]) == Some(|acts|)
  {
    assert (acts + [Mount])[..|acts|] == acts;
    MonitorInvariant(p, card, acts);
  }

  /** With `status` plugged and no card attached the monitor does nothing until the host core attaches one:
      it neither probes nor mounts. */
  lemma {:induction false} PluggedWithoutCardWaits(p: Plug, card: bool, acts: seq<Act>, more: seq<Act>)
    requires Run(p, card, acts) && Run(p, card, acts + more)
    requires var s := After(p, card, acts); s.monitor.Head? && s.status == Plugged && !s.card
    requires forall k :: 0 <= k < |more| ==> more[k] != CardChanges(true)
    ensures var t := After(p, card, acts + more); t.monitor.Head? && t.status == Plugged && !t.card
  {
    if more == [] {
      assert acts + more == acts;
    } else {
      var n := |more| - 1;
      assert (acts + more)[..|acts + more| - 1] == acts + more[..n];
      PluggedWithoutCardWaits(p, card, acts, more[..n]);
    }
  }

  // ----- The controller's clock and bus width -----

  /** An I/O configuration request, and which of the clock updates it may need complete in time. */
  datatype IoCfg = IoCfg(on: bool, clock: nat, busWidth: nat, up: Updates)

  /** The cached clock and bus width, and the controller. */
  datatype Ios = Ios(clock: nat, busWidth: nat, host: Host)

  /** One call of mmc_mci_set_iocfg, where a reset leaves `left`. */
  function Configure(s: Ios, pll6: nat, r: IoCfg, left: Regs): Ios {
    var lanes := Shl(1, r.busWidth);
    if !r.on then s
    else
      var t :=
        if r.clock != s.clock then
          Ios(r.clock, r.busWidth, SetIos(CoreInit(s.host, left), pll6, r.clock, lanes, r.up))
        else s;
      if r.busWidth != t.busWidth then Ios(t.clock, r.busWidth, SetIos(t.host, pll6, 0, lanes, r.up)) else t
  }

  /** What the controller is asked to do: a configuration request, or a command and what the bus makes of it. */
  datatype Call =
    | SetIo(r: IoCfg)
    | Command(index: nat, reply: int)

  function CallStep(s: Ios, pll6: nat, c: Call, left: Regs): Ios {
    match c
    case SetIo(r) => Configure(s, pll6, r, left)
    case Command(index, reply) => s.(host := AfterCmd(s.host, index, reply, left))
  }

  /** Any calls in any order; the reset of call k, if it makes one, leaves lefts[k]. */
  function Calls(s: Ios, pll6: nat, cs: seq<Call>, lefts: seq<Regs>): Ios
    requires |cs| == |lefts|
  {
    if cs == [] then s
    else
      var n := |cs| - 1;
      CallStep(Calls(s, pll6, cs[..n], lefts[..n]), pll6, cs[n], lefts[n])
  }

  /** What the driver starts from: nothing cached, and no failure since sunxi_mmc_probe. */
  predicate Probed(s: Ios) {
    s.clock == 0 && s.busWidth == 0 && !s.host.fatal && Supported(s.host.regs.lanes)
  }

  /** A width register has no other values. */
  predicate Physical(lefts: seq<Regs>) {
    forall k :: 0 <= k < |lefts| ==> Supported(lefts[k].lanes)
  }

  /** The latest powered-on request, if any. */
  function LastOn(cs: seq<Call>): Option<IoCfg> {
    if cs == [] then None
    else if cs[|cs| - 1].SetIo? && cs[|cs| - 1].r.on then Some(cs[|cs| - 1].r)
    else LastOn(cs[..|cs| - 1])
  }

  function ClockOf(r: Option<IoCfg>): nat {
    if r.Some? then r.value.clock else 0
  }

  function WidthOf(r: Option<IoCfg>): nat {
    if r.Some? then r.value.busWidth else 0
  }

  /** A powered-on request whose clock is not that of the one before */
  predicate ChangesClock(before: seq<Call>, c: Call) {
    c.SetIo? && c.r.on && c.r.clock != ClockOf(LastOn(before))
  }

  predicate ChangesWidth(before: seq<Call>, c: Call) {
    c.SetIo? && c.r.on && c.r.busWidth != WidthOf(LastOn(before))
  }

  /** The latest request that changed the clock, if any. */
  function LastChange(cs: seq<Call>): Option<IoCfg> {
    if cs == [] then None
    else
      var before, c := cs[..|cs| - 1], cs[|cs| - 1];
      if ChangesClock(before, c) then Some(c.r) else LastChange(before)
  }

  /** A command that fails on the bus */
  predicate Fails(c: Call) {
    c.Command? && c.index != STOP_TRANSMISSION && c.reply < 0
  }

  /** The latest failed command since the clock was last changed, if any. */
  function FailedAt(cs: seq<Call>): (k: Option<nat>)
    ensures k.Some? ==> k.value < |cs|
  {
    if cs == [] then None
    else
      var before, c := cs[..|cs| - 1], cs[|cs| - 1];
      if Fails(c) then Some(|cs| - 1) else if ChangesClock(before, c) then None else FailedAt(before)
  }

  /** A request has changed the width since the latest failed command. */
  predicate WidthSince(cs: seq<Call>) {
    if cs == [] then false
    else
      var before, c := cs[..|cs| - 1], cs[|cs| - 1];
      !Fails(c) && (ChangesWidth(before, c) || WidthSince(before))
  }

  /** The request's clock can be set, and both clock updates complete in time. */
  predicate ClockSets(pll6: nat, r: IoCfg) {
    Settable(pll6, r.clock) && r.up.first && r.up.second
  }

  /** The controller runs at the cached clock and width, and takes commands. */
  predicate InAgreement(s: Ios, pll6: nat) {
    && s.clock != 0 && s.host.mclk == Setting(pll6, s.clock) && !s.host.fatal
    && s.host.regs == Regs(true, 0, Shl(1, s.busWidth))
  }

  lemma {:induction false} WidthBits(w: nat)
    ensures Supported(Shl(1, w)) <==> w == 0 || w == 2 || w == 3
  {
    if w > 3 {
      assert Shl(1, w) == 16 * Pow2(w - 4) by {
        Pow2Known();
        ShlIs(1, w);
        Pow2Add(4, w - 4);
      }
    }
  }

  /** What a request leaves, by whether it changes the clock. */
  lemma {:induction false} RequestLeaves(s: Ios, pll6: nat, r: IoCfg, left: Regs)
    requires r.on
    ensures var t := Configure(s, pll6, r, left);
            && t.clock == r.clock && t.busWidth == r.busWidth
            && (r.clock == s.clock ==> t.host == s.host.(regs := s.host.regs.(lanes := t.host.regs.lanes)))
            && (r.clock != s.clock ==> (t.host.fatal <==> r.clock != 0 && !ClockSets(pll6, r)))
            && (r.clock != s.clock && r.clock != 0 && ClockSets(pll6, r) ==>
                 t.host.mclk == Setting(pll6, r.clock) && t.host.regs.enabled && t.host.regs.divider == 0)
            && (r.clock != s.clock && r.clock != 0 ==>
                 (t.host.regs.enabled <==> Settable(pll6, r.clock) && r.up.first))
  {
    if r.clock != 0 { SettableExactly(pll6, r.clock); }
  }

  /** The width register takes a supported width unless the clock set-up of the same request fails. */
  lemma {:induction false} WidthLeft(s: Ios, pll6: nat, r: IoCfg, left: Regs)
    requires r.on && Supported(s.host.regs.lanes) && Supported(left.lanes)
    ensures var t, w := Configure(s, pll6, r, left), Shl(1, r.busWidth);
            && Supported(t.host.regs.lanes)
            && (Supported(w) && !t.host.fatal && (r.clock != s.clock || r.busWidth != s.busWidth) ==>
                 t.host.regs.lanes == w)
            && (r.clock == s.clock && r.busWidth == s.busWidth ==> t == s)
  {}

  /** The cache is the latest powered-on request; commands are refused exactly when the clock of the latest change
      could not be set up, and otherwise the module clock is the cached one. */
  ghost predicate CacheDecides(t: Ios, pll6: nat, cs: seq<Call>) {
    var last, change := LastOn(cs), LastChange(cs);
    && t.clock == ClockOf(last) == ClockOf(change) && t.busWidth == WidthOf(last)
    && (t.host.fatal <==> t.clock != 0 && !ClockSets(pll6, change.value))
    && (t.clock != 0 && !t.host.fatal ==> t.host.mclk == Setting(pll6, t.clock))
  }

  /** Unless a command has failed since the latest change, the clock runs and the latest width is in its register if
      it is supported; since a failed command the clock is as its reset left it, and so is the width until a request
      changes that. */
  ghost predicate ResetDecides(t: Ios, cs: seq<Call>, lefts: seq<Regs>)
    requires |cs| == |lefts|
  {
    var at, w := FailedAt(cs), Shl(1, t.busWidth);
    && Supported(t.host.regs.lanes)
    && (t.clock != 0 && !t.host.fatal ==>
         && t.host.regs.enabled == (at.Some? ==> lefts[at.value].enabled)
         && t.host.regs.divider == (if at.Some? then lefts[at.value].divider else 0)
         && (if at.None? || WidthSince(cs) then Supported(w) ==> t.host.regs.lanes == w
             else t.host.regs.lanes == lefts[at.value].lanes))
  }

  lemma {:induction false} RequestDecides(s: Ios, pll6: nat, cs: seq<Call>, lefts: seq<Regs>, r: IoCfg, left: Regs)
    requires |cs| == |lefts| && Supported(left.lanes)
    requires CacheDecides(s, pll6, cs) && ResetDecides(s, cs, lefts)
    ensures var t := Configure(s, pll6, r, left);
            CacheDecides(t, pll6, cs + [SetIo(r)]) && ResetDecides(t, cs + [SetIo(r)], lefts + [left])
  {
    assert (cs + [SetIo(r)])[..|cs|] == cs;
    if r.on {
      RequestLeaves(s, pll6, r, left);
      WidthLeft(s, pll6, r, left);
    }
  }

  lemma {:induction false} CommandDecides(s: Ios, pll6: nat, cs: seq<Call>, lefts: seq<Regs>,
        index: nat, reply: int, left: Regs)
    requires |cs| == |lefts| && Supported(left.lanes)
    requires CacheDecides(s, pll6, cs) && ResetDecides(s, cs, lefts)
    ensures var t, c := s.(host := AfterCmd(s.host, index, reply, left)), Command(index, reply);
            CacheDecides(t, pll6, cs + [c]) && ResetDecides(t, cs + [c], lefts + [left])
  {
    assert (cs + [Command(index, reply)])[..|cs|] == cs;
  }

  /** The state after any requests and commands, in any order and whatever the resets leave. */
  lemma {:induction false} StateAfterCalls(s: Ios, pll6: nat, cs: seq<Call>, lefts: seq<Regs>)
    requires Probed(s) && |cs| == |lefts| && Physical(lefts)
    ensures var t := Calls(s, pll6, cs, lefts); CacheDecides(t, pll6, cs) && ResetDecides(t, cs, lefts)
  {
    if cs != [] {
      var n := |cs| - 1;
      var before := Calls(s, pll6, cs[..n], lefts[..n]);
      StateAfterCalls(s, pll6, cs[..n], lefts[..n]);
      assert cs == cs[..n] + [cs[n]] && lefts == lefts[..n] + [lefts[n]];
      match cs[n]
      case SetIo(r) => RequestDecides(before, pll6, cs[..n], lefts[..n], r, lefts[n]);
      case Command(index, reply) => CommandDecides(before, pll6, cs[..n], lefts[..n], index, reply, lefts[n]);
    }
  }

  /** The latest request that changed the clock carried one, which could be set up, and the latest one asked for
      1, 4 or 8 lanes. */
  predicate RequestsSuffice(pll6: nat, cs: seq<Call>) {
    var change, last := LastChange(cs), LastOn(cs);
    && change.Some? && change.value.clock != 0 && ClockSets(pll6, change.value)
    && last.Some? && last.value.busWidth in {0, 2, 3}
  }

  /** After any calls the controller agrees with the cache exactly when the requests suffice, and the latest command
      that failed since the clock was changed, if any, has by chance left the clock running undivided and the width
      that is cached, unless a request has set that since. */
  lemma {:induction false} AgreesExactly(s: Ios, pll6: nat, cs: seq<Call>, lefts: seq<Regs>)
    requires Probed(s) && |cs| == |lefts| && Physical(lefts)
    ensures InAgreement(Calls(s, pll6, cs, lefts), pll6) <==>
            && RequestsSuffice(pll6, cs)
            && (FailedAt(cs).Some? ==>
                 var left := lefts[FailedAt(cs).value];
                 && left.enabled && left.divider == 0
                 && (WidthSince(cs) || left.lanes == Shl(1, LastOn(cs).value.busWidth)))
  {
    StateAfterCalls(s, pll6, cs, lefts);
    if LastOn(cs).Some? { WidthBits(LastOn(cs).value.busWidth); }
  }

  ghost predicate AlwaysAgrees(s: Ios, pll6: nat, cs: seq<Call>) {
    forall lefts: seq<Regs> :: |cs| == |lefts| && Physical(lefts) ==> InAgreement(Calls(s, pll6, cs, lefts), pll6)
  }

  /** Whatever the resets leave, the controller agrees with the cache exactly when the requests suffice and no
      command has failed since the clock was changed. */
  lemma {:induction false} AlwaysAgreesExactly(s: Ios, pll6: nat, cs: seq<Call>)
    requires Probed(s)
    ensures AlwaysAgrees(s, pll6, cs) <==> RequestsSuffice(pll6, cs) && FailedAt(cs).None?
  {
    if RequestsSuffice(pll6, cs) && FailedAt(cs).None? {
      forall lefts: seq<Regs> | |cs| == |lefts| && Physical(lefts)
        ensures InAgreement(Calls(s, pll6, cs, lefts), pll6)
      {
        AgreesExactly(s, pll6, cs, lefts);
      }
    } else {
      var lefts := seq(|cs|, _ => CLEARED);
      AgreesExactly(s, pll6, cs, lefts);
      assert Physical(lefts) && !InAgreement(Calls(s, pll6, cs, lefts), pll6);
    }
  }

  // ----- What brings the controller back, and what does not -----

  /** Requests that repeat the cached clock and width, or are powered off, restore nothing, whatever state a failed
      command has left. */
  lemma {:induction false} RepeatsRestoreNothing(s: Ios, pll6: nat, cs: seq<Call>, lefts: seq<Regs>)
    requires |cs| == |lefts|
    requires forall k :: 0 <= k < |cs| ==>
               cs[k].SetIo? && (cs[k].r.on ==> cs[k].r.clock == s.clock && cs[k].r.busWidth == s.busWidth)
    ensures Calls(s, pll6, cs, lefts) == s
  {
    if cs != [] { RepeatsRestoreNothing(s, pll6, cs[..|cs| - 1], lefts[..|lefts| - 1]); }
  }

  /** A request for another width alone restores a supported width on a controller that takes commands or not, and
      leaves the clock as it is. */
  lemma {:induction false} WidthRequestRestoresWidth(s: Ios, pll6: nat, r: IoCfg, left: Regs)
    requires r.on && r.clock == s.clock && r.busWidth != s.busWidth
    ensures var t, w := Configure(s, pll6, r, left), Shl(1, r.busWidth);
            && t.host == s.host.(regs := s.host.regs.(lanes := t.host.regs.lanes))
            && t.host.regs.lanes == if Supported(w) then w else s.host.regs.lanes
  {
    RequestLeaves(s, pll6, r, left);
  }

  /** Without another clock no calls start a stopped clock again, unless a reset happens to. */
  lemma {:induction false} StoppedClockStays(s: Ios, pll6: nat, cs: seq<Call>, lefts: seq<Regs>)
    requires |cs| == |lefts| && !s.host.regs.enabled
    requires forall k :: 0 <= k < |cs| ==> cs[k].SetIo? && cs[k].r.on ==> cs[k].r.clock == s.clock
    requires forall k :: 0 <= k < |cs| ==> !lefts[k].enabled
    ensures var t := Calls(s, pll6, cs, lefts); t.clock == s.clock && !t.host.regs.enabled && !InAgreement(t, pll6)
  {
    if cs != [] {
      var n := |cs| - 1;
      var before := Calls(s, pll6, cs[..n], lefts[..n]);
      StoppedClockStays(s, pll6, cs[..n], lefts[..n]);
      if cs[n].SetIo? && cs[n].r.on { RequestLeaves(before, pll6, cs[n].r, lefts[n]); }
    }
  }

  /** After a failed clock set-up, nothing but a request with another clock brings the controller back: until then no
      call changes anything but the width register, and every command fails. */
  lemma {:induction false} FailedClockSticks(s: Ios, pll6: nat, cs: seq<Call>, lefts: seq<Regs>, index: nat, reply: int)
    requires |cs| == |lefts| && s.host.fatal
    requires forall k :: 0 <= k < |cs| ==> cs[k].SetIo? && cs[k].r.on ==> cs[k].r.clock == s.clock
    ensures var t := Calls(s, pll6, cs, lefts);
            && t.clock == s.clock && t.host == s.host.(regs := s.host.regs.(lanes := t.host.regs.lanes))
            && Answer(t.host, index, reply) == -1
  {
    if cs != [] {
      var n := |cs| - 1;
      var before := Calls(s, pll6, cs[..n], lefts[..n]);
      FailedClockSticks(s, pll6, cs[..n], lefts[..n], index, reply);
      if cs[n].SetIo? && cs[n].r.on { RequestLeaves(before, pll6, cs[n].r, lefts[n]); }
    }
  }

  /** A powered-on request takes a refusing controller back exactly when it carries another clock, which is 0 or
      can be set up. */
  lemma {:induction false} AnotherClockRecovers(s: Ios, pll6: nat, r: IoCfg, left: Regs)
    requires s.host.fatal
    ensures !Configure(s, pll6, r, left).host.fatal <==>
            r.on && r.clock != s.clock && (r.clock == 0 || ClockSets(pll6, r))
  {
    if r.on { RequestLeaves(s, pll6, r, left); }
  }

  // ----- Concrete disagreements -----

  const IN_TIME := Updates(true, true)
  const CLEARED := Regs(false, 0, 1)

  lemma {:induction false} OneCall(s: Ios, pll6: nat, c: Call, left: Regs)
    ensures Calls(s, pll6, [c], [left]) == CallStep(s, pll6, c, left)
  {
    assert [c][..0] == [] && [left][..0] == [];
  }

  lemma {:induction false} TwoCalls(s: Ios, pll6: nat, c: Call, d: Call, left: Regs)
    ensures Calls(s, pll6, [c, d], [left, left]) == CallStep(CallStep(s, pll6, c, left), pll6, d, left)
  {
    assert [c, d][..1] == [c] && [left, left][..1] == [left];
    OneCall(s, pll6, c, left);
  }

  /** 400 kHz and four lanes, then one command that fails: the reset has stopped the clock and gone back to one lane,
      both of which the cache hides. */
  lemma {:induction false} FailedCommandDisagrees(s: Ios, pll6: nat, index: nat, reply: int)
    requires Probed(s) && index != STOP_TRANSMISSION && reply < 0
    ensures var c := SetIo(IoCfg(true, 400_000, 2, IN_TIME));
            && InAgreement(Calls(s, pll6, [c], [CLEARED]), pll6)
            && var t := Calls(s, pll6, [c, Command(index, reply)], [CLEARED, CLEARED]);
               && t.clock == 400_000 && t.busWidth == 2 && t.host.regs == CLEARED && !InAgreement(t, pll6)
               && CallStep(t, pll6, c, CLEARED) == t
  {
    var r := IoCfg(true, 400_000, 2, IN_TIME);
    OneCall(s, pll6, SetIo(r), CLEARED);
    TwoCalls(s, pll6, SetIo(r), Command(index, reply), CLEARED);
    RequestLeaves(s, pll6, r, CLEARED);
    assert Shl(1, 2) == 4;
  }

  /** A clock of 400 kHz and then clock 0: the cache holds 0, the module clock stays at 400 kHz. */
  lemma {:induction false} ClockZeroDisagrees(s: Ios, pll6: nat)
    requires Probed(s)
    ensures var c, d := SetIo(IoCfg(true, 400_000, 0, IN_TIME)), SetIo(IoCfg(true, 0, 0, IN_TIME));
            var t := Calls(s, pll6, [c, d], [CLEARED, CLEARED]);
            t.clock == 0 && t.host.mclk == Setting(pll6, 400_000) && !t.host.fatal && !InAgreement(t, pll6)
  {
    var a, b := IoCfg(true, 400_000, 0, IN_TIME), IoCfg(true, 0, 0, IN_TIME);
    TwoCalls(s, pll6, SetIo(a), SetIo(b), CLEARED);
    RequestLeaves(s, pll6, a, CLEARED);
  }

  /** 100 kHz, four lanes: neither is programmed, but both are cached, and every command fails. */
  lemma {:induction false} LowClockDisagrees(s: Ios, pll6: nat, reply: int)
    requires Probed(s)
    ensures var t := Calls(s, pll6, [SetIo(IoCfg(true, 100_000, 2, IN_TIME))], [CLEARED]);
            && t.clock == 100_000 && t.busWidth == 2 && t.host.mclk == s.host.mclk && t.host.regs.lanes == 1
            && !InAgreement(t, pll6) && Answer(t.host, 0, reply) == -1
  {
    OneCall(s, pll6, SetIo(IoCfg(true, 100_000, 2, IN_TIME)), CLEARED);
    HundredKilohertzFails(pll6);
  }

  /** Two lanes are cached and never programmed. */
  lemma {:induction false} TwoLanesDisagree(s: Ios, pll6: nat)
    requires Probed(s)
    ensures var t := Calls(s, pll6, [SetIo(IoCfg(true, 400_000, 1, IN_TIME))], [CLEARED]);
            t.busWidth == 1 && t.host.regs.lanes == 1 && !InAgreement(t, pll6)
  {
    var r := IoCfg(true, 400_000, 1, IN_TIME);
    OneCall(s, pll6, SetIo(r), CLEARED);
    RequestLeaves(s, pll6, r, CLEARED);
    assert Shl(1, 1) == 2;
  }

  // ----- The imperative form -----

  /** What one command adds to the history. */
  function Sent(err: int): seq<Act> {
    if err == 0 then [CommandOk] else [CommandFails, StoreErr]
  }

  /** A nonzero result is one more failure, in a row and since the reset; a zero ends both. */
  lemma {:induction false} SentCounts(acts: seq<Act>, err: int)
    ensures InARow(acts + Sent(err)) == if err == 0 then 0 else InARow(acts) + 1
    ensures SinceReset(acts + Sent(err)) == if err == 0 then 0 else SinceReset(acts) + 1
    ensures Lag(acts + Sent(err)) == if err == 0 then 0 else Lag(acts)
    ensures !Open(acts + Sent(err)) || (err == 0 && Open(acts))
  {
    if err == 0 {
      assert (acts + [CommandOk])[..|acts|] == acts;
    } else {
      var loaded := acts + [CommandFails];
      assert loaded[..|acts|] == acts && (loaded + [StoreErr])[..|loaded|] == loaded;
      assert acts + Sent(err) == loaded + [StoreErr];
    }
  }

  lemma {:induction false} OneMore(acts: seq<Act>, a: Act)
    ensures CommandsIn(acts + [a]) == CommandsIn(acts) + if a == CommandOk || a == CommandFails then 1 else 0
    ensures StopsSucceed(acts + [a]) <==> StopsSucceed(acts) && (a == CommandFails ==> CommandsIn(acts) % 2 == 0)
  {
    assert (acts + [a])[..|acts|] == acts;
  }

  ghost predicate BetweenRequests(acts: seq<Act>) {
    StopsSucceed(acts) && CommandsIn(acts) % 2 == 0
  }

  lemma {:induction false} SuccessAndStop(acts: seq<Act>)
    requires BetweenRequests(acts)
    ensures BetweenRequests(acts + [CommandOk] + [CommandOk])
  {
    OneMore(acts, CommandOk);
    OneMore(acts + [CommandOk], CommandOk);
  }

  lemma {:induction false} FailureAndStop(acts: seq<Act>)
    requires BetweenRequests(acts)
    ensures BetweenRequests(acts + [CommandFails] + [StoreErr] + [CommandOk])
  {
    OneMore(acts, CommandFails);
    OneMore(acts + [CommandFails], StoreErr);
    OneMore(acts + [CommandFails] + [StoreErr], CommandOk);
  }

  /** A request whose stop command is command 12 keeps the history one in which no tear-down starts, unless the
      controller refuses every command. */
  lemma {:induction false} RequestKeepsStops(acts: seq<Act>, h: Host, index: nat, reply: int, left: Regs,
        stopReply: int)
    requires BetweenRequests(acts) && !h.fatal
    ensures var g := AfterCmd(h, index, reply, left);
            var more := Sent(Answer(h, index, reply)) + Sent(Answer(g, STOP_TRANSMISSION, stopReply));
            BetweenRequests(acts + more)
  {
    if Answer(h, index, reply) == 0 {
      SuccessAndStop(acts);
      assert acts + [CommandOk] + [CommandOk] == acts + ([CommandOk] + [CommandOk]);
    } else {
      FailureAndStop(acts);
      assert acts + [CommandFails] + [StoreErr] + [CommandOk] == acts + ([CommandFails, StoreErr] + [CommandOk]);
    }
  }

  class MmcMci {
    var err: int
    var plug: Plug
    var status: Plug // local to sd_thread_entry
    var card: bool // host->card is set
    var clock: nat
    var busWidth: nat
    const dev: SunxiMmc
    var mounts: nat // calls of dfs_mount
    ghost const bootPlug: Plug
    ghost const bootCard: bool
    ghost var history: seq<Act>

    ghost function Now(): Card
      reads this
    {
      Card(err, plug, status, card, Ready, Head)
    }

    ghost predicate Valid()
      reads this
    {
      Run(bootPlug, bootCard, history) && After(bootPlug, bootCard, history) == Now()
    }

    ghost function IosNow(): Ios
      reads this, dev
    {
      Ios(clock, busWidth, dev.State())
    }

    /** rt_hw_tf_init, when the host and the controller are found */
    constructor (dev: SunxiMmc, p: Plug, present: bool)
      requires !dev.fatal && Supported(dev.lanes)
      ensures Valid() && history == [] && Now() == Boot(p, present) && Probed(IosNow()) && this.dev == dev
      ensures bootPlug == p && bootCard == present && mounts == if p == Plugged then 1 else 0
      ensures err == 0 && plug == p && status == p && card == present && clock == 0 && busWidth == 0
    {
      err, plug, card, history := 0, p, present, [];
      this.dev, clock, busWidth := dev, 0, 0;
      mounts := if p == Plugged then 1 else 0;
      status := p;
      bootPlug, bootCard := p, present;
    }

    ghost method Add(a: Act)
      requires Run(bootPlug, bootCard, history) && Enabled(After(bootPlug, bootCard, history), a)
      modifies this`history
      ensures history == old(history) + [a] && Run(bootPlug, bootCard, history)
      ensures After(bootPlug, bootCard, history) == Step(After(bootPlug, bootCard, old(history)), a)
    {
      Extend(bootPlug, bootCard, history, a);
      history := history + [a];
    }

    /** What follows the result of one command */
    method Count(result: int)
      requires Valid()
      modifies this`err, this`history
      ensures Valid() && err == if result == 0 then 0 else Wrap32(old(err) + 1)
      ensures history == old(history) + if result == 0 then [CommandOk] else [CommandFails, StoreErr]
    {
      if result == 0 {
        err := 0;
        Add(CommandOk);
      } else {
        var loaded := err;
        Add(CommandFails);
        err := Wrap32(loaded + 1);
        Add(StoreErr);
      }
    }

    /** mmc_mci_request, run without interference: the command and the stop command, if there is one, each with what
        the bus makes of it and what a reset after its failure leaves. */
    method Request(index: nat, reply: int, left: Regs, stop: Option<(nat, int, Regs)>)
      requires Valid()
      modifies this`err, this`history, dev
      ensures Valid()
      ensures !old(dev.fatal) && index != 12 && stop.None? ==>
                && err == (if reply == 0 then 0 else Wrap32(old(err) + 1))
                && SinceReset(history) == if reply == 0 then 0 else SinceReset(old(history)) + 1
      ensures old(dev.fatal) && stop.None? ==>
                err == Wrap32(old(err) + 1) && SinceReset(history) == SinceReset(old(history)) + 1
      ensures var g := AfterCmd(old(dev.State()), index, reply, left);
              && history == old(history) + Sent(Answer(old(dev.State()), index, reply)) +
                            (if stop.Some? then Sent(Answer(g, stop.value.0, stop.value.1)) else [])
              && dev.State() ==
                 if stop.Some? then AfterCmd(g, stop.value.0, stop.value.1, stop.value.2) else g
    {
      var result := dev.Send(index, reply, left);
      SentCounts(history, result);
      Count(result);
      if stop.Some? {
        result := dev.Send(stop.value.0, stop.value.1, stop.value.2);
        Count(result);
      }
    }

    /** mmcsd_change and mmcsd_wait_cd_changed, in either branch of sd_thread_entry */
    method Rescan(p: Plug, present: bool)
      requires Valid() && ((status != Plugged && !card) || (err > 10 && card))
      modifies this`plug, this`card, this`history
      ensures history == old(history) + [Look, CardChanges(present), Rescanned(p)] && plug == p && card == present
      ensures Run(bootPlug, bootCard, history)
      ensures After(bootPlug, bootCard, history) ==
              if status != Plugged && !old(card) then Now().(monitor := if p == Plugged then Mounting else Head)
              else Now().(status := p, monitor := Clearing)
    {
      Add(Look);
      card := present;
      Add(CardChanges(present));
      plug := p;
      Add(Rescanned(p));
    }

    /** One pass of the loop in sd_thread_entry, run without interference */
    method MonitorPass(p: Plug, present: bool)
      requires Valid()
      modifies this`err, this`plug, this`status, this`card, this`mounts, this`history
      ensures Valid()
      ensures if old(status) != Plugged && !old(card) then
                && plug == p && card == present && err == old(err)
                && status == (if p == Plugged then p else old(status))
                && history == old(history) + [Look, CardChanges(present), Rescanned(p)]
                              + (if p == Plugged then [Mount] else [])
              else if old(err) > 10 && old(card) then
                && plug == p && card == present && err == 0 && status == p
                && history == old(history) + [Look, CardChanges(present), Rescanned(p), ClearErr]
              else
                && plug == old(plug) && card == old(card) && err == old(err) && status == old(status)
                && history == old(history) + [Look]
      ensures mounts == old(mounts) + if old(status) != Plugged && !old(card) && p == Plugged then 1 else 0
    {
      if status != Plugged && !card {
        Rescan(p, present);
        if plug == Plugged {
          mounts := mounts + 1;
          status := plug;
          Add(Mount);
        }
      } else if err > 10 && card {
        Rescan(p, present);
        status := plug;
        err := 0;
        Add(ClearErr);
      } else {
        Add(Look);
      }
    }

    /** mmc_mci_set_iocfg */
    method SetIocfg(r: IoCfg, left: Regs)
      modifies this`clock, this`busWidth, dev
      ensures clock == (if r.on then r.clock else old(clock)) && busWidth == if r.on then r.busWidth else old(busWidth)
      ensures !r.on || (r.clock == old(clock) && r.busWidth == old(busWidth)) ==> dev.State() == old(dev.State())
      ensures IosNow() == Configure(old(IosNow()), dev.pll6, r, left)
    {
      if r.on {
        if r.clock != clock {
          dev.Reset(left);
          dev.SetIoSettings(r.clock, Shl(1, r.busWidth), r.up);
          clock := r.clock;
          busWidth := r.busWidth;
        }
        if r.busWidth != busWidth {
          dev.SetIoSettings(0, Shl(1, r.busWidth), r.up);
          busWidth := r.busWidth;
        }
      }
    }
  }

  /** Eleven commands that fail on a controller that takes them, one after the other and with no stop command, and then
      one pass of the monitor with a card attached: the card is torn down. After ten it is not. */
  method ElevenFailuresTearDown(mmc: MmcMci, index: nat, replies: seq<int>, left: Regs, p: Plug, present: bool)
    requires mmc.Valid() && mmc.card && !mmc.dev.fatal && index != 12 && mmc.err == 0
    requires |replies| <= 11 && forall k :: 0 <= k < |replies| ==> replies[k] != 0
    modifies mmc, mmc.dev
    ensures |replies| == 11 ==>
              && |mmc.history| >= 2 && mmc.history[|mmc.history| - 2..] == [Rescanned(p), ClearErr]
              && mmc.err == 0 && mmc.status == p && mmc.plug == p && mmc.card == present
    ensures |replies| < 11 ==>
              && mmc.history != [] && mmc.history[|mmc.history| - 1] == Look
              && mmc.err == |replies| && mmc.status == old(mmc.status) && mmc.card
  {
    for k := 0 to |replies|
      invariant mmc.Valid() && mmc.card && !mmc.dev.fatal && mmc.err == k && mmc.status == old(mmc.status)
    {
      SmallWrap(k + 1);
      mmc.Request(index, replies[k], left, None);
    }
    mmc.MonitorPass(p, present);
  }

  /** Booted without a card, the first pass of the monitor probes, and mounts exactly if the probe reports one. */
  method FirstPassProbes(dev: SunxiMmc, code: int, p: Plug, present: bool) returns (mmc: MmcMci)
    requires !dev.fatal && Supported(dev.lanes)
    ensures mmc.plug == p && mmc.card == present && mmc.mounts == if p == Plugged then 1 else 0
    ensures mmc.status == if p == Plugged then Plugged else NotPlugged(code)
  {
    mmc := new MmcMci(dev, NotPlugged(code), false);
    mmc.MonitorPass(p, present);
  }
}
