/**
 The SD controller of uboot/sunxi_mmc.c as driver/drv_tf.c uses it: the module clock, the I/O settings, and the
 commands, all of which a failed clock set-up refuses until sunxi_mmc_core_init forgets it. That function and every
 command that fails on the bus reset the controller.
 */
module SdHost {
  import opened Words

  const OSC24M := 24_000_000
  const STOP_TRANSMISSION := 12

  /** The clock register: its source (PLL6 or the 24 MHz oscillator), and the two dividers 2^n and m. */
  datatype ModClk = ModClk(usesPll6: bool, n: nat, m: nat)

  /** What a reset of the controller may change: the enable bit and the divider of clkcr, and the width. */
  datatype Regs = Regs(enabled: bool, divider: nat, lanes: nat)

  datatype Host = Host(mclk: ModClk, regs: Regs, fatal: bool)

  /** Whether each of the two clock updates of one clock set-up completes in time */
  datatype Updates = Updates(first: bool, second: bool)

  predicate Supported(lanes: nat) {
    lanes == 1 || lanes == 4 || lanes == 8
  }

  // ----- The dividers -----

  /** How often a divider is halved, rounding up, until it fits the four bits of m. */
  function Steps(div: nat): nat {
    if div <= 16 then 0 else 1 + Steps((div + 1) / 2)
  }

  function Settled(div: nat): nat {
    if div <= 16 then div else Settled((div + 1) / 2)
  }

  function Source(pll6: nat, hz: nat): nat {
    if hz <= OSC24M then OSC24M else pll6
  }

  function CeilDiv(a: nat, b: nat): nat
    requires b > 0
  {
    a / b + if a % b != 0 then 1 else 0
  }

  function Divider(pll6: nat, hz: nat): nat
    requires hz > 0
  {
    CeilDiv(Source(pll6, hz), hz)
  }

  function Setting(pll6: nat, hz: nat): ModClk
    requires hz > 0
  {
    ModClk(hz > OSC24M, Steps(Divider(pll6, hz)), Settled(Divider(pll6, hz)))
  }

  /** The source over 128 does not exceed the rate asked for. */
  predicate Settable(pll6: nat, hz: nat) {
    if hz <= OSC24M then hz >= 187_500 else pll6 <= 128 * hz
  }

  lemma {:induction false} StepsAtMost(div: nat, k: nat)
    ensures Steps(div) <= k <==> div <= 16 * Pow2(k)
  {
    if k > 0 { StepsAtMost((div + 1) / 2, k - 1); }
  }

  lemma {:induction false} SettledIs(div: nat)
    ensures Settled(div) <= 16 && (Steps(div) > 0 ==> Settled(div) > 8)
    ensures div <= Settled(div) * Pow2(Steps(div)) < div + Pow2(Steps(div))
  {
    if div > 16 {
      var half := (div + 1) / 2;
      SettledIs(half);
      Twice(Settled(half), Pow2(Steps(half)));
    }
  }

  lemma {:induction false} CeilDivIs(a: nat, b: nat, d: nat)
    requires b > 0
    ensures CeilDiv(a, b) <= d <==> a <= d * b
    ensures a <= CeilDiv(a, b) * b
  {
    var q, r := a / b, a % b;
    assert a == q * b + r;
    if q + 1 <= d {
      AtMostTimes(q + 1, d, b);
    } else {
      AtMostTimes(d, q, b);
      if d < q { AtMostTimes(d + 1, q, b); }
    }
  }

  lemma {:induction false} AtMostTimes(x: int, y: int, b: nat)
    requires x <= y || b == 0
    ensures x * b <= y * b
  {}

  /** mmc_set_mod_clk succeeds exactly from 187.5 kHz up to 24 MHz, and above while PLL6 is at most 128 times the
      rate. */
  lemma {:induction false} SettableExactly(pll6: nat, hz: nat)
    requires hz > 0
    ensures Setting(pll6, hz).n <= 3 <==> Settable(pll6, hz)
  {
    assert Pow2(3) == 8;
    StepsAtMost(Divider(pll6, hz), 3);
    CeilDivIs(Source(pll6, hz), hz, 128);
  }

  lemma {:induction false} DividesEnough(pll: nat, hz: nat, m: nat, p: nat)
    requires hz > 0 && CeilDiv(pll, hz) <= m * p < CeilDiv(pll, hz) + p
    ensures pll <= m * p * hz && (m > 0 ==> pll > (m - 1) * p * hz)
  {
    CeilDivIs(pll, hz, m * p);
    if m > 0 {
      assert (m - 1) * p == m * p - p;
      CeilDivIs(pll, hz, (m - 1) * p);
    }
  }

  /** The rate of the source that a register value selects, before its dividers */
  function Selected(c: ModClk, pll6: nat): nat {
    if c.usesPll6 then pll6 else 24_000_000
  }

  /** The clock of a register value is not above hz; with a smaller m it would be, and with a smaller n no m that fits
      its field would do. */
  predicate RunsAt(c: ModClk, pll6: nat, hz: nat) {
    && c.m <= 16 && (c.n > 0 ==> c.m > 8)
    && Selected(c, pll6) <= c.m * Pow2(c.n) * hz
    && (c.m > 0 ==> Selected(c, pll6) > (c.m - 1) * Pow2(c.n) * hz)
  }

  /** The register that is set selects PLL6 exactly above 24 MHz, and its clock is as close to the one asked for as can
      be without exceeding it. */
  lemma {:induction false} RateIsNotExceeded(pll6: nat, hz: nat)
    requires hz > 0
    ensures Setting(pll6, hz).usesPll6 <==> hz > 24_000_000
    ensures RunsAt(Setting(pll6, hz), pll6, hz)
  {
    var s := Setting(pll6, hz);
    SettledIs(Divider(pll6, hz));
    DividesEnough(Source(pll6, hz), hz, s.m, Pow2(s.n));
  }

  /** 50 MHz from a PLL6 of 600 MHz: divided by 12. */
  lemma FiftyMegahertz()
    ensures Setting(600_000_000, 50_000_000) == ModClk(true, 0, 12)
  {}

  /** Every rate that the driver advertises can be set, with any PLL6 that is at most 128 times 24 MHz. */
  lemma {:induction false} AdvertisedRatesAreSettable(pll6: nat, hz: nat)
    requires 400_000 <= hz <= 50_000_000 && pll6 <= 128 * OSC24M
    ensures Setting(pll6, hz).n <= 3
  {
    SettableExactly(pll6, hz);
  }

  /** 100 kHz cannot be set. */
  lemma {:induction false} HundredKilohertzFails(pll6: nat)
    ensures Divider(pll6, 100_000) == 240 && Setting(pll6, 100_000).n == 4
  {
    assert Steps(15) == 0 && Steps(30) == 1 && Steps(60) == 2 && Steps(120) == 3;
  }

  // ----- I/O settings and commands -----

  /** mmc_config_clock, and whether it succeeds. */
  function ConfigClock(h: Host, pll6: nat, hz: nat, up: Updates): (r: (Host, bool))
    requires hz > 0
  {
    var off := h.regs.(enabled := false);
    if !up.first || Setting(pll6, hz).n > 3 then (h.(regs := off), false)
    else (h.(mclk := Setting(pll6, hz), regs := off.(divider := 0, enabled := true)), up.second)
  }

  /** sunxi_mmc_set_ios: clock 0 keeps the clock, a failed clock keeps the width, and so does a width other than
      1, 4 or 8 lanes. */
  function SetIos(h: Host, pll6: nat, hz: nat, lanes: nat, up: Updates): Host {
    var (g, ok) := if hz != 0 then ConfigClock(h, pll6, hz, up) else (h, true);
    if !ok then g.(fatal := true)
    else if Supported(lanes) then g.(regs := g.regs.(lanes := lanes))
    else g
  }

  /** sunxi_mmc_core_init, where the reset leaves `left`. */
  function CoreInit(h: Host, left: Regs): Host {
    h.(fatal := false, regs := left)
  }

  /** What sunxi_mmc_send_cmd returns, where `reply` is what the bus makes of a command that gets there. */
  function Answer(h: Host, index: nat, reply: int): int {
    if h.fatal then -1 else if index == STOP_TRANSMISSION then 0 else reply
  }

  /** What it leaves: a command that fails on the bus resets the controller. */
  function AfterCmd(h: Host, index: nat, reply: int, left: Regs): Host {
    if !h.fatal && index != STOP_TRANSMISSION && reply < 0 then h.(regs := left) else h
  }

  // ----- The imperative form -----

  class SunxiMmc {
    const pll6: nat
    var mclk: ModClk
    var enabled: bool
    var divider: nat
    var lanes: nat
    var fatal: bool

    function State(): Host
      reads this
    {
      Host(mclk, Regs(enabled, divider, lanes), fatal)
    }

    /** sunxi_mmc_probe, which finds the registers of the controller at `found` */
    constructor (pll6: nat, found: Regs)
      ensures State() == Host(Setting(pll6, OSC24M), found, false) && this.pll6 == pll6
    {
      this.pll6, enabled, divider, lanes, fatal := pll6, found.enabled, found.divider, found.lanes, false;
      mclk := ModClk(false, 0, 1);
    }

    /** mmc_set_mod_clk */
    method SetModClk(hz: nat) returns (ok: bool)
      requires hz > 0
      modifies this`mclk
      ensures ok <==> Settable(pll6, hz)
      ensures ok ==> (mclk.usesPll6 <==> hz > 24_000_000) && mclk.n <= 3 && RunsAt(mclk, pll6, hz)
      ensures mclk == if ok then Setting(pll6, hz) else old(mclk)
    {
      SettableExactly(pll6, hz);
      RateIsNotExceeded(pll6, hz);
      var pllHz := if hz <= OSC24M then OSC24M else pll6;
      var div := pllHz / hz;
      if pllHz % hz != 0 {
        div := div + 1;
      }
      var n := 0;
      while div > 16
        invariant div >= 0 && n + Steps(div) == Steps(Divider(pll6, hz)) && Settled(div) == Settled(Divider(pll6, hz))
      {
        n := n + 1;
        div := (div + 1) / 2;
      }
      if n > 3 {
        return false;
      }
      mclk := ModClk(hz > OSC24M, n, div);
      ok := true;
    }

    /** mmc_config_clock */
    method ConfigureClock(hz: nat, up: Updates) returns (ok: bool)
      requires hz > 0
      modifies this`mclk, this`enabled, this`divider
      ensures ok <==> up.first && up.second && Settable(pll6, hz)
      ensures up.first && Settable(pll6, hz) ==> enabled && divider == 0 && mclk == Setting(pll6, hz)
      ensures !up.first || !Settable(pll6, hz) ==> !enabled && divider == old(divider) && mclk == old(mclk)
      ensures (State(), ok) == ConfigClock(old(State()), pll6, hz, up)
    {
      SettableExactly(pll6, hz);
      enabled := false;
      if !up.first {
        return false;
      }
      ok := SetModClk(hz);
      if !ok {
        return false;
      }
      divider := 0;
      enabled := true;
      ok := up.second;
    }

    /** sunxi_mmc_set_ios */
    method SetIoSettings(hz: nat, width: nat, up: Updates)
      modifies this
      ensures hz == 0 ==> fatal == old(fatal) && enabled == old(enabled) && divider == old(divider) && mclk == old(mclk)
      ensures hz != 0 && up.first && up.second && Settable(pll6, hz) ==>
                fatal == old(fatal)
      ensures hz != 0 && !(up.first && up.second && Settable(pll6, hz)) ==> fatal && lanes == old(lanes)
      ensures hz != 0 && !(up.first && Settable(pll6, hz)) ==> !enabled && mclk == old(mclk) && divider == old(divider)
      ensures hz != 0 && up.first && Settable(pll6, hz) ==> enabled && divider == 0 && mclk == Setting(pll6, hz)
      ensures hz == 0 || (up.first && up.second && Settable(pll6, hz)) ==>
                lanes == if width == 1 || width == 4 || width == 8 then width else old(lanes)
      ensures State() == SetIos(old(State()), pll6, hz, width, up)
    {
      if hz != 0 {
        var ok := ConfigureClock(hz, up);
        if !ok {
          fatal := true;
          return;
        }
      }
      if width == 8 || width == 4 || width == 1 {
        lanes := width;
      }
    }

    /** A write of SUNXI_MMC_GCTRL_RESET */
    method ResetController(left: Regs)
      modifies this`enabled, this`divider, this`lanes
      ensures enabled == left.enabled && divider == left.divider && lanes == left.lanes
    {
      enabled, divider, lanes := left.enabled, left.divider, left.lanes;
    }

    /** sunxi_mmc_send_cmd, whose work on the bus ends with `reply` */
    method Send(index: nat, reply: int, left: Regs) returns (result: int)
      modifies this`enabled, this`divider, this`lanes
      ensures old(fatal) ==> result == -1
      ensures !old(fatal) && index == 12 ==> result == 0
      ensures !old(fatal) && index != 12 ==> result == reply
      ensures if !old(fatal) && index != 12 && reply < 0 then
                enabled == left.enabled && divider == left.divider && lanes == left.lanes
              else enabled == old(enabled) && divider == old(divider) && lanes == old(lanes)
      ensures result == Answer(old(State()), index, reply)
      ensures State() == AfterCmd(old(State()), index, reply, left)
    {
      if fatal {
        return -1;
      }
      if index == STOP_TRANSMISSION {
        return 0;
      }
      result := reply;
      if result < 0 {
        ResetController(left);
      }
    }

    /** sunxi_mmc_core_init */
    method Reset(left: Regs)
      modifies this
      ensures !fatal && enabled == left.enabled && divider == left.divider && lanes == left.lanes && mclk == old(mclk)
      ensures State() == CoreInit(old(State()), left)
    {
      fatal := false;
      ResetController(left);
    }
  }
}
