/** The boot decision of main: the checks that run before the bootloader
    starts, each of which may clear `try_boot` and move `timeout`, in the
    order main applies them. */
module Decision {
  import opened Sampling

  /** BOOT_RTC_SIGNATURE: left in the retained RTC register to ask for the
      bootloader on the next reset. */
  const BootRtcSignature: bv32 := 0xb007_b007

  /** The boot-delay signature a build may define: two words read from the
      application flash at `address` and `address + 4`, the expected
      signature words and BOOT_DELAY_MAX in seconds. */
  datatype BootDelay =
    | NoBootDelay
    | BootDelay(address: nat, signature1: bv32, signature2: bv32, maxDelay: nat)

  /** The build configuration main depends on: BOOTLOADER_DELAY, the
      boot-delay signature, the force-bootloader hardware, INTERFACE_USB,
      INTERFACE_USART and BOARD_BOOT_FAIL_DETECT. */
  datatype BootConfig = BootConfig(
    bootloaderDelay: nat,
    bootDelay: BootDelay,
    forcePin: ForcePinMode,
    usb: bool,
    usart: bool,
    failDetect: bool)

  /** The two variables the checks update. */
  datatype Choice = Choice(tryBoot: bool, timeout: nat)

  /** The state main starts the checks from. */
  function Initial(cfg: BootConfig): Choice {
    Choice(true, cfg.bootloaderDelay)
  }

  /** The delay in seconds a first signature word asks for: its low byte. */
  function DelaySeconds(sig1: bv32): (d: nat)
    ensures d < 256
  {
    (sig1 & 0xFF) as nat
  }

  /** A boot delay is honoured when the second word matches, the top 24 bits
      of the first word match, and the requested delay is at most the
      maximum. */
  predicate DelayAccepted(bd: BootDelay, sig1: bv32, sig2: bv32) {
    bd.BootDelay? &&
    sig2 == bd.signature2 &&
    sig1 & 0xFFFF_FF00 == bd.signature1 & 0xFFFF_FF00 &&
    DelaySeconds(sig1) <= bd.maxDelay
  }

  /** The retained-register check: the signature forces the bootloader with
      no timeout. */
  function AfterRtc(c: Choice, rtc: bv32): (r: Choice)
    ensures r.tryBoot ==> c.tryBoot
    ensures rtc == BootRtcSignature ==> !r.tryBoot && r.timeout == 0
    ensures rtc != BootRtcSignature ==> r == c
  {
    if rtc == BootRtcSignature then Choice(false, 0) else c
  }

  /** The boot-delay check: an accepted delay stops the boot and raises the
      timeout to at least the delay, in milliseconds. */
  function AfterBootDelay(c: Choice, bd: BootDelay, sig1: bv32, sig2: bv32): (r: Choice)
    ensures r.tryBoot ==> c.tryBoot
    ensures r.timeout >= c.timeout
    ensures DelayAccepted(bd, sig1, sig2) ==>
      !r.tryBoot && r.timeout >= DelaySeconds(sig1) * 1000 &&
      (r.timeout == c.timeout || r.timeout == DelaySeconds(sig1) * 1000)
    ensures !DelayAccepted(bd, sig1, sig2) ==> r == c
  {
    if DelayAccepted(bd, sig1, sig2) then
      var ms := DelaySeconds(sig1) * 1000;
      Choice(false, if c.timeout < ms then ms else c.timeout)
    else c
  }

  /** The comparison in main's boot-delay block, on the two words read. */
  method ApplyBootDelay(c: Choice, bd: BootDelay, sig1: bv32, sig2: bv32) returns (r: Choice)
    ensures r == AfterBootDelay(c, bd, sig1, sig2)
  {
    r := c;
    if bd.BootDelay? && sig2 == bd.signature2 && sig1 & 0xFFFF_FF00 == bd.signature1 & 0xFFFF_FF00 {
      var bootDelay := DelaySeconds(sig1);
      if bootDelay <= bd.maxDelay {
        assert DelayAccepted(bd, sig1, sig2);
        r := r.(tryBoot := false);
        if r.timeout < bootDelay * 1000 {
          r := r.(timeout := bootDelay * 1000);
        }
      } else {
        assert !DelayAccepted(bd, sig1, sig2);
      }
    } else {
      assert !DelayAccepted(bd, sig1, sig2);
    }
  }

  /** The force-pin, VBUS and break checks: a signal that is present stops
      the boot and leaves the timeout alone. */
  function AfterSignal(c: Choice, present: bool): (r: Choice)
    ensures r.timeout == c.timeout
    ensures r.tryBoot <==> c.tryBoot && !present
  {
    Choice(c.tryBoot && !present, c.timeout)
  }

  /** The force-pin, VBUS and break checks of main, on the samples each
      test takes; the VBUS and break checks only in builds with that
      interface. */
  method CheckSignals(cfg: BootConfig, c: Choice, forceInput: seq<bool>, vbus: bool, breakLine: seq<bool>)
    returns (r: Choice)
    requires |forceInput| == ForcePinSamples(cfg.forcePin)
    requires cfg.usart ==> BreakWindow <= |breakLine|
    ensures r == AfterSignal(AfterSignal(AfterSignal(c, ForcePinAsserted(cfg.forcePin, forceInput)),
                                         cfg.usb && vbus), cfg.usart && BreakSeen(breakLine))
  {
    r := c;
    var forced := TestForcePin(cfg.forcePin, forceInput);
    if forced {
      r := r.(tryBoot := false);
    }
    if cfg.usb && vbus {
      r := r.(tryBoot := false);
    }
    if cfg.usart {
      var brk, consumed := TestReceivingBreak(breakLine);
      if brk {
        r := r.(tryBoot := false);
      }
    }
  }

  /** All the checks, in main's order. `forced` is the force-pin test,
      `vbus` the VBUS pin and `brk` the break test; the last two count only
      when the build has that interface. */
  function Decide(cfg: BootConfig, rtc: bv32, sig1: bv32, sig2: bv32,
                  forced: bool, vbus: bool, brk: bool): Choice
  {
    var c1 := AfterRtc(Initial(cfg), rtc);
    var c2 := AfterBootDelay(c1, cfg.bootDelay, sig1, sig2);
    var c3 := AfterSignal(c2, forced);
    var c4 := AfterSignal(c3, cfg.usb && vbus);
    AfterSignal(c4, cfg.usart && brk)
  }

  /** main tries to boot exactly when no check fired. */
  lemma TryBootIff(cfg: BootConfig, rtc: bv32, sig1: bv32, sig2: bv32,
                   forced: bool, vbus: bool, brk: bool)
    ensures Decide(cfg, rtc, sig1, sig2, forced, vbus, brk).tryBoot <==>
      rtc != BootRtcSignature && !DelayAccepted(cfg.bootDelay, sig1, sig2) &&
      !forced && !(cfg.usb && vbus) && !(cfg.usart && brk)
  {
  }

  /** The timeout the checks leave: BOOTLOADER_DELAY, or 0 after the retained
      signature, raised to the accepted delay if that is longer. */
  lemma TimeoutValue(cfg: BootConfig, rtc: bv32, sig1: bv32, sig2: bv32,
                     forced: bool, vbus: bool, brk: bool)
    ensures var base := if rtc == BootRtcSignature then 0 else cfg.bootloaderDelay;
      var ms := DelaySeconds(sig1) * 1000;
      Decide(cfg, rtc, sig1, sig2, forced, vbus, brk).timeout ==
        if DelayAccepted(cfg.bootDelay, sig1, sig2) && base < ms then ms else base
  {
  }

  /** A delay request above BOOT_DELAY_MAX is ignored altogether: the
      decision is that of a build without a boot-delay signature. */
  lemma OverlongDelayIgnored(cfg: BootConfig, rtc: bv32, sig1: bv32, sig2: bv32,
                             forced: bool, vbus: bool, brk: bool)
    requires cfg.bootDelay.BootDelay? && DelaySeconds(sig1) > cfg.bootDelay.maxDelay
    ensures Decide(cfg, rtc, sig1, sig2, forced, vbus, brk) ==
      Decide(cfg.(bootDelay := NoBootDelay), rtc, sig1, sig2, forced, vbus, brk)
  {
  }

  /** The retained signature makes the bootloader wait for an upload, unless
      an accepted boot delay gives it a timeout. */
  lemma RetainedSignatureHolds(cfg: BootConfig, sig1: bv32, sig2: bv32,
                               forced: bool, vbus: bool, brk: bool)
    ensures var c := Decide(cfg, BootRtcSignature, sig1, sig2, forced, vbus, brk);
      !c.tryBoot &&
      (c.timeout == 0 <==> !DelayAccepted(cfg.bootDelay, sig1, sig2) || DelaySeconds(sig1) == 0)
  {
  }
}
