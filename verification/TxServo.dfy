/**
 The transmit schedule: which frames are sent, when, and with which RTP media time.

 Times are nanoseconds on the NIC clock; `capture` is the absolute capture time of a frame, 0 when it has
 none. Nanosecond values stay far from the ends of 64 bits, so they are modelled as integers.
 */
module TxServo {

  const FIXED_SKIP_FLOOR := 2_000_000
  const MIN_BACK_OFF := 4_000_000
  const TRIM_ARM := 512
  const TRIM_ARM_MAX := 8192
  const STREAK_CAP := 32
  const WINDOW := 64

  /** `tgt` is the re-anchor lead, `trim` the largest slew per frame, `fixedL` the fixed latency (0 is off). */
  datatype Config = Config(tgt: nat, trim: nat, interval: nat, fixedL: nat, horizon: nat)

  datatype Frame = Frame(capture: nat, now: nat)

  datatype Servo = Servo(
    offset: int, streak: nat, winCount: nat, winSkips: nat, winSkipsPrev: nat, sinceSkip: nat, trimArm: nat,
    shaved: int, trimTotal: int, base: int, media: int, genlocked: bool)

  const INIT := Servo(0, 0, 0, 0, 0, 0, TRIM_ARM, 0, 0, 0, 0, false)

  /**
   What one frame leads to. A skipped frame may give back trimmed latency; a sent one has a wire time
   `base` and an RTP media time, and may set the offset anew or shave it.
   */
  datatype Outcome =
    | Skipped(backOff: nat)
    | Sent(base: int, media: int, anchored: bool, shave: nat)

  function Max(a: int, b: int): int {
    if a > b then a else b
  }

  function Min(a: int, b: int): int {
    if a < b then a else b
  }

  /** Signed division as the compiler does it, towards zero. */
  function TruncDiv(a: int, b: int): int
    requires b > 0
  {
    if a >= 0 then a / b else -(-a / b)
  }

  // ----- One frame -----

  /** The servo ready to judge a genlocked frame: calibrated, and its skip window rotated. */
  function Prepared(cfg: Config, s: Servo, f: Frame): Servo {
    var c := if s.offset == 0 then s.(offset := f.now + cfg.tgt - f.capture) else s;
    if s.winCount + 1 >= WINDOW then c.(winSkipsPrev := s.winSkips, winSkips := 0, winCount := 0)
    else c.(winCount := s.winCount + 1)
  }

  /** The lead of a frame at the offset in force, before any correction. */
  function RawLead(p: Servo, f: Frame): int {
    f.capture + p.offset - f.now
  }

  predicate Chronic(p: Servo) {
    p.winSkips + p.winSkipsPrev > 32
  }

  predicate TrimArmed(cfg: Config, p: Servo) {
    cfg.trim > 0 && p.sinceSkip > p.trimArm
  }

  predicate SkipsLate(cfg: Config, p: Servo, lead: int) {
    lead < cfg.tgt / 4 && p.streak < STREAK_CAP && !Chronic(p)
  }

  function BackOff(cfg: Config, p: Servo, lead: int): nat {
    if !TrimArmed(cfg, p) then 0
    else Max(2 * cfg.tgt - lead, Max(TruncDiv(p.shaved, 2), MIN_BACK_OFF))
  }

  function SkipFrame(cfg: Config, p: Servo, lead: int): Servo {
    var back := BackOff(cfg, p, lead);
    var b := if back == 0 then p
             else p.(offset := p.offset + back, trimTotal := p.trimTotal - back, shaved := 0,
                     trimArm := Min(p.trimArm * 2, TRIM_ARM_MAX));
    b.(streak := p.streak + 1, sinceSkip := 0,
       winSkips := if lead + cfg.interval > 0 then p.winSkips + 1 else p.winSkips,
       media := if p.media != 0 then p.media + cfg.interval else 0)
  }

  predicate Reanchors(cfg: Config, lead: int) {
    lead < cfg.tgt / 4 || lead > 2 * cfg.interval
  }

  function Shave(cfg: Config, p: Servo, lead: int): nat {
    if !Reanchors(cfg, lead) && TrimArmed(cfg, p) then cfg.trim else 0
  }

  /** The servo once a genlocked frame has its wire time. */
  function SendGenlocked(cfg: Config, p: Servo, f: Frame): Servo {
    var lead := RawLead(p, f);
    if Reanchors(cfg, lead) then
      p.(offset := f.now + cfg.tgt - f.capture, base := f.now + cfg.tgt,
         winSkips := 0, winSkipsPrev := 0, winCount := 0, sinceSkip := 1, trimArm := TRIM_ARM, shaved := 0,
         streak := 0, genlocked := true)
    else
      var shave := Shave(cfg, p, lead);
      p.(offset := p.offset - shave, base := f.capture + p.offset - shave,
         trimTotal := p.trimTotal + shave, shaved := p.shaved + shave, sinceSkip := p.sinceSkip + 1,
         streak := 0, genlocked := true)
  }

  /** The servo for a frame without a capture time: a bounded-lead servo on the NIC clock. */
  function SendFallback(cfg: Config, s: Servo, f: Frame): Servo {
    var err := f.now + cfg.tgt - s.base;
    var resync := s.base != 0 && (err > cfg.interval || err + cfg.interval < 0);
    var base := if s.base == 0 || resync then f.now + cfg.tgt else s.base + TruncDiv(err, 8);
    s.(base := base, genlocked := false)
  }

  /** The legacy grid, used when no re-anchor lead is configured. */
  function SendLegacy(cfg: Config, s: Servo, f: Frame): Servo {
    var stalled := f.now > s.base + cfg.interval;
    var base := if s.base == 0 || stalled then f.now + cfg.horizon else s.base;
    s.(base := base, genlocked := false)
  }

  predicate FixedActive(cfg: Config, f: Frame) {
    cfg.fixedL > 0 && f.capture != 0
  }

  predicate Genlocks(cfg: Config, f: Frame) {
    !FixedActive(cfg, f) && cfg.tgt > 0 && f.capture != 0
  }

  function Clamp(skew: int, lim: int): int {
    if skew > lim then lim else if skew < -lim then -lim else skew
  }

  /** Stamp a frame whose wire time is set, and move the schedule and the media clock on by one frame. */
  function Finish(cfg: Config, s: Servo, fixedActive: bool, anchored: bool, shave: nat): (Servo, Outcome) {
    if fixedActive then
      (s.(base := s.base + cfg.interval), Sent(s.base, s.base, anchored, shave))
    else
      var media := if s.media == 0 then s.base else s.media;
      var adj := if s.genlocked && cfg.trim > 0 then Clamp(s.base - media, cfg.trim) else 0;
      (s.(media := media + cfg.interval + adj, base := s.base + cfg.interval),
       Sent(s.base, media, anchored, shave))
  }

  function StepFixed(cfg: Config, s: Servo, f: Frame): (Servo, Outcome) {
    var lead := f.capture + cfg.fixedL - f.now;
    if lead < FIXED_SKIP_FLOOR then (s, Skipped(0))
    else
      Finish(cfg, s.(base := f.capture + cfg.fixedL, offset := cfg.fixedL, genlocked := true), true, false, 0)
  }

  function StepGenlock(cfg: Config, s: Servo, f: Frame): (Servo, Outcome) {
    var p := Prepared(cfg, s, f);
    var lead := RawLead(p, f);
    if SkipsLate(cfg, p, lead) then (SkipFrame(cfg, p, lead), Skipped(BackOff(cfg, p, lead)))
    else Finish(cfg, SendGenlocked(cfg, p, f), false, s.offset == 0 || Reanchors(cfg, lead), Shave(cfg, p, lead))
  }

  function Step(cfg: Config, s: Servo, f: Frame): (Servo, Outcome) {
    if FixedActive(cfg, f) then StepFixed(cfg, s, f)
    else if Genlocks(cfg, f) then StepGenlock(cfg, s, f)
    else if cfg.tgt > 0 then Finish(cfg, SendFallback(cfg, s, f), false, false, 0)
    else Finish(cfg, SendLegacy(cfg, s, f), false, false, 0)
  }

  // ----- The operator's own form -----

  class TxSchedule {
    const cfg: Config
    var offset: int
    var streak: nat
    var winCount: nat
    var winSkips: nat
    var winSkipsPrev: nat
    var sinceSkip: nat
    var trimArm: nat
    var shaved: int
    var trimTotal: int
    var base: int
    var media: int
    var genlocked: bool

    function State(): Servo
      reads this
    {
      Servo(offset, streak, winCount, winSkips, winSkipsPrev, sinceSkip, trimArm, shaved, trimTotal,
            base, media, genlocked)
    }

    constructor (cfg: Config)
      ensures this.cfg == cfg && State() == INIT
    {
      this.cfg := cfg;
      offset, streak, winCount, winSkips, winSkipsPrev, sinceSkip, trimArm := 0, 0, 0, 0, 0, 0, TRIM_ARM;
      shaved, trimTotal, base, media, genlocked := 0, 0, 0, 0, false;
    }

    /** Schedule one received frame; the packets of a sent frame are paced from its base. */
    method Compute(capture: nat, now: nat) returns (out: Outcome)
      modifies this
      ensures (State(), out) == Step(cfg, old(State()), Frame(capture, now))
    {
      var fixedActive := cfg.fixedL > 0 && capture != 0;
      var anchored, shave := false, 0;
      if fixedActive {
        var gbase := capture + cfg.fixedL;
        var gap := gbase - now;
        if gap < FIXED_SKIP_FLOOR {
          return Skipped(0);
        }
        base, offset, genlocked := gbase, cfg.fixedL, true;
      } else if cfg.tgt > 0 && capture != 0 {
        var skip, back;
        skip, back, anchored, shave := Genlock(capture, now);
        if skip { return Skipped(back); }
      } else if cfg.tgt > 0 {
        Fallback(now);
      } else {
        if base == 0 || now > base + cfg.interval {
          base := now + cfg.horizon;
        }
        genlocked := false;
      }
      out := Stamp(fixedActive, anchored, shave);
    }

    /** The genlock branch: skip a late frame, or set the base from the capture time and the offset. */
    method Genlock(capture: nat, now: nat) returns (skip: bool, back: nat, anchored: bool, shave: nat)
      modifies this
      ensures var f := Frame(capture, now);
        var p := Prepared(cfg, old(State()), f);
        var lead := RawLead(p, f);
        && skip == SkipsLate(cfg, p, lead)
        && (skip ==> State() == SkipFrame(cfg, p, lead) && back == BackOff(cfg, p, lead))
        && (!skip ==> State() == SendGenlocked(cfg, p, f) && shave == Shave(cfg, p, lead)
                      && anchored == (old(offset) == 0 || Reanchors(cfg, lead)))
    {
      back, shave, anchored := 0, 0, offset == 0;
      if offset == 0 { offset := now + cfg.tgt - capture; }
      var gbase := capture + offset;
      var lead := gbase - now;
      winCount := winCount + 1;
      if winCount >= WINDOW {
        winSkipsPrev, winSkips, winCount := winSkips, 0, 0;
      }
      var chronicClip := winSkips + winSkipsPrev > 32;
      skip := lead < cfg.tgt / 4 && streak < STREAK_CAP && !chronicClip;
      assert State() == Prepared(cfg, old(State()), Frame(capture, now));
      if skip {
        back := SkipLate(lead);
      } else {
        anchored := anchored || lead < cfg.tgt / 4 || lead > 2 * cfg.interval;
        shave := SetBase(capture, now, gbase, lead);
      }
    }

    /** Send a frame: re-centre its lead if it is out of the band, or shave an armed trim step off it. */
    method SetBase(capture: nat, now: nat, gbase: int, lead: int) returns (shave: nat)
      requires gbase == capture + offset && lead == gbase - now
      modifies this
      ensures State() == SendGenlocked(cfg, old(State()), Frame(capture, now))
      ensures shave == Shave(cfg, old(State()), lead)
    {
      shave := 0;
      if lead < cfg.tgt / 4 || lead > 2 * cfg.interval {
        offset, base := now + cfg.tgt - capture, now + cfg.tgt;
        winSkips, winSkipsPrev, winCount := 0, 0, 0;
        sinceSkip, trimArm, shaved := 0, TRIM_ARM, 0;
      } else {
        if cfg.trim > 0 && sinceSkip > trimArm {
          shave := cfg.trim;
        }
        offset, base := offset - shave, gbase - shave;
        trimTotal, shaved := trimTotal + shave, shaved + shave;
      }
      sinceSkip, streak, genlocked := sinceSkip + 1, 0, true;
    }

    /** Skip a late frame, and back off if it is the one that shows the trim has reached the floor. */
    method SkipLate(lead: int) returns (back: nat)
      modifies this
      ensures State() == SkipFrame(cfg, old(State()), lead) && back == BackOff(cfg, old(State()), lead)
    {
      ghost var p := State();
      back := 0;
      if cfg.trim > 0 && sinceSkip > trimArm {
        back := Max(2 * cfg.tgt - lead, Max(TruncDiv(shaved, 2), MIN_BACK_OFF));
        offset, trimTotal, shaved := offset + back, trimTotal - back, 0;
        trimArm := Min(trimArm * 2, TRIM_ARM_MAX);
      }
      assert back == BackOff(cfg, p, lead);
      streak, sinceSkip := streak + 1, 0;
      winSkips := if lead + cfg.interval > 0 then winSkips + 1 else winSkips;
      media := if media != 0 then media + cfg.interval else 0;
    }

    /** The branch for a frame without a capture time. */
    method Fallback(now: nat)
      modifies this
      ensures State() == SendFallback(cfg, old(State()), Frame(0, now))
    {
      if base == 0 {
        base := now + cfg.tgt;
      } else {
        var interval: int := cfg.interval;
        var err := now + cfg.tgt - base;
        if err > interval || err < -interval {
          base := now + cfg.tgt;
        } else {
          base := base + TruncDiv(err, 8);
        }
      }
      genlocked := false;
    }

    /** The RTP media time of a sent frame, and the clocks moved on by one frame. */
    method Stamp(fixedActive: bool, anchored: bool, shave: nat) returns (out: Outcome)
      modifies this
      ensures (State(), out) == Finish(cfg, old(State()), fixedActive, anchored, shave)
    {
      var stamp := base;
      if !fixedActive {
        if media == 0 { media := base; }
        stamp := media;
        var mediaAdj := 0;
        if genlocked && cfg.trim > 0 {
          var skew := base - media;
          var lim: int := cfg.trim;
          mediaAdj := if skew > lim then lim else if skew < -lim then -lim else skew;
        }
        media := media + cfg.interval + mediaAdj;
      }
      out := Sent(base, stamp, anchored, shave);
      base := base + cfg.interval;
    }
  }
}
