/** The RTP media clock of the adaptive mode: it never steps back, and it follows the wire at the trim rate. */
module MediaClock {
  import opened Arithmetic
  import opened TxServo
  import opened ServoRuns
  import opened RtpTime

  /** One frame moves a running media clock by one interval, give or take the trim. */
  lemma {:induction false} MediaStep(cfg: Config, s: Servo, f: Frame)
    requires cfg.fixedL == 0 && cfg.trim < cfg.interval && s.media > 0
    ensures var (s', out) := Step(cfg, s, f);
            && cfg.interval - cfg.trim <= s'.media - s.media <= cfg.interval + cfg.trim
            && (out.Sent? ==> out.media == s.media)
  {
  }

  /** The least and the most that a running media clock moves in one frame. */
  function Least(cfg: Config): int {
    cfg.interval - cfg.trim
  }

  function Most(cfg: Config): int {
    cfg.interval + cfg.trim
  }

  lemma {:induction false} MediaAdvance(cfg: Config, s: Servo, frames: seq<Frame>, least: int, most: int)
    requires cfg.fixedL == 0 && cfg.trim < cfg.interval && s.media > 0
    requires least == Least(cfg) && most == Most(cfg)
    ensures |frames| * least <= Run(cfg, s, frames).0.media - s.media <= |frames| * most
    ensures Run(cfg, s, frames).0.media > 0
  {
    if frames != [] {
      var n := |frames| - 1;
      MediaAdvance(cfg, s, frames[..n], least, most);
      OneMore(n, least);
      OneMore(n, most);
      MediaStep(cfg, Run(cfg, s, frames[..n]).0, frames[n]);
    }
  }

  lemma {:induction false} OneMore(n: nat, k: int)
    requires k >= 0
    ensures n * k >= 0 && (n + 1) * k == n * k + k
  {
  }

  /** A NIC clock further from its zero than one trim step. */
  ghost predicate ClockRuns(cfg: Config, frames: seq<Frame>) {
    forall i :: 0 <= i < |frames| ==> frames[i].now > cfg.trim
  }

  /** No wire time falls before the zero of the clock, and none of a sent frame is zero. */
  lemma {:induction false} WireStep(cfg: Config, s: Servo, f: Frame)
    requires cfg.fixedL == 0 && s.base >= 0 && f.now > cfg.trim
    ensures var (s', out) := Step(cfg, s, f);
            s'.base >= 0 && (out.Sent? ==> out.base > 0)
  {
  }

  /** A media clock that has started runs on, and one that has not starts on the wire time of the next sent frame. */
  lemma {:induction false} MediaRuns(cfg: Config, s: Servo, f: Frame)
    requires cfg.fixedL == 0 && cfg.trim < cfg.interval && f.now > cfg.trim
    requires s.media >= 0 && s.base >= 0
    ensures var (s', out) := Step(cfg, s, f);
            && s'.media >= 0 && s'.base >= 0
            && (out.Sent? ==> out.media == (if s.media == 0 then out.base else s.media) && out.media > 0
                              && Least(cfg) <= s'.media - out.media <= Most(cfg))
  {
    WireStep(cfg, s, f);
    if s.media > 0 {
      MediaStep(cfg, s, f);
    } else if Step(cfg, s, f).1.Sent? {
      MediaStarts(cfg, s, f);
    }
  }

  lemma {:induction false} MediaRunsOn(cfg: Config, s: Servo, frames: seq<Frame>, i: nat)
    requires cfg.fixedL == 0 && cfg.trim < cfg.interval && ClockRuns(cfg, frames) && i <= |frames|
    requires s.media >= 0 && s.base >= 0
    ensures Before(cfg, s, frames, i).media >= 0 && Before(cfg, s, frames, i).base >= 0
  {
    if i > 0 {
      MediaRunsOn(cfg, s, frames, i - 1);
      assert frames[..i][..i - 1] == frames[..i - 1];
      MediaRuns(cfg, Before(cfg, s, frames, i - 1), frames[i - 1]);
    }
  }

  /**
   From a start with no media clock, or with one that runs: across any mix of sends, skips, trims and
   re-anchors, two sent frames `j - i` frames apart have media times between `j - i` intervals less trims and
   `j - i` intervals plus trims apart, so the clock strictly increases.
   */
  lemma {:induction false} MediaStrictlyIncreases(cfg: Config, s: Servo, frames: seq<Frame>, i: nat, j: nat)
    requires cfg.fixedL == 0 && cfg.trim < cfg.interval && ClockRuns(cfg, frames)
    requires s.media >= 0 && s.base >= 0
    requires i < j < |frames|
    requires Run(cfg, s, frames).1[i].Sent? && Run(cfg, s, frames).1[j].Sent?
    ensures var d := Run(cfg, s, frames).1[j].media - Run(cfg, s, frames).1[i].media;
            d > 0 && (j - i) * Least(cfg) <= d <= (j - i) * Most(cfg)
  {
    var after := AfterSent(cfg, s, frames, i);
    MediaBetween(cfg, s, frames, i + 1, j);
    OutcomeAt(cfg, s, frames, j);
    MediaStep(cfg, Before(cfg, s, frames, j), frames[j]);
    OneMore(j - i - 1, Least(cfg));
    OneMore(j - i - 1, Most(cfg));
  }

  /** The media clock after a sent frame is past that frame's media time by one interval, give or take the trim. */
  lemma {:induction false} AfterSent(cfg: Config, s: Servo, frames: seq<Frame>, i: nat) returns (after: Servo)
    requires cfg.fixedL == 0 && cfg.trim < cfg.interval && ClockRuns(cfg, frames)
    requires s.media >= 0 && s.base >= 0
    requires i < |frames| && Run(cfg, s, frames).1[i].Sent?
    ensures after == Before(cfg, s, frames, i + 1)
    ensures Run(cfg, s, frames).1[i].media > 0
    ensures Least(cfg) <= after.media - Run(cfg, s, frames).1[i].media <= Most(cfg)
  {
    OutcomeAt(cfg, s, frames, i);
    MediaRunsOn(cfg, s, frames, i);
    MediaRuns(cfg, Before(cfg, s, frames, i), frames[i]);
    after := Before(cfg, s, frames, i + 1);
    assert frames[..i + 1][..i] == frames[..i];
  }

  /** A running media clock, read at two frames of a run. */
  lemma {:induction false} MediaBetween(cfg: Config, s: Servo, frames: seq<Frame>, i: nat, j: nat)
    requires cfg.fixedL == 0 && cfg.trim < cfg.interval && i <= j <= |frames|
    requires Before(cfg, s, frames, i).media > 0
    ensures Before(cfg, s, frames, j).media > 0
    ensures var d := Before(cfg, s, frames, j).media - Before(cfg, s, frames, i).media;
            (j - i) * Least(cfg) <= d <= (j - i) * Most(cfg)
  {
    RunFrom(cfg, s, frames[..j], i);
    assert frames[..j][..i] == frames[..i] && frames[..j][i..] == frames[i..j];
    MediaAdvance(cfg, Before(cfg, s, frames, i), frames[i..j], Least(cfg), Most(cfg));
  }

  /** A run is the run of its first `k` frames followed by the run of the rest. */
  lemma {:induction false} RunFrom(cfg: Config, s: Servo, frames: seq<Frame>, k: nat)
    requires k <= |frames|
    ensures Run(cfg, s, frames).0 == Run(cfg, Before(cfg, s, frames, k), frames[k..]).0
  {
    if k == |frames| {
      assert frames[..k] == frames;
    } else {
      var n := |frames| - 1;
      RunFrom(cfg, s, frames[..n], k);
      RunLast(cfg, s, frames);
      RunLast(cfg, Before(cfg, s, frames, k), frames[k..]);
      assert frames[..n][..k] == frames[..k] && frames[..n][k..] == frames[k..][..n - k];
    }
  }

  lemma {:induction false} RunLast(cfg: Config, s: Servo, frames: seq<Frame>)
    requires frames != []
    ensures Run(cfg, s, frames).0 == Step(cfg, Run(cfg, s, frames[..|frames| - 1]).0, frames[|frames| - 1]).0
  {
  }

  /** The first frame sent starts the media clock on its own wire time. */
  lemma {:induction false} MediaStarts(cfg: Config, s: Servo, f: Frame)
    requires cfg.fixedL == 0 && s.media == 0 && Step(cfg, s, f).1.Sent?
    ensures var (s', out) := Step(cfg, s, f);
            out.media == out.base && s'.media == out.base + cfg.interval
  {
  }

  /** A frame that is not genlocked moves a running media clock by exactly one interval. */
  lemma {:induction false} MediaUnslewed(cfg: Config, s: Servo, f: Frame)
    requires cfg.fixedL == 0 && s.media != 0 && (cfg.tgt == 0 || f.capture == 0)
    ensures Step(cfg, s, f).0.media == s.media + cfg.interval && Step(cfg, s, f).1.media == s.media
  {
  }

  /** Where the interval less the trim is a tick of the 90 kHz clock or more, the stamps move on too. */
  lemma {:induction false} StampsAdvance(a: nat, b: nat)
    requires b - a >= 11112
    ensures Ticks(a, 90000) < Ticks(b, 90000)
  {
  }

  // ----- The slew towards the wire -----

  /** `d` moved towards zero by at most `t`, without overshoot. */
  function Shrink(d: int, t: nat): int {
    if d > t then d - t else if d + t < 0 then d + t else 0
  }

  lemma {:induction false} SlewStep(cfg: Config, s: Servo, f: Frame)
    requires cfg.fixedL == 0 && cfg.tgt > 0 && cfg.trim > 0 && f.capture != 0 && s.media != 0
    requires Step(cfg, s, f).1.Sent?
    ensures var (s', out) := Step(cfg, s, f);
            out.base + cfg.interval - s'.media == Shrink(out.base - s.media, cfg.trim)
  {
  }

  /**
   While the wire time advances by exactly one interval per frame, the distance of the media clock to it
   shrinks by up to the trim each frame and never changes sign.
   */
  lemma {:induction false} SlewConverges(cfg: Config, s: Servo, frames: seq<Frame>, base: int)
    requires Genlocked(cfg, frames) && 0 < cfg.trim < cfg.interval && s.media > 0
    requires Steady(cfg, s, frames, base)
    ensures base + |frames| * cfg.interval - Run(cfg, s, frames).0.media == Shrink(base - s.media, |frames| * cfg.trim)
  {
    if frames != [] {
      var n := |frames| - 1;
      assert forall i :: 0 <= i < n ==> Run(cfg, s, frames[..n]).1[i] == Run(cfg, s, frames).1[i];
      SlewConverges(cfg, s, frames[..n], base);
      MediaAdvance(cfg, s, frames[..n], Least(cfg), Most(cfg));
      assert Run(cfg, s, frames).1[n].Sent? && frames[n].capture != 0;
      SlewStep(cfg, Run(cfg, s, frames[..n]).0, frames[n]);
      OneMore(n, cfg.trim);
      OneMore(n, cfg.interval);
      ShrinkTwice(base - s.media, n * cfg.trim, cfg.trim);
    }
  }

  /** Every frame of the run is sent, and its wire time is one interval after that of the frame before. */
  ghost predicate Steady(cfg: Config, s: Servo, frames: seq<Frame>, base: int) {
    forall i :: 0 <= i < |frames| ==>
      Run(cfg, s, frames).1[i].Sent? && Run(cfg, s, frames).1[i].base == base + i * cfg.interval
  }

  lemma {:induction false} ShrinkTwice(d: int, a: nat, b: nat)
    ensures Shrink(Shrink(d, a), b) == Shrink(d, a + b)
  {
  }

  /**
   While the wire time advances by exactly one interval per frame, the media clock is on it after these frames if
   and only if there were `ceil(distance / trim)` of them.
   */
  lemma {:induction false} MediaOnWireExactlyWhen(cfg: Config, s: Servo, frames: seq<Frame>, base: int)
    requires Genlocked(cfg, frames) && 0 < cfg.trim < cfg.interval && s.media > 0
    requires Steady(cfg, s, frames, base)
    ensures Run(cfg, s, frames).0.media == base + |frames| * cfg.interval
       <==> |frames| >= Quotient(Distance(base - s.media) + cfg.trim - 1, cfg.trim)
  {
    SlewConverges(cfg, s, frames, base);
    SlewTime(base - s.media, cfg.trim, |frames|);
  }

  lemma {:induction false} SlewTime(d: int, trim: nat, n: nat)
    requires trim > 0
    ensures Shrink(d, n * trim) == 0 <==> n >= Quotient(Distance(d) + trim - 1, trim)
  {
    var k := Quotient(Distance(d) + trim - 1, trim);
    QuotientBounds(Distance(d) + trim - 1, trim);
    if n >= k {
      MulMono(k, n, trim);
    } else {
      MulMono(n + 1, k, trim);
      Distribute(n, 1, trim);
    }
  }

  function Distance(d: int): nat {
    if d < 0 then -d else d
  }
}
