/** What the transmit schedule keeps over whole runs of frames. */
module ServoRuns {
  import opened TxServo

  /** The servo and the outcomes after a run of frames. */
  function Run(cfg: Config, s: Servo, frames: seq<Frame>): (r: (Servo, seq<Outcome>))
    ensures |r.1| == |frames|
  {
    if frames == [] then (s, [])
    else
      var (s1, outs) := Run(cfg, s, frames[..|frames| - 1]);
      var (s2, out) := Step(cfg, s1, frames[|frames| - 1]);
      (s2, outs + [out])
  }

  /** The servo just before frame `i` of a run. */
  function Before(cfg: Config, s: Servo, frames: seq<Frame>, i: nat): Servo
    requires i <= |frames|
  {
    Run(cfg, s, frames[..i]).0
  }

  lemma {:induction false} OutcomeAt(cfg: Config, s: Servo, frames: seq<Frame>, i: nat)
    requires i < |frames|
    ensures Step(cfg, Before(cfg, s, frames, i), frames[i]) == (Before(cfg, s, frames, i + 1), Run(cfg, s, frames).1[i])
  {
    var n := |frames| - 1;
    if i == n {
      assert frames[..i + 1] == frames && frames[..i + 1][..i] == frames[..n];
    } else {
      OutcomeAt(cfg, s, frames[..n], i);
      assert frames[..n][..i] == frames[..i] && frames[..n][..i + 1] == frames[..i + 1];
    }
  }

  /** The adaptive mode in which every frame carries a capture time. */
  ghost predicate Genlocked(cfg: Config, frames: seq<Frame>) {
    cfg.fixedL == 0 && cfg.tgt > 0 && forall i :: 0 <= i < |frames| ==> frames[i].capture != 0
  }

  // ----- The invariant -----

  ghost predicate Inv(s: Servo) {
    && s.streak <= 32
    && s.winSkips + s.winSkipsPrev <= 33
    && s.winCount < 64
    && 512 <= s.trimArm <= 8192
    && s.shaved >= 0
  }

  lemma {:induction false} InvStep(cfg: Config, s: Servo, f: Frame)
    requires Inv(s)
    ensures Inv(Step(cfg, s, f).0)
  {
  }

  /** The two skip buckets never sum above 33, nor does the streak pass 32, in any mode and over any run. */
  lemma {:induction false} InvRun(cfg: Config, s: Servo, frames: seq<Frame>)
    requires Inv(s)
    ensures Inv(Run(cfg, s, frames).0)
  {
    if frames != [] {
      InvRun(cfg, s, frames[..|frames| - 1]);
      InvStep(cfg, Run(cfg, s, frames[..|frames| - 1]).0, frames[|frames| - 1]);
    }
  }

  // ----- Liveness: no long blackout -----

  lemma {:induction false} TrailingSkipsCount(cfg: Config, s: Servo, frames: seq<Frame>, m: nat)
    requires Genlocked(cfg, frames) && m <= |frames|
    requires forall i :: |frames| - m <= i < |frames| ==> Run(cfg, s, frames).1[i].Skipped?
    ensures Run(cfg, s, frames).0.streak >= m
  {
    if m > 0 {
      var n := |frames| - 1;
      var outs := Run(cfg, s, frames[..n]).1;
      assert forall i :: n - (m - 1) <= i < n ==> outs[i] == Run(cfg, s, frames).1[i];
      assert Run(cfg, s, frames).1[n].Skipped? && frames[n].capture != 0;
      TrailingSkipsCount(cfg, s, frames[..n], m - 1);
    }
  }

  lemma {:induction false} RunPrefix(cfg: Config, s: Servo, frames: seq<Frame>, n: nat)
    requires n <= |frames|
    ensures Run(cfg, s, frames[..n]).1 == Run(cfg, s, frames).1[..n]
  {
    if n < |frames| {
      var k := |frames| - 1;
      assert frames[..k][..n] == frames[..n];
      RunPrefix(cfg, s, frames[..k], n);
    } else {
      assert frames[..n] == frames;
    }
  }

  /** Of any 33 consecutive genlocked frames at least one is sent. */
  lemma {:induction false} EveryWindowSends(cfg: Config, s: Servo, frames: seq<Frame>, i: nat)
    requires Genlocked(cfg, frames) && Inv(s) && i + 33 <= |frames|
    ensures exists j :: i <= j < i + 33 && Run(cfg, s, frames).1[j].Sent?
  {
    var n := i + 33;
    if forall j :: i <= j < n ==> Run(cfg, s, frames).1[j].Skipped? {
      RunPrefix(cfg, s, frames, n);
      TrailingSkipsCount(cfg, s, frames[..n], 33);
      InvRun(cfg, s, frames[..n]);
    }
  }

  // ----- Safety: the lead of a sent frame -----

  lemma {:induction false} SentLead(cfg: Config, s: Servo, f: Frame)
    requires Genlocked(cfg, [f]) && Inv(s) && Step(cfg, s, f).1.Sent?
    ensures cfg.tgt / 4 - cfg.trim <= Step(cfg, s, f).1.base - f.now <= Max(2 * cfg.interval, cfg.tgt)
  {
    assert [f][0] == f;
  }

  /** Every frame sent in a genlocked run is on the wire within the band around the re-anchor lead. */
  lemma {:induction false} RunSentLead(cfg: Config, s: Servo, frames: seq<Frame>, i: nat)
    requires Genlocked(cfg, frames) && Inv(s) && i < |frames| && Run(cfg, s, frames).1[i].Sent?
    ensures cfg.tgt / 4 - cfg.trim <= Run(cfg, s, frames).1[i].base - frames[i].now <= Max(2 * cfg.interval, cfg.tgt)
  {
    OutcomeAt(cfg, s, frames, i);
    InvRun(cfg, s, frames[..i]);
    SentLead(cfg, Before(cfg, s, frames, i), frames[i]);
  }

  /** A frame without a capture time goes out within one interval of the re-anchor lead. */
  lemma {:induction false} FallbackLead(cfg: Config, s: Servo, f: Frame)
    requires cfg.tgt > 0 && f.capture == 0
    ensures var out := Step(cfg, s, f).1;
            out.Sent? && f.now + cfg.tgt - cfg.interval <= out.base <= f.now + cfg.tgt + cfg.interval
  {
  }

  // ----- Conservation: the offset and the trim account -----

  /** Latency taken out of the offset by one frame: what it shaves less what it gives back. */
  function NetTrim(out: Outcome): int {
    match out
    case Skipped(backOff) => -(backOff as int)
    case Sent(_, _, _, shave) => shave
  }

  function NetTrims(outs: seq<Outcome>): int {
    if outs == [] then 0 else NetTrims(outs[..|outs| - 1]) + NetTrim(outs[|outs| - 1])
  }

  /** The account of trimmed latency is exactly the shaves less the back-offs of the run, in any mode. */
  lemma {:induction false} TrimConserved(cfg: Config, s: Servo, frames: seq<Frame>)
    ensures Run(cfg, s, frames).0.trimTotal == s.trimTotal + NetTrims(Run(cfg, s, frames).1)
  {
    if frames != [] {
      var n := |frames| - 1;
      TrimConserved(cfg, s, frames[..n]);
      TrimStep(cfg, Run(cfg, s, frames[..n]).0, frames[n]);
    }
  }

  lemma {:induction false} TrimStep(cfg: Config, s: Servo, f: Frame)
    ensures Step(cfg, s, f).0.trimTotal == s.trimTotal + NetTrim(Step(cfg, s, f).1)
  {
  }

  /**
   The offset is the one at which frame `k` was anchored, less the net trim since. The anchoring frame is
   sent at the re-anchor lead over its own clock reading, less what it shaves itself.
   */
  lemma {:induction false} OffsetSinceAnchor(cfg: Config, s: Servo, frames: seq<Frame>, k: nat)
    requires Genlocked(cfg, frames) && k < |frames|
    requires Anchors(Run(cfg, s, frames).1[k])
    requires forall i :: k < i < |frames| ==> !Anchors(Run(cfg, s, frames).1[i])
    ensures Run(cfg, s, frames).0.offset
         == frames[k].now + cfg.tgt - frames[k].capture - NetTrims(Run(cfg, s, frames).1[k..])
  {
    var n, outs := |frames|, Run(cfg, s, frames).1;
    var offsets := seq(n + 1, i requires 0 <= i <= n => Before(cfg, s, frames, i).offset);
    var anchors := seq(n, i requires 0 <= i < n => frames[i].now + cfg.tgt - frames[i].capture);
    forall i | 0 <= i < n
      ensures offsets[i + 1] == OffsetAfter(offsets[i], anchors[i], outs[i])
    {
      OutcomeAt(cfg, s, frames, i);
      OffsetStep(cfg, Before(cfg, s, frames, i), frames[i]);
    }
    OffsetTrace(offsets, anchors, outs, k, n);
    assert outs[k..n] == outs[k..] && frames[..n] == frames;
  }

  function OffsetAfter(offset: int, anchor: int, out: Outcome): int {
    (if Anchors(out) then anchor else offset) - NetTrim(out)
  }

  /** Offsets that follow their outcomes, from the last anchor on. */
  lemma {:induction false} OffsetTrace(offsets: seq<int>, anchors: seq<int>, outs: seq<Outcome>, k: nat, n: nat)
    requires k < n <= |outs| == |anchors| && |offsets| == |outs| + 1
    requires forall i :: 0 <= i < |outs| ==> offsets[i + 1] == OffsetAfter(offsets[i], anchors[i], outs[i])
    requires Anchors(outs[k]) && forall i :: k < i < |outs| ==> !Anchors(outs[i])
    ensures offsets[n] == anchors[k] - NetTrims(outs[k..n])
  {
    var last := n - 1;
    assert outs[k..n][..last - k] == outs[k..last] && outs[k..n][last - k] == outs[last];
    assert offsets[last + 1] == OffsetAfter(offsets[last], anchors[last], outs[last]);
    if k < last {
      OffsetTrace(offsets, anchors, outs, k, last);
    } else {
      assert outs[k..last] == [];
    }
  }

  predicate Anchors(out: Outcome) {
    out.Sent? && out.anchored
  }

  lemma {:induction false} OffsetStep(cfg: Config, s: Servo, f: Frame)
    requires cfg.fixedL == 0 && cfg.tgt > 0 && f.capture != 0
    ensures var (s', out) := Step(cfg, s, f);
            s'.offset == OffsetAfter(s.offset, f.now + cfg.tgt - f.capture, out)
            && (out.Sent? ==> out.base == f.capture + s'.offset)
  {
  }

  // ----- The trim is additive up and multiplicative down, and rare -----

  /** Frames sent since the last skip or re-anchor. */
  lemma {:induction false} CleanRun(cfg: Config, frames: seq<Frame>)
    requires cfg.fixedL == 0
    ensures var (s, outs) := Run(cfg, INIT, frames);
            && s.sinceSkip <= |frames|
            && forall i :: |frames| - s.sinceSkip <= i < |frames| ==> outs[i].Sent?
  {
    if frames != [] {
      var n := |frames| - 1;
      CleanRun(cfg, frames[..n]);
      SinceSkipStep(cfg, Run(cfg, INIT, frames[..n]).0, frames[n]);
    }
  }

  lemma {:induction false} SinceSkipStep(cfg: Config, s: Servo, f: Frame)
    requires cfg.fixedL == 0
    ensures var (s', out) := Step(cfg, s, f);
            s'.sinceSkip <= if out.Sent? then s.sinceSkip + 1 else 0
  {
  }

  /** The trim moves only after more than 512 frames in a row were sent. */
  lemma {:induction false} TrimAfterCleanRun(cfg: Config, frames: seq<Frame>, i: nat)
    requires cfg.fixedL == 0 && i < |frames| && NetTrim(Run(cfg, INIT, frames).1[i]) != 0
    ensures i > 512
    ensures forall j :: i - 513 <= j < i ==> Run(cfg, INIT, frames).1[j].Sent?
  {
    OutcomeAt(cfg, INIT, frames, i);
    var s := Before(cfg, INIT, frames, i);
    InvRun(cfg, INIT, frames[..i]);
    TrimNeedsArm(cfg, s, frames[i]);
    CleanRun(cfg, frames[..i]);
    RunPrefix(cfg, INIT, frames, i);
    assert forall j :: 0 <= j < i ==> Run(cfg, INIT, frames[..i]).1[j] == Run(cfg, INIT, frames).1[j];
  }

  lemma {:induction false} TrimNeedsArm(cfg: Config, s: Servo, f: Frame)
    requires Inv(s) && NetTrim(Step(cfg, s, f).1) != 0
    ensures s.sinceSkip > s.trimArm >= 512
  {
  }

  /**
   A back-off leaves the probing frame's would-be lead at twice the target or more, gives back at least
   half of what was shaved since the last one, and doubles the wait for the next probe up to its cap.
   */
  lemma {:induction false} BackOffRestoresMargin(cfg: Config, s: Servo, f: Frame)
    requires Genlocked(cfg, [f]) && Inv(s) && Step(cfg, s, f).1.Skipped? && Step(cfg, s, f).1.backOff > 0
    ensures var (s', out) := Step(cfg, s, f);
            && f.capture + s'.offset - f.now >= 2 * cfg.tgt
            && out.backOff >= 4_000_000 && 2 * out.backOff >= s.shaved - 1
            && s'.trimArm == Min(2 * s.trimArm, 8192) && s'.shaved == 0
  {
    assert [f][0] == f;
  }

  // ----- Fixed latency -----

  /** With a fixed latency the wire time is the capture time plus that latency, and only late frames skip. */
  lemma {:induction false} FixedNeverShifts(cfg: Config, s: Servo, frames: seq<Frame>, i: nat)
    requires cfg.fixedL > 0 && i < |frames| && frames[i].capture != 0
    ensures var out := Run(cfg, s, frames).1[i];
            && (out.Skipped? <==> frames[i].capture + cfg.fixedL - frames[i].now < 2_000_000)
            && (out.Sent? ==> out.base == out.media == frames[i].capture + cfg.fixedL)
            && NetTrim(out) == 0
  {
    OutcomeAt(cfg, s, frames, i);
  }

  /** A fixed-latency frame leaves the media clock and the servo's counters as they are, sent or not. */
  lemma {:induction false} FixedTouchesNothing(cfg: Config, s: Servo, f: Frame)
    requires cfg.fixedL > 0 && f.capture != 0
    ensures var s' := Step(cfg, s, f).0;
            s' == s.(base := s'.base, offset := s'.offset, genlocked := s'.genlocked)
            && (Step(cfg, s, f).1.Sent? ==> s'.offset == cfg.fixedL)
  {
  }

  // ----- The wire time from frame to frame -----

  /** In every mode the next frame is expected one interval after a sent one, and a skip moves nothing. */
  lemma {:induction false} BaseFollows(cfg: Config, s: Servo, f: Frame)
    ensures var (s', out) := Step(cfg, s, f);
            s'.base == if out.Sent? then out.base + cfg.interval else s.base
  {
  }

  // ----- Frames without a capture time -----

  ghost predicate Uncaptured(frames: seq<Frame>) {
    forall i :: 0 <= i < |frames| ==> frames[i].capture == 0
  }

  /** The clock readings are one interval apart. */
  ghost predicate Even(cfg: Config, frames: seq<Frame>) {
    forall i :: 0 < i < |frames| ==> frames[i].now == frames[i - 1].now + cfg.interval
  }

  /** How far the wire time expected for a frame is from the target lead over its clock reading. */
  function Error(cfg: Config, s: Servo, now: int): int {
    now + cfg.tgt - s.base
  }

  function Abs(x: int): nat {
    if x < 0 then -x else x
  }

  /**
   The fallback moves the wire time an eighth of the error, rounded towards zero, to the side that makes it less; a
   first frame, or one more than an interval off, is put at the target lead.
   */
  lemma {:induction false} FallbackNudges(cfg: Config, s: Servo, f: Frame)
    requires cfg.tgt > 0 && f.capture == 0
    ensures var out, e := Step(cfg, s, f).1, Error(cfg, s, f.now);
            out.Sent? && if s.base == 0 || Abs(e) > cfg.interval then out.base == f.now + cfg.tgt
                         else Abs(e) == Abs(e - (out.base - s.base)) + Abs(out.base - s.base)
                              && 8 * Abs(out.base - s.base) <= Abs(e) < 8 * Abs(out.base - s.base) + 8
  {
  }

  lemma {:induction false} NudgeStep(cfg: Config, s: Servo, f: Frame, e: int)
    requires cfg.tgt > 0 && f.capture == 0 && s.base > 0 && e == Error(cfg, s, f.now) && Abs(e) <= cfg.interval
    ensures var (s', out) := Step(cfg, s, f);
            var e' := Error(cfg, s', f.now + cfg.interval);
            s'.base > 0 && 8 * Abs(e') <= 7 * Abs(e) + 7 && (Abs(e) >= 8 ==> Abs(e') < Abs(e)) && Abs(e') <= Abs(e)
  {
  }

  /** On an even clock the error shrinks by the frame, down to 7 ns and less, and never grows. */
  lemma {:induction false} FallbackSettles(cfg: Config, s: Servo, frames: seq<Frame>)
    requires cfg.tgt > 0 && Uncaptured(frames) && Even(cfg, frames) && frames != []
    requires s.base > 0 && Abs(Error(cfg, s, frames[0].now)) <= cfg.interval
    ensures var first, last := Abs(Error(cfg, s, frames[0].now)), |frames| - 1;
            var s' := Run(cfg, s, frames).0;
            && s'.base > 0
            && Abs(Error(cfg, s', frames[last].now + cfg.interval)) <= first
            && Abs(Error(cfg, s', frames[last].now + cfg.interval)) <= Max(7, first - |frames|)
  {
    var n := |frames| - 1;
    if n > 0 {
      FallbackSettles(cfg, s, frames[..n]);
    } else {
      assert Run(cfg, s, frames[..0]).0 == s;
    }
    var s1 := Run(cfg, s, frames[..n]).0;
    NudgeStep(cfg, s1, frames[n], Error(cfg, s1, frames[n].now));
  }

  // ----- No re-anchor lead -----

  /** Without a re-anchor lead the wire time stays on its own grid while frames come at most an interval late ... */
  lemma {:induction false} LegacyGrid(cfg: Config, s: Servo, frames: seq<Frame>, i: nat)
    requires cfg.fixedL == 0 && cfg.tgt == 0 && s.base > 0 && i < |frames|
    requires forall k :: 0 <= k <= i ==> frames[k].now <= s.base + k * cfg.interval + cfg.interval
    ensures Run(cfg, s, frames).1[i].Sent? && Run(cfg, s, frames).1[i].base == s.base + i * cfg.interval
    ensures Before(cfg, s, frames, i + 1).base == s.base + i * cfg.interval + cfg.interval
  {
    if i > 0 {
      LegacyGrid(cfg, s, frames, i - 1);
      assert i * cfg.interval == (i - 1) * cfg.interval + cfg.interval;
    }
    OutcomeAt(cfg, s, frames, i);
  }

  /** ... and starts anew at the horizon when one comes later, or is the first. */
  lemma {:induction false} LegacyRestarts(cfg: Config, s: Servo, f: Frame)
    requires cfg.fixedL == 0 && cfg.tgt == 0
    ensures var out := Step(cfg, s, f).1;
            && out.Sent? && out.base + cfg.interval >= f.now
            && (out.base != s.base || s.base == 0 ==> out.base == f.now + cfg.horizon)
            && (out.base != s.base && s.base != 0 ==> f.now > s.base + cfg.interval)
            && (s.base == 0 || f.now > s.base + cfg.interval ==> out.base == f.now + cfg.horizon)
  {
  }
}
