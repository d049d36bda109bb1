/**
 What decides a frame of the genlock branch, told from the frames before it: how many of them in a row were late,
 how many were late of late, how many in a row were sent, and what was shaved off.
 */
module ServoHistory {
  import opened TxServo
  import opened ServoRuns

  /** What became of a frame: `shallow` is a skip by less than an interval, `reset` a send that re-centred the lead. */
  datatype Event = Event(skipped: bool, shallow: bool, reset: bool, back: nat, shave: nat)

  /** The lead at which frame `f` arrives; the first frame calibrates its own. */
  function LeadAt(cfg: Config, offset: int, f: Frame): int {
    if offset == 0 then cfg.tgt else f.capture + offset - f.now
  }

  predicate OutOfBand(cfg: Config, lead: int) {
    lead < cfg.tgt / 4 || lead > 2 * cfg.interval
  }

  function EventOf(cfg: Config, s: Servo, f: Frame): Event {
    var out, lead := Step(cfg, s, f).1, LeadAt(cfg, s.offset, f);
    match out
    case Skipped(back) => Event(true, lead + cfg.interval > 0, false, back, 0)
    case Sent(_, _, _, shave) => Event(false, false, OutOfBand(cfg, lead), 0, shave)
  }

  function History(cfg: Config, frames: seq<Frame>): (h: seq<Event>)
    ensures |h| == |frames|
  {
    if frames == [] then []
    else
      var n := |frames| - 1;
      History(cfg, frames[..n]) + [EventOf(cfg, Run(cfg, INIT, frames[..n]).0, frames[n])]
  }

  // ----- Counts over a history -----

  /** The frames skipped since the last one sent. */
  function Streak(h: seq<Event>): (n: nat)
    ensures n <= |h| && (forall i :: |h| - n <= i < |h| ==> h[i].skipped)
    ensures n < |h| ==> !h[|h| - 1 - n].skipped
  {
    if h == [] || !h[|h| - 1].skipped then 0 else Streak(h[..|h| - 1]) + 1
  }

  /** The frames since the last reset, or all of them. */
  function SinceReset(h: seq<Event>): (n: nat)
    ensures n <= |h| && (forall i :: |h| - n <= i < |h| ==> !h[i].reset)
    ensures n < |h| ==> h[|h| - 1 - n].reset
  {
    if h == [] || h[|h| - 1].reset then 0 else SinceReset(h[..|h| - 1]) + 1
  }

  /** The frames sent since the last skip, or since the last reset and counting it. */
  function Clean(h: seq<Event>): (n: nat)
    ensures n <= |h| && (forall i :: |h| - n <= i < |h| ==> !h[i].skipped)
    ensures forall i :: |h| - n < i < |h| ==> !h[i].reset
    ensures n < |h| ==> h[|h| - 1 - n].skipped || (n > 0 && h[|h| - n].reset)
  {
    if h == [] || h[|h| - 1].skipped then 0 else if h[|h| - 1].reset then 1 else Clean(h[..|h| - 1]) + 1
  }

  function Shallow(h: seq<Event>): nat {
    if h == [] then 0 else Shallow(h[..|h| - 1]) + if h[|h| - 1].shallow then 1 else 0
  }

  /** The back-offs since the last reset. */
  function Probes(h: seq<Event>): nat {
    if h == [] || h[|h| - 1].reset then 0 else Probes(h[..|h| - 1]) + if h[|h| - 1].back > 0 then 1 else 0
  }

  /** What was shaved since the last reset or back-off. */
  function Shaved(h: seq<Event>): nat {
    if h == [] || h[|h| - 1].reset || h[|h| - 1].back > 0 then 0 else Shaved(h[..|h| - 1]) + h[|h| - 1].shave
  }

  /** How many sent frames in a row arm the trim: 512, doubled by every back-off up to 8192. */
  function ArmAfter(probes: nat): nat {
    if probes == 0 then 512 else if probes == 1 then 1024 else if probes == 2 then 2048
    else if probes == 3 then 4096 else 8192
  }

  /** How far the chronic-lateness test looks back, `n` frames after a reset: to it, or over 64 to 127 frames. */
  function LookBack(n: nat): (w: nat)
    ensures w <= n && (w == n || w >= 64)
  {
    if n < 127 then n else 64 + (n + 1) % 64
  }

  // ----- The servo's counters are these counts -----

  /** The frames in the current and in the previous skip bucket, `n` frames after a reset. */
  function InBucket(n: nat): nat {
    if n < 64 then n else n % 64 + 1
  }

  function InPrevious(n: nat): nat {
    if n < 64 then 0 else if n < 128 then 63 else 64
  }

  function Last(h: seq<Event>, n: nat): seq<Event>
    requires n <= |h|
  {
    h[|h| - n..]
  }

  /** The skips counted in the last `cur` frames and in the `prev` frames before them. */
  ghost predicate Bucketed(s: Servo, h: seq<Event>, cur: nat, prev: nat) {
    && cur + prev <= |h|
    && s.winSkips == Shallow(Last(h, cur)) && s.winSkipsPrev == Shallow(Last(h, cur + prev)[..prev])
  }

  ghost predicate Buckets(s: Servo, h: seq<Event>) {
    var n := SinceReset(h);
    s.winCount == n % 64 && Bucketed(s, h, InBucket(n), InPrevious(n))
  }

  ghost predicate Counters(s: Servo, h: seq<Event>) {
    && s.streak == Streak(h) && s.sinceSkip == Clean(h)
    && s.trimArm == ArmAfter(Probes(h)) && s.shaved == Shaved(h)
  }

  lemma {:induction false} CountersRun(cfg: Config, frames: seq<Frame>)
    requires Genlocked(cfg, frames)
    ensures Counters(Run(cfg, INIT, frames).0, History(cfg, frames))
  {
    if frames != [] {
      var n := |frames| - 1;
      CountersRun(cfg, frames[..n]);
      CountersStep(cfg, Run(cfg, INIT, frames[..n]).0, frames[n], History(cfg, frames[..n]));
    }
  }

  lemma {:induction false} CountersStep(cfg: Config, s: Servo, f: Frame, h: seq<Event>)
    requires cfg.fixedL == 0 && cfg.tgt > 0 && f.capture != 0 && Counters(s, h)
    ensures Counters(Step(cfg, s, f).0, h + [EventOf(cfg, s, f)])
  {
    var e := EventOf(cfg, s, f);
    RunLengths(cfg, s, f, e);
    TrimAccount(cfg, s, f, e);
    DoubleArm(Probes(h));
    NextCounts(h, e);
  }

  lemma {:induction false} RunLengths(cfg: Config, s: Servo, f: Frame, e: Event)
    requires cfg.fixedL == 0 && cfg.tgt > 0 && f.capture != 0 && e == EventOf(cfg, s, f)
    ensures var s' := Step(cfg, s, f).0;
            && s'.streak == (if e.skipped then s.streak + 1 else 0)
            && s'.sinceSkip == (if e.skipped then 0 else if e.reset then 1 else s.sinceSkip + 1)
  {
  }

  lemma {:induction false} TrimAccount(cfg: Config, s: Servo, f: Frame, e: Event)
    requires cfg.fixedL == 0 && cfg.tgt > 0 && f.capture != 0 && e == EventOf(cfg, s, f)
    ensures var s' := Step(cfg, s, f).0;
            && s'.trimArm == (if e.reset then 512 else if e.back > 0 then Min(s.trimArm * 2, 8192) else s.trimArm)
            && s'.shaved == (if e.reset || e.back > 0 then 0 else s.shaved + e.shave)
  {
  }

  lemma {:induction false} DoubleArm(probes: nat)
    ensures ArmAfter(0) == 512 && ArmAfter(probes + 1) == Min(ArmAfter(probes) * 2, 8192)
  {
  }

  lemma {:induction false} NextCounts(h: seq<Event>, e: Event)
    ensures Streak(h + [e]) == if e.skipped then Streak(h) + 1 else 0
    ensures Clean(h + [e]) == if e.skipped then 0 else if e.reset then 1 else Clean(h) + 1
    ensures Probes(h + [e]) == if e.reset then 0 else Probes(h) + if e.back > 0 then 1 else 0
    ensures Shaved(h + [e]) == if e.reset || e.back > 0 then 0 else Shaved(h) + e.shave
  {
    assert (h + [e])[..|h|] == h;
  }

  lemma {:induction false} BucketsRun(cfg: Config, frames: seq<Frame>)
    requires Genlocked(cfg, frames)
    ensures Buckets(Run(cfg, INIT, frames).0, History(cfg, frames))
  {
    if frames != [] {
      var n := |frames| - 1;
      BucketsRun(cfg, frames[..n]);
      BucketsStep(cfg, Run(cfg, INIT, frames[..n]).0, frames[n], History(cfg, frames[..n]));
    }
  }

  lemma {:induction false} BucketsStep(cfg: Config, s: Servo, f: Frame, h: seq<Event>)
    requires cfg.fixedL == 0 && cfg.tgt > 0 && f.capture != 0 && Buckets(s, h)
    ensures Buckets(Step(cfg, s, f).0, h + [EventOf(cfg, s, f)])
  {
    StepCounts(cfg, s, f);
    BucketsMove(s, EventOf(cfg, s, f), Step(cfg, s, f).0, h);
  }

  /** What one frame does to the two buckets. */
  ghost predicate Counted(s: Servo, e: Event, s': Servo) {
    var one := if e.shallow then 1 else 0;
    if e.reset then s'.winSkips == s'.winSkipsPrev == s'.winCount == 0
    else if s.winCount == 63 then s'.winCount == 0 && s'.winSkips == one && s'.winSkipsPrev == s.winSkips
    else s'.winCount == s.winCount + 1 && s'.winSkips == s.winSkips + one && s'.winSkipsPrev == s.winSkipsPrev
  }

  lemma {:induction false} StepCounts(cfg: Config, s: Servo, f: Frame)
    requires cfg.fixedL == 0 && cfg.tgt > 0 && f.capture != 0 && s.winCount < 64
    ensures Counted(s, EventOf(cfg, s, f), Step(cfg, s, f).0)
  {
  }

  lemma {:induction false} BucketsMove(s: Servo, e: Event, s': Servo, h: seq<Event>)
    requires Buckets(s, h) && Counted(s, e, s')
    ensures Buckets(s', h + [e])
  {
    SinceNext(h, e);
    if e.reset {
      NothingCounted(s', h + [e]);
    } else {
      BucketsGoOn(s, e, s', h, SinceReset(h));
    }
  }

  lemma {:induction false} BucketsGoOn(s: Servo, e: Event, s': Servo, h: seq<Event>, n: nat)
    requires s.winCount == n % 64 && Bucketed(s, h, InBucket(n), InPrevious(n)) && Counted(s, e, s') && !e.reset
    ensures s'.winCount == (n + 1) % 64 && Bucketed(s', h + [e], InBucket(n + 1), InPrevious(n + 1))
  {
    NextSizes(n);
    if n % 64 == 63 {
      SwapBuckets(s, s', h, e, InBucket(n), InPrevious(n));
    } else {
      GrowBucket(s, s', h, e, InBucket(n), InPrevious(n));
    }
  }

  lemma {:induction false} SinceNext(h: seq<Event>, e: Event)
    ensures SinceReset(h + [e]) == if e.reset then 0 else SinceReset(h) + 1
  {
    assert (h + [e])[..|h|] == h;
  }

  lemma {:induction false} NextSizes(n: nat)
    ensures if n % 64 == 63 then (n + 1) % 64 == 0 && InBucket(n + 1) == 1 && InPrevious(n + 1) == InBucket(n)
            else (n + 1) % 64 == n % 64 + 1 && InBucket(n + 1) == InBucket(n) + 1 && InPrevious(n + 1) == InPrevious(n)
  {
  }

  lemma {:induction false} NothingCounted(s: Servo, h: seq<Event>)
    requires s.winSkips == s.winSkipsPrev == 0
    ensures Bucketed(s, h, 0, 0)
  {
  }

  lemma {:induction false} GrowBucket(s: Servo, s': Servo, h: seq<Event>, e: Event, cur: nat, prev: nat)
    requires Bucketed(s, h, cur, prev)
    requires s'.winSkips == (s.winSkips + if e.shallow then 1 else 0) && s'.winSkipsPrev == s.winSkipsPrev
    ensures Bucketed(s', h + [e], cur + 1, prev)
  {
    var last := Last(h + [e], cur + 1);
    assert last[..|last| - 1] == Last(h, cur) && last[|last| - 1] == e;
    assert Last(h + [e], cur + 1 + prev)[..prev] == Last(h, cur + prev)[..prev];
  }

  lemma {:induction false} SwapBuckets(s: Servo, s': Servo, h: seq<Event>, e: Event, cur: nat, prev: nat)
    requires Bucketed(s, h, cur, prev)
    requires s'.winSkips == (if e.shallow then 1 else 0) && s'.winSkipsPrev == s.winSkips
    ensures Bucketed(s', h + [e], 1, cur)
  {
    assert Last(h + [e], 1) == [e] && [e][..0] == [];
    assert Last(h + [e], 1 + cur)[..cur] == Last(h, cur);
  }

  // ----- What decides a frame -----

  lemma {:induction false} ShallowAppend(a: seq<Event>, b: seq<Event>)
    ensures Shallow(a + b) == Shallow(a) + Shallow(b)
  {
    if b == [] {
      assert a + b == a;
    } else {
      var n := |b| - 1;
      ShallowAppend(a, b[..n]);
      assert (a + b)[..|a + b| - 1] == a + b[..n];
    }
  }

  /** The two buckets that the test reads, after their rotation, hold the frames that it looks back at. */
  lemma {:induction false} ChronicIs(cfg: Config, s: Servo, f: Frame, h: seq<Event>)
    requires Buckets(s, h)
    ensures Chronic(Prepared(cfg, s, f)) <==> Shallow(Last(h, LookBack(SinceReset(h)))) > 32
  {
    ChronicSum(cfg, s, f);
    LookedBack(s, h, SinceReset(h));
  }

  lemma {:induction false} ChronicSum(cfg: Config, s: Servo, f: Frame)
    requires s.winCount < 64
    ensures Chronic(Prepared(cfg, s, f)) <==> s.winSkips + (if s.winCount == 63 then 0 else s.winSkipsPrev) > 32
  {
  }

  lemma {:induction false} LookedBack(s: Servo, h: seq<Event>, n: nat)
    requires n == SinceReset(h) && Bucketed(s, h, InBucket(n), InPrevious(n))
    ensures Shallow(Last(h, LookBack(n))) == s.winSkips + if n % 64 == 63 then 0 else s.winSkipsPrev
  {
    LookBackIs(n);
    if n % 64 != 63 {
      TwoBuckets(h, InBucket(n), InPrevious(n));
    }
  }

  lemma {:induction false} TwoBuckets(h: seq<Event>, cur: nat, prev: nat)
    requires cur + prev <= |h|
    ensures Shallow(Last(h, cur + prev)) == Shallow(Last(h, cur + prev)[..prev]) + Shallow(Last(h, cur))
  {
    assert Last(h, cur + prev) == Last(h, cur + prev)[..prev] + Last(h, cur);
    ShallowAppend(Last(h, cur + prev)[..prev], Last(h, cur));
  }

  lemma {:induction false} LookBackIs(n: nat)
    ensures LookBack(n) == InBucket(n) + if n % 64 == 63 then 0 else InPrevious(n)
  {
  }

  /**
   In a genlocked run a frame is skipped exactly when its lead is under a quarter of the target, fewer than 32
   frames right before it were skipped, and at most 32 of the frames looked back at were shallow skips.
   */
  lemma {:induction false} SkipsExactlyWhen(cfg: Config, frames: seq<Frame>, i: nat)
    requires Genlocked(cfg, frames) && i < |frames|
    ensures var h, lead := History(cfg, frames[..i]), LeadAt(cfg, Before(cfg, INIT, frames, i).offset, frames[i]);
            Run(cfg, INIT, frames).1[i].Skipped?
            <==> lead < cfg.tgt / 4 && Streak(h) < 32 && Shallow(Last(h, LookBack(SinceReset(h)))) <= 32
  {
    OutcomeAt(cfg, INIT, frames, i);
    CountersRun(cfg, frames[..i]);
    BucketsRun(cfg, frames[..i]);
    SkipsStep(cfg, Before(cfg, INIT, frames, i), frames[i], History(cfg, frames[..i]));
  }

  lemma {:induction false} SkipsStep(cfg: Config, s: Servo, f: Frame, h: seq<Event>)
    requires cfg.fixedL == 0 && cfg.tgt > 0 && f.capture != 0 && s.streak == Streak(h) && Buckets(s, h)
    ensures Step(cfg, s, f).1.Skipped?
            <==> LeadAt(cfg, s.offset, f) < cfg.tgt / 4 && Streak(h) < 32
                 && Shallow(Last(h, LookBack(SinceReset(h)))) <= 32
  {
    SkipTest(cfg, s, f);
    ChronicIs(cfg, s, f, h);
  }

  lemma {:induction false} SkipTest(cfg: Config, s: Servo, f: Frame)
    requires cfg.fixedL == 0 && cfg.tgt > 0 && f.capture != 0
    ensures Step(cfg, s, f).1.Skipped?
            <==> LeadAt(cfg, s.offset, f) < cfg.tgt / 4 && s.streak < 32 && !Chronic(Prepared(cfg, s, f))
  {
  }

  lemma {:induction false} HistoryAt(cfg: Config, frames: seq<Frame>, i: nat)
    requires i < |frames|
    ensures History(cfg, frames)[i] == EventOf(cfg, Before(cfg, INIT, frames, i), frames[i])
    ensures History(cfg, frames)[..i] == History(cfg, frames[..i])
  {
    HistoryPrefix(cfg, frames, i);
    HistoryPrefix(cfg, frames, i + 1);
    assert frames[..i + 1][..i] == frames[..i];
    assert History(cfg, frames)[..i + 1][i] == History(cfg, frames)[i];
  }

  lemma {:induction false} HistoryPrefix(cfg: Config, frames: seq<Frame>, i: nat)
    requires i <= |frames|
    ensures History(cfg, frames)[..i] == History(cfg, frames[..i])
  {
    if i == |frames| {
      assert frames[..i] == frames;
    } else {
      var n := |frames| - 1;
      HistoryPrefix(cfg, frames[..n], i);
      assert frames[..n][..i] == frames[..i];
    }
  }

  /**
   Of any 64 frames in a row among which none re-anchors, at most 33 are shallow skips: past that the lateness is
   chronic, and the next late frame is sent at a new anchor.
   */
  lemma {:induction false} ShallowSkipsBounded(cfg: Config, frames: seq<Frame>, j: nat, m: nat)
    requires Genlocked(cfg, frames) && j <= m <= |frames| && m - j <= 64
    requires forall i :: j <= i < m ==> !Anchors(Run(cfg, INIT, frames).1[i])
    ensures Shallow(History(cfg, frames)[j..m]) <= 33
    decreases m - j
  {
    if j < m {
      var h := History(cfg, frames);
      ShallowSkipsBounded(cfg, frames, j, m - 1);
      assert h[j..m][..m - 1 - j] == h[j..m - 1] && h[j..m][m - 1 - j] == h[m - 1];
      if h[m - 1].shallow {
        BoundedBefore(cfg, frames, j, m - 1);
      }
    } else {
      assert History(cfg, frames)[j..m] == [];
    }
  }

  /** Before a shallow skip there were at most 32 of them as far back as 63 frames, if none of these re-anchored. */
  lemma {:induction false} BoundedBefore(cfg: Config, frames: seq<Frame>, j: nat, i: nat)
    requires Genlocked(cfg, frames) && j <= i < |frames| && i - j <= 63 && History(cfg, frames)[i].shallow
    requires forall k :: j <= k < i ==> !Anchors(Run(cfg, INIT, frames).1[k])
    ensures Shallow(History(cfg, frames)[j..i]) <= 32
  {
    var before := History(cfg, frames[..i]);
    HistoryAt(cfg, frames, i);
    OutcomeAt(cfg, INIT, frames, i);
    SkipsExactlyWhen(cfg, frames, i);
    forall k | j <= k < i
      ensures !before[k].reset
    {
      NoReset(cfg, frames, i, k);
    }
    ShallowSuffix(before, j, LookBack(SinceReset(before)));
    assert before[j..] == History(cfg, frames)[j..i];
  }

  lemma {:induction false} NoReset(cfg: Config, frames: seq<Frame>, i: nat, k: nat)
    requires Genlocked(cfg, frames) && k < i <= |frames| && !Anchors(Run(cfg, INIT, frames).1[k])
    ensures !History(cfg, frames[..i])[k].reset
  {
    HistoryAt(cfg, frames[..i], k);
    OutcomeAt(cfg, INIT, frames, k);
    assert frames[..i][..k] == frames[..k];
    ResetAnchors(cfg, Before(cfg, INIT, frames, k), frames[k]);
  }

  lemma {:induction false} ShallowSuffix(h: seq<Event>, j: nat, w: nat)
    requires w <= |h| && |h| - w <= j <= |h|
    ensures Shallow(h[j..]) <= Shallow(Last(h, w))
  {
    assert Last(h, w) == h[|h| - w..j] + h[j..];
    ShallowAppend(h[|h| - w..j], h[j..]);
  }

  lemma {:induction false} ResetAnchors(cfg: Config, s: Servo, f: Frame)
    requires cfg.fixedL == 0 && cfg.tgt > 0 && f.capture != 0
    ensures EventOf(cfg, s, f).reset ==> Anchors(Step(cfg, s, f).1)
  {
  }

  /**
   In a genlocked run a sent frame is anchored exactly when it is the first or its lead is out of the band. Out of
   the band it goes out at the target lead; else at its own, less what is shaved off.
   */
  lemma {:induction false} AnchorsExactlyWhen(cfg: Config, frames: seq<Frame>, i: nat)
    requires Genlocked(cfg, frames) && i < |frames| && Run(cfg, INIT, frames).1[i].Sent?
    ensures var out, offset := Run(cfg, INIT, frames).1[i], Before(cfg, INIT, frames, i).offset;
            var lead := LeadAt(cfg, offset, frames[i]);
            && (out.anchored <==> offset == 0 || lead < cfg.tgt / 4 || lead > 2 * cfg.interval)
            && out.base - frames[i].now
               == if lead < cfg.tgt / 4 || lead > 2 * cfg.interval then cfg.tgt else lead - out.shave
  {
    OutcomeAt(cfg, INIT, frames, i);
  }

  /** The trim is on, and more frames in a row were sent than arm it. */
  predicate Armed(cfg: Config, h: seq<Event>) {
    cfg.trim > 0 && Clean(h) > ArmAfter(Probes(h))
  }

  /**
   In a genlocked run latency is shaved by the trim step off every frame sent in the band once the trim is armed, and
   off no other; and a skip gives latency back exactly when the trim is armed: the greatest of what restores the
   frame's lead to twice the target, half of what was shaved since the last time, and 4 ms.
   */
  lemma {:induction false} TrimsExactlyWhen(cfg: Config, frames: seq<Frame>, i: nat)
    requires Genlocked(cfg, frames) && i < |frames|
    ensures var out, h := Run(cfg, INIT, frames).1[i], History(cfg, frames[..i]);
            var lead := LeadAt(cfg, Before(cfg, INIT, frames, i).offset, frames[i]);
            && (out.Sent? ==> out.shave == if Armed(cfg, h) && !OutOfBand(cfg, lead) then cfg.trim else 0)
            && (out.Skipped? && !Armed(cfg, h) ==> out.backOff == 0)
            && (out.Skipped? && Armed(cfg, h) ==>
                  && lead + out.backOff >= 2 * cfg.tgt && out.backOff >= Shaved(h) / 2 && out.backOff >= 4_000_000
                  && (lead + out.backOff == 2 * cfg.tgt || out.backOff == Shaved(h) / 2 || out.backOff == 4_000_000))
  {
    OutcomeAt(cfg, INIT, frames, i);
    CountersRun(cfg, frames[..i]);
  }
}
