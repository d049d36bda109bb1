/**
 The guard against a sender whose RTP epoch is broken.

 A stamp is unwrapped against its packet's arrival. If that lands further than a bound from the arrival,
 a tick correction is latched that moves the stream back onto it; video and audio use the same rule with
 their own rate and bound.
 */
module EpochGuard {
  import opened Arithmetic
  import opened RtpTime

  const VIDEO_RATE := 90000
  const VIDEO_BOUND := 150_000_000
  const AUDIO_BOUND := 500_000_000

  datatype Guard = Guard(delta: U32, relatches: nat)
  datatype Arrival = Arrival(ts: U32, ref: U64)

  /** The two clock operations the guard uses, at one media rate. */
  datatype Clock = Clock(unwrap: (U32, U64) -> U64, restamp: (U32, U64) -> U32)

  function MediaClock(rate: nat): Clock
    requires rate > 0
  {
    Clock((ts: U32, ref: U64) => UnwrapNs(ts, rate, ref), (ts: U32, ref: U64) => RestampDelta(ts, rate, ref))
  }

  /** How far a capture lies from its arrival: the 64-bit difference, read as signed. */
  function Error(cap: U64, ref: U64): int {
    Signed64((cap - ref) % TWO64)
  }

  predicate Sane(cap: U64, ref: U64, bound: int) {
    -bound <= Error(cap, ref) <= bound
  }

  function Corrected(ts: U32, delta: U32): U32 {
    (ts + delta) % TWO32
  }

  /** One stamp through the guard: the new guard and the capture instant. */
  function Step(g: Guard, c: Clock, bound: int, a: Arrival): (r: (Guard, U64)) {
    var cap := c.unwrap(Corrected(a.ts, g.delta), a.ref);
    if Sane(cap, a.ref, bound) then (g, cap)
    else
      var raw := c.unwrap(a.ts, a.ref);
      if g.delta != 0 && Sane(raw, a.ref, bound) then (Guard(0, g.relatches + 1), raw)
      else
        var delta := c.restamp(a.ts, a.ref);
        (Guard(delta, g.relatches + 1), c.unwrap(Corrected(a.ts, delta), a.ref))
  }

  /** The guard as the receiver keeps it, one per stream. */
  class StreamGuard {
    var delta: U32
    var relatches: nat

    constructor ()
      ensures delta == 0 && relatches == 0
    {
      delta, relatches := 0, 0;
    }

    method CaptureNs(c: Clock, bound: int, ts: U32, ref: U64) returns (cap: U64)
      modifies this
      ensures (Guard(delta, relatches), cap) == Step(Guard(old(delta), old(relatches)), c, bound, Arrival(ts, ref))
    {
      cap := c.unwrap(Corrected(ts, delta), ref);
      var err := Error(cap, ref);
      if err > bound || err < -bound {
        var raw := c.unwrap(ts, ref);
        var rawErr := Error(raw, ref);
        if delta != 0 && rawErr <= bound && rawErr >= -bound {
          delta := 0;
          cap := raw;
        } else {
          delta := c.restamp(ts, ref);
          cap := c.unwrap(Corrected(ts, delta), ref);
        }
        relatches := relatches + 1;
      }
    }
  }

  // ----- Every capture is near its arrival -----

  /** A tick and a nanosecond, the loss of one unwrap, fit in the bound. */
  predicate BoundHoldsTick(rate: nat, bound: int) {
    0 < rate <= NS_PER_SEC && NS_PER_SEC + rate <= bound * rate && bound < TWO64 / 2
  }

  /** Both streams of the engine meet the requirement, audio at any rate from 3 Hz up. */
  lemma {:induction false} StreamBounds(audioRate: nat)
    requires 3 <= audioRate <= NS_PER_SEC
    ensures BoundHoldsTick(VIDEO_RATE, VIDEO_BOUND) && BoundHoldsTick(audioRate, AUDIO_BOUND)
  {
  }

  /** A restamped packet lands within the bound of its arrival. */
  ghost predicate RestampLands(c: Clock, bound: int) {
    forall ts, ref :: Sane(c.unwrap(Corrected(ts, c.restamp(ts, ref)), ref), ref, bound)
  }

  lemma {:induction false} MediaClockLands(rate: nat, bound: int)
    requires BoundHoldsTick(rate, bound)
    ensures RestampLands(MediaClock(rate), bound)
  {
    var c := MediaClock(rate);
    forall ts: U32, ref: U64
      ensures Sane(c.unwrap(Corrected(ts, c.restamp(ts, ref)), ref), ref, bound)
    {
      RestampLandsOnReference(ts, rate, ref);
      NearInstantSane(UnwrapNs((ts + RestampDelta(ts, rate, ref)) % TWO32, rate, ref), ref, rate, bound);
    }
  }

  lemma {:induction false} NearInstantSane(cap: U64, ref: U64, rate: nat, bound: int)
    requires BoundHoldsTick(rate, bound)
    requires cap <= ref && (ref - cap) * rate < NS_PER_SEC + rate
    ensures Sane(cap, ref, bound)
  {
    if ref - cap > bound {
      MulMono(bound, ref - cap, rate);
    }
  }

  /** Whatever the guard holds and whatever the stamp, the capture is within the bound of the arrival. */
  lemma {:induction false} CaptureNearArrival(g: Guard, c: Clock, bound: int, a: Arrival)
    requires RestampLands(c, bound)
    ensures Sane(Step(g, c, bound, a).1, a.ref, bound)
  {
  }

  /** What being sane means once the arrival is further than the bound from both ends of the clock. */
  lemma {:induction false} SaneIsClose(cap: U64, ref: U64, bound: int)
    requires 0 <= bound <= ref < TWO64 - bound && bound < TWO64 / 4
    ensures Sane(cap, ref, bound) <==> -bound <= cap - ref <= bound
  {
  }

  // ----- Runs -----

  /** The guard and the captures after a run of stamps. */
  function Run(g: Guard, c: Clock, bound: int, arrivals: seq<Arrival>): (r: (Guard, seq<U64>))
    ensures |r.1| == |arrivals|
  {
    if arrivals == [] then (g, [])
    else
      var (g1, caps) := Run(g, c, bound, arrivals[..|arrivals| - 1]);
      var (g2, cap) := Step(g1, c, bound, arrivals[|arrivals| - 1]);
      (g2, caps + [cap])
  }

  /** Every capture of every run is near its arrival, whatever the sender stamps. */
  lemma {:induction false} RunNearArrivals(g: Guard, c: Clock, bound: int, arrivals: seq<Arrival>, i: nat)
    requires RestampLands(c, bound) && i < |arrivals|
    ensures Sane(Run(g, c, bound, arrivals).1[i], arrivals[i].ref, bound)
  {
    var n := |arrivals| - 1;
    if i == n {
      CaptureNearArrival(Run(g, c, bound, arrivals[..n]).0, c, bound, arrivals[n]);
    } else {
      RunNearArrivals(g, c, bound, arrivals[..n], i);
    }
  }

  /** The arrival is further than the bound from both ends of the 64-bit clock. */
  predicate AwayFromEnds(ref: U64, bound: int) {
    bound <= ref < TWO64 - bound
  }

  lemma {:induction false} RunWithinBound(g: Guard, rate: nat, bound: int, arrivals: seq<Arrival>, i: nat)
    requires BoundHoldsTick(rate, bound) && 0 <= bound < TWO64 / 4
    requires i < |arrivals| && AwayFromEnds(arrivals[i].ref, bound)
    ensures -bound <= Run(g, MediaClock(rate), bound, arrivals).1[i] - arrivals[i].ref <= bound
  {
    MediaClockLands(rate, bound);
    RunNearArrivals(g, MediaClock(rate), bound, arrivals, i);
    SaneIsClose(Run(g, MediaClock(rate), bound, arrivals).1[i], arrivals[i].ref, bound);
  }

  /**
   Over any stamps and arrivals, and from any correction: every capture of a video frame is within 150 ms of
   its arrival, and every capture of an audio packet within 500 ms.
   */
  lemma {:induction false} StreamsNearArrivals(g: Guard, audioRate: nat, arrivals: seq<Arrival>, i: nat)
    requires 3 <= audioRate <= NS_PER_SEC
    requires i < |arrivals| && AwayFromEnds(arrivals[i].ref, AUDIO_BOUND)
    ensures var video := Run(g, MediaClock(VIDEO_RATE), VIDEO_BOUND, arrivals).1[i];
            -150_000_000 <= video - arrivals[i].ref <= 150_000_000
    ensures var audio := Run(g, MediaClock(audioRate), AUDIO_BOUND, arrivals).1[i];
            -500_000_000 <= audio - arrivals[i].ref <= 500_000_000
  {
    StreamBounds(audioRate);
    RunWithinBound(g, VIDEO_RATE, VIDEO_BOUND, arrivals, i);
    RunWithinBound(g, audioRate, AUDIO_BOUND, arrivals, i);
  }

  /** While the corrected stamps are sane the correction holds, whatever the raw stamps are. */
  lemma {:induction false} CorrectionHolds(g: Guard, c: Clock, bound: int, arrivals: seq<Arrival>)
    requires forall i :: 0 <= i < |arrivals| ==>
               Sane(c.unwrap(Corrected(arrivals[i].ts, g.delta), arrivals[i].ref), arrivals[i].ref, bound)
    ensures var (g', caps) := Run(g, c, bound, arrivals);
            && g' == g
            && forall i :: 0 <= i < |arrivals| ==>
                 caps[i] == c.unwrap(Corrected(arrivals[i].ts, g.delta), arrivals[i].ref)
  {
    if arrivals != [] {
      CorrectionHolds(g, c, bound, arrivals[..|arrivals| - 1]);
    }
  }

  /**
   In plain integers: while every video stamp unwraps to within 150 ms of its arrival, and every audio stamp to
   within 500 ms, no stamp is corrected.
   */
  lemma {:induction false} StreamsVerbatim(audioRate: nat, arrivals: seq<Arrival>)
    requires audioRate > 0 && forall i :: 0 <= i < |arrivals| ==> AwayFromEnds(arrivals[i].ref, AUDIO_BOUND)
    ensures (forall i :: 0 <= i < |arrivals| ==>
               -150_000_000 <= UnwrapNs(arrivals[i].ts, 90000, arrivals[i].ref) - arrivals[i].ref <= 150_000_000)
            ==> Run(Guard(0, 0), MediaClock(VIDEO_RATE), VIDEO_BOUND, arrivals).0 == Guard(0, 0)
    ensures (forall i :: 0 <= i < |arrivals| ==>
               -500_000_000 <= UnwrapNs(arrivals[i].ts, audioRate, arrivals[i].ref) - arrivals[i].ref <= 500_000_000)
            ==> Run(Guard(0, 0), MediaClock(audioRate), AUDIO_BOUND, arrivals).0 == Guard(0, 0)
  {
    CloseVerbatim(VIDEO_RATE, VIDEO_BOUND, arrivals);
    CloseVerbatim(audioRate, AUDIO_BOUND, arrivals);
  }

  lemma {:induction false} CloseVerbatim(rate: nat, bound: int, arrivals: seq<Arrival>)
    requires rate > 0 && 0 <= bound <= AUDIO_BOUND
    requires forall i :: 0 <= i < |arrivals| ==> AwayFromEnds(arrivals[i].ref, AUDIO_BOUND)
    ensures (forall i :: 0 <= i < |arrivals| ==>
               -bound <= UnwrapNs(arrivals[i].ts, rate, arrivals[i].ref) - arrivals[i].ref <= bound) ==>
              Run(Guard(0, 0), MediaClock(rate), bound, arrivals).0 == Guard(0, 0)
  {
    var c := MediaClock(rate);
    if forall i :: 0 <= i < |arrivals| ==>
         -bound <= UnwrapNs(arrivals[i].ts, rate, arrivals[i].ref) - arrivals[i].ref <= bound {
      forall i | 0 <= i < |arrivals|
        ensures Sane(c.unwrap(arrivals[i].ts, arrivals[i].ref), arrivals[i].ref, bound)
      {
        SaneIsClose(UnwrapNs(arrivals[i].ts, rate, arrivals[i].ref), arrivals[i].ref, bound);
      }
      SaneSenderVerbatim(0, c, bound, arrivals);
    }
  }

  /** A stamp that is sane neither corrected nor raw is moved onto the tick that holds its arrival. */
  lemma {:induction false} LatchLandsOnArrival(g: Guard, rate: nat, bound: int, a: Arrival)
    requires 0 < rate <= NS_PER_SEC && !Sane(UnwrapNs(Corrected(a.ts, g.delta), rate, a.ref), a.ref, bound)
    requires g.delta == 0 || !Sane(UnwrapNs(a.ts, rate, a.ref), a.ref, bound)
    ensures var (g', cap) := Step(g, MediaClock(rate), bound, a);
            cap == TickNs(Ticks(a.ref, rate), rate) && g'.relatches == g.relatches + 1
            && Corrected(a.ts, g'.delta) == Ticks(a.ref, rate) % TWO32
  {
    RestampLandsOnReference(a.ts, rate, a.ref);
    RestampIsTick(a.ts, rate, a.ref);
  }

  /** A sender whose raw stamps are always sane is never corrected. */
  lemma {:induction false} SaneSenderVerbatim(relatches: nat, c: Clock, bound: int, arrivals: seq<Arrival>)
    requires forall i :: 0 <= i < |arrivals| ==>
               Sane(c.unwrap(arrivals[i].ts, arrivals[i].ref), arrivals[i].ref, bound)
    ensures var (g, caps) := Run(Guard(0, relatches), c, bound, arrivals);
            && g == Guard(0, relatches)
            && forall i :: 0 <= i < |arrivals| ==> caps[i] == c.unwrap(arrivals[i].ts, arrivals[i].ref)
  {
    forall i | 0 <= i < |arrivals|
      ensures Corrected(arrivals[i].ts, 0) == arrivals[i].ts
    {
    }
    CorrectionHolds(Guard(0, relatches), c, bound, arrivals);
  }

  // ----- Recovery -----

  /**
   When a sender's raw stamp is sane again, the guard is back to the verbatim stamp if and only if it was
   there already or the corrected stamp now misses its arrival.
   */
  lemma {:induction false} RecoversExactlyWhen(g: Guard, c: Clock, bound: int, a: Arrival)
    requires Sane(c.unwrap(a.ts, a.ref), a.ref, bound)
    ensures Step(g, c, bound, a).0.delta == 0
       <==> g.delta == 0 || !Sane(c.unwrap(Corrected(a.ts, g.delta), a.ref), a.ref, bound)
  {
  }

  /** The stamp names a tick of the epoch, not one before it, and the arrival is far from the end of 63 bits. */
  predicate NamesTick(ts: U32, ref: U64, rate: nat) {
    0 <= StampTick(ts, Ticks(ref, rate)) && ref < TWO64 / 2
  }

  /**
   A latched correction larger than twice the bound, plus the rounding of an unwrap, is dropped on the
   first sane raw stamp, wherever the 32-bit stamps wrap.
   */
  lemma {:induction false} LargeLatchRecovers(g: Guard, rate: nat, bound: int, a: Arrival)
    requires 0 < rate <= NS_PER_SEC
    requires NamesTick(a.ts, a.ref, rate) && NamesTick(Corrected(a.ts, g.delta), a.ref, rate)
    requires Sane(UnwrapNs(a.ts, rate, a.ref), a.ref, bound)
    requires Abs(Signed32(g.delta)) * NS_PER_SEC >= (2 * bound + 1) * rate && g.delta != 0
    ensures Step(g, MediaClock(rate), bound, a) == (Guard(0, g.relatches + 1), UnwrapNs(a.ts, rate, a.ref))
  {
    LargeLatchMisses(g.delta, rate, bound, a);
    DropsLatch(g, MediaClock(rate), bound, a);
  }

  lemma {:induction false} DropsLatch(g: Guard, c: Clock, bound: int, a: Arrival)
    requires g.delta != 0 && Sane(c.unwrap(a.ts, a.ref), a.ref, bound)
    requires !Sane(c.unwrap(Corrected(a.ts, g.delta), a.ref), a.ref, bound)
    ensures Step(g, c, bound, a) == (Guard(0, g.relatches + 1), c.unwrap(a.ts, a.ref))
  {
  }

  lemma {:induction false} LargeLatchMisses(delta: U32, rate: nat, bound: int, a: Arrival)
    requires 0 < rate <= NS_PER_SEC
    requires NamesTick(a.ts, a.ref, rate) && NamesTick(Corrected(a.ts, delta), a.ref, rate)
    requires Sane(UnwrapNs(a.ts, rate, a.ref), a.ref, bound)
    requires Abs(Signed32(delta)) * NS_PER_SEC >= (2 * bound + 1) * rate
    ensures !Sane(UnwrapNs(Corrected(a.ts, delta), rate, a.ref), a.ref, bound)
  {
    var near := Ticks(a.ref, rate);
    var k, m := StampTick(a.ts, near), StampTick(Corrected(a.ts, delta), near);
    UnwrapIsTick(a.ts, rate, a.ref);
    UnwrapIsTick(Corrected(a.ts, delta), rate, a.ref);
    CorrectionMoves(a.ts, delta, near);
    TicksFarApart(k, m, a.ref, bound, rate, Abs(Signed32(delta)));
  }

  lemma {:induction false} TicksFarApart(k: nat, m: nat, ref: int, bound: int, rate: nat, delta: nat)
    requires rate > 0 && delta <= Abs(m - k) && delta * NS_PER_SEC >= (2 * bound + 1) * rate
    requires -bound <= TickNs(k, rate) - ref <= bound
    ensures !(-bound <= TickNs(m, rate) - ref <= bound)
  {
    TickSpread(k, m, rate);
    FarApart(Abs(TickNs(m, rate) - TickNs(k, rate)), bound, rate, Abs(m - k), delta);
  }

  lemma {:induction false} FarApart(gap: nat, bound: int, rate: nat, spread: nat, delta: nat)
    requires delta <= spread && spread * NS_PER_SEC < gap * rate + rate
    requires delta * NS_PER_SEC >= (2 * bound + 1) * rate
    ensures gap > 2 * bound
  {
  }

  function Abs(x: int): nat {
    if x < 0 then -x else x
  }

  /** The tick in the window around `near` that a stamp names. */
  function StampTick(ts: U32, near: nat): (k: int)
    ensures near - TWO31 < k <= near + TWO31
  {
    near - Signed32((near % TWO32 - ts) % TWO32)
  }

  lemma {:induction false} UnwrapIsTick(ts: U32, rate: nat, ref: U64)
    requires 0 < rate <= NS_PER_SEC && NamesTick(ts, ref, rate)
    ensures UnwrapNs(ts, rate, ref) == TickNs(StampTick(ts, Ticks(ref, rate)), rate)
    ensures Error(UnwrapNs(ts, rate, ref), ref) == UnwrapNs(ts, rate, ref) - ref
  {
    TicksFit(ref, rate);
    var near := Ticks(ref, rate);
    var k := StampTick(ts, near);
    TickNear(ref, rate, k);
    UnwrapNames(ts, rate, ref, k);
    ErrorIsDifference(TickNs(k, rate), ref);
  }

  lemma {:induction false} UnwrapNames(ts: U32, rate: nat, ref: U64, k: nat)
    requires rate > 0
    requires k == StampTick(ts, TicksAbs(ref, rate)) && k < TWO64 && TickNs(k, rate) < TWO64
    ensures UnwrapNs(ts, rate, ref) == TickNs(k, rate)
  {
    TickNamed(ts, TicksAbs(ref, rate));
  }

  lemma {:induction false} TickNamed(ts: U32, near: U64)
    requires 0 <= StampTick(ts, near) < TWO64
    ensures UnwrapTick(ts, near) == StampTick(ts, near)
  {
  }

  lemma {:induction false} ErrorIsDifference(cap: U64, ref: U64)
    requires -WINDOW_NS < cap - ref < WINDOW_NS
    ensures Error(cap, ref) == cap - ref
  {
  }

  /** More than 2^31 seconds. */
  const WINDOW_NS := 3 * NS_PER_SEC * NS_PER_SEC

  lemma {:induction false} TickNear(ref: nat, rate: nat, k: nat)
    requires rate > 0 && -TWO31 <= k - Ticks(ref, rate) <= TWO31
    ensures -WINDOW_NS < TickNs(k, rate) - ref < WINDOW_NS
  {
    QuotientBounds(ref * rate, NS_PER_SEC);
    QuotientBounds(k * NS_PER_SEC, rate);
    MulMono(1, rate, WINDOW_NS);
    var n := TickNs(k, rate);
    if n >= ref + WINDOW_NS {
      MulMono(ref + WINDOW_NS, n, rate);
      Distribute(ref, WINDOW_NS, rate);
    } else if n + WINDOW_NS <= ref {
      MulMono(n + WINDOW_NS, ref, rate);
      Distribute(n, WINDOW_NS, rate);
    }
  }

  /** A correction of `delta` moves the tick by `delta` or by the rest of the 2^32 cycle. */
  lemma {:induction false} CorrectionMoves(ts: U32, delta: U32, near: nat)
    ensures Abs(StampTick(Corrected(ts, delta), near) - StampTick(ts, near)) >= Abs(Signed32(delta))
  {
    var a := (near % TWO32 - ts) % TWO32;
    var b := (near % TWO32 - Corrected(ts, delta)) % TWO32;
    assert b == a - delta || b == a - delta + TWO32;
  }

  /** Ticks `d` apart are instants more than `d` ticks less 1 ns apart. */
  lemma {:induction false} TickSpread(k: nat, m: nat, rate: nat)
    requires rate > 0
    ensures Abs(m - k) * NS_PER_SEC < Abs(TickNs(m, rate) - TickNs(k, rate)) * rate + rate
  {
    if k <= m {
      LaterTick(k, m, rate);
    } else {
      LaterTick(m, k, rate);
    }
  }

  lemma {:induction false} LaterTick(k: nat, m: nat, rate: nat)
    requires rate > 0 && k <= m
    ensures TickNs(k, rate) <= TickNs(m, rate)
    ensures (m - k) * NS_PER_SEC < (TickNs(m, rate) - TickNs(k, rate)) * rate + rate
  {
    QuotientBounds(k * NS_PER_SEC, rate);
    QuotientBounds(m * NS_PER_SEC, rate);
    QuotientMono(k * NS_PER_SEC, m * NS_PER_SEC, rate);
    Distribute(TickNs(m, rate) - TickNs(k, rate), TickNs(k, rate), rate);
  }

  /**
   A smaller correction can outlive the fault that caused it. The first stamp is 200 ms ahead of its
   arrival and is latched; the sender then recovers to 100 ms ahead, which is sane, but the correction
   stays and the capture is moved by 200 ms.
   */
  lemma {:induction false} LatchCanOutliveRecovery()
    ensures var c := MediaClock(VIDEO_RATE);
            var faulty := Arrival(2_700_018_000, 30_000_000_000_000);
            var sane := Arrival(2_700_099_000, 30_001_000_000_000);
            Outlives(c, VIDEO_BOUND, faulty, sane, 200_000_000)
  {
    OutlivesAt(Arrival(2_700_018_000, 30_000_000_000_000), Arrival(2_700_099_000, 30_001_000_000_000), 300_000_000);
  }

  /** The correction that `faulty` latches stays at the sane stamp after it, and moves its capture by `moved`. */
  ghost predicate Outlives(c: Clock, bound: int, faulty: Arrival, sane: Arrival, moved: int) {
    var latched := Step(Guard(0, 0), c, bound, faulty).0;
    var (g, cap) := Step(latched, c, bound, sane);
    && Sane(c.unwrap(sane.ts, sane.ref), sane.ref, bound)
    && g.delta == latched.delta != 0 && c.unwrap(sane.ts, sane.ref) - cap == moved
  }

  /** The two arrivals, the first of them `n` times nine ticks (100 us) after the epoch. */
  lemma {:induction false} OutlivesAt(faulty: Arrival, sane: Arrival, n: nat)
    requires 1_000_000 <= n <= 300_000_000
    requires faulty.ref == n * 100_000 && faulty.ts == 9 * (n + 2000)
    requires sane.ref == (n + 10_000) * 100_000 && sane.ts == 9 * (n + 11_000)
    ensures Outlives(MediaClock(VIDEO_RATE), VIDEO_BOUND, faulty, sane, 200_000_000)
  {
    var c, delta: U32 := MediaClock(VIDEO_RATE), TWO32 - 18_000;
    FaultyAt(c, faulty, n);
    SaneAt(c, sane, n + 10_000);
    KeptAt(c, sane, delta, n + 10_000);
    OutlivesWhen(c, VIDEO_BOUND, faulty, sane, delta,
                 (n + 2000) * 100_000, (n + 11_000) * 100_000, (n + 9000) * 100_000);
  }

  lemma {:induction false} FaultyAt(c: Clock, a: Arrival, n: nat)
    requires c == MediaClock(VIDEO_RATE) && 1_000_000 <= n <= 300_000_000
    requires a.ref == n * 100_000 && a.ts == 9 * (n + 2000)
    ensures c.unwrap(a.ts, a.ref) == (n + 2000) * 100_000 < TWO64
    ensures !Sane((n + 2000) * 100_000, a.ref, VIDEO_BOUND) && c.restamp(a.ts, a.ref) == TWO32 - 18_000
  {
    UnwrapsTo(a.ts, a.ref, n, n + 2000);
  }

  lemma {:induction false} SaneAt(c: Clock, a: Arrival, n: nat)
    requires c == MediaClock(VIDEO_RATE) && 1_000_000 <= n < 400_000_000
    requires a.ref == n * 100_000 && a.ts == 9 * (n + 1000)
    ensures c.unwrap(a.ts, a.ref) == (n + 1000) * 100_000 < TWO64 && Sane((n + 1000) * 100_000, a.ref, VIDEO_BOUND)
  {
    UnwrapsTo(a.ts, a.ref, n, n + 1000);
  }

  lemma {:induction false} KeptAt(c: Clock, a: Arrival, delta: U32, n: nat)
    requires c == MediaClock(VIDEO_RATE) && 1_001_000 <= n < 400_000_000 && delta == TWO32 - 18_000
    requires a.ref == n * 100_000 && a.ts == 9 * (n + 1000)
    ensures c.unwrap(Corrected(a.ts, delta), a.ref) == (n - 1000) * 100_000 < TWO64
    ensures Sane((n - 1000) * 100_000, a.ref, VIDEO_BOUND)
  {
    AddDelta(n - 1000);
    UnwrapsTo(Corrected(a.ts, delta), a.ref, n, n - 1000);
  }

  lemma {:induction false} AddDelta(k: nat)
    requires 9 * (k + 2000) < TWO32
    ensures Corrected(9 * (k + 2000), TWO32 - 18_000) == 9 * k
  {
  }

  /** A stamp `k - near` steps of 100 us off its arrival, up to a second: what it unwraps to, and whether it is sane. */
  lemma {:induction false} UnwrapsTo(ts: U32, ref: U64, near: nat, k: nat)
    requires 1_000_000 <= near < 400_000_000 && near - 10_000 <= k <= near + 10_000
    requires ts == 9 * k && ref == near * 100_000
    ensures UnwrapNs(ts, VIDEO_RATE, ref) == k * 100_000
    ensures RestampDelta(ts, VIDEO_RATE, ref) == (9 * near - ts) % TWO32
    ensures k * 100_000 < TWO64 && (Sane(k * 100_000, ref, VIDEO_BOUND) <==> -1500 <= k - near <= 1500)
  {
    Number(ts, near, k);
    SaneIsClose(k * 100_000, ref, VIDEO_BOUND);
  }

  lemma {:induction false} OutlivesWhen(
    c: Clock, bound: int, faulty: Arrival, sane: Arrival, delta: U32, off: U64, raw: U64, cap: U64)
    requires c.unwrap(faulty.ts, faulty.ref) == off && !Sane(off, faulty.ref, bound)
    requires c.restamp(faulty.ts, faulty.ref) == delta != 0
    requires c.unwrap(sane.ts, sane.ref) == raw && Sane(raw, sane.ref, bound)
    requires c.unwrap(Corrected(sane.ts, delta), sane.ref) == cap && Sane(cap, sane.ref, bound)
    ensures Outlives(c, bound, faulty, sane, raw - cap)
  {
    Latches(c, faulty, bound);
    Stays(Guard(delta, 1), c, sane, bound);
  }

  lemma {:induction false} Latches(c: Clock, a: Arrival, bound: int)
    requires !Sane(c.unwrap(a.ts, a.ref), a.ref, bound)
    ensures Step(Guard(0, 0), c, bound, a).0 == Guard(c.restamp(a.ts, a.ref), 1)
  {
    assert Corrected(a.ts, 0) == a.ts;
  }

  lemma {:induction false} Stays(g: Guard, c: Clock, a: Arrival, bound: int)
    requires Sane(c.unwrap(Corrected(a.ts, g.delta), a.ref), a.ref, bound)
    ensures Step(g, c, bound, a) == (g, c.unwrap(Corrected(a.ts, g.delta), a.ref))
  {
  }

  /** A video stamp worked out: nine ticks are 100 us, and its reference and its own tick are multiples of that. */
  lemma {:induction false} Number(ts: U32, near: nat, k: nat)
    requires 1_000_000 <= near < 400_000_000 && near - 100_000 <= k <= near + 100_000 && ts == 9 * k
    ensures UnwrapNs(ts, VIDEO_RATE, near * 100_000) == k * 100_000
    ensures RestampDelta(ts, VIDEO_RATE, near * 100_000) == (9 * near - ts) % TWO32
  {
    NinthTicks(near);
    NinthNs(k);
    NearTick(ts, 9 * near);
  }

  lemma {:induction false} NearTick(ts: U32, near: nat)
    requires 1_000_000 <= near < TWO32 && -1_000_000 <= near - ts <= 1_000_000
    ensures UnwrapTick(ts, near) == ts
  {
  }

  lemma {:induction false} NinthTicks(n: nat)
    requires n * 100_000 < TWO64
    ensures TicksAbs(n * 100_000, VIDEO_RATE) == 9 * n
  {
    QuotientIs(n * 100_000 * VIDEO_RATE, NS_PER_SEC, 9 * n);
  }

  lemma {:induction false} NinthNs(n: nat)
    ensures TickNs(9 * n, VIDEO_RATE) == n * 100_000
  {
    QuotientIs(9 * n * NS_PER_SEC, VIDEO_RATE, n * 100_000);
  }
}
