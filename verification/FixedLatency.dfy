/**
 The fixed-latency schedule: video and audio both leave at their capture time plus a constant, and both
 carry RTP stamps of the time they leave.
 */
module FixedLatency {
  import opened Arithmetic
  import opened VideoFormat
  import opened RtpTime
  import opened EpochGuard
  import opened Wire
  import TxServo

  const LATE_DROP := 50_000_000
  const RTP_MINIMUM := 12

  // ----- The audio relay -----

  datatype Relayed =
    | Ignored
    | Dropped
    | Sent(time: U64)

  /** The constant that the relay adds to every stamp: the ticks of the shift, with its sign, modulo 2^32. */
  function TickShift(shift: int, rate: nat): U32
    requires -TWO64 < shift < TWO64
  {
    if shift >= 0 then TicksAbs(shift, rate) % TWO32 else (0 - TicksAbs(-shift, rate)) % TWO32
  }

  function Due(capture: U64, shift: int): U64 {
    (capture + shift) % TWO64
  }

  /** Hold one packet for the shift: restamp it in place, and say when the NIC sends it; 0 is at once. */
  method RelayPacket(rtp: array<Byte>, capture: U64, tsDelta: U32, shift: int, rate: nat, now: U64)
    returns (r: Relayed)
    requires -TWO64 < shift < TWO64
    modifies rtp
    ensures r.Ignored? <==> rtp.Length < 12
    ensures r.Dropped? <==> rtp.Length >= 12 && Signed64(now) - Signed64(Due(capture, shift)) > 50_000_000
    ensures !r.Sent? ==> rtp[..] == old(rtp[..])
    ensures r.Sent? ==>
      && r.time == (if Due(capture, shift) <= now then 0 else Due(capture, shift))
      && rtp[..] == old(rtp[..4]) + Be32((Read32(old(rtp[..]), 4) + TickShift(shift, rate) + tsDelta) % TWO32)
                    + old(rtp[8..])
  {
    if rtp.Length < RTP_MINIMUM { return Ignored; }
    var due := Due(capture, shift);
    if Signed64(now) - Signed64(due) > LATE_DROP { return Dropped; }
    var ts: int := Read32(rtp[..], 4);
    var b := Be32((ts + TickShift(shift, rate) + tsDelta) % TWO32);
    rtp[4], rtp[5], rtp[6], rtp[7] := b[0], b[1], b[2], b[3];
    assert rtp[..8] == old(rtp[..4]) + b;
    r := Sent(if due <= now then 0 else due);
  }

  // ----- Shifting a tick by a time -----

  /** How many whole seconds' worth of remainder `x` reaches into. */
  function Ceil(x: nat): nat {
    if x == 0 then 0 else if x <= NS_PER_SEC then 1 else 2
  }

  /** The ticks that rounding loses when the instant of tick `k` is shifted and read back in ticks. */
  function ShiftLoss(k: nat, rate: nat, shift: int): (loss: nat)
    requires rate > 0
    ensures loss <= if shift >= 0 then 1 else 2
  {
    if shift >= 0 then if shift * rate % NS_PER_SEC >= k * NS_PER_SEC % rate then 0 else 1
    else
      var m: nat := -shift;
      Ceil(k * NS_PER_SEC % rate + m * rate % NS_PER_SEC)
  }

  // ----- Stamps on the wire -----

  /** `cap` is the instant of tick `k`, and `k` has the stamp `ts`: what unwrapping and the guard deliver. */
  ghost predicate CapturedAt(cap: nat, ts: U32, k: nat, rate: nat)
    requires rate > 0
  {
    cap == TickNs(k, rate) && k % TWO32 == ts
  }

  /** Whatever the guard did, the capture is the instant of the stamp with the correction now in force. */
  lemma {:induction false} GuardedCapture(g: Guard, rate: nat, bound: int, a: Arrival)
    requires 0 < rate <= NS_PER_SEC
    requires NamesTick(Corrected(a.ts, Step(g, MediaClock(rate), bound, a).0.delta), a.ref, rate)
    ensures var (g', cap) := Step(g, MediaClock(rate), bound, a);
            var ts := Corrected(a.ts, g'.delta);
            CapturedAt(cap, ts, StampTick(ts, Ticks(a.ref, rate)), rate)
  {
    var (g', cap) := Step(g, MediaClock(rate), bound, a);
    var ts := Corrected(a.ts, g'.delta);
    CaptureUnwrapsCorrected(g, MediaClock(rate), bound, a);
    UnwrapIsTick(ts, rate, a.ref);
    StampTickStamp(ts, Ticks(a.ref, rate));
  }

  lemma {:induction false} CaptureUnwrapsCorrected(g: Guard, c: Clock, bound: int, a: Arrival)
    ensures Step(g, c, bound, a).1 == c.unwrap(Corrected(a.ts, Step(g, c, bound, a).0.delta), a.ref)
  {
    assert Corrected(a.ts, 0) == a.ts;
  }

  lemma {:induction false} StampTickStamp(ts: U32, near: nat)
    ensures StampTick(ts, near) % TWO32 == ts
  {
  }

  /** The video stamp is the input stamp plus the ticks of the latency, or exactly one tick less. */
  lemma {:induction false} VideoStamp(cfg: TxServo.Config, s: TxServo.Servo, ts: U32, k: nat, capture: nat, now: nat)
    requires CapturedAt(capture, ts, k, VIDEO_RATE) && TxServo.FixedActive(cfg, TxServo.Frame(capture, now))
    requires capture + cfg.fixedL < TWO64
    requires TxServo.Step(cfg, s, TxServo.Frame(capture, now)).1.Sent?
    ensures var out := TxServo.Step(cfg, s, TxServo.Frame(capture, now)).1;
            && out.base == out.media == capture + cfg.fixedL
            && Timestamp90k(out.media)
               == (ts + Ticks(cfg.fixedL, VIDEO_RATE) - ShiftLoss(k, VIDEO_RATE, cfg.fixedL)) % TWO32
  {
    SplitStampExact(capture + cfg.fixedL);
    ShiftForward(k, VIDEO_RATE, cfg.fixedL);
    AddStamp(k, ts, Ticks(cfg.fixedL, VIDEO_RATE) - ShiftLoss(k, VIDEO_RATE, cfg.fixedL));
  }

  lemma {:induction false} AddStamp(k: nat, ts: U32, d: int)
    requires k % TWO32 == ts
    ensures (k + d) % TWO32 == (ts + d) % TWO32
  {
  }

  /** Forward: the tick count of the shift, less one tick exactly when the rounding of the instant exceeds it. */
  lemma {:induction false} ShiftForward(k: nat, rate: nat, shift: nat)
    requires 0 < rate <= NS_PER_SEC
    ensures Ticks(TickNs(k, rate) + shift, rate)
         == k + Ticks(shift, rate) - ShiftLoss(k, rate, shift)
  {
    var t, r := TickNs(k, rate), k * NS_PER_SEC % rate;
    var q, s := Ticks(shift, rate), shift * rate % NS_PER_SEC;
    assert t * rate == k * NS_PER_SEC - r;
    Distribute(t, shift, rate);
    RetickBelow((t + shift) * rate, k + q, s - r);
  }

  /** Backward: up to two ticks are lost, one for each rounding that does not come out even. */
  lemma {:induction false} ShiftBack(k: nat, rate: nat, shift: nat)
    requires 0 < rate <= NS_PER_SEC && 0 < shift <= TickNs(k, rate)
    ensures Ticks(TickNs(k, rate) - shift, rate)
         == k - Ticks(shift, rate) - ShiftLoss(k, rate, 0 - shift)
  {
    var t, r := TickNs(k, rate), k * NS_PER_SEC % rate;
    var q, s := Ticks(shift, rate), shift * rate % NS_PER_SEC;
    assert t * rate == k * NS_PER_SEC - r;
    Distribute(t - shift, shift, rate);
    RetickBelow((t - shift) * rate, k - q, -r - s);
  }

  lemma {:induction false} RetickBelow(a: nat, k: int, rest: int)
    requires a == k * NS_PER_SEC + rest && -2 * NS_PER_SEC < rest < NS_PER_SEC
    ensures a / NS_PER_SEC == if rest >= 0 then k else k - Ceil(-rest)
  {
  }

  lemma {:induction false} ShiftedTick(k: nat, rate: nat, shift: int)
    requires 0 < rate <= NS_PER_SEC && 0 <= TickNs(k, rate) + shift
    requires -TWO64 < shift < TWO64
    ensures (Ticks(TickNs(k, rate) + shift, rate) + ShiftLoss(k, rate, shift)) % TWO32
         == (k + TickShift(shift, rate)) % TWO32
  {
    if shift >= 0 {
      TicksFit(shift, rate);
      ShiftForward(k, rate, shift);
      AddMod(k, Ticks(shift, rate));
    } else {
      var m: nat := -shift;
      TicksFit(m, rate);
      ShiftBack(k, rate, m);
      AddMod(k, 0 - Ticks(m, rate));
    }
  }

  lemma {:induction false} AddMod(k: nat, d: int)
    ensures (k + d % TWO32) % TWO32 == (k + d) % TWO32
  {
  }

  /**
   The relayed audio stamp is the tick of the time the packet is due, or later by one tick for a shift
   forward and by at most two for a shift back, exactly as the roundings fall.
   */
  lemma {:induction false} AudioStampIsDue(ts: U32, tsDelta: U32, k: nat, capture: U64, shift: int, rate: nat)
    requires 0 < rate <= NS_PER_SEC && CapturedAt(capture, Corrected(ts, tsDelta), k, rate)
    requires -TWO64 < shift < TWO64 && 0 <= capture + shift < TWO64
    ensures (ts + TickShift(shift, rate) + tsDelta) % TWO32
         == (Ticks(Due(capture, shift), rate) + ShiftLoss(k, rate, shift)) % TWO32
  {
    ShiftedTick(k, rate, shift);
    DueIs(capture, shift);
    ShiftedStamp(k, ts, tsDelta, TickShift(shift, rate));
  }

  lemma {:induction false} DueIs(capture: U64, shift: int)
    requires 0 <= capture + shift < TWO64
    ensures Due(capture, shift) == capture + shift
  {
  }

  lemma {:induction false} ShiftedStamp(k: nat, ts: U32, tsDelta: U32, d: nat)
    requires k % TWO32 == Corrected(ts, tsDelta)
    ensures (ts + d + tsDelta) % TWO32 == (k + d) % TWO32
  {
  }

  // ----- Lip-sync -----

  /** The clock with the longer tick. */
  function Slower(a: nat, b: nat): nat {
    if a < b then a else b
  }

  /**
   Sound and picture of one instant `t`, each stamped by its own clock and unwrapped against its own arrival,
   leave apart by the A/V offset to within the longer of the two ticks and 1 ns; at 48 kHz that is the audio's.
   */
  lemma {:induction false} LipSync(
    t: U64, videoRef: U64, audioRef: U64, audioRate: nat, cfg: TxServo.Config, s: TxServo.Servo, now: nat,
    avOffset: int)
    requires 0 < audioRate <= NS_PER_SEC && cfg.fixedL > 0
    requires -TWO31 <= Ticks(videoRef, VIDEO_RATE) - Ticks(t, VIDEO_RATE) < TWO31
    requires -TWO31 <= Ticks(audioRef, audioRate) - Ticks(t, audioRate) < TWO31
    ensures var video := UnwrapNs(Ticks(t, VIDEO_RATE) % TWO32, VIDEO_RATE, videoRef);
            var audio := UnwrapNs(Ticks(t, audioRate) % TWO32, audioRate, audioRef);
            var out := TxServo.Step(cfg, s, TxServo.Frame(video, now)).1;
            var due := audio + cfg.fixedL + avOffset;
            var slow := Slower(audioRate, VIDEO_RATE);
            video != 0 && out.Sent? ==> Abs(due - out.base - avOffset) * slow < NS_PER_SEC + slow
  {
    var video := UnwrapNs(Ticks(t, VIDEO_RATE) % TWO32, VIDEO_RATE, videoRef);
    var audio := UnwrapNs(Ticks(t, audioRate) % TWO32, audioRate, audioRef);
    UnwrapRecovers(t, videoRef, VIDEO_RATE);
    UnwrapRecovers(t, audioRef, audioRate);
    var slow := Slower(audioRate, VIDEO_RATE);
    SlowerClock(t - video, VIDEO_RATE, slow);
    SlowerClock(t - audio, audioRate, slow);
    Closer(t - video, t - audio, slow);
  }

  /** Less than a tick and 1 ns of one clock is less than a tick and 1 ns of a slower one. */
  lemma {:induction false} SlowerClock(a: nat, rate: nat, slow: nat)
    requires 0 < slow <= rate && a * rate < NS_PER_SEC + rate
    ensures a * slow < NS_PER_SEC + slow
  {
    if a > 0 {
      Distribute(a - 1, 1, rate);
      Distribute(a - 1, 1, slow);
      MulMono(slow, rate, a - 1);
    }
  }

  lemma {:induction false} Closer(a: nat, b: nat, rate: nat)
    requires a * rate < NS_PER_SEC + rate && b * rate < NS_PER_SEC + rate
    ensures Abs(a - b) * rate < NS_PER_SEC + rate
  {
    if a > b {
      MulMono(a - b, a, rate);
    } else {
      MulMono(b - a, b, rate);
    }
  }
}
