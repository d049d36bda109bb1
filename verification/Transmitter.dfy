/** The video transmitter as a whole: the schedule decides, the packetizer cuts, the pacer stamps. */
module Transmitter {
  import opened VideoFormat
  import opened Planner
  import opened Packetizer
  import opened RtpTime
  import opened TxPacer
  import opened PacingSchedule
  import TxServo
  import ServoRuns

  /** A time as the 64-bit counters hold it: itself, before the end of the clock. */
  function Wrapped(ns: int): (r: U64)
    ensures 0 <= ns < 0x1_0000_0000_0000_0000 ==> r == ns
  {
    ns % TWO64
  }

  class VideoTx {
    const schedule: TxServo.TxSchedule
    const pktz: FramePacketizer
    const pacing: Pacing

    ghost predicate Valid()
      reads pktz
    {
      pktz.Valid()
    }

    constructor (cfg: TxServo.Config, f: Format, maxPayload: nat, pacing: Pacing)
      ensures Valid() && fresh(schedule) && fresh(pktz)
      ensures schedule.cfg == cfg && schedule.State() == TxServo.INIT && pktz.sequence == 0
      ensures pktz.f == f && pktz.maxPayload == maxPayload && this.pacing == pacing
    {
      schedule := new TxServo.TxSchedule(cfg);
      pktz := new FramePacketizer(f, maxPayload);
      this.pacing := pacing;
    }

    /**
     One received frame: nothing goes out if the schedule skips it; else every packet of the frame does, all
     with the stamp of its media time, in consecutive sequence numbers, each at its time from the base.
     */
    method SendVideo(capture: nat, now: nat) returns (out: TxServo.Outcome, plans: seq<Plan>, times: seq<nat>)
      requires Valid()
      modifies schedule, pktz
      ensures Valid()
      ensures (schedule.State(), out)
           == TxServo.Step(schedule.cfg, old(schedule.State()), TxServo.Frame(capture, now))
      ensures out.Skipped? ==> plans == [] && times == [] && pktz.sequence == old(pktz.sequence)
      ensures out.Sent? ==>
        var ps := Packets(pktz.f, pktz.maxPayload, Cursor(0, 0));
        && |plans| == |ps| && pktz.sequence == (old(pktz.sequence) + |ps|) % TWO32
        && LastMarks(plans, |ps|, Fits(pktz.f, pktz.maxPayload))
        && AllSentAs(plans, times, ps, old(pktz.sequence), Timestamp90k(Wrapped(out.media)), pacing,
                     Wrapped(out.base), now)
    {
      plans, times := [], [];
      out := schedule.Compute(capture, now);
      if out.Sent? {
        pktz.StartFrame(Timestamp90k(Wrapped(out.media)));
        plans, times := SendFrame(pktz, pacing, Wrapped(out.base), now);
      }
    }
  }

  /** The pacer's choices for one stream. */
  datatype Stream = Stream(f: Format, payload: nat, interval: nat, window: nat, wide: bool, burst: Option<bool>) {
    ghost predicate Valid() {
      && Fits(f, payload) && f.height > 0 && window > 0
      && (Mode().Gapped? ==> f.Whole(payload - 20))
    }

    function FramePlan(): seq<seq<Srd>> {
      Packets(f, payload, Cursor(0, 0))
    }

    function Mode(): Pacing {
      EnsurePacer(f, payload, interval, window, |FramePlan()|, wide, burst)
    }
  }

  /** Packet `i` of a frame with this base goes out as it is due, or back to back: nothing holds it up. */
  ghost predicate Unclamped(st: Stream, base: nat, now: nat, i: nat)
    requires i < |st.FramePlan()|
  {
    var lines := Lines(st.FramePlan());
    && base <= DueTime(st.Mode(), base, lines, i) < base + st.window
    && SendTime(st.Mode(), base, now, lines, i) in {0, DueTime(st.Mode(), base, lines, i)}
  }

  lemma {:induction false} AheadIsUnclamped(st: Stream, base: nat, now: nat, i: nat)
    requires st.Valid() && now <= base && i < |st.FramePlan()|
    ensures Unclamped(st, base, now, i)
  {
    FrameSchedule(st.f, st.payload, st.interval, st.window, st.wide, st.burst, base, now, i, i);
  }

  /**
   In a genlocked run whose trim step is at most a quarter of the re-anchor lead, the pacing of a sent frame
   is never squeezed against the present: every packet leaves as due, between a quarter of the lead less the
   trim step and the upper lead bound plus the window after the frame was handed over.
   */
  lemma {:induction false} GenlockedPacketsOnTime(
    st: Stream, cfg: TxServo.Config, s: TxServo.Servo, frames: seq<TxServo.Frame>, k: nat, i: nat)
    requires st.Valid() && i < |st.FramePlan()| && cfg.trim <= cfg.tgt / 4
    requires ServoRuns.Genlocked(cfg, frames) && ServoRuns.Inv(s) && k < |frames|
    requires ServoRuns.Run(cfg, s, frames).1[k].Sent?
    ensures var base, now := ServoRuns.Run(cfg, s, frames).1[k].base, frames[k].now;
            && 0 <= base && Unclamped(st, base, now, i)
            && now + cfg.tgt / 4 - cfg.trim <= DueTime(st.Mode(), base, Lines(st.FramePlan()), i)
               < now + TxServo.Max(2 * cfg.interval, cfg.tgt) + st.window
  {
    ServoRuns.RunSentLead(cfg, s, frames, k);
    AheadIsUnclamped(st, ServoRuns.Run(cfg, s, frames).1[k].base, frames[k].now, i);
  }

  /** With a fixed latency every packet of a sent frame leaves as due from capture plus latency, at least 2 ms ahead. */
  lemma {:induction false} FixedPacketsOnTime(
    st: Stream, cfg: TxServo.Config, s: TxServo.Servo, frames: seq<TxServo.Frame>, k: nat, i: nat)
    requires st.Valid() && i < |st.FramePlan()| && cfg.fixedL > 0
    requires k < |frames| && frames[k].capture != 0 && ServoRuns.Run(cfg, s, frames).1[k].Sent?
    ensures var base: nat := frames[k].capture + cfg.fixedL;
            && ServoRuns.Run(cfg, s, frames).1[k].base == base && Unclamped(st, base, frames[k].now, i)
            && frames[k].now + 2_000_000 <= DueTime(st.Mode(), base, Lines(st.FramePlan()), i)
  {
    ServoRuns.FixedNeverShifts(cfg, s, frames, k);
    AheadIsUnclamped(st, frames[k].capture + cfg.fixedL, frames[k].now, i);
  }
}
