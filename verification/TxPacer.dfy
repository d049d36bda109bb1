/** The send time of every packet of a frame, in the three pacing modes. */
module TxPacer {
  import opened Arithmetic
  import opened VideoFormat
  import opened Planner
  import opened Packetizer
  import opened RtpTime

  const BURST_INTERVAL := 20_000_000

  /**
   Even spreads the packets over the window; Gapped starts each line at its slot and bunches its packets;
   LineBurst stamps the first packet of each line only, and a send time of 0 means back to back.
   */
  datatype Pacing =
    | Even(gap: nat)
    | Gapped(tLine: nat, intraGap: nat)
    | LineBurst(tLine: nat)

  /** Packets per line as the pacer estimates it from the payload budget. */
  function EstimatedPerLine(f: Format, payload: nat): nat {
    var pixels := if payload > 20 then payload - 20 else 1;
    Quotient(f.LineOctets() + pixels - 1, pixels)
  }

  /**
   The pacing of a stream: `window` is the paced part of the frame interval, `perFrame` the packet count of
   a frame, `burst` an override of the choice for IP10.
   */
  function EnsurePacer(
    f: Format, payload: nat, interval: nat, window: nat, perFrame: nat, wide: bool, burst: Option<bool>): Pacing
  {
    var ip10 := f.sampling == YCbCr422_8;
    var ip10Burst := ip10 && (if burst.Some? then burst.value else interval < BURST_INTERVAL);
    var gap := if perFrame > 0 then Quotient(window, perFrame) else 0;
    if f.height > 0 && (ip10Burst || (!ip10 && f.height >= 2160)) then LineBurst(Quotient(window, f.height))
    else if f.height > 0 && ip10 && !wide then
      Gapped(Quotient(window, f.height), IntraGap(Quotient(window, f.height), EstimatedPerLine(f, payload), gap))
    else Even(gap)
  }

  /** The spacing that spreads `perLine` packets over 73% of a line's slot. */
  function IntraGap(tLine: nat, perLine: nat, gap: nat): nat {
    if perLine > 1 then Quotient(tLine * 73, 100 * (perLine - 1)) else gap
  }

  // ----- The send times as a function of the packets' lines -----

  predicate StartsLine(lines: seq<nat>, i: nat)
    requires i < |lines|
  {
    i == 0 || lines[i] != lines[i - 1]
  }

  /** How many packets of its line come before packet `i`. */
  function IndexInLine(lines: seq<nat>, i: nat): nat
    requires i < |lines|
  {
    if StartsLine(lines, i) then 0 else IndexInLine(lines, i - 1) + 1
  }

  /** When packet `i` is due, before it is held back to the present. */
  function DueTime(pacing: Pacing, base: nat, lines: seq<nat>, i: nat): nat
    requires i < |lines|
  {
    match pacing
    case Even(gap) => base + i * gap
    case Gapped(tLine, intraGap) => base + lines[i] * tLine + IndexInLine(lines, i) * intraGap
    case LineBurst(tLine) => base + lines[i] * tLine
  }

  function SendTime(pacing: Pacing, base: nat, now: nat, lines: seq<nat>, i: nat): nat
    requires i < |lines|
  {
    if pacing.LineBurst? && !StartsLine(lines, i) then 0
    else
      var due := DueTime(pacing, base, lines, i);
      if due < now then now else due
  }

  function Lines(ps: seq<seq<Srd>>): (lines: seq<nat>)
    ensures |lines| == |ps|
  {
    seq(|ps|, i requires 0 <= i < |ps| => if |ps[i]| > 0 then ps[i][0].line else 0)
  }

  /** The line that the pacer last stamped, and how many of its packets came before. */
  ghost predicate Paced(pacing: Pacing, lines: seq<nat>, n: nat, paceLine: nat, paceIntra: nat)
    requires n <= |lines|
  {
    n > 0 && !pacing.Even? ==>
      paceLine == lines[n - 1] && (pacing.Gapped? ==> paceIntra == IndexInLine(lines, n - 1))
  }

  /** The send time of packet `i`, and the pacer's memory after it. */
  method StampPacket(
    pacing: Pacing, base: nat, now: nat, i: nat, line: nat, paceLine: nat, paceIntra: nat, ghost lines: seq<nat>)
    returns (sendTs: nat, paceLine': nat, paceIntra': nat)
    requires i < |lines| && line == lines[i] && Paced(pacing, lines, i, paceLine, paceIntra)
    ensures sendTs == SendTime(pacing, base, now, lines, i)
    ensures Paced(pacing, lines, i + 1, paceLine', paceIntra')
  {
    paceLine', paceIntra' := paceLine, paceIntra;
    match pacing {
      case LineBurst(tLine) =>
        if i == 0 || line != paceLine {
          paceLine' := line;
          sendTs := base + line * tLine;
          if sendTs < now { sendTs := now; }
        } else {
          sendTs := 0;
        }
      case Gapped(tLine, intraGap) =>
        if i == 0 || line != paceLine {
          paceLine', paceIntra' := line, 0;
        } else {
          paceIntra' := paceIntra + 1;
        }
        sendTs := base + line * tLine + paceIntra' * intraGap;
        if sendTs < now { sendTs := now; }
      case Even(gap) =>
        sendTs := base + i * gap;
        if sendTs < now { sendTs := now; }
    }
  }

  /** Packet `i` as sent: its segments, its numbers and its send time. */
  ghost predicate SentAs(
    plan: Plan, time: nat, ps: seq<seq<Srd>>, i: nat, sequence: U32, timestamp: U32, pacing: Pacing, base: nat,
    now: nat)
    requires i < |ps|
  {
    && plan.srds == ps[i]
    && plan.sequence == (sequence + i) % TWO32 && plan.timestamp == timestamp
    && plan.payloadLen == RTP_AND_ESN + SRD_HEADER * |ps[i]| + Octets(ps[i])
    && time == SendTime(pacing, base, now, Lines(ps), i)
  }

  /** The packets sent so far, in order. */
  ghost predicate AllSentAs(
    plans: seq<Plan>, times: seq<nat>, ps: seq<seq<Srd>>, sequence: U32, timestamp: U32, pacing: Pacing, base: nat,
    now: nat)
  {
    && |plans| == |times| <= |ps|
    && forall i :: 0 <= i < |plans| ==> SentAs(plans[i], times[i], ps, i, sequence, timestamp, pacing, base, now)
  }

  /** Only the last of the frame's `n` packets carries the marker; it does if the frame fits its headers. */
  ghost predicate LastMarks(plans: seq<Plan>, n: nat, fits: bool) {
    forall i :: 0 <= i < |plans| ==> Marks(plans[i], i, n, fits)
  }

  ghost predicate Marks(plan: Plan, i: nat, n: nat, fits: bool) {
    (plan.marker ==> i + 1 == n) && (fits && i + 1 == n ==> plan.marker)
  }

  lemma {:induction false} OneMoreSent(
    plans: seq<Plan>, times: seq<nat>, p: Plan, time: nat, ps: seq<seq<Srd>>, sequence: U32, timestamp: U32,
    pacing: Pacing, base: nat, now: nat, fits: bool)
    requires AllSentAs(plans, times, ps, sequence, timestamp, pacing, base, now) && |plans| < |ps|
    requires SentAs(p, time, ps, |plans|, sequence, timestamp, pacing, base, now)
    requires LastMarks(plans, |ps|, fits) && Marks(p, |plans|, |ps|, fits)
    ensures AllSentAs(plans + [p], times + [time], ps, sequence, timestamp, pacing, base, now)
    ensures LastMarks(plans + [p], |ps|, fits)
  {
  }

  lemma {:induction false} NextSequence(sequence: U32, n: nat)
    ensures ((sequence + n) % TWO32 + 1) % TWO32 == (sequence + (n + 1)) % TWO32
  {
  }

  /** The packets sent so far, and what the pacer remembers of them. */
  ghost predicate SentSoFar(
    plans: seq<Plan>, times: seq<nat>, ps: seq<seq<Srd>>, first: U32, timestamp: U32, fits: bool, pacing: Pacing,
    base: nat, now: nat, paceLine: nat, paceIntra: nat)
  {
    && AllSentAs(plans, times, ps, first, timestamp, pacing, base, now) && LastMarks(plans, |ps|, fits)
    && Paced(pacing, Lines(ps), |plans|, paceLine, paceIntra)
  }

  /** The same, and the packetizer has the rest of them to come. */
  ghost predicate Sent(
    plans: seq<Plan>, times: seq<nat>, ps: seq<seq<Srd>>, first: U32, pktz: FramePacketizer, pacing: Pacing,
    base: nat, now: nat, paceLine: nat, paceIntra: nat)
    reads pktz
  {
    && pktz.Valid()
    && SentSoFar(plans, times, ps, first, pktz.timestamp, Fits(pktz.f, pktz.maxPayload), pacing, base, now,
                 paceLine, paceIntra)
    && pktz.ToCome() == ps[|plans|..] && pktz.sequence == (first + |plans|) % TWO32
  }

  /** The packet loop of the transmitter: every packet of the frame with its send time. */
  method SendFrame(pktz: FramePacketizer, pacing: Pacing, base: nat, now: nat)
    returns (plans: seq<Plan>, times: seq<nat>)
    requires pktz.Valid()
    modifies pktz
    ensures pktz.Valid() && pktz.ToCome() == []
    ensures |plans| == |old(pktz.ToCome())| && pktz.sequence == (old(pktz.sequence) + |plans|) % TWO32
    ensures AllSentAs(plans, times, old(pktz.ToCome()), old(pktz.sequence), old(pktz.timestamp), pacing, base, now)
    ensures LastMarks(plans, |plans|, Fits(pktz.f, pktz.maxPayload))
  {
    ghost var ps, first, stamp := pktz.ToCome(), pktz.sequence, pktz.timestamp;
    plans, times := [], [];
    var paceLine: nat, paceIntra: nat, more := 0, 0, true;
    while more
      invariant Sent(plans, times, ps, first, pktz, pacing, base, now, paceLine, paceIntra)
      invariant pktz.timestamp == stamp && (more || |plans| == |ps|)
      decreases more, |ps| - |plans|
    {
      more, plans, times, paceLine, paceIntra :=
        SendNext(pktz, pacing, base, now, plans, times, paceLine, paceIntra, ps, first);
    }
  }

  /** The next packet, if the frame has one, and its send time. */
  method SendNext(
    pktz: FramePacketizer, pacing: Pacing, base: nat, now: nat, plans: seq<Plan>, times: seq<nat>, paceLine: nat,
    paceIntra: nat, ghost ps: seq<seq<Srd>>, ghost first: U32)
    returns (more: bool, plans': seq<Plan>, times': seq<nat>, paceLine': nat, paceIntra': nat)
    requires Sent(plans, times, ps, first, pktz, pacing, base, now, paceLine, paceIntra)
    modifies pktz
    ensures Sent(plans', times', ps, first, pktz, pacing, base, now, paceLine', paceIntra')
    ensures pktz.timestamp == old(pktz.timestamp) && more == (|plans| < |ps|)
    ensures |plans'| == if more then |plans| + 1 else |plans|
  {
    plans', times', paceLine', paceIntra' := plans, times, paceLine, paceIntra;
    var next := pktz.Next();
    more := next.Some?;
    if more {
      NextSequence(first, |plans|);
      plans', times', paceLine', paceIntra' :=
        Stamp(next.value, plans, times, pacing, base, now, paceLine, paceIntra, ps, pktz.ToCome(), first,
              pktz.timestamp, Fits(pktz.f, pktz.maxPayload));
    }
  }

  /** The packet that the packetizer yielded, with `rest` to come after it. */
  method Stamp(
    p: Plan, plans: seq<Plan>, times: seq<nat>, pacing: Pacing, base: nat, now: nat, paceLine: nat, paceIntra: nat,
    ghost ps: seq<seq<Srd>>, ghost rest: seq<seq<Srd>>, ghost first: U32, ghost timestamp: U32, ghost fits: bool)
    returns (plans': seq<Plan>, times': seq<nat>, paceLine': nat, paceIntra': nat)
    requires SentSoFar(plans, times, ps, first, timestamp, fits, pacing, base, now, paceLine, paceIntra)
    requires |plans| < |ps| && p.srds == ps[|plans|] && rest == ps[|plans|..][1..]
    requires p.sequence == (first + |plans|) % TWO32 && p.timestamp == timestamp
    requires p.payloadLen == RTP_AND_ESN + SRD_HEADER * |p.srds| + Octets(p.srds)
    requires (p.marker ==> rest == []) && (fits && rest == [] ==> p.marker)
    ensures SentSoFar(plans', times', ps, first, timestamp, fits, pacing, base, now, paceLine', paceIntra')
    ensures |plans'| == |plans| + 1 && rest == ps[|plans'|..]
  {
    var line := if |p.srds| > 0 then p.srds[0].line else 0;
    var sendTs;
    sendTs, paceLine', paceIntra' :=
      StampPacket(pacing, base, now, |plans|, line, paceLine, paceIntra, Lines(ps));
    OneMoreSent(plans, times, p, sendTs, ps, first, timestamp, pacing, base, now, fits);
    plans', times' := plans + [p], times + [sendTs];
  }
}
