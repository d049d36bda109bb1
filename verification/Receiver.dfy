/** The receiver's assembly of video frames from datagrams, and whole frames from sender to receiver. */
module Receiver {
  import opened VideoFormat
  import opened Planner
  import opened Packetizer
  import opened RtpTime
  import opened Wire
  import opened Reassembly
  import opened PacketBuffers
  import opened EpochGuard
  import opened TxPacer

  /** The frame being assembled: its octets so far, and the stamp and arrival of its first packet. */
  datatype Assembly = Assembly(image: seq<Byte>, first: bool, ts: U32, arrival: U64, guard: Guard, frames: nat)

  datatype Done = Done(number: nat, capture: U64, image: seq<Byte>)

  /** A datagram, when it arrived, and what the buffer holds that is filled next if this one ends the frame. */
  datatype Packet = Packet(datagram: seq<Byte>, now: U64, next: seq<Byte>)

  ghost predicate Sized(f: Format, a: Assembly) {
    |a.image| == f.FrameOctets()
  }

  function Ingest(f: Format, c: Clock, a: Assembly, p: Packet): (r: (Assembly, Option<Done>))
    requires |a.image| == |p.next| == f.FrameOctets()
    ensures Sized(f, r.0)
  {
    match Parse(f, p.datagram)
    case None => (a, None)
    case Some(info) =>
      var (ts, arrival) := if a.first then (info.timestamp, p.now) else (a.ts, a.arrival);
      var image := Receive(f, p.datagram, a.image);
      if info.marker then
        var (guard, capture) := Step(a.guard, c, VIDEO_BOUND, Arrival(ts, arrival));
        (Assembly(p.next, true, ts, arrival, guard, a.frames + 1), Some(Done(a.frames, capture, image)))
      else (Assembly(image, false, ts, arrival, a.guard, a.frames), None)
  }

  class VideoRx {
    const f: Format
    const guard: StreamGuard
    var buffer: array<Byte>
    var first: bool
    var ts: U32
    var arrival: U64
    var frames: nat

    predicate Valid()
      reads this
    {
      buffer.Length == f.FrameOctets()
    }

    function View(): Assembly
      reads this, buffer, guard
    {
      Assembly(buffer[..], first, ts, arrival, Guard(guard.delta, guard.relatches), frames)
    }

    constructor (f: Format, buffer: array<Byte>)
      requires buffer.Length == f.FrameOctets()
      ensures Valid() && this.f == f && this.buffer == buffer && fresh(guard)
      ensures View() == Assembly(buffer[..], true, 0, 0, Guard(0, 0), 0)
    {
      this.f, this.buffer := f, buffer;
      guard := new StreamGuard();
      first, ts, arrival, frames := true, 0, 0, 0;
    }

    /** One datagram off the wire. The packet that ends a frame hands its buffer over and goes on with `next`. */
    method Poll(c: Clock, p: array<Byte>, now: U64, next: array<Byte>) returns (done: Option<Done>)
      requires Valid() && next.Length == f.FrameOctets() && p != buffer && next != buffer
      modifies this, guard, buffer
      ensures Valid() && buffer == (if done.Some? then next else old(buffer))
      ensures (View(), done) == Ingest(f, c, old(View()), Packet(p[..], now, next[..]))
      ensures done.Some? ==> old(buffer)[..] == done.value.image
    {
      var info := ReceiveInto(f, p, buffer);
      if info.None? { return None; }
      if first {
        ts, arrival, first := info.value.timestamp, now, false;
      }
      done := None;
      if info.value.marker {
        var capture := guard.CaptureNs(c, VIDEO_BOUND, ts, arrival);
        done := Some(Done(frames, capture, buffer[..]));
        buffer, first, frames := next, true, frames + 1;
      }
    }
  }

  // ----- Runs -----

  ghost predicate SizedRun(f: Format, ps: seq<Packet>) {
    forall i :: 0 <= i < |ps| ==> |ps[i].next| == f.FrameOctets()
  }

  /** The assembly after a run of datagrams, and the frames that it completed. */
  function IngestAll(f: Format, c: Clock, a: Assembly, ps: seq<Packet>): (r: (Assembly, seq<Done>))
    requires |a.image| == f.FrameOctets() && SizedRun(f, ps)
    ensures Sized(f, r.0)
  {
    if ps == [] then (a, [])
    else
      var n := |ps| - 1;
      var (b, dones) := IngestAll(f, c, a, ps[..n]);
      var (b', done) := Ingest(f, c, b, ps[n]);
      (b', dones + if done.Some? then [done.value] else [])
  }

  lemma {:induction false} IngestAppend(f: Format, c: Clock, a: Assembly, xs: seq<Packet>, ys: seq<Packet>)
    requires Sized(f, a) && SizedRun(f, xs) && SizedRun(f, ys)
    ensures SizedRun(f, xs + ys)
    ensures var (b, done1) := IngestAll(f, c, a, xs);
            var (d, done2) := IngestAll(f, c, b, ys);
            IngestAll(f, c, a, xs + ys) == (d, done1 + done2)
  {
    var (b, done1) := IngestAll(f, c, a, xs);
    if ys == [] {
      assert xs + ys == xs && done1 + [] == done1;
    } else {
      var n := |ys| - 1;
      IngestAppend(f, c, a, xs, ys[..n]);
      assert (xs + ys)[..|xs + ys| - 1] == xs + ys[..n];
      var (d, done2) := IngestAll(f, c, b, ys[..n]);
      var done := Ingest(f, c, d, ys[n]).1;
      var last := if done.Some? then [done.value] else [];
      assert done1 + done2 + last == done1 + (done2 + last);
    }
  }

  // ----- From one marked datagram to the next, whatever was sent -----

  function Datagrams(ps: seq<Packet>): (ds: seq<seq<Byte>>)
    ensures |ds| == |ps| && forall i :: 0 <= i < |ds| ==> ds[i] == ps[i].datagram
  {
    seq(|ps|, i requires 0 <= i < |ps| => ps[i].datagram)
  }

  lemma {:induction false} DatagramsPrefix(ps: seq<Packet>, n: nat)
    requires n <= |ps|
    ensures Datagrams(ps)[..n] == Datagrams(ps[..n])
  {
  }

  lemma {:induction false} LastReassembled(f: Format, image: seq<Byte>, ps: seq<Packet>)
    requires |image| == f.FrameOctets() && ps != []
    ensures var n := |ps| - 1;
            Reassemble(f, Datagrams(ps), image)
            == Receive(f, ps[n].datagram, Reassemble(f, Datagrams(ps[..n]), image))
  {
    DatagramsPrefix(ps, |ps| - 1);
  }

  /** A marked packet completes the frame, with the capture of the frame's first packet. */
  lemma {:induction false} EndsFrame(f: Format, c: Clock, b: Assembly, p: Packet, stamp: U32, now: U64)
    requires Sized(f, b) && |p.next| == f.FrameOctets()
    requires Parse(f, p.datagram).Some? && Parse(f, p.datagram).value.marker
    requires if b.first then Parse(f, p.datagram).value.timestamp == stamp && p.now == now
             else b.ts == stamp && b.arrival == now
    ensures var (guard, capture) := Step(b.guard, c, VIDEO_BOUND, Arrival(stamp, now));
            Ingest(f, c, b, p)
            == (Assembly(p.next, true, stamp, now, guard, b.frames + 1),
                Some(Done(b.frames, capture, Receive(f, p.datagram, b.image))))
  {
  }

  predicate Accepted(f: Format, p: Packet) {
    Parse(f, p.datagram).Some?
  }

  /** The datagram ends no frame: it is rejected, or carries no marker. */
  predicate Quiet(f: Format, p: Packet) {
    Accepted(f, p) ==> !Parse(f, p.datagram).value.marker
  }

  predicate Marked(f: Format, p: Packet) {
    Accepted(f, p) && Parse(f, p.datagram).value.marker
  }

  /** The first datagram that is not rejected. */
  function FirstAccepted(f: Format, ps: seq<Packet>): (k: nat)
    ensures k <= |ps| && (k < |ps| ==> Accepted(f, ps[k]))
  {
    if ps == [] then 0
    else
      var n := |ps| - 1;
      var k := FirstAccepted(f, ps[..n]);
      if k < n then k else if Accepted(f, ps[n]) then n else n + 1
  }

  function StampOf(f: Format, p: Packet): U32
    requires Accepted(f, p)
  {
    Parse(f, p.datagram).value.timestamp
  }

  /** Until a marked datagram the receiver only gathers: nothing is completed, and the guard is not asked. */
  lemma {:induction false} Gathers(f: Format, c: Clock, a: Assembly, ps: seq<Packet>)
    requires Sized(f, a) && a.first && SizedRun(f, ps) && forall k :: 0 <= k < |ps| ==> Quiet(f, ps[k])
    ensures var (b, dones) := IngestAll(f, c, a, ps);
            var k := FirstAccepted(f, ps);
            && dones == [] && b.image == Reassemble(f, Datagrams(ps), a.image)
            && b.guard == a.guard && b.frames == a.frames && (b.first <==> k == |ps|)
            && (k < |ps| ==> b.ts == StampOf(f, ps[k]) && b.arrival == ps[k].now)
  {
    if ps != [] {
      var n := |ps| - 1;
      Gathers(f, c, a, ps[..n]);
      DatagramsPrefix(ps, n);
      assert Quiet(f, ps[n]);
    }
  }

  /** What `ps` complete: one frame, stamped by the first datagram of them that is not rejected, whosever it is. */
  ghost predicate CompletesOne(f: Format, c: Clock, a: Assembly, ps: seq<Packet>, stamp: U32, now: U64)
    requires Sized(f, a) && SizedRun(f, ps)
  {
    var (b, dones) := IngestAll(f, c, a, ps);
    var (guard, capture) := Step(a.guard, c, VIDEO_BOUND, Arrival(stamp, now));
    && dones == [Done(a.frames, capture, Reassemble(f, Datagrams(ps), a.image))]
    && b.first && b.frames == a.frames + 1 && b.guard == guard && ps != [] && b.image == ps[|ps| - 1].next
  }

  /** Quiet datagrams, and a marked one last. */
  ghost predicate OnlyLastMarked(f: Format, ps: seq<Packet>) {
    && ps != [] && Marked(f, ps[|ps| - 1])
    && forall k :: 0 <= k < |ps| - 1 ==> Quiet(f, ps[k])
  }

  /** A run of quiet datagrams and a marked one completes one frame; its stamp is that of the first one accepted. */
  lemma {:induction false} FrameCompletes(
    f: Format, c: Clock, a: Assembly, ps: seq<Packet>, k: nat, stamp: U32, now: U64)
    requires Sized(f, a) && a.first && SizedRun(f, ps) && OnlyLastMarked(f, ps)
    requires k == FirstAccepted(f, ps) < |ps| && stamp == StampOf(f, ps[k]) && now == ps[k].now
    ensures CompletesOne(f, c, a, ps, stamp, now)
  {
    var n := |ps| - 1;
    Gathers(f, c, a, ps[..n]);
    var b := IngestAll(f, c, a, ps[..n]).0;
    if FirstAccepted(f, ps[..n]) < n {
      assert k == FirstAccepted(f, ps[..n]) && !b.first && ps[..n][k] == ps[k];
    } else {
      assert k == n && b.first;
    }
    LastReassembled(f, a.image, ps);
    EndsFrame(f, c, b, ps[n], stamp, now);
  }

  /** How many datagrams end a frame. */
  function Markers(f: Format, ps: seq<Packet>): nat {
    if ps == [] then 0 else Markers(f, ps[..|ps| - 1]) + if Marked(f, ps[|ps| - 1]) then 1 else 0
  }

  /** The instant is near the arrival of an accepted datagram. */
  ghost predicate NearOne(f: Format, ps: seq<Packet>, instant: U64) {
    exists k :: 0 <= k < |ps| && Accepted(f, ps[k]) && Sane(instant, ps[k].now, VIDEO_BOUND)
  }

  /** The frames completed so far: one for each marker, numbered on, each captured near one of its datagrams. */
  ghost predicate Counted(f: Format, ps: seq<Packet>, dones: seq<Done>, number: nat) {
    && |dones| == Markers(f, ps)
    && forall i :: 0 <= i < |dones| ==> dones[i].number == number + i && NearOne(f, ps, dones[i].capture)
  }

  /** A frame that is begun has the arrival of an accepted datagram. */
  ghost predicate Begun(f: Format, ps: seq<Packet>, b: Assembly) {
    b.first || exists k :: 0 <= k < |ps| && Accepted(f, ps[k]) && b.arrival == ps[k].now
  }

  /**
   Whatever datagrams come in, in whatever order, from any correction in force: every marked one that is accepted
   completes a frame and no other does, numbers run on, and each capture is near the arrival of a datagram.
   */
  lemma {:induction false} EveryMarkerCompletes(f: Format, c: Clock, a: Assembly, ps: seq<Packet>)
    requires Sized(f, a) && a.first && SizedRun(f, ps) && RestampLands(c, VIDEO_BOUND)
    ensures var (b, dones) := IngestAll(f, c, a, ps);
            b.frames == a.frames + |dones| && Begun(f, ps, b) && Counted(f, ps, dones, a.frames)
  {
    if ps != [] {
      var n := |ps| - 1;
      EveryMarkerCompletes(f, c, a, ps[..n]);
      var (b, dones) := IngestAll(f, c, a, ps[..n]);
      NextDatagram(f, c, ps, b);
      var done := Ingest(f, c, b, ps[n]).1;
      NextCounted(f, ps, dones, done, a.frames);
    }
  }

  /** The last datagram, after the frames of those before it. */
  lemma {:induction false} NextDatagram(f: Format, c: Clock, ps: seq<Packet>, b: Assembly)
    requires Sized(f, b) && ps != [] && SizedRun(f, ps) && RestampLands(c, VIDEO_BOUND)
    requires Begun(f, ps[..|ps| - 1], b)
    ensures var (b', done) := Ingest(f, c, b, ps[|ps| - 1]);
            && Begun(f, ps, b') && (done.Some? <==> Marked(f, ps[|ps| - 1]))
            && (if done.Some? then b'.frames == b.frames + 1 else b'.frames == b.frames)
            && (done.Some? ==> done.value.number == b.frames && NearOne(f, ps, done.value.capture))
  {
    var n := |ps| - 1;
    if Accepted(f, ps[n]) {
      var (ts, arrival) := if b.first then (StampOf(f, ps[n]), ps[n].now) else (b.ts, b.arrival);
      var k: nat := n;
      if !b.first {
        k :| 0 <= k < n && Accepted(f, ps[..n][k]) && b.arrival == ps[..n][k].now;
      }
      assert Accepted(f, ps[k]) && arrival == ps[k].now;
      CaptureNearArrival(b.guard, c, VIDEO_BOUND, Arrival(ts, arrival));
    } else if !b.first {
      var k :| 0 <= k < n && Accepted(f, ps[..n][k]) && b.arrival == ps[..n][k].now;
      assert Accepted(f, ps[k]) && b.arrival == ps[k].now;
    }
  }

  lemma {:induction false} NextCounted(
    f: Format, ps: seq<Packet>, dones: seq<Done>, done: Option<Done>, number: nat)
    requires ps != [] && Counted(f, ps[..|ps| - 1], dones, number)
    requires done.Some? <==> Marked(f, ps[|ps| - 1])
    requires done.Some? ==> done.value.number == number + |dones| && NearOne(f, ps, done.value.capture)
    ensures Counted(f, ps, dones + if done.Some? then [done.value] else [], number)
  {
    forall i | 0 <= i < |dones|
      ensures NearOne(f, ps, dones[i].capture)
    {
      var k :| 0 <= k < |ps| - 1 && Accepted(f, ps[..|ps| - 1][k])
        && Sane(dones[i].capture, ps[..|ps| - 1][k].now, VIDEO_BOUND);
      assert Accepted(f, ps[k]) && Sane(dones[i].capture, ps[k].now, VIDEO_BOUND);
    }
  }

  // ----- A frame from the sender -----

  /** A frame as it was sent: its octets, its planned packets, all with one stamp, the last of them marked. */
  datatype Sending = Sending(source: seq<Byte>, plans: seq<Plan>, stamp: U32, pt: PayloadType, ssrc: Ssrc)

  ghost predicate WellSent(f: Format, maxPayload: nat, s: Sending) {
    && Fits(f, maxPayload) && f.height > 0 && |s.source| == f.FrameOctets()
    && |s.plans| == |FramePackets(f, maxPayload)| && LastMarks(s.plans, |s.plans|, true)
    && forall i :: 0 <= i < |s.plans| ==>
         s.plans[i].srds == FramePackets(f, maxPayload)[i] && s.plans[i].timestamp == s.stamp
         && InFrame(f, s.plans[i].srds, |s.source|)
  }

  /** What the transmitter sends for a frame is well sent. */
  lemma {:induction false} SentIsWellSent(
    f: Format, maxPayload: nat, plans: seq<Plan>, times: seq<nat>, sequence: U32, stamp: U32, pacing: Pacing,
    base: nat, now: nat, source: seq<Byte>, pt: PayloadType, ssrc: Ssrc)
    requires Fits(f, maxPayload) && f.height > 0 && |source| == f.FrameOctets()
    requires |plans| == |FramePackets(f, maxPayload)| && LastMarks(plans, |plans|, true)
    requires AllSentAs(plans, times, FramePackets(f, maxPayload), sequence, stamp, pacing, base, now)
    ensures WellSent(f, maxPayload, Sending(source, plans, stamp, pt, ssrc))
  {
    forall i | 0 <= i < |plans|
      ensures InFrame(f, plans[i].srds, |source|)
    {
      assert SentAs(plans[i], times[i], FramePackets(f, maxPayload), i, sequence, stamp, pacing, base, now);
      PacketInFrame(f, maxPayload, i);
    }
  }

  lemma {:induction false} PacketInFrame(f: Format, maxPayload: nat, i: nat)
    requires Fits(f, maxPayload) && f.height > 0 && i < |FramePackets(f, maxPayload)|
    ensures InFrame(f, FramePackets(f, maxPayload)[i], f.FrameOctets())
  {
    PacketCovers(f, maxPayload, i);
    var srds := FramePackets(f, maxPayload)[i];
    forall k | 0 <= k < |srds|
      ensures Acceptable(f, srds[k])
    {
      GoodIsAcceptable(f, srds[k]);
    }
  }

  /**
   The frame's datagrams as they come in: packets of the frame in any order, any of them repeatedly, and
   datagrams that the parser rejects; the marked packet once, and last.
   */
  ghost predicate ComesIn(f: Format, s: Sending, ps: seq<Packet>, arrivals: seq<Option<nat>>) {
    && |ps| == |arrivals| > 0 && SizedRun(f, ps)
    && arrivals[|arrivals| - 1] == Some(|s.plans| - 1)
    && forall k :: 0 <= k < |ps| ==> Comes(f, s, ps[k], arrivals[k], k == |ps| - 1)
  }

  ghost predicate Comes(f: Format, s: Sending, p: Packet, arrival: Option<nat>, last: bool) {
    match arrival
    case None => Parse(f, p.datagram).None?
    case Some(i) =>
      && i < |s.plans| && (i == |s.plans| - 1 ==> last)
      && InFrame(f, s.plans[i].srds, |s.source|)
      && p.datagram == Datagram(f, s.plans[i], s.pt, s.ssrc, s.source)
  }

  /** The first of the datagrams that is a packet of the frame. */
  function FirstPacketIn(arrivals: seq<Option<nat>>): (k: nat)
    ensures k <= |arrivals| && (k < |arrivals| ==> arrivals[k].Some?)
  {
    if arrivals == [] then 0
    else
      var n := |arrivals| - 1;
      var k := FirstPacketIn(arrivals[..n]);
      if k < n then k else if arrivals[n].Some? then n else n + 1
  }

  /** A packet of the frame parses, with the frame's stamp and its own marker. */
  lemma {:induction false} PacketParses(f: Format, maxPayload: nat, s: Sending, i: nat)
    requires WellSent(f, maxPayload, s) && i < |s.plans|
    ensures var info := Parse(f, Datagram(f, s.plans[i], s.pt, s.ssrc, s.source));
            info.Some? && info.value.timestamp == s.stamp && info.value.marker == (i == |s.plans| - 1)
  {
    var p := s.plans[i];
    PacketCovers(f, maxPayload, i);
    ParsePrinted(f, p, s.pt, s.ssrc, Gather(f, p.srds, s.source));
    assert Marks(p, i, |s.plans|, true);
  }

  // ----- Delivery -----

  /** Datagrams of the frame other than its marked packet are quiet, and carry its stamp. */
  lemma {:induction false} FrameIsQuiet(
    f: Format, maxPayload: nat, s: Sending, ps: seq<Packet>, arrivals: seq<Option<nat>>)
    requires WellSent(f, maxPayload, s) && |ps| == |arrivals|
    requires forall k :: 0 <= k < |ps| ==> Comes(f, s, ps[k], arrivals[k], false)
    ensures forall k :: 0 <= k < |ps| ==> Quiet(f, ps[k])
    ensures FirstAccepted(f, ps) == FirstPacketIn(arrivals)
    ensures FirstAccepted(f, ps) < |ps| ==> StampOf(f, ps[FirstAccepted(f, ps)]) == s.stamp
  {
    forall k | 0 <= k < |ps|
      ensures Quiet(f, ps[k]) && (Accepted(f, ps[k]) <==> arrivals[k].Some?)
      ensures Accepted(f, ps[k]) ==> StampOf(f, ps[k]) == s.stamp
    {
      ComesParses(f, maxPayload, s, ps[k], arrivals[k], false);
    }
    FirstIs(f, ps, arrivals);
  }

  lemma {:induction false} FirstIs(f: Format, ps: seq<Packet>, arrivals: seq<Option<nat>>)
    requires |ps| == |arrivals|
    requires forall k :: 0 <= k < |ps| ==> (Accepted(f, ps[k]) <==> arrivals[k].Some?)
    ensures FirstAccepted(f, ps) == FirstPacketIn(arrivals)
  {
    if ps != [] {
      FirstIs(f, ps[..|ps| - 1], arrivals[..|ps| - 1]);
    }
  }

  lemma {:induction false} ComesParses(
    f: Format, maxPayload: nat, s: Sending, p: Packet, arrival: Option<nat>, last: bool)
    requires WellSent(f, maxPayload, s) && Comes(f, s, p, arrival, last)
    ensures Accepted(f, p) <==> arrival.Some?
    ensures arrival.Some? ==> StampOf(f, p) == s.stamp && (Marked(f, p) <==> arrival.value == |s.plans| - 1)
  {
    if arrival.Some? {
      PacketParses(f, maxPayload, s, arrival.value);
    }
  }

  /**
   One frame, its marked packet last: exactly that packet completes it, with the next number, the octets that
   arrived laid over what the buffer held, and the capture that the guard gives to the sender's stamp at the
   arrival of the frame's first packet.
   */
  lemma {:induction false} FrameDelivered(
    f: Format, maxPayload: nat, c: Clock, s: Sending, a: Assembly, ps: seq<Packet>, arrivals: seq<Option<nat>>)
    requires WellSent(f, maxPayload, s) && Sized(f, a) && a.first && ComesIn(f, s, ps, arrivals)
    ensures FirstPacketIn(arrivals) < |ps|
    ensures CompletesOne(f, c, a, ps, s.stamp, ps[FirstPacketIn(arrivals)].now)
  {
    EndsMarked(f, maxPayload, s, ps, arrivals);
    var k := FirstPacketIn(arrivals);
    FrameCompletes(f, c, a, ps, k, s.stamp, ps[k].now);
  }

  /** A frame's datagrams: all quiet but the last, and the first that is not rejected carries the frame's stamp. */
  lemma {:induction false} EndsMarked(
    f: Format, maxPayload: nat, s: Sending, ps: seq<Packet>, arrivals: seq<Option<nat>>)
    requires WellSent(f, maxPayload, s) && ComesIn(f, s, ps, arrivals)
    ensures OnlyLastMarked(f, ps) && FirstAccepted(f, ps) == FirstPacketIn(arrivals) < |ps|
    ensures StampOf(f, ps[FirstAccepted(f, ps)]) == s.stamp
  {
    var n := |ps| - 1;
    forall k | 0 <= k <= n
      ensures Accepted(f, ps[k]) <==> arrivals[k].Some?
      ensures Accepted(f, ps[k]) ==> StampOf(f, ps[k]) == s.stamp
      ensures if k == n then Marked(f, ps[k]) else Quiet(f, ps[k])
    {
      ComesParses(f, maxPayload, s, ps[k], arrivals[k], k == n);
    }
    FirstIs(f, ps, arrivals);
    LastIsPacket(arrivals);
  }

  lemma {:induction false} LastIsPacket(arrivals: seq<Option<nat>>)
    requires arrivals != [] && arrivals[|arrivals| - 1].Some?
    ensures FirstPacketIn(arrivals) < |arrivals|
  {
  }

  /** If no packet of the frame is missing, the completed frame is the sender's, octet for octet. */
  lemma {:induction false} WholeFrameDelivered(
    f: Format, maxPayload: nat, c: Clock, s: Sending, a: Assembly, ps: seq<Packet>, arrivals: seq<Option<nat>>)
    requires WellSent(f, maxPayload, s) && Sized(f, a) && a.first && ComesIn(f, s, ps, arrivals)
    requires forall i :: 0 <= i < |s.plans| ==> Some(i) in arrivals
    ensures IngestAll(f, c, a, ps).1 != [] && IngestAll(f, c, a, ps).1[0].image == s.source
  {
    FrameDelivered(f, maxPayload, c, s, a, ps, arrivals);
    WholeFrame(f, maxPayload, s, a.image, ps, arrivals);
  }

  lemma {:induction false} WholeFrame(
    f: Format, maxPayload: nat, s: Sending, image: seq<Byte>, ps: seq<Packet>, arrivals: seq<Option<nat>>)
    requires WellSent(f, maxPayload, s) && |image| == f.FrameOctets() && ComesIn(f, s, ps, arrivals)
    requires forall i :: 0 <= i < |s.plans| ==> Some(i) in arrivals
    ensures Reassemble(f, Datagrams(ps), image) == s.source
  {
    forall k | 0 <= k < |ps| && arrivals[k].Some?
      ensures Carries(f, FramePackets(f, maxPayload), s.source, ps[k].datagram, arrivals[k].value)
    {
      assert Comes(f, s, ps[k], arrivals[k], k == |ps| - 1);
      var p := s.plans[arrivals[k].value];
    }
    forall k | 0 <= k < |ps| && arrivals[k].None?
      ensures Parse(f, ps[k].datagram).None?
    {
      assert Comes(f, s, ps[k], arrivals[k], k == |ps| - 1);
    }
    ReassemblyComplete(f, maxPayload, s.source, Datagrams(ps), arrivals, image);
  }

  /**
   The sender's media time comes through: with a guard at rest and a stamp that is sane on arrival, the
   frame's capture is the instant of the media time's own tick, at most a tick and 1 ns before it.
   */
  lemma {:induction false} MediaTimeTravels(
    f: Format, maxPayload: nat, s: Sending, a: Assembly, ps: seq<Packet>, arrivals: seq<Option<nat>>, media: U64)
    requires WellSent(f, maxPayload, s) && Sized(f, a) && a.first && ComesIn(f, s, ps, arrivals)
    requires s.stamp == Timestamp90k(media) && a.guard.delta == 0
    requires var now := ps[FirstPacketIn(arrivals)].now;
             && Sane(UnwrapNs(s.stamp, VIDEO_RATE, now), now, VIDEO_BOUND)
             && -TWO31 <= Ticks(now, VIDEO_RATE) - Ticks(media, VIDEO_RATE) < TWO31
    ensures var dones := IngestAll(f, MediaClock(VIDEO_RATE), a, ps).1;
            && |dones| == 1 && dones[0].capture == TickNs(Ticks(media, VIDEO_RATE), VIDEO_RATE) <= media
            && (media - dones[0].capture) * VIDEO_RATE < NS_PER_SEC + VIDEO_RATE
  {
    var now := ps[FirstPacketIn(arrivals)].now;
    FrameDelivered(f, maxPayload, MediaClock(VIDEO_RATE), s, a, ps, arrivals);
    SplitStampExact(media);
    UnwrapRecovers(media, now, VIDEO_RATE);
    AtRest(a.guard, MediaClock(VIDEO_RATE), VIDEO_BOUND, Arrival(s.stamp, now));
  }

  lemma {:induction false} AtRest(g: Guard, c: Clock, bound: int, arrival: Arrival)
    requires g.delta == 0 && Sane(c.unwrap(arrival.ts, arrival.ref), arrival.ref, bound)
    ensures Step(g, c, bound, arrival) == (g, c.unwrap(arrival.ts, arrival.ref))
  {
    assert Corrected(arrival.ts, 0) == arrival.ts;
  }

  // ----- Packets that cross the marked one -----

  lemma {:induction false} ReassembleAppend(f: Format, xs: seq<Packet>, ys: seq<Packet>, image: seq<Byte>)
    requires |image| == f.FrameOctets()
    ensures Reassemble(f, Datagrams(xs + ys), image)
         == Reassemble(f, Datagrams(ys), Reassemble(f, Datagrams(xs), image))
  {
    if ys == [] {
      assert xs + ys == xs;
    } else {
      var n := |ys| - 1;
      ReassembleAppend(f, xs, ys[..n], image);
      assert (xs + ys)[..|xs + ys| - 1] == xs + ys[..n];
      LastReassembled(f, image, xs + ys);
      LastReassembled(f, Reassemble(f, Datagrams(xs), image), ys);
    }
  }

  lemma {:induction false} FirstOfBoth(f: Format, xs: seq<Packet>, ys: seq<Packet>)
    requires FirstAccepted(f, xs) < |xs|
    ensures FirstAccepted(f, xs + ys) == FirstAccepted(f, xs)
  {
    if ys == [] {
      assert xs + ys == xs;
    } else {
      FirstOfBoth(f, xs, ys[..|ys| - 1]);
      assert (xs + ys)[..|xs + ys| - 1] == xs + ys[..|ys| - 1];
    }
  }

  /** Packets of an earlier frame but its marked one, and then a frame as it comes in. */
  ghost predicate Strays(
    f: Format, maxPayload: nat, earlier: Sending, s: Sending, stray: seq<Packet>, strayArrivals: seq<Option<nat>>,
    ps: seq<Packet>, arrivals: seq<Option<nat>>)
  {
    && WellSent(f, maxPayload, earlier) && WellSent(f, maxPayload, s)
    && |stray| == |strayArrivals| && SizedRun(f, stray) && FirstPacketIn(strayArrivals) < |stray|
    && (forall k :: 0 <= k < |stray| ==> Comes(f, earlier, stray[k], strayArrivals[k], false))
    && ComesIn(f, s, ps, arrivals)
  }

  /**
   Packets of an earlier frame that come after its marked one, or whose marked one is lost, begin the next frame:
   that frame is completed once, by its own marked packet, but with the earlier frame's stamp and the arrival
   of the stray packet.
   */
  lemma {:induction false} StrayPacketsStampNext(
    f: Format, maxPayload: nat, c: Clock, earlier: Sending, s: Sending, a: Assembly,
    stray: seq<Packet>, strayArrivals: seq<Option<nat>>, ps: seq<Packet>, arrivals: seq<Option<nat>>)
    requires Sized(f, a) && a.first && Strays(f, maxPayload, earlier, s, stray, strayArrivals, ps, arrivals)
    ensures SizedRun(f, stray + ps)
    ensures CompletesOne(f, c, a, stray + ps, earlier.stamp, stray[FirstPacketIn(strayArrivals)].now)
  {
    var k := FirstPacketIn(strayArrivals);
    FrameIsQuiet(f, maxPayload, earlier, stray, strayArrivals);
    EndsMarked(f, maxPayload, s, ps, arrivals);
    QuietFirst(f, stray, ps, k, earlier.stamp);
    FrameCompletes(f, c, a, stray + ps, k, earlier.stamp, stray[k].now);
  }

  lemma {:induction false} QuietFirst(f: Format, xs: seq<Packet>, ys: seq<Packet>, k: nat, stamp: U32)
    requires (forall k :: 0 <= k < |xs| ==> Quiet(f, xs[k])) && OnlyLastMarked(f, ys)
    requires k == FirstAccepted(f, xs) < |xs| && StampOf(f, xs[k]) == stamp
    ensures OnlyLastMarked(f, xs + ys) && k == FirstAccepted(f, xs + ys)
    ensures (xs + ys)[k] == xs[k] && StampOf(f, (xs + ys)[k]) == stamp
  {
    QuietThenMarked(f, xs, ys);
    FirstOfBoth(f, xs, ys);
  }

  /** Its octets are its own all the same, if all of its packets come after the stray ones. */
  lemma {:induction false} StrayPacketsOverwritten(
    f: Format, maxPayload: nat, c: Clock, earlier: Sending, s: Sending, a: Assembly,
    stray: seq<Packet>, strayArrivals: seq<Option<nat>>, ps: seq<Packet>, arrivals: seq<Option<nat>>)
    requires Sized(f, a) && a.first && Strays(f, maxPayload, earlier, s, stray, strayArrivals, ps, arrivals)
    requires forall i :: 0 <= i < |s.plans| ==> Some(i) in arrivals
    ensures SizedRun(f, stray + ps) && IngestAll(f, c, a, stray + ps).1 != []
    ensures IngestAll(f, c, a, stray + ps).1[0].image == s.source
  {
    StrayPacketsStampNext(f, maxPayload, c, earlier, s, a, stray, strayArrivals, ps, arrivals);
    ReassembleAppend(f, stray, ps, a.image);
    WholeFrame(f, maxPayload, s, Reassemble(f, Datagrams(stray), a.image), ps, arrivals);
  }

  lemma {:induction false} QuietThenMarked(f: Format, xs: seq<Packet>, ys: seq<Packet>)
    requires (forall k :: 0 <= k < |xs| ==> Quiet(f, xs[k])) && OnlyLastMarked(f, ys)
    ensures OnlyLastMarked(f, xs + ys)
  {
    forall k | 0 <= k < |xs + ys| - 1
      ensures Quiet(f, (xs + ys)[k])
    {
      assert (xs + ys)[k] == if k < |xs| then xs[k] else ys[k - |xs|];
    }
  }

  /**
   A marked packet that comes again completes another frame by itself: the octets of that one packet over what the
   buffer held, under the next number.
   */
  lemma {:induction false} RepeatedMarkerCompletes(
    f: Format, maxPayload: nat, c: Clock, s: Sending, a: Assembly, p: Packet)
    requires WellSent(f, maxPayload, s) && Sized(f, a) && a.first && SizedRun(f, [p])
    requires |s.plans| > 0 && Comes(f, s, p, Some(|s.plans| - 1), true)
    ensures CompletesOne(f, c, a, [p], s.stamp, p.now)
    ensures forall b :: 0 <= b < |a.image| ==>
              IngestAll(f, c, a, [p]).1[0].image[b]
              == if InPacket(FramePackets(f, maxPayload), |s.plans| - 1, b) then s.source[b] else a.image[b]
  {
    ComesParses(f, maxPayload, s, p, Some(|s.plans| - 1), true);
    assert [p][..0] == [];
    FrameCompletes(f, c, a, [p], 0, s.stamp, p.now);
    LastPacketAlone(f, maxPayload, s, a.image, p);
  }

  lemma {:induction false} LastPacketAlone(f: Format, maxPayload: nat, s: Sending, image: seq<Byte>, p: Packet)
    requires WellSent(f, maxPayload, s) && |image| == f.FrameOctets()
    requires |s.plans| > 0 && Comes(f, s, p, Some(|s.plans| - 1), true)
    ensures forall b :: 0 <= b < |image| ==>
              Reassemble(f, Datagrams([p]), image)[b]
              == if InPacket(FramePackets(f, maxPayload), |s.plans| - 1, b) then s.source[b] else image[b]
  {
    assert [p][..0] == [];
    LastReassembled(f, image, [p]);
    assert Carries(f, FramePackets(f, maxPayload), s.source, p.datagram, |s.plans| - 1);
    ReceivePacket(f, maxPayload, s.source, p.datagram, |s.plans| - 1, image);
  }

  // ----- A stream of frames -----

  /** One frame of a stream: how it was sent, and how it came in. */
  datatype Leg = Leg(sending: Sending, packets: seq<Packet>, arrivals: seq<Option<nat>>)

  ghost predicate GoodLeg(f: Format, maxPayload: nat, leg: Leg) {
    && WellSent(f, maxPayload, leg.sending) && ComesIn(f, leg.sending, leg.packets, leg.arrivals)
    && forall i :: 0 <= i < |leg.sending.plans| ==> Some(i) in leg.arrivals
  }

  function OnTheWire(legs: seq<Leg>): seq<Packet> {
    if legs == [] then [] else OnTheWire(legs[..|legs| - 1]) + legs[|legs| - 1].packets
  }

  /** One completed frame for each leg, in order, numbered from `number` on, with the sender's octets. */
  ghost predicate Intact(dones: seq<Done>, legs: seq<Leg>, number: nat) {
    && |dones| == |legs|
    && forall k :: 0 <= k < |legs| ==> dones[k].number == number + k && dones[k].image == legs[k].sending.source
  }

  lemma {:induction false} NextDone(dones: seq<Done>, done: Done, legs: seq<Leg>, number: nat)
    requires legs != [] && Intact(dones, legs[..|legs| - 1], number)
    requires done.number == number + |dones| && done.image == legs[|legs| - 1].sending.source
    ensures Intact(dones + [done], legs, number)
  {
    forall k | 0 <= k < |dones|
      ensures legs[k] == legs[..|legs| - 1][k]
    {
    }
  }

  /** Frame after frame: every frame of a stream is completed once, in order, numbered on, and intact. */
  lemma {:induction false} StreamDelivered(f: Format, maxPayload: nat, c: Clock, a: Assembly, legs: seq<Leg>)
    requires Sized(f, a) && a.first
    requires forall k :: 0 <= k < |legs| ==> GoodLeg(f, maxPayload, legs[k])
    ensures SizedRun(f, OnTheWire(legs))
    ensures var (b, dones) := IngestAll(f, c, a, OnTheWire(legs));
            b.first && b.frames == a.frames + |legs| && Intact(dones, legs, a.frames)
  {
    if legs != [] {
      var n := |legs| - 1;
      var leg := legs[n];
      StreamDelivered(f, maxPayload, c, a, legs[..n]);
      assert GoodLeg(f, maxPayload, leg);
      var b := IngestAll(f, c, a, OnTheWire(legs[..n])).0;
      FrameDelivered(f, maxPayload, c, leg.sending, b, leg.packets, leg.arrivals);
      WholeFrameDelivered(f, maxPayload, c, leg.sending, b, leg.packets, leg.arrivals);
      IngestAppend(f, c, a, OnTheWire(legs[..n]), leg.packets);
      NextDone(IngestAll(f, c, a, OnTheWire(legs[..n])).1, IngestAll(f, c, b, leg.packets).1[0], legs, a.frames);
    }
  }
}
