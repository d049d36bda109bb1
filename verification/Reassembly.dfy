/** From a frame to datagrams and back: any order, duplicates, losses and foreign datagrams. */
module Reassembly {
  import opened VideoFormat
  import opened Planner
  import opened Packetizer
  import opened Wire

  /** The octets of covering segments are one stretch of the frame. */
  lemma {:induction false} GatherCovers(f: Format, srds: seq<Srd>, p: nat, q: nat, frame: seq<Byte>)
    requires Covers(f, srds, p, q) && q <= |frame|
    ensures InFrame(f, srds, |frame|) && p <= q && Gather(f, srds, frame) == frame[p..q]
    decreases |srds|
  {
    if srds != [] {
      CoversOctets(f, srds, p, q);
      GatherCovers(f, srds[1..], p + srds[0].length, q, frame);
      assert forall i :: 1 <= i < |srds| ==> srds[i] == srds[1..][i - 1];
    }
  }

  /** Scattering covering segments writes one stretch of the frame. */
  lemma {:induction false} ScatterCovers(f: Format, srds: seq<Srd>, p: nat, q: nat, data: seq<Byte>, frame: seq<Byte>)
    requires Covers(f, srds, p, q) && q <= |frame|
    requires InFrame(f, srds, |frame|) && Octets(srds) <= |data|
    ensures p <= q && q - p <= |data| && Scatter(f, srds, data, frame) == Overwrite(frame, p, data[..q - p])
    decreases |srds|
  {
    CoversOctets(f, srds, p, q);
    if srds == [] {
      assert Overwrite(frame, p, data[..0]) == frame;
    } else {
      var n := srds[0].length;
      var next := Overwrite(frame, p, data[..n]);
      ScatterCovers(f, srds[1..], p + n, q, data[n..], next);
      OverwriteTwice(frame, p, data, n, q - p);
    }
  }

  lemma {:induction false} OverwriteTwice(frame: seq<Byte>, p: nat, data: seq<Byte>, n: nat, m: nat)
    requires n <= m <= |data| && p + m <= |frame|
    ensures Overwrite(Overwrite(frame, p, data[..n]), p + n, data[n..][..m - n]) == Overwrite(frame, p, data[..m])
  {
  }

  // ----- The receiver, as a function of what has arrived -----

  function Receive(f: Format, datagram: seq<Byte>, frame: seq<Byte>): (r: seq<Byte>)
    requires |frame| == f.FrameOctets()
    ensures |r| == |frame|
  {
    match Parse(f, datagram)
    case None => frame
    case Some(info) => Scatter(f, info.srds, datagram[info.dataOffset..], frame)
  }

  function Reassemble(f: Format, datagrams: seq<seq<Byte>>, frame: seq<Byte>): (r: seq<Byte>)
    requires |frame| == f.FrameOctets()
    ensures |r| == |frame|
  {
    if datagrams == [] then frame
    else
      var n := |datagrams| - 1;
      Receive(f, datagrams[n], Reassemble(f, datagrams[..n], frame))
  }

  /** The datagram is packet `i` of the plan of `source`, whatever its numbers. */
  ghost predicate Carries(f: Format, ps: seq<seq<Srd>>, source: seq<Byte>, datagram: seq<Byte>, i: nat) {
    exists p: Plan, pt: PayloadType, ssrc: Ssrc ::
      && i < |ps| && p.srds == ps[i] && InFrame(f, p.srds, |source|)
      && datagram == Datagram(f, p, pt, ssrc, source)
  }

  /** The octet is in a segment of packet `i`. */
  ghost predicate InPacket(ps: seq<seq<Srd>>, i: nat, b: nat) {
    i < |ps| && OctetsBefore(ps, i) <= b < OctetsBefore(ps, i + 1)
  }

  ghost function FramePackets(f: Format, maxPayload: nat): seq<seq<Srd>> {
    Packets(f, maxPayload, Cursor(0, 0))
  }

  /** What packet `i` covers, and that its segments are good. */
  lemma {:induction false} PacketCovers(f: Format, maxPayload: nat, i: nat)
    requires Fits(f, maxPayload) && f.height > 0 && i < |FramePackets(f, maxPayload)|
    ensures var ps := FramePackets(f, maxPayload);
            && GoodPacket(f, maxPayload, ps[i], OctetsBefore(ps, i), OctetsBefore(ps, i + 1))
            && OctetsBefore(ps, i) <= OctetsBefore(ps, i + 1) <= f.FrameOctets() == OctetsBefore(ps, |ps|)
            && forall k :: 0 <= k < |ps[i]| ==> GoodSrd(f, ps[i][k])
  {
    var ps := FramePackets(f, maxPayload);
    assert f.LineOctets() > 0;
    PacketsTile(f, maxPayload, Cursor(0, 0), 0, ps, i);
    PacketsTotal(f, maxPayload, Cursor(0, 0), 0, ps);
    OctetsBeforeMono(ps, i + 1, |ps|);
    OctetsBeforeMono(ps, i, i + 1);
    CoversGood(f, ps[i], OctetsBefore(ps, i), OctetsBefore(ps, i + 1));
  }

  lemma {:induction false} CoversGood(f: Format, srds: seq<Srd>, p: nat, q: nat)
    requires Covers(f, srds, p, q)
    ensures forall k :: 0 <= k < |srds| ==> GoodSrd(f, srds[k])
    decreases |srds|
  {
    if srds != [] {
      CoversGood(f, srds[1..], p + srds[0].length, q);
      assert forall k :: 1 <= k < |srds| ==> srds[k] == srds[1..][k - 1];
    }
  }

  /** Receiving a packet lays its stretch of the source into the frame and touches nothing else. */
  lemma {:induction false} ReceivePacket(
    f: Format, maxPayload: nat, source: seq<Byte>, datagram: seq<Byte>, i: nat, frame: seq<Byte>)
    requires Fits(f, maxPayload) && f.height > 0 && |source| == |frame| == f.FrameOctets()
    requires Carries(f, FramePackets(f, maxPayload), source, datagram, i)
    ensures forall b :: 0 <= b < |frame| ==>
              Receive(f, datagram, frame)[b]
              == if InPacket(FramePackets(f, maxPayload), i, b) then source[b] else frame[b]
  {
    var ps := FramePackets(f, maxPayload);
    var p: Plan, pt: PayloadType, ssrc: Ssrc :|
      && i < |ps| && p.srds == ps[i] && InFrame(f, p.srds, |source|)
      && datagram == Datagram(f, p, pt, ssrc, source);
    PacketCovers(f, maxPayload, i);
    ReceivePrinted(f, p, pt, ssrc, source, OctetsBefore(ps, i), OctetsBefore(ps, i + 1), datagram, frame);
  }

  lemma {:induction false} ReceivePrinted(
    f: Format, p: Plan, pt: PayloadType, ssrc: Ssrc, source: seq<Byte>, from: nat, to: nat,
    datagram: seq<Byte>, frame: seq<Byte>)
    requires GoodPlan(f, p) && Covers(f, p.srds, from, to) && to <= |source| == |frame| == f.FrameOctets()
    requires InFrame(f, p.srds, |source|) && datagram == Datagram(f, p, pt, ssrc, source)
    ensures forall b :: 0 <= b < |frame| ==>
              Receive(f, datagram, frame)[b] == if from <= b < to then source[b] else frame[b]
  {
    GatherCovers(f, p.srds, from, to, source);
    CoversOctets(f, p.srds, from, to);
    var data := source[from..to];
    ReceiveScatters(f, p, pt, ssrc, data, datagram, frame);
    ScatterCovers(f, p.srds, from, to, data, frame);
    assert data[..to - from] == data;
  }

  lemma {:induction false} ReceiveScatters(
    f: Format, p: Plan, pt: PayloadType, ssrc: Ssrc, data: seq<Byte>, datagram: seq<Byte>, frame: seq<Byte>)
    requires GoodPlan(f, p) && |data| == Octets(p.srds) && |frame| == f.FrameOctets()
    requires InFrame(f, p.srds, |frame|) && datagram == Headers(p, pt, ssrc) + data
    ensures Receive(f, datagram, frame) == Scatter(f, p.srds, data, frame)
  {
    ParsePrinted(f, p, pt, ssrc, data);
    assert datagram[|Headers(p, pt, ssrc)|..] == data;
  }

  /** The octet has arrived: it is in a packet that one of the datagrams carries. */
  ghost predicate Arrived(ps: seq<seq<Srd>>, arrivals: seq<Option<nat>>, b: nat) {
    exists k :: 0 <= k < |arrivals| && arrivals[k].Some? && InPacket(ps, arrivals[k].value, b)
  }

  /** Each datagram carries the packet named beside it, or is one that the receiver rejects. */
  ghost predicate Traffic(
    f: Format, maxPayload: nat, source: seq<Byte>, datagrams: seq<seq<Byte>>, arrivals: seq<Option<nat>>)
  {
    && |datagrams| == |arrivals|
    && forall k :: 0 <= k < |arrivals| ==>
         if arrivals[k].Some? then Carries(f, FramePackets(f, maxPayload), source, datagrams[k], arrivals[k].value)
         else Parse(f, datagrams[k]).None?
  }

  /**
   Whatever the order, with any duplicates and any rejected datagrams in between: an octet of the frame is
   the source's if a packet that holds it has arrived, and keeps its old value if none has.
   */
  lemma {:induction false} ReassemblyExact(
    f: Format, maxPayload: nat, source: seq<Byte>, datagrams: seq<seq<Byte>>, arrivals: seq<Option<nat>>,
    frame: seq<Byte>, b: nat)
    requires Fits(f, maxPayload) && f.height > 0 && |source| == |frame| == f.FrameOctets()
    requires Traffic(f, maxPayload, source, datagrams, arrivals)
    requires b < |frame|
    ensures Reassemble(f, datagrams, frame)[b]
         == if Arrived(FramePackets(f, maxPayload), arrivals, b) then source[b] else frame[b]
    decreases |datagrams|
  {
    if datagrams != [] {
      var ps, n := FramePackets(f, maxPayload), |datagrams| - 1;
      ReassemblyExact(f, maxPayload, source, datagrams[..n], arrivals[..n], frame, b);
      if arrivals[n].Some? {
        ReceivePacket(f, maxPayload, source, datagrams[n], arrivals[n].value, Reassemble(f, datagrams[..n], frame));
      }
      ArrivedStep(ps, arrivals, b);
    }
  }

  lemma {:induction false} ArrivedStep(ps: seq<seq<Srd>>, arrivals: seq<Option<nat>>, b: nat)
    requires arrivals != []
    ensures var n := |arrivals| - 1;
            Arrived(ps, arrivals, b)
            <==> Arrived(ps, arrivals[..n], b) || (arrivals[n].Some? && InPacket(ps, arrivals[n].value, b))
  {
    var n := |arrivals| - 1;
    if Arrived(ps, arrivals[..n], b) {
      var k :| 0 <= k < n && arrivals[..n][k].Some? && InPacket(ps, arrivals[..n][k].value, b);
      assert arrivals[k] == arrivals[..n][k];
    }
    forall k | 0 <= k < n && arrivals[k].Some? && InPacket(ps, arrivals[k].value, b)
      ensures Arrived(ps, arrivals[..n], b)
    {
      assert arrivals[..n][k] == arrivals[k];
    }
  }

  // ----- Packets of several frames in one buffer -----

  /** The datagram is packet `i` of the frame `source`. */
  datatype Origin = Origin(source: seq<Byte>, i: nat)

  ghost predicate MixedTraffic(f: Format, maxPayload: nat, datagrams: seq<seq<Byte>>, origins: seq<Option<Origin>>) {
    && |datagrams| == |origins|
    && forall k :: 0 <= k < |origins| ==>
         if origins[k].Some? then
           && |origins[k].value.source| == f.FrameOctets()
           && Carries(f, FramePackets(f, maxPayload), origins[k].value.source, datagrams[k], origins[k].value.i)
         else Parse(f, datagrams[k]).None?
  }

  /** The last of the datagrams that holds the octet. */
  ghost function LastWriter(ps: seq<seq<Srd>>, origins: seq<Option<Origin>>, b: nat): (o: Option<Origin>) {
    if origins == [] then None
    else
      var o := origins[|origins| - 1];
      if o.Some? && InPacket(ps, o.value.i, b) then o else LastWriter(ps, origins[..|origins| - 1], b)
  }

  /** When packets of different frames meet in one buffer, every octet is that of the last packet that holds it. */
  lemma {:induction false} LastPacketWins(
    f: Format, maxPayload: nat, datagrams: seq<seq<Byte>>, origins: seq<Option<Origin>>, frame: seq<Byte>, b: nat)
    requires Fits(f, maxPayload) && f.height > 0 && |frame| == f.FrameOctets() && b < |frame|
    requires MixedTraffic(f, maxPayload, datagrams, origins)
    ensures var o := LastWriter(FramePackets(f, maxPayload), origins, b);
            if o.Some? then |o.value.source| == |frame| && Reassemble(f, datagrams, frame)[b] == o.value.source[b]
            else Reassemble(f, datagrams, frame)[b] == frame[b]
    decreases |datagrams|
  {
    if datagrams != [] {
      var n := |datagrams| - 1;
      LastPacketWins(f, maxPayload, datagrams[..n], origins[..n], frame, b);
      if origins[n].Some? {
        var o := origins[n].value;
        ReceivePacket(f, maxPayload, o.source, datagrams[n], o.i, Reassemble(f, datagrams[..n], frame));
      }
    }
  }

  /** Once every packet has arrived, in any order, the frame is the source byte for byte. */
  lemma {:induction false} ReassemblyComplete(
    f: Format, maxPayload: nat, source: seq<Byte>, datagrams: seq<seq<Byte>>, arrivals: seq<Option<nat>>,
    frame: seq<Byte>)
    requires Fits(f, maxPayload) && f.height > 0 && |source| == |frame| == f.FrameOctets()
    requires Traffic(f, maxPayload, source, datagrams, arrivals)
    requires forall i :: 0 <= i < |FramePackets(f, maxPayload)| ==> Some(i) in arrivals
    ensures Reassemble(f, datagrams, frame) == source
  {
    var ps := FramePackets(f, maxPayload);
    assert f.LineOctets() > 0;
    PacketsTotal(f, maxPayload, Cursor(0, 0), 0, ps);
    forall b | 0 <= b < |frame|
      ensures Reassemble(f, datagrams, frame)[b] == source[b]
    {
      ReassemblyExact(f, maxPayload, source, datagrams, arrivals, frame, b);
      var i := PacketOf(ps, b);
      assert Some(i) in arrivals;
      var k :| 0 <= k < |arrivals| && arrivals[k] == Some(i);
      assert InPacket(ps, arrivals[k].value, b);
    }
  }
}
