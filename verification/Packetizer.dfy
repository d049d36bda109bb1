/** The packetizer: the planner's walk held in fields, one packet per call, with a running sequence number. */
module Packetizer {
  import opened VideoFormat
  import opened Planner
  import opened RtpTime

  /** One media packet: its numbers, its length and its segments. */
  datatype Plan = Plan(sequence: U32, timestamp: U32, marker: bool, payloadLen: nat, srds: seq<Srd>)

  class FramePacketizer {
    const f: Format
    const maxPayload: nat
    var sequence: U32
    var line: nat
    var octet: nat
    var timestamp: U32
    var active: bool

    ghost predicate Valid()
      reads this
    {
      && (line < f.height ==> octet <= f.LineOctets())
      && (active && Fits(f, maxPayload) ==> OnFrame(f, Cursor(line, octet)))
    }

    /** The packets of the current frame that are still to come. */
    ghost function ToCome(): seq<seq<Srd>>
      requires Valid()
      reads this
    {
      if active then Packets(f, maxPayload, Cursor(line, octet)) else []
    }

    constructor (f: Format, maxPayload: nat)
      ensures Valid() && this.f == f && this.maxPayload == maxPayload
      ensures sequence == 0 && !active
    {
      this.f, this.maxPayload := f, maxPayload;
      sequence, line, octet, timestamp, active := 0, 0, 0, 0, false;
    }

    method StartFrame(timestamp: U32)
      modifies this
      ensures Valid() && ToCome() == Packets(f, maxPayload, Cursor(0, 0))
      ensures active && this.timestamp == timestamp && sequence == old(sequence)
    {
      line, octet, this.timestamp, active := 0, 0, timestamp, true;
    }

    /** The next packet of the frame, if any is left. */
    method Next() returns (plan: Option<Plan>)
      requires Valid()
      modifies this
      ensures Valid() && timestamp == old(timestamp)
      ensures plan.None? <==> old(ToCome()) == []
      ensures plan.None? ==> ToCome() == [] && sequence == old(sequence) && !active
      ensures plan.Some? ==>
        && ToCome() == old(ToCome())[1..]
        && sequence == (old(sequence) + 1) % TWO32
        && plan.value.srds == old(ToCome())[0]
        && plan.value.payloadLen == RTP_AND_ESN + SRD_HEADER * |plan.value.srds| + Octets(plan.value.srds)
        && plan.value.sequence == old(sequence) && plan.value.timestamp == old(timestamp)
        && (plan.value.marker ==> ToCome() == [])
        && (Fits(f, maxPayload) && ToCome() == [] ==> plan.value.marker)
    {
      if !active { return None; }
      var srds, next := WalkOne(f, maxPayload, Cursor(line, octet));
      if srds == [] {
        active := false;
        return None;
      }
      LastMarked(f, maxPayload, Cursor(line, octet));
      var data := 0;
      for i := 0 to |srds|
        invariant data + Octets(srds[i..]) == Octets(srds)
      {
        data := data + srds[i].length;
      }
      plan := Some(Plan(sequence, timestamp, next.line >= f.height, RTP_AND_ESN + SRD_HEADER * |srds| + data, srds));
      sequence := (sequence + 1) % TWO32;
      line, octet := next.line, next.octet;
      if line >= f.height { active := false; }
    }

    /** The packet count of one frame. */
    method PacketsPerFrame() returns (n: nat)
      ensures n == |Packets(f, maxPayload, Cursor(0, 0))|
    {
      n := 0;
      var c := Cursor(0, 0);
      var srds, next := WalkOne(f, maxPayload, c);
      while srds != []
        invariant c.line < f.height ==> c.octet <= f.LineOctets()
        invariant (srds, next) == PlanOne(f, maxPayload, c)
        invariant n + |Packets(f, maxPayload, c)| == |Packets(f, maxPayload, Cursor(0, 0))|
        decreases f.height - c.line, f.LineOctets() - c.octet
      {
        n, c := n + 1, next;
        srds, next := WalkOne(f, maxPayload, c);
      }
    }
  }

  /** In a frame that fits, the packet that ends the walk is the last one, and only that. */
  lemma {:induction false} LastMarked(f: Format, maxPayload: nat, c: Cursor)
    requires c.line < f.height ==> c.octet <= f.LineOctets()
    requires Fits(f, maxPayload) ==> OnFrame(f, c)
    requires PlanOne(f, maxPayload, c).0 != []
    ensures var (srds, next) := PlanOne(f, maxPayload, c);
            Fits(f, maxPayload) ==>
              OnFrame(f, next) && (next.line >= f.height <==> Packets(f, maxPayload, c)[1..] == [])
  {
    if Fits(f, maxPayload) && c.line < f.height {
      var (srds, next) := PlanOne(f, maxPayload, c);
      FirstPacket(f, maxPayload, c, srds, next);
      MarkerOnLast(f, maxPayload, c);
    }
  }

  /** Plan one packet from `start`, greedily filling segments up to the payload budget. */
  method WalkOne(f: Format, maxPayload: nat, start: Cursor) returns (srds: seq<Srd>, c: Cursor)
    requires start.line < f.height ==> start.octet <= f.LineOctets()
    ensures (srds, c) == PlanOne(f, maxPayload, start)
  {
    srds, c := [], start;
    if start.line >= f.height { return; }
    var budget := maxPayload - RTP_AND_ESN;
    ghost var whole := PlanOne(f, maxPayload, start);
    WalkStarts(f, maxPayload, start);
    while c.line < f.height && |srds| < MAX_SRD
      invariant |srds| <= MAX_SRD
      invariant c.line < f.height ==> c.octet <= f.LineOctets()
      invariant Continues(f, whole, srds, budget, c)
    {
      var afterHdr := budget - SRD_HEADER;
      var seg := if afterHdr < f.Pgroup() then 0 else Segment(f, afterHdr, c);
      if seg == 0 {
        FillStops(f, whole, srds, budget, c);
        return;
      }
      FillStep(f, whole, srds, budget, c, seg);
      srds := srds + [SrdAt(f, c, seg)];
      budget := budget - (SRD_HEADER + seg);
      c := Advance(f, c, seg);
      if f.LineAligned() { return; }
    }
    FillStops(f, whole, srds, budget, c);
  }

  /** `whole` is the segments so far followed by what the planner puts after them. */
  ghost predicate Continues(f: Format, whole: (seq<Srd>, Cursor), srds: seq<Srd>, budget: int, c: Cursor)
    requires |srds| <= MAX_SRD && (c.line < f.height ==> c.octet <= f.LineOctets())
  {
    var tail := Fill(f, budget, c, MAX_SRD - |srds|);
    whole == (srds + tail.0, tail.1)
  }

  lemma {:induction false} WalkStarts(f: Format, maxPayload: nat, c: Cursor)
    requires c.line < f.height ==> c.octet <= f.LineOctets()
    ensures Continues(f, PlanOne(f, maxPayload, c), [], maxPayload - RTP_AND_ESN, c)
  {
    var whole := PlanOne(f, maxPayload, c);
    assert [] + whole.0 == whole.0;
  }

  lemma {:induction false} FillStops(f: Format, whole: (seq<Srd>, Cursor), srds: seq<Srd>, budget: int, c: Cursor)
    requires |srds| <= MAX_SRD && (c.line < f.height ==> c.octet <= f.LineOctets())
    requires Continues(f, whole, srds, budget, c)
    requires c.line >= f.height || |srds| == MAX_SRD || budget - SRD_HEADER < f.Pgroup()
             || Segment(f, budget - SRD_HEADER, c) == 0
    ensures whole == (srds, c)
  {
    assert srds + [] == srds;
  }

  lemma {:induction false} FillStep(
    f: Format, whole: (seq<Srd>, Cursor), srds: seq<Srd>, budget: int, c: Cursor, seg: nat)
    requires |srds| < MAX_SRD && c.line < f.height && c.octet <= f.LineOctets()
    requires budget - SRD_HEADER >= f.Pgroup() && seg == Segment(f, budget - SRD_HEADER, c) && seg > 0
    requires Continues(f, whole, srds, budget, c)
    ensures f.LineAligned() ==> whole == (srds + [SrdAt(f, c, seg)], Advance(f, c, seg))
    ensures !f.LineAligned() ==>
              Continues(f, whole, srds + [SrdAt(f, c, seg)], budget - SRD_HEADER - seg, Advance(f, c, seg))
  {
    var room := MAX_SRD - |srds|;
    var (tail, last) := Fill(f, budget, c, room);
    var rest := FillOnce(f, budget, c, room, seg, tail, last);
    assert srds + ([SrdAt(f, c, seg)] + rest) == srds + [SrdAt(f, c, seg)] + rest;
    assert f.LineAligned() ==> srds + [SrdAt(f, c, seg)] + rest == srds + [SrdAt(f, c, seg)];
  }
}
