/** An IP10 picture end to end: coded, cut into packets, delivered in any order, reassembled and decoded. */
module Ip10Transport {
  import opened VideoFormat
  import opened RowCode
  import opened Ip10Sample
  import opened Ip10Plane
  import opened Ip10Gpu
  import opened Planner
  import opened Reassembly

  /** The three planes of a 4:2:2 picture. */
  datatype Picture = Picture(w: nat, h: nat, y: seq<Word>, cb: seq<Word>, cr: seq<Word>) {
    ghost predicate Valid() {
      |y| == w * h && |cb| == |cr| == w / 2 * h
    }

    function Wire(): Format {
      Format(w, h, YCbCr422_8)
    }

    /** Every fourth octet, and so half the luma samples of a row or all of one of its chroma rows. */
    ghost function LaneAt(r: nat, lane: nat): (x: seq<Word>)
      requires Valid() && r < h && lane < 4
      ensures |x| == w / 2
    {
      LaneOf(y, cb, cr, w, h, r, lane)
    }
  }

  /** The octets that the encoder leaves for a picture, and the picture that the decoder makes of octets. */
  ghost predicate Packed(p: Picture, octets: seq<Byte>)
    requires p.Valid()
  {
    |octets| == 4 * (p.w / 2) * p.h && AllColumnsEncoded(octets, p.y, p.cb, p.cr, p.w, p.h)
  }

  ghost predicate Unpacked(octets: seq<Byte>, p: Picture)
    requires p.Valid() && |octets| == 4 * (p.w / 2) * p.h
  {
    AllLanesDecoded(octets, p.y, p.cb, p.cr, p.w, p.h)
  }

  /** Every packet of the frame is among the datagrams, in any order and any number of times. */
  ghost predicate Delivered(
    f: Format, maxPayload: nat, octets: seq<Byte>, datagrams: seq<seq<Byte>>, arrivals: seq<Option<nat>>)
  {
    && Traffic(f, maxPayload, octets, datagrams, arrivals)
    && forall i :: 0 <= i < |FramePackets(f, maxPayload)| ==> Some(i) in arrivals
  }

  /** A lane of a picture that was coded and decoded is the decoding of its own code. */
  lemma {:induction false} LaneThroughCode(p: Picture, octets: seq<Byte>, q: Picture, r: nat, lane: nat)
    requires p.Valid() && q.Valid() && (q.w, q.h) == (p.w, p.h) && r < p.h && lane < 4
    requires Packed(p, octets) && Unpacked(octets, q)
    ensures q.LaneAt(r, lane) == DecodeRow(IP10, EncodeRow(IP10, Masked(p.LaneAt(r, lane)), 1), 1)
  {
    assert ColumnEncoded(octets, p.y, p.cb, p.cr, p.w, p.h, r, lane);
    assert LaneDecoded(octets, q.y, q.cb, q.cr, q.w, q.h, r, lane);
    assert ColumnOf(octets, p.w / 2, p.h, r, lane) == EncodeRow(IP10, Masked(p.LaneAt(r, lane)), 1);
  }

  /**
   From picture to picture over a network that reorders and repeats: every sample arrives as a 10-bit value
   within 3 of what was sent, and exact after the first of its lane wherever the lane steps by at most 58.
   */
  lemma {:induction false} PictureArrives(
    p: Picture, octets: seq<Byte>, maxPayload: nat, datagrams: seq<seq<Byte>>, arrivals: seq<Option<nat>>,
    buffer: seq<Byte>, q: Picture, r: nat, lane: nat, g: nat)
    requires p.Valid() && q.Valid() && (q.w, q.h) == (p.w, p.h) && r < p.h && lane < 4 && g < p.w / 2
    requires Fits(p.Wire(), maxPayload) && p.h > 0 && |buffer| == |octets| == 4 * (p.w / 2) * p.h
    requires Packed(p, octets) && Delivered(p.Wire(), maxPayload, octets, datagrams, arrivals)
    requires Unpacked(Reassemble(p.Wire(), datagrams, buffer), q)
    ensures q.LaneAt(r, lane)[g] < 1024 && Within(3, q.LaneAt(r, lane)[g], p.LaneAt(r, lane)[g] % 1024)
    ensures g > 0 && StepsWithin(Masked(p.LaneAt(r, lane)), 1, 58) ==>
              q.LaneAt(r, lane)[g] == p.LaneAt(r, lane)[g] % 1024
  {
    ReassemblyComplete(p.Wire(), maxPayload, octets, datagrams, arrivals, buffer);
    LaneThroughCode(p, octets, q, r, lane);
    var x := Masked(p.LaneAt(r, lane));
    RowErrorBound(x, 1, g);
    var sample: Sample := DecodeRow(IP10, EncodeRow(IP10, x, 1), 1)[g];
    if g > 0 && StepsWithin(x, 1, 58) {
      SmoothRowExact(x, 1, g);
    }
  }

  /** Sending the received picture on codes it into the very same octets: further hops lose nothing. */
  lemma {:induction false} NextHopSame(octets: seq<Byte>, q: Picture, again: seq<Byte>)
    requires q.Valid() && |octets| == 4 * (q.w / 2) * q.h && Unpacked(octets, q) && Packed(q, again)
    ensures again == octets
  {
    var ppl := q.w / 2;
    forall i | 0 <= i < |octets|
      ensures again[i] == octets[i]
    {
      var r, lane, g := CellsCover(ppl, q.h, i);
      var code := ColumnOf(octets, ppl, q.h, r, lane);
      assert LaneDecoded(octets, q.y, q.cb, q.cr, q.w, q.h, r, lane);
      assert ColumnEncoded(again, q.y, q.cb, q.cr, q.w, q.h, r, lane);
      ReencodeRow(code, q.LaneAt(r, lane), 1);
      assert code[g] == octets[i];
    }
  }
}
