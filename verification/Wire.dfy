/**
 The bytes of a media packet: the RTP header of section 5.1 of RFC 3550, the payload header of section 4.2
 of RFC 4175, and the pixel octets; and the parser of the receiving side.
 */
module Wire {
  import opened Arithmetic
  import opened VideoFormat
  import opened Planner
  import opened Packetizer
  import opened RtpTime

  const MIN_DATAGRAM := RTP_AND_ESN + SRD_HEADER

  type Ssrc = U32
  type PayloadType = x: int | 0 <= x < 128

  /** What the receiver reads from a packet's headers. */
  datatype Info = Info(sequence: U32, timestamp: U32, marker: bool, dataOffset: nat, srds: seq<Srd>)

  // ----- Big-endian fields -----

  function Be16(v: U16): (b: seq<Byte>)
    ensures |b| == 2
  {
    [v / 256, v % 256]
  }

  function Be32(v: U32): (b: seq<Byte>)
    ensures |b| == 4
  {
    Be16(v / 0x1_0000) + Be16(v % 0x1_0000)
  }

  function Read16(b: seq<Byte>, at: nat): U16
    requires at + 2 <= |b|
  {
    (b[at] as int) * 256 + b[at + 1]
  }

  function Read32(b: seq<Byte>, at: nat): U32
    requires at + 4 <= |b|
  {
    (Read16(b, at) as int) * 0x1_0000 + Read16(b, at + 2)
  }

  lemma {:induction false} ReadBe16(pre: seq<Byte>, v: U16, post: seq<Byte>)
    ensures Read16(pre + Be16(v) + post, |pre|) == v
  {
  }

  lemma {:induction false} ReadBe32(pre: seq<Byte>, v: U32, post: seq<Byte>)
    ensures Read32(pre + Be32(v) + post, |pre|) == v
  {
  }

  // ----- The printer -----

  /** Version 2, no padding, extension or sources; the marker and type; the low half of the sequence number. */
  function RtpHeader(p: Plan, pt: PayloadType, ssrc: Ssrc): (b: seq<Byte>)
    ensures |b| == 12
  {
    [0x80, (if p.marker then 0x80 else 0) + pt] + Be16(p.sequence % 0x1_0000) + Be32(p.timestamp) + Be32(ssrc)
  }

  /** Length, line with the field bit clear, and pixel offset under the continuation bit. */
  function SrdHeader(s: Srd, cont: bool): (b: seq<Byte>)
    ensures |b| == SRD_HEADER
  {
    Be16(s.length) + Be16(s.line % 0x8000) + Be16((if cont then 0x8000 else 0) + s.offset % 0x8000)
  }

  function SrdHeaders(srds: seq<Srd>): (b: seq<Byte>)
    ensures |b| == SRD_HEADER * |srds|
  {
    if srds == [] then [] else SrdHeader(srds[0], |srds| > 1) + SrdHeaders(srds[1..])
  }

  /** The octets of the segments, in order. */
  function Gather(f: Format, srds: seq<Srd>, frame: seq<Byte>): (b: seq<Byte>)
    requires InFrame(f, srds, |frame|)
    ensures |b| == Octets(srds)
  {
    if srds == [] then []
    else
      var at := f.ByteOffset(srds[0].line, srds[0].offset);
      frame[at..at + srds[0].length] + Gather(f, srds[1..], frame)
  }

  predicate InFrame(f: Format, srds: seq<Srd>, octets: nat) {
    forall i :: 0 <= i < |srds| ==> f.ByteOffset(srds[i].line, srds[i].offset) + srds[i].length <= octets
  }

  function Headers(p: Plan, pt: PayloadType, ssrc: Ssrc): (b: seq<Byte>)
    ensures |b| == RTP_AND_ESN + SRD_HEADER * |p.srds|
  {
    RtpHeader(p, pt, ssrc) + Be16(p.sequence / 0x1_0000) + SrdHeaders(p.srds)
  }

  function Datagram(f: Format, p: Plan, pt: PayloadType, ssrc: Ssrc, frame: seq<Byte>): (b: seq<Byte>)
    requires InFrame(f, p.srds, |frame|)
    ensures |b| == RTP_AND_ESN + SRD_HEADER * |p.srds| + Octets(p.srds)
  {
    Headers(p, pt, ssrc) + Gather(f, p.srds, frame)
  }

  // ----- The parser -----

  /** The segment headers from `off` on, with `room` more allowed; none if they run out or do not end. */
  function ParseSrds(b: seq<Byte>, off: nat, room: nat): (r: Option<seq<Srd>>)
    ensures r.Some? ==> 1 <= |r.value| <= room && off + SRD_HEADER * |r.value| <= |b|
    decreases room
  {
    if off + SRD_HEADER > |b| || room == 0 then None
    else
      var third := Read16(b, off + 4);
      var s := Srd(Read16(b, off), Read16(b, off + 2) % 0x8000, third % 0x8000);
      if third < 0x8000 then Some([s])
      else
        var rest := ParseSrds(b, off + SRD_HEADER, room - 1);
        if rest.None? then None else Some([s] + rest.value)
  }

  /** What a receiver demands of each segment. */
  predicate Acceptable(f: Format, s: Srd) {
    && f.Whole(s.length)
    && s.line < f.height
    && f.ByteOffset(s.line, s.offset) + s.length <= f.FrameOctets()
  }

  function Parse(f: Format, b: seq<Byte>): (r: Option<Info>)
    ensures r.Some? ==> InFrame(f, r.value.srds, f.FrameOctets())
    ensures r.Some? ==> r.value.dataOffset + Octets(r.value.srds) <= |b|
  {
    if |b| < MIN_DATAGRAM || !(0x80 <= b[0] < 0xC0) then None
    else
      var srds := ParseSrds(b, RTP_AND_ESN, MAX_SRD);
      if srds.None? || exists i :: 0 <= i < |srds.value| && !Acceptable(f, srds.value[i]) then None
      else
        var off := RTP_AND_ESN + SRD_HEADER * |srds.value|;
        if off + Octets(srds.value) > |b| then None
        else
          Some(Info((Read16(b, 12) as int) * 0x1_0000 + Read16(b, 2), Read32(b, 4), b[1] >= 0x80, off, srds.value))
  }

  /** A parsed packet's pixel octets laid into a frame. */
  function Scatter(f: Format, srds: seq<Srd>, data: seq<Byte>, frame: seq<Byte>): (r: seq<Byte>)
    requires InFrame(f, srds, |frame|) && Octets(srds) <= |data|
    ensures |r| == |frame|
  {
    if srds == [] then frame
    else
      var n := srds[0].length;
      Scatter(f, srds[1..], data[n..], Overwrite(frame, f.ByteOffset(srds[0].line, srds[0].offset), data[..n]))
  }

  // ----- Parsing what was printed -----

  /** The plan's segments are good, and there are one to three of them. */
  ghost predicate GoodPlan(f: Format, p: Plan) {
    1 <= |p.srds| <= MAX_SRD && forall i :: 0 <= i < |p.srds| ==> GoodSrd(f, p.srds[i])
  }

  lemma {:induction false} ReadPrintedSrd(pre: seq<Byte>, s: Srd, cont: bool, post: seq<Byte>)
    requires s.line < 0x8000 && s.offset < 0x8000
    ensures var b := pre + SrdHeader(s, cont) + post;
            && Read16(b, |pre|) == s.length && Read16(b, |pre| + 2) == s.line
            && Read16(b, |pre| + 4) == (if cont then 0x8000 else 0) + s.offset
  {
    var b := pre + SrdHeader(s, cont) + post;
    var second, third := Be16(s.line), Be16((if cont then 0x8000 else 0) + s.offset);
    assert b == pre + Be16(s.length) + (second + third + post);
    ReadBe16(pre, s.length, second + third + post);
    assert b == pre + Be16(s.length) + second + (third + post);
    ReadBe16(pre + Be16(s.length), s.line, third + post);
    assert b == pre + Be16(s.length) + second + third + post;
    ReadBe16(pre + Be16(s.length) + second, (if cont then 0x8000 else 0) + s.offset, post);
  }

  lemma {:induction false} ParsePrintedSrds(f: Format, pre: seq<Byte>, srds: seq<Srd>, post: seq<Byte>, room: nat)
    requires 1 <= |srds| <= room && forall i :: 0 <= i < |srds| ==> GoodSrd(f, srds[i])
    ensures ParseSrds(pre + SrdHeaders(srds) + post, |pre|, room) == Some(srds)
    decreases |srds|
  {
    var b := pre + SrdHeaders(srds) + post;
    var cont := |srds| > 1;
    var header, rest := SrdHeader(srds[0], cont), SrdHeaders(srds[1..]);
    assert b == pre + header + (rest + post);
    ReadPrintedSrd(pre, srds[0], cont, rest + post);
    var third := Read16(b, |pre| + 4);
    assert Srd(Read16(b, |pre|), Read16(b, |pre| + 2) % 0x8000, third % 0x8000) == srds[0];
    if cont {
      assert b == pre + header + rest + post;
      ParsePrintedSrds(f, pre + header, srds[1..], post, room - 1);
      assert ParseSrds(b, |pre| + SRD_HEADER, room - 1) == Some(srds[1..]);
      assert srds == [srds[0]] + srds[1..];
    } else {
      assert srds == [srds[0]];
    }
  }

  lemma {:induction false} GoodIsAcceptable(f: Format, s: Srd)
    requires GoodSrd(f, s)
    ensures Acceptable(f, s)
  {
    assert (s.line + 1) * f.LineOctets() == s.line * f.LineOctets() + f.LineOctets();
    MulMono(s.line + 1, f.height, f.LineOctets());
  }

  /** Parsing a printed packet returns its numbers and its segments. */
  lemma {:induction false} ParsePrinted(f: Format, p: Plan, pt: PayloadType, ssrc: Ssrc, data: seq<Byte>)
    requires GoodPlan(f, p) && |data| == Octets(p.srds)
    ensures Parse(f, Headers(p, pt, ssrc) + data)
         == Some(Info(p.sequence, p.timestamp, p.marker, RTP_AND_ESN + SRD_HEADER * |p.srds|, p.srds))
  {
    var b := Headers(p, pt, ssrc) + data;
    var head := RtpHeader(p, pt, ssrc) + Be16(p.sequence / 0x1_0000);
    FieldsPrinted(p, pt, ssrc, SrdHeaders(p.srds) + data, b);
    assert b == head + SrdHeaders(p.srds) + data;
    ParsePrintedSrds(f, head, p.srds, data, MAX_SRD);
    forall i | 0 <= i < |p.srds|
      ensures Acceptable(f, p.srds[i])
    {
      GoodIsAcceptable(f, p.srds[i]);
    }
    ParseOf(f, b, p.srds);
  }

  /** The fixed fields of a printed packet read back, whatever follows them. */
  lemma {:induction false} FieldsPrinted(p: Plan, pt: PayloadType, ssrc: Ssrc, tail: seq<Byte>, b: seq<Byte>)
    requires b == RtpHeader(p, pt, ssrc) + Be16(p.sequence / 0x1_0000) + tail
    ensures |b| >= RTP_AND_ESN && 0x80 <= b[0] < 0xC0 && (b[1] >= 0x80) == p.marker
    ensures Read16(b, 2) == p.sequence % 0x1_0000 && Read32(b, 4) == p.timestamp
    ensures Read16(b, 12) == p.sequence / 0x1_0000
  {
    var first := [0x80, (if p.marker then 0x80 else 0) + pt];
    var lo, esn := Be16(p.sequence % 0x1_0000), Be16(p.sequence / 0x1_0000);
    var stamp, source := Be32(p.timestamp), Be32(ssrc);
    assert b == first + lo + (stamp + source + esn + tail);
    ReadBe16(first, p.sequence % 0x1_0000, stamp + source + esn + tail);
    assert b == first + lo + stamp + (source + esn + tail);
    ReadBe32(first + lo, p.timestamp, source + esn + tail);
    assert b == first + lo + stamp + source + esn + tail;
    ReadBe16(first + lo + stamp + source, p.sequence / 0x1_0000, tail);
    assert b[0] == first[0] && b[1] == first[1];
  }

  /** The parse of a datagram whose segments parse, are acceptable, and have their octets. */
  lemma {:induction false} ParseOf(f: Format, b: seq<Byte>, srds: seq<Srd>)
    requires |b| >= MIN_DATAGRAM && 0x80 <= b[0] < 0xC0 && ParseSrds(b, RTP_AND_ESN, MAX_SRD) == Some(srds)
    requires forall i :: 0 <= i < |srds| ==> Acceptable(f, srds[i])
    requires RTP_AND_ESN + SRD_HEADER * |srds| + Octets(srds) <= |b|
    ensures Parse(f, b) == Some(Info((Read16(b, 12) as int) * 0x1_0000 + Read16(b, 2), Read32(b, 4), b[1] >= 0x80,
                                     RTP_AND_ESN + SRD_HEADER * |srds|, srds))
  {
  }

  // ----- Octet by octet -----

  /** The number that four octets make, the first one first. */
  function FourOctets(b: seq<Byte>, at: nat): nat
    requires at + 4 <= |b|
  {
    (((b[at] as int) * 256 + b[at + 1]) * 256 + b[at + 2]) * 256 + b[at + 3]
  }

  /** Six octets hold a segment: length, line under a field bit, offset under the bit that says that more follow. */
  ghost predicate SrdOctets(b: seq<Byte>, at: nat, s: Srd, more: bool) {
    && at + 6 <= |b|
    && (b[at] as int) * 256 + b[at + 1] == s.length
    && (b[at + 2] % 128 as int) * 256 + b[at + 3] == s.line
    && (b[at + 4] % 128 as int) * 256 + b[at + 5] == s.offset
    && (b[at + 4] >= 128 <==> more)
  }

  /** The segments stand one after the other from `at` on, and the last one ends the list. */
  ghost predicate SrdList(b: seq<Byte>, at: nat, srds: seq<Srd>) {
    forall k :: 0 <= k < |srds| ==> SrdOctets(b, at + 6 * k, srds[k], k + 1 < |srds|)
  }

  lemma {:induction false} SrdListCons(b: seq<Byte>, at: nat, srds: seq<Srd>)
    requires srds != []
    ensures SrdList(b, at, srds) <==> SrdOctets(b, at, srds[0], |srds| > 1) && SrdList(b, at + 6, srds[1..])
  {
    if SrdList(b, at, srds) {
      assert SrdOctets(b, at + 6 * 0, srds[0], 0 + 1 < |srds|);
      forall k | 0 <= k < |srds[1..]|
        ensures SrdOctets(b, at + 6 + 6 * k, srds[1..][k], k + 1 < |srds[1..]|)
      {
        assert SrdOctets(b, at + 6 * (k + 1), srds[k + 1], k + 1 + 1 < |srds|);
      }
    } else if SrdOctets(b, at, srds[0], |srds| > 1) && SrdList(b, at + 6, srds[1..]) {
      forall k | 0 <= k < |srds|
        ensures SrdOctets(b, at + 6 * k, srds[k], k + 1 < |srds|)
      {
        if k > 0 {
          assert SrdOctets(b, at + 6 + 6 * (k - 1), srds[1..][k - 1], k - 1 + 1 < |srds[1..]|);
        }
      }
    }
  }

  lemma {:induction false} SrdRead(b: seq<Byte>, at: nat, s: Srd, more: bool)
    requires at + 6 <= |b|
    ensures SrdOctets(b, at, s, more)
            <==> s == Srd(Read16(b, at), Read16(b, at + 2) % 0x8000, Read16(b, at + 4) % 0x8000)
                 && (Read16(b, at + 4) >= 0x8000 <==> more)
  {
    TopBit(b[at + 2], b[at + 3]);
    TopBit(b[at + 4], b[at + 5]);
  }

  lemma {:induction false} TopBit(high: Byte, low: Byte)
    ensures ((high as int) * 256 + low) % 0x8000 == (high % 128 as int) * 256 + low
    ensures (high as int) * 256 + low >= 0x8000 <==> high >= 128
  {
  }

  /** How the list is read: its first segment, and the others if the top bit says so. */
  lemma {:induction false} SrdsStep(b: seq<Byte>, at: nat, room: nat, srds: seq<Srd>)
    requires srds != [] && at + 6 <= |b| && room > 0
    ensures ParseSrds(b, at, room) == Some(srds)
            <==> srds[0] == Srd(Read16(b, at), Read16(b, at + 2) % 0x8000, Read16(b, at + 4) % 0x8000)
                 && (Read16(b, at + 4) >= 0x8000 <==> |srds| > 1)
                 && (|srds| > 1 ==> ParseSrds(b, at + 6, room - 1) == Some(srds[1..]))
  {
    var s := Srd(Read16(b, at), Read16(b, at + 2) % 0x8000, Read16(b, at + 4) % 0x8000);
    var rest := ParseSrds(b, at + 6, room - 1);
    assert srds == [srds[0]] + srds[1..];
    if Read16(b, at + 4) < 0x8000 {
      assert srds == [s] <==> srds[0] == s && |srds| == 1;
    } else if rest.Some? {
      assert ([s] + rest.value)[0] == s && ([s] + rest.value)[1..] == rest.value;
    }
  }

  /** The list is read exactly if it is there, and is not longer than there is room for. */
  lemma {:induction false} SrdsExactly(b: seq<Byte>, at: nat, room: nat, srds: seq<Srd>)
    ensures ParseSrds(b, at, room) == Some(srds) <==> 1 <= |srds| <= room && SrdList(b, at, srds)
    decreases room
  {
    if srds != [] && at + 6 <= |b| && room > 0 {
      SrdsStep(b, at, room, srds);
      SrdListCons(b, at, srds);
      SrdRead(b, at, srds[0], |srds| > 1);
      SrdsExactly(b, at + 6, room - 1, srds[1..]);
    } else if srds != [] {
      assert SrdList(b, at, srds) ==> SrdOctets(b, at + 6 * 0, srds[0], 0 + 1 < |srds|);
    }
  }

  /**
   The parser accepts a datagram exactly when it has 20 octets, version 2, one to three segments one after the other,
   each of whole pgroups and in the frame, and their octets; and it reads its numbers from where they are.
   */
  lemma {:induction false} ParseExactly(f: Format, b: seq<Byte>, info: Info)
    ensures Parse(f, b) == Some(info) <==>
      && |b| >= 20 && 128 <= b[0] < 192
      && 1 <= |info.srds| <= 3 && SrdList(b, 14, info.srds)
      && (forall k :: 0 <= k < |info.srds| ==>
            var s := info.srds[k];
            s.length % f.Pgroup() == 0 && s.line < f.height
            && s.line * f.LineOctets() + f.Pgroup() * (s.offset / 2) + s.length <= f.height * f.LineOctets())
      && info.dataOffset == 14 + 6 * |info.srds| && info.dataOffset + Octets(info.srds) <= |b|
      && (info.marker <==> b[1] >= 128) && info.timestamp == FourOctets(b, 4)
      && info.sequence == (((b[12] as int) * 256 + b[13]) * 256 + b[2]) * 256 + b[3]
  {
    if |b| >= 20 {
      SrdsExactly(b, 14, 3, info.srds);
    }
  }

  /**
   The printed datagram octet by octet: version 2 with nothing set, marker over payload type, low half of the
   sequence number, stamp, source, high half, and the segments one after the other.
   */
  lemma {:induction false} DatagramOctets(f: Format, p: Plan, pt: PayloadType, ssrc: Ssrc, data: seq<Byte>)
    requires GoodPlan(f, p)
    ensures var b := Headers(p, pt, ssrc) + data;
            && b[0] == 128 && b[1] == (if p.marker then 128 else 0) + pt
            && (b[2] as int) * 256 + b[3] == p.sequence % 0x1_0000
            && FourOctets(b, 4) == p.timestamp && FourOctets(b, 8) == ssrc
            && (b[12] as int) * 256 + b[13] == p.sequence / 0x1_0000
            && SrdList(b, 14, p.srds)
            && |b| == 14 + 6 * |p.srds| + |data| && b[14 + 6 * |p.srds|..] == data
  {
    var b := Headers(p, pt, ssrc) + data;
    var head := RtpHeader(p, pt, ssrc) + Be16(p.sequence / 0x1_0000);
    assert b == head + SrdHeaders(p.srds) + data;
    assert b == head + (SrdHeaders(p.srds) + data);
    FieldsPrinted(p, pt, ssrc, SrdHeaders(p.srds) + data, b);
    SourcePrinted(p, pt, ssrc, Be16(p.sequence / 0x1_0000) + SrdHeaders(p.srds) + data, b);
    ParsePrintedSrds(f, head, p.srds, data, MAX_SRD);
    SrdsExactly(b, 14, MAX_SRD, p.srds);
  }

  lemma {:induction false} SourcePrinted(p: Plan, pt: PayloadType, ssrc: Ssrc, tail: seq<Byte>, b: seq<Byte>)
    requires b == RtpHeader(p, pt, ssrc) + tail
    ensures |b| >= 12 && b[0] == 128 && b[1] == (if p.marker then 128 else 0) + pt && FourOctets(b, 8) == ssrc
  {
    var first := [0x80, (if p.marker then 0x80 else 0) + pt];
    var before := first + Be16(p.sequence % 0x1_0000) + Be32(p.timestamp);
    assert b == before + Be32(ssrc) + tail;
    ReadBe32(before, ssrc, tail);
    assert b[0] == first[0] && b[1] == first[1];
  }
}
