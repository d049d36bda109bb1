/** Packets in buffers: the writer, the parser and the scatter of the packet module, in place. */
module PacketBuffers {
  import opened VideoFormat
  import opened Planner
  import opened Packetizer
  import opened Wire
  import opened Reassembly

  /** The octets of `a` outside `from..to` are as they were in `before`. */
  ghost predicate SameOutside(a: seq<Byte>, before: seq<Byte>, from: nat, to: nat) {
    |a| == |before| && forall b :: 0 <= b < |a| && !(from <= b < to) ==> a[b] == before[b]
  }

  method Put(dst: array<Byte>, at: nat, octets: seq<Byte>)
    requires at + |octets| <= dst.Length
    modifies dst
    ensures dst[at..at + |octets|] == octets && SameOutside(dst[..], old(dst[..]), at, at + |octets|)
  {
    for i := 0 to |octets|
      invariant dst[at..at + i] == octets[..i] && SameOutside(dst[..], old(dst[..]), at, at + |octets|)
    {
      dst[at + i] := octets[i];
      assert dst[at..at + i + 1] == dst[at..at + i] + [octets[i]];
    }
  }

  /** Serialize one packet into `dst`, copying its octets from `frame`. */
  method WritePayload(f: Format, p: Plan, pt: PayloadType, ssrc: Ssrc, frame: array<Byte>, dst: array<Byte>)
    requires InFrame(f, p.srds, frame.Length) && frame != dst
    requires RTP_AND_ESN + SRD_HEADER * |p.srds| + Octets(p.srds) <= dst.Length
    modifies dst
    ensures var datagram := Datagram(f, p, pt, ssrc, frame[..]);
            dst[..|datagram|] == datagram && SameOutside(dst[..], old(dst[..]), 0, |datagram|)
  {
    ghost var frame0 := frame[..];
    ghost var headers, data := Headers(p, pt, ssrc), Gather(f, p.srds, frame0);
    var w := WriteHeaders(p, pt, ssrc, dst);
    ghost var before := dst[..];
    WriteData(f, p.srds, frame, dst, w);
    assert frame[..] == frame0 && before[..w] == headers;
    Joined(before, dst[..], headers, data);
  }

  lemma {:induction false} Joined(before: seq<Byte>, after: seq<Byte>, head: seq<Byte>, data: seq<Byte>)
    requires |head| + |data| <= |before| && SameOutside(after, before, |head|, |head| + |data|)
    requires before[..|head|] == head && after[|head|..|head| + |data|] == data
    ensures after[..|head| + |data|] == head + data
  {
    assert after[..|head|] == before[..|head|];
    assert after[..|head| + |data|] == after[..|head|] + after[|head|..|head| + |data|];
  }

  method WriteHeaders(p: Plan, pt: PayloadType, ssrc: Ssrc, dst: array<Byte>) returns (w: nat)
    requires RTP_AND_ESN + SRD_HEADER * |p.srds| <= dst.Length
    modifies dst
    ensures w == RTP_AND_ESN + SRD_HEADER * |p.srds| && dst[..w] == Headers(p, pt, ssrc)
    ensures SameOutside(dst[..], old(dst[..]), 0, w)
  {
    CopyPiece(dst, 0, 0, RtpHeader(p, pt, ssrc));
    CopyPiece(dst, 0, 12, Be16(p.sequence / 0x1_0000));
    assert dst[0..0] == [];
    w := WriteSrdHeaders(p.srds, dst, RTP_AND_ESN);
    assert dst[..w] == dst[0..w] == dst[0..RTP_AND_ESN] + dst[RTP_AND_ESN..w];
  }

  method WriteSrdHeaders(srds: seq<Srd>, dst: array<Byte>, to: nat) returns (w: nat)
    requires to + SRD_HEADER * |srds| <= dst.Length
    modifies dst
    ensures w == to + SRD_HEADER * |srds| && dst[to..w] == SrdHeaders(srds)
    ensures SameOutside(dst[..], old(dst[..]), to, w)
  {
    w := to;
    assert dst[to..to] == [] && [] + SrdHeaders(srds) == SrdHeaders(srds);
    for i := 0 to |srds|
      invariant Heading(srds, i, dst[..], to, w)
      invariant SameOutside(dst[..], old(dst[..]), to, to + SRD_HEADER * |srds|)
    {
      w := WriteSrdHeader(srds, i, dst, to, w);
    }
    assert srds[|srds|..] == [] && dst[..][to..w] + [] == dst[to..w];
  }

  /** The headers so far, with those still to come, are all of them. */
  ghost predicate Heading(srds: seq<Srd>, i: nat, b: seq<Byte>, to: nat, w: nat)
    requires i <= |srds|
  {
    w == to + SRD_HEADER * i <= |b| && b[to..w] + SrdHeaders(srds[i..]) == SrdHeaders(srds)
  }

  method WriteSrdHeader(srds: seq<Srd>, i: nat, dst: array<Byte>, to: nat, w: nat) returns (next: nat)
    requires i < |srds| && Heading(srds, i, dst[..], to, w) && w + SRD_HEADER <= dst.Length
    modifies dst
    ensures Heading(srds, i + 1, dst[..], to, next) && next == w + SRD_HEADER
    ensures SameOutside(dst[..], old(dst[..]), w, next)
  {
    var header := SrdHeader(srds[i], i + 1 < |srds|);
    ghost var done := dst[..][to..w];
    HeaderNext(srds, i, done, header);
    assert done == dst[to..w];
    CopyPiece(dst, to, w, header);
    next := w + SRD_HEADER;
    assert dst[..][to..next] == dst[to..w + |header|] == done + header;
  }

  lemma {:induction false} HeaderNext(srds: seq<Srd>, i: nat, done: seq<Byte>, header: seq<Byte>)
    requires i < |srds| && header == SrdHeader(srds[i], i + 1 < |srds|)
    ensures done + SrdHeaders(srds[i..]) == done + header + SrdHeaders(srds[i + 1..])
  {
    assert srds[i..][1..] == srds[i + 1..];
  }

  method WriteData(f: Format, srds: seq<Srd>, frame: array<Byte>, dst: array<Byte>, to: nat)
    requires InFrame(f, srds, frame.Length) && frame != dst && to + Octets(srds) <= dst.Length
    modifies dst
    ensures dst[to..to + Octets(srds)] == Gather(f, srds, frame[..])
    ensures SameOutside(dst[..], old(dst[..]), to, to + Octets(srds))
  {
    ghost var data := Gather(f, srds, frame[..]);
    var w := to;
    assert dst[to..to] + data == data;
    for i := 0 to |srds|
      invariant Gathering(f, srds, i, frame[..], dst[..], to, w, data)
      invariant SameOutside(dst[..], old(dst[..]), to, to + |data|)
    {
      w := WriteSegment(f, srds, i, frame, dst, to, w, data);
    }
    assert dst[..][to..w] + [] == dst[to..w];
  }

  /** What is written and what is still to be gathered make up the data. */
  ghost predicate Gathering(
    f: Format, srds: seq<Srd>, i: nat, frame: seq<Byte>, dst: seq<Byte>, to: nat, w: nat, data: seq<Byte>)
    requires i <= |srds| && InFrame(f, srds, |frame|)
  {
    && to <= w <= |dst| && w + Octets(srds[i..]) == to + |data| <= |dst|
    && dst[to..w] + Gather(f, srds[i..], frame) == data
  }

  method WriteSegment(
    f: Format, srds: seq<Srd>, i: nat, frame: array<Byte>, dst: array<Byte>, to: nat, w: nat, ghost data: seq<Byte>)
    returns (next: nat)
    requires i < |srds| && InFrame(f, srds, frame.Length) && frame != dst
    requires Gathering(f, srds, i, frame[..], dst[..], to, w, data)
    modifies dst
    ensures Gathering(f, srds, i + 1, frame[..], dst[..], to, next, data)
    ensures SameOutside(dst[..], old(dst[..]), to, to + |data|)
  {
    var from := f.ByteOffset(srds[i].line, srds[i].offset);
    var piece := frame[from..from + srds[i].length];
    GatherStep(f, srds, i, frame[..], dst[..][to..w], piece);
    CopyPiece(dst, to, w, piece);
    next := w + |piece|;
  }

  method CopyPiece(dst: array<Byte>, to: nat, w: nat, piece: seq<Byte>)
    requires to <= w && w + |piece| <= dst.Length
    modifies dst
    ensures dst[to..w + |piece|] == old(dst[to..w]) + piece
    ensures SameOutside(dst[..], old(dst[..]), w, w + |piece|)
  {
    Put(dst, w, piece);
    assert dst[to..w + |piece|] == dst[to..w] + dst[w..w + |piece|];
    assert dst[to..w] == old(dst[to..w]);
  }

  lemma {:induction false} GatherStep(
    f: Format, srds: seq<Srd>, i: nat, frame: seq<Byte>, done: seq<Byte>, piece: seq<Byte>)
    requires i < |srds| && InFrame(f, srds, |frame|)
    requires var at := f.ByteOffset(srds[i].line, srds[i].offset); piece == frame[at..at + srds[i].length]
    ensures Octets(srds[i..]) == |piece| + Octets(srds[i + 1..])
    ensures done + Gather(f, srds[i..], frame) == done + piece + Gather(f, srds[i + 1..], frame)
  {
    assert srds[i..][1..] == srds[i + 1..];
  }

  /** Read a packet's headers; none if it is malformed or would reach outside the packet or the frame. */
  method ParsePacket(f: Format, p: array<Byte>, len: nat) returns (info: Option<Info>)
    requires len <= p.Length
    ensures info == Parse(f, p[..len])
  {
    ghost var b := p[..len];
    if len < MIN_DATAGRAM || !(0x80 <= p[0] < 0xC0) { return None; }
    var srds := ParseHeaders(p, len);
    if srds.None? { return None; }
    var ok, data := CheckSegments(f, srds.value);
    var off := RTP_AND_ESN + SRD_HEADER * |srds.value|;
    if !ok || off + data > len { return None; }
    var fixed := p[..RTP_AND_ESN];
    assert fixed == b[..RTP_AND_ESN];
    var sequence := (Read16(fixed, 12) as int) * 0x1_0000 + Read16(fixed, 2);
    info := Some(Info(sequence, Read32(fixed, 4), p[1] >= 0x80, off, srds.value));
  }

  /** The segment headers, up to the first without the continuation bit. */
  method ParseHeaders(p: array<Byte>, len: nat) returns (r: Option<seq<Srd>>)
    requires RTP_AND_ESN <= len <= p.Length
    ensures r == ParseSrds(p[..len], RTP_AND_ESN, MAX_SRD)
  {
    ghost var b := p[..len];
    var off, srds := RTP_AND_ESN, [];
    ghost var all := ParseSrds(b, RTP_AND_ESN, MAX_SRD);
    assert all.Some? ==> [] + all.value == all.value;
    while true
      invariant off == RTP_AND_ESN + SRD_HEADER * |srds| && |srds| <= MAX_SRD
      invariant all == Prepend(srds, ParseSrds(b, off, MAX_SRD - |srds|))
      decreases MAX_SRD - |srds|
    {
      if off + SRD_HEADER > len || |srds| >= MAX_SRD { return None; }
      var header := p[off..off + SRD_HEADER];
      assert header == b[off..off + SRD_HEADER];
      var third := Read16(header, 4);
      var s := Srd(Read16(header, 0), Read16(header, 2) % 0x8000, third % 0x8000);
      PrependStep(b, off, srds, s, third);
      srds, off := srds + [s], off + SRD_HEADER;
      if third < 0x8000 { return Some(srds); }
    }
  }

  /** Are all segments acceptable, and how many octets do they carry? */
  method CheckSegments(f: Format, srds: seq<Srd>) returns (ok: bool, data: nat)
    ensures ok <==> forall i :: 0 <= i < |srds| ==> Acceptable(f, srds[i])
    ensures ok ==> data == Octets(srds)
  {
    data := 0;
    for i := 0 to |srds|
      invariant forall k :: 0 <= k < i ==> Acceptable(f, srds[k])
      invariant data + Octets(srds[i..]) == Octets(srds)
    {
      var s := srds[i];
      if !f.Whole(s.length) || s.line >= f.height
         || f.ByteOffset(s.line, s.offset) + s.length > f.FrameOctets() {
        assert !Acceptable(f, srds[i]);
        return false, 0;
      }
      data := data + s.length;
    }
    ok := true;
  }

  function Prepend(srds: seq<Srd>, rest: Option<seq<Srd>>): Option<seq<Srd>> {
    if rest.None? then None else Some(srds + rest.value)
  }

  lemma {:induction false} PrependStep(b: seq<Byte>, off: nat, srds: seq<Srd>, s: Srd, third: U16)
    requires |srds| < MAX_SRD && off + SRD_HEADER <= |b| && third == Read16(b, off + 4)
    requires s == Srd(Read16(b, off), Read16(b, off + 2) % 0x8000, third % 0x8000)
    ensures Prepend(srds, ParseSrds(b, off, MAX_SRD - |srds|))
         == if third < 0x8000 then Some(srds + [s])
            else Prepend(srds + [s], ParseSrds(b, off + SRD_HEADER, MAX_SRD - |srds| - 1))
  {
    var rest := ParseSrds(b, off + SRD_HEADER, MAX_SRD - |srds| - 1);
    if rest.Some? {
      assert srds + ([s] + rest.value) == srds + [s] + rest.value;
    }
  }

  /** Copy a parsed packet's octets into the frame. */
  method ScatterPacket(f: Format, info: Info, p: array<Byte>, frame: array<Byte>)
    requires InFrame(f, info.srds, frame.Length) && info.dataOffset + Octets(info.srds) <= p.Length && p != frame
    modifies frame
    ensures frame[..] == Scatter(f, info.srds, p[info.dataOffset..], old(frame[..]))
  {
    var off: nat := info.dataOffset;
    ghost var b := p[..];
    ghost var final := Scatter(f, info.srds, b[off..], frame[..]);
    for i := 0 to |info.srds|
      invariant p[..] == b && Scattering(f, info.srds, i, b, off, frame[..], final)
    {
      off := ScatterSegment(f, info.srds, i, p, off, frame, final);
    }
  }

  method ScatterSegment(
    f: Format, srds: seq<Srd>, i: nat, p: array<Byte>, off: nat, frame: array<Byte>, ghost final: seq<Byte>)
    returns (next: nat)
    requires i < |srds| && InFrame(f, srds, frame.Length) && p != frame
    requires Scattering(f, srds, i, p[..], off, frame[..], final)
    modifies frame
    ensures Scattering(f, srds, i + 1, p[..], next, frame[..], final)
  {
    ghost var b, before := p[..], frame[..];
    var s := srds[i];
    ScatterStep(f, srds, i, b, off, before);
    next := off + s.length;
    assert p[off..next] == b[off..next];
    PutOver(frame, f.ByteOffset(s.line, s.offset), p[off..next]);
    ScatteringNext(f, srds, i, b, off, before, next, frame[..], final);
  }

  lemma {:induction false} ScatteringNext(
    f: Format, srds: seq<Srd>, i: nat, b: seq<Byte>, off: nat, before: seq<Byte>, next: nat, frame: seq<Byte>,
    final: seq<Byte>)
    requires i < |srds| && InFrame(f, srds, |before|) && Scattering(f, srds, i, b, off, before, final)
    requires next == off + srds[i].length <= |b|
    requires frame == Overwrite(before, f.ByteOffset(srds[i].line, srds[i].offset), b[off..next])
    ensures Scattering(f, srds, i + 1, b, next, frame, final)
  {
    ScatterStep(f, srds, i, b, off, before);
  }

  /** What is still to be scattered completes the frame. */
  ghost predicate Scattering(
    f: Format, srds: seq<Srd>, i: nat, b: seq<Byte>, off: nat, frame: seq<Byte>, final: seq<Byte>)
    requires i <= |srds| && InFrame(f, srds, |frame|)
  {
    off <= |b| && Octets(srds[i..]) <= |b| - off && Scatter(f, srds[i..], b[off..], frame) == final
  }

  lemma {:induction false} ScatterStep(f: Format, srds: seq<Srd>, i: nat, b: seq<Byte>, off: nat, frame: seq<Byte>)
    requires i < |srds| && InFrame(f, srds, |frame|) && off <= |b| && Octets(srds[i..]) <= |b| - off
    ensures var s := srds[i];
            && off + s.length <= |b| && Octets(srds[i + 1..]) <= |b| - (off + s.length)
            && Scatter(f, srds[i..], b[off..], frame)
               == Scatter(f, srds[i + 1..], b[off + s.length..],
                          Overwrite(frame, f.ByteOffset(s.line, s.offset), b[off..off + s.length]))
  {
    var s := srds[i];
    assert srds[i..][1..] == srds[i + 1..] && b[off..][s.length..] == b[off + s.length..];
    assert b[off..][..s.length] == b[off..off + s.length];
  }

  method PutOver(dst: array<Byte>, at: nat, octets: seq<Byte>)
    requires at + |octets| <= dst.Length
    modifies dst
    ensures dst[..] == Overwrite(old(dst[..]), at, octets)
  {
    Put(dst, at, octets);
    assert forall b :: at <= b < at + |octets| ==> dst[b] == dst[at..at + |octets|][b - at];
  }

  /** The receive path of one datagram: parse it, and scatter it if it is well formed. */
  method ReceiveInto(f: Format, p: array<Byte>, frame: array<Byte>) returns (info: Option<Info>)
    requires frame.Length == f.FrameOctets() && p != frame
    modifies frame
    ensures info == Parse(f, p[..]) && frame[..] == Receive(f, p[..], old(frame[..]))
  {
    info := ParsePacket(f, p, p.Length);
    assert p[..p.Length] == p[..];
    if info.Some? {
      ScatterPacket(f, info.value, p, frame);
    }
  }
}
