/** The pacing schedule of a whole frame: its window, its order, and its stamps per line. */
module PacingSchedule {
  import opened Arithmetic
  import opened VideoFormat
  import opened Planner
  import opened TxPacer

  // ----- The packets of a line-aligned frame, line by line -----

  /** The longest segment of a line-aligned packet, and the packets that a line takes. */
  function FullSegment(f: Format, payload: nat): nat
    requires payload >= 20
  {
    f.OctetsOf(f.PgroupsIn(payload - 20))
  }

  function PerLine(f: Format, payload: nat): nat
    requires payload >= 20 + f.Pgroup()
  {
    Quotient(f.LineOctets() + FullSegment(f, payload) - 1, FullSegment(f, payload))
  }

  /** Packet `g` of the frame is packet `k` of line `line`. */
  ghost predicate PacketPlace(perLine: nat, g: nat, line: nat, k: nat) {
    g == line * perLine + k && k < perLine
  }

  lemma {:induction false} PlaceUnique(perLine: nat, g: nat, line: nat, k: nat)
    requires PacketPlace(perLine, g, line, k)
    ensures g / perLine == line && g % perLine == k
  {
    QuotientIs(g, perLine, line);
  }

  /** The packet after it, if the frame has one. */
  lemma {:induction false} PlaceNext(perLine: nat, g: nat, line: nat, k: nat, h: nat)
    requires PacketPlace(perLine, g, line, k) && line < h
    ensures g < h * perLine && (k + 1 == perLine && line + 1 == h ==> g + 1 == h * perLine)
    ensures if k + 1 < perLine then PacketPlace(perLine, g + 1, line, k + 1)
            else PacketPlace(perLine, g + 1, line + 1, 0)
  {
    MulMono(line + 1, h, perLine);
    Distribute(line, 1, perLine);
  }

  /** The last packet of a line starts inside it, and one more full segment would reach its end. */
  lemma {:induction false} PerLineBounds(octets: nat, seg: nat, n: nat)
    requires seg > 0 && octets > 0 && n == Quotient(octets + seg - 1, seg)
    ensures n > 0 && (n - 1) * seg < octets <= n * seg
  {
    QuotientBounds(octets + seg - 1, seg);
    assert n * seg == (n - 1) * seg + seg;
  }

  lemma {:induction false} AlignedFill(f: Format, payload: nat, c: Cursor)
    requires Fits(f, payload) && f.LineAligned() && OnFrame(f, c) && c.line < f.height
    ensures var seg := Segment(f, payload - 20, c);
            seg > 0 && PlanOne(f, payload, c) == ([SrdAt(f, c, seg)], Advance(f, c, seg))
  {
    SegmentPositive(f, payload - 20, c);
  }

  /** Packet `k` of a line starts inside it, and reaches its end exactly when it is the last. */
  lemma {:induction false} PlaceInLine(f: Format, payload: nat, k: nat)
    requires Fits(f, payload) && k < PerLine(f, payload)
    ensures var seg, n := FullSegment(f, payload), PerLine(f, payload);
            && seg > 0 && k * seg < f.LineOctets() && f.Whole(k * seg)
            && (k + 1 < n <==> k * seg + seg < f.LineOctets())
  {
    var seg, n := FullSegment(f, payload), PerLine(f, payload);
    FullPositive(f, payload);
    PlaceNumbers(f.LineOctets(), seg, n, k);
    MultipleOf(f, k, seg);
  }

  lemma {:induction false} FullPositive(f: Format, payload: nat)
    requires Fits(f, payload)
    ensures FullSegment(f, payload) > 0 && f.Whole(FullSegment(f, payload)) && f.LineOctets() > 0
  {
  }

  lemma {:induction false} PlaceNumbers(octets: nat, seg: nat, n: nat, k: nat)
    requires seg > 0 && octets > 0 && n == Quotient(octets + seg - 1, seg) && k < n
    ensures k * seg < octets && (k + 1 < n <==> k * seg + seg < octets)
  {
    PerLineBounds(octets, seg, n);
    MulMono(k, n - 1, seg);
    Distribute(k, 1, seg);
    if k + 1 < n {
      MulMono(k + 1, n - 1, seg);
    }
  }

  /** One packet of a line-aligned frame: the full segment, or what is left of the line. */
  lemma {:induction false} AlignedStep(f: Format, payload: nat, line: nat, k: nat, octet: nat)
    requires Fits(f, payload) && f.LineAligned() && line < f.height && k < PerLine(f, payload)
    requires StartsAt(f, payload, k, octet)
    ensures var (srds, next) := PlanOne(f, payload, Cursor(line, octet));
            && |srds| == 1 && srds[0].line == line
            && next == if k + 1 < PerLine(f, payload) then Cursor(line, octet + FullSegment(f, payload))
                       else Cursor(line + 1, 0)
  {
    var c := Cursor(line, octet);
    PlaceInLine(f, payload, k);
    AlignedFill(f, payload, c);
    AlignedSegment(f, payload, c, k);
    AlignedAdvance(f, c, Segment(f, payload - 20, c), FullSegment(f, payload), k + 1 < PerLine(f, payload));
  }

  lemma {:induction false} AlignedAdvance(f: Format, c: Cursor, seg: nat, full: nat, more: bool)
    requires c.line < 0x1_0000 && c.octet <= f.LineOctets() && (more <==> c.octet + full < f.LineOctets())
    requires seg == if more then full else f.LineOctets() - c.octet
    ensures SrdAt(f, c, seg).line == c.line
    ensures Advance(f, c, seg) == if more then Cursor(c.line, c.octet + full) else Cursor(c.line + 1, 0)
  {
  }

  lemma {:induction false} AlignedSegment(f: Format, payload: nat, c: Cursor, k: nat)
    requires Fits(f, payload) && f.LineAligned() && k < PerLine(f, payload)
    requires c.octet == k * FullSegment(f, payload) && OnFrame(f, c) && c.line < f.height
    ensures Segment(f, payload - 20, c)
         == if k + 1 < PerLine(f, payload) then FullSegment(f, payload) else f.LineOctets() - c.octet
    ensures k + 1 < PerLine(f, payload) <==> c.octet + FullSegment(f, payload) < f.LineOctets()
  {
    PlaceInLine(f, payload, k);
    LineIsPgroups(f);
    Pgroups(f, c.octet, f.LineOctets());
    LastSegment(f, payload - 20, f.LineOctets() - c.octet);
  }

  lemma {:induction false} MultipleOf(f: Format, k: nat, seg: nat)
    requires f.Whole(seg)
    ensures f.Whole(k * seg)
  {
    if f.sampling == YCbCr422_8 {
      Multiples(k, seg / 4);
    } else {
      Multiples(k, seg / 5);
    }
  }

  lemma {:induction false} Multiples(k: nat, q: nat)
    ensures k * (4 * q) % 4 == 0 && k * (5 * q) % 5 == 0
  {
    var m := k * q;
    assert k * (4 * q) == 4 * m && k * (5 * q) == 5 * m;
  }

  /** Rounding down to pgroups keeps a whole line remainder and cuts a longer one to the full segment. */
  lemma {:induction false} LastSegment(f: Format, room: nat, left: nat)
    requires f.Whole(left)
    ensures var full := f.OctetsOf(f.PgroupsIn(room));
            var seg := f.OctetsOf(f.PgroupsIn(if left < room then left else room));
            seg == if left <= full then left else full
  {
  }

  /** One segment per packet, `perLine` of them for each line, counting on from packet `g` of the frame. */
  ghost predicate LinesFrom(ps: seq<seq<Srd>>, g: nat, perLine: nat)
    requires perLine > 0
  {
    forall i :: 0 <= i < |ps| ==> |ps[i]| == 1 && ps[i][0].line == Quotient(g + i, perLine)
  }

  lemma {:induction false} LinesCons(ps: seq<seq<Srd>>, g: nat, perLine: nat)
    requires perLine > 0 && ps != [] && |ps[0]| == 1 && ps[0][0].line == Quotient(g, perLine)
    requires LinesFrom(ps[1..], g + 1, perLine)
    ensures LinesFrom(ps, g, perLine)
  {
    forall i | 0 < i < |ps|
      ensures ps[i] == ps[1..][i - 1] && Quotient(g + i, perLine) == Quotient(g + 1 + (i - 1), perLine)
    {
      assert g + i == g + 1 + (i - 1);
    }
  }

  lemma {:induction false} AlignedPackets(
    f: Format, payload: nat, line: nat, k: nat, octet: nat, g: nat, total: nat, ps: seq<seq<Srd>>)
    requires Fits(f, payload) && f.LineAligned() && line < f.height
    requires PacketPlace(PerLine(f, payload), g, line, k)
    requires StartsAt(f, payload, k, octet) && total == f.height * PerLine(f, payload)
    requires ps == Packets(f, payload, Cursor(line, octet))
    ensures |ps| == total - g && LinesFrom(ps, g, PerLine(f, payload))
    decreases total - g
  {
    var n := PerLine(f, payload);
    var more, line', k', octet' := AlignedNext(f, payload, line, k, octet, ps);
    PlaceUnique(n, g, line, k);
    PlaceNext(n, g, line, k, f.height);
    if more {
      AlignedPackets(f, payload, line', k', octet', g + 1, total, ps[1..]);
    }
    LinesCons(ps, g, n);
  }

  /** The first packet, and where the rest of them start. */
  lemma {:induction false} AlignedNext(f: Format, payload: nat, line: nat, k: nat, octet: nat, ps: seq<seq<Srd>>)
    returns (more: bool, line': nat, k': nat, octet': nat)
    requires Fits(f, payload) && f.LineAligned() && line < f.height && k < PerLine(f, payload)
    requires StartsAt(f, payload, k, octet) && ps == Packets(f, payload, Cursor(line, octet))
    ensures ps != [] && |ps[0]| == 1 && ps[0][0].line == line
    ensures more <==> k + 1 < PerLine(f, payload) || line + 1 < f.height
    ensures more ==> (line', k') == if k + 1 < PerLine(f, payload) then (line, k + 1) else (line + 1, 0)
    ensures if more then StartsAt(f, payload, k', octet') && ps[1..] == Packets(f, payload, Cursor(line', octet'))
            else ps[1..] == []
  {
    AlignedStep(f, payload, line, k, octet);
    var (srds, next) := PlanOne(f, payload, Cursor(line, octet));
    FirstAndRest(f, payload, Cursor(line, octet), srds, next, ps);
    more, line', k', octet' := next.line < f.height, next.line, 0, next.octet;
    if k + 1 < PerLine(f, payload) {
      NextStart(f, payload, k, octet);
      k' := k + 1;
    }
  }

  lemma {:induction false} FirstAndRest(
    f: Format, payload: nat, c: Cursor, srds: seq<Srd>, next: Cursor, ps: seq<seq<Srd>>)
    requires c.line < f.height && c.octet <= f.LineOctets() && srds != []
    requires (srds, next) == PlanOne(f, payload, c) && ps == Packets(f, payload, c)
    ensures ps != [] && ps[0] == srds
    ensures ps[1..] == if next.line < f.height then Packets(f, payload, next) else []
  {
  }

  /** Packet `k` of a line starts at this octet. */
  ghost predicate StartsAt(f: Format, payload: nat, k: nat, octet: nat)
    requires payload >= 20
  {
    octet == k * FullSegment(f, payload) && octet < f.LineOctets()
  }

  lemma {:induction false} NextStart(f: Format, payload: nat, k: nat, octet: nat)
    requires Fits(f, payload) && StartsAt(f, payload, k, octet) && k + 1 < PerLine(f, payload)
    ensures StartsAt(f, payload, k + 1, octet + FullSegment(f, payload))
  {
    PlaceInLine(f, payload, k);
    Distribute(k, 1, FullSegment(f, payload));
  }

  /** `perLine` packets for each of `h` lines, in order. */
  ghost predicate LineMajor(lines: seq<nat>, h: nat, perLine: nat) {
    |lines| == h * perLine && perLine > 0 && forall i :: 0 <= i < |lines| ==> lines[i] == i / perLine
  }

  lemma {:induction false} AlignedFrame(f: Format, payload: nat)
    requires Fits(f, payload) && f.LineAligned() && f.height > 0
    ensures LineMajor(Lines(Packets(f, payload, Cursor(0, 0))), f.height, PerLine(f, payload))
  {
    LineIsPgroups(f);
    PerLineBounds(f.LineOctets(), FullSegment(f, payload), PerLine(f, payload));
    AlignedPackets(f, payload, 0, 0, 0, 0, f.height * PerLine(f, payload), Packets(f, payload, Cursor(0, 0)));
  }

  /** The place after packet `i - 1`. */
  lemma {:induction false} NextPlace(perLine: nat, i: nat)
    requires perLine > 0 && i > 0
    ensures var line, k := (i - 1) / perLine, (i - 1) % perLine;
            if k + 1 < perLine then i / perLine == line && i % perLine == k + 1
            else i / perLine == line + 1 && i % perLine == 0
  {
    var line, k := (i - 1) / perLine, (i - 1) % perLine;
    QuotientBounds(i - 1, perLine);
    assert (line + 1) * perLine == line * perLine + perLine;
    if k + 1 < perLine {
      PlaceUnique(perLine, i, line, k + 1);
    } else {
      PlaceUnique(perLine, i, line + 1, 0);
    }
  }

  lemma {:induction false} LineInFrame(lines: seq<nat>, h: nat, perLine: nat, i: nat)
    requires LineMajor(lines, h, perLine) && i < |lines|
    ensures lines[i] < h && i == lines[i] * perLine + i % perLine
  {
    QuotientBounds(i, perLine);
    if lines[i] >= h {
      MulMono(h, lines[i], perLine);
    }
  }

  lemma {:induction false} IndexIs(lines: seq<nat>, h: nat, perLine: nat, i: nat)
    requires LineMajor(lines, h, perLine) && i < |lines|
    ensures IndexInLine(lines, i) == i % perLine && (StartsLine(lines, i) <==> i % perLine == 0)
  {
    if i > 0 {
      NextPlace(perLine, i);
      IndexIs(lines, h, perLine, i - 1);
    }
  }

  lemma {:induction false} LinesMono(lines: seq<nat>, h: nat, perLine: nat, i: nat, j: nat)
    requires LineMajor(lines, h, perLine) && i <= j < |lines|
    ensures lines[i] <= lines[j] < h
  {
    QuotientMono(i, j, perLine);
    LineInFrame(lines, h, perLine, j);
  }

  /** A time inside a line's slot is a time inside the window. */
  lemma {:induction false} SlotInWindow(line: nat, h: nat, window: nat, tLine: nat, offset: nat)
    requires line < h && window > 0 && tLine == Quotient(window, h)
    requires offset == 0 || offset < tLine
    ensures line * tLine + offset < window
  {
    QuotientBounds(window, h);
    MulMono(line + 1, h, tLine);
    assert (line + 1) * tLine == line * tLine + tLine;
  }

  // ----- The three schedules -----

  /** Even pacing: due times in order and inside the window. */
  lemma {:induction false} EvenSchedule(lines: seq<nat>, base: nat, window: nat, i: nat, j: nat)
    requires window > 0 && i <= j < |lines|
    ensures var pacing := Even(Quotient(window, |lines|));
            base <= DueTime(pacing, base, lines, i) <= DueTime(pacing, base, lines, j) < base + window
  {
    var gap := Quotient(window, |lines|);
    QuotientBounds(window, |lines|);
    MulMono(i, j, gap);
    MulMono(j + 1, |lines|, gap);
    assert (j + 1) * gap == j * gap + gap;
  }

  /** Line bursts: due times in order and inside the window ... */
  lemma {:induction false} BurstSchedule(lines: seq<nat>, h: nat, perLine: nat, base: nat, window: nat, i: nat, j: nat)
    requires LineMajor(lines, h, perLine) && h > 0 && window > 0 && i <= j < |lines|
    ensures var pacing := LineBurst(Quotient(window, h));
            base <= DueTime(pacing, base, lines, i) <= DueTime(pacing, base, lines, j) < base + window
  {
    LinesMono(lines, h, perLine, i, j);
    MulMono(lines[i], lines[j], Quotient(window, h));
    SlotInWindow(lines[j], h, window, Quotient(window, h), 0);
  }

  /** ... and exactly one packet of each line, its first, has a send time; the others go back to back. */
  lemma {:induction false} OneStampPerLine(
    lines: seq<nat>, h: nat, perLine: nat, tLine: nat, base: nat, now: nat, line: nat)
    requires LineMajor(lines, h, perLine) && line < h && now > 0
    ensures line * perLine < |lines| && lines[line * perLine] == line
    ensures forall i :: 0 <= i < |lines| && lines[i] == line ==>
              (SendTime(LineBurst(tLine), base, now, lines, i) != 0 <==> i == line * perLine)
  {
    MulMono(line + 1, h, perLine);
    assert (line + 1) * perLine == line * perLine + perLine;
    PlaceUnique(perLine, line * perLine, line, 0);
    forall i | 0 <= i < |lines| && lines[i] == line
      ensures SendTime(LineBurst(tLine), base, now, lines, i) != 0 <==> i == line * perLine
    {
      LineInFrame(lines, h, perLine, i);
      IndexIs(lines, h, perLine, i);
    }
  }

  /** No packet is due before an earlier one. */
  ghost predicate InOrder(pacing: Pacing, base: nat, lines: seq<nat>) {
    forall i, j :: 0 <= i <= j < |lines| ==> DueTime(pacing, base, lines, i) <= DueTime(pacing, base, lines, j)
  }

  /** Gapped pacing keeps the packets in order exactly when a line's packets fit in its slot. */
  lemma {:induction false} GappedOrder(lines: seq<nat>, h: nat, perLine: nat, tLine: nat, intraGap: nat, base: nat)
    requires LineMajor(lines, h, perLine) && h > 0
    ensures InOrder(Gapped(tLine, intraGap), base, lines) <==> h == 1 || (perLine - 1) * intraGap <= tLine
  {
    var pacing := Gapped(tLine, intraGap);
    if h == 1 || (perLine - 1) * intraGap <= tLine {
      forall i, j | 0 <= i <= j < |lines|
        ensures DueTime(pacing, base, lines, i) <= DueTime(pacing, base, lines, j)
      {
        GappedInOrder(lines, h, perLine, tLine, intraGap, base, i, j);
      }
    } else {
      MulMono(2, h, perLine);
      IndexIs(lines, h, perLine, perLine - 1);
      IndexIs(lines, h, perLine, perLine);
      PlaceUnique(perLine, perLine - 1, 0, perLine - 1);
      PlaceUnique(perLine, perLine, 1, 0);
      assert DueTime(pacing, base, lines, perLine) < DueTime(pacing, base, lines, perLine - 1);
    }
  }

  lemma {:induction false} GappedInOrder(
    lines: seq<nat>, h: nat, perLine: nat, tLine: nat, intraGap: nat, base: nat, i: nat, j: nat)
    requires LineMajor(lines, h, perLine) && i <= j < |lines|
    requires h == 1 || (perLine - 1) * intraGap <= tLine
    ensures DueTime(Gapped(tLine, intraGap), base, lines, i) <= DueTime(Gapped(tLine, intraGap), base, lines, j)
  {
    IndexIs(lines, h, perLine, i);
    IndexIs(lines, h, perLine, j);
    LinesMono(lines, h, perLine, i, j);
    LineInFrame(lines, h, perLine, i);
    LineInFrame(lines, h, perLine, j);
    SlotOrder(lines[i], i % perLine, lines[j], j % perLine, perLine, tLine, intraGap);
  }

  /** A later line is due after the last packet of an earlier one, and packets of one line in their order. */
  lemma {:induction false} SlotOrder(
    line: nat, k: nat, line': nat, k': nat, perLine: nat, tLine: nat, intraGap: nat)
    requires k < perLine && k' < perLine && line <= line' && (line == line' ==> k <= k')
    requires line < line' ==> (perLine - 1) * intraGap <= tLine
    ensures line * tLine + k * intraGap <= line' * tLine + k' * intraGap
  {
    if line == line' {
      MulMono(k, k', intraGap);
    } else {
      MulMono(line + 1, line', tLine);
      Distribute(line, 1, tLine);
      MulMono(k, perLine - 1, intraGap);
      MulMono(0, k', intraGap);
    }
  }

  /** The estimate of packets per line is exact when the pixel budget is a whole number of pgroups. */
  lemma {:induction false} EstimateExact(f: Format, payload: nat)
    requires payload >= 20 + f.Pgroup() && f.Whole(payload - 20)
    ensures EstimatedPerLine(f, payload) == PerLine(f, payload)
  {
  }

  /** With an exact estimate, gapped pacing is in order and inside the window. */
  lemma {:induction false} GappedSchedule(
    lines: seq<nat>, h: nat, perLine: nat, base: nat, window: nat, tLine: nat, intra: nat, gap: nat, i: nat, j: nat)
    requires LineMajor(lines, h, perLine) && h > 0 && window > 0 && i <= j < |lines|
    requires tLine == Quotient(window, h) && intra == IntraGap(tLine, perLine, gap)
    ensures var pacing := Gapped(tLine, intra);
            base <= DueTime(pacing, base, lines, i) <= DueTime(pacing, base, lines, j) < base + window
  {
    BunchedInSlot(tLine, perLine, gap);
    FitsInSlot((perLine - 1) * intra, tLine);
    GappedInOrder(lines, h, perLine, tLine, intra, base, i, j);
    GappedInWindow(lines, h, perLine, base, window, tLine, intra, j);
    NotBeforeBase(lines, tLine, intra, base, i);
  }

  lemma {:induction false} FitsInSlot(bunch: nat, tLine: nat)
    requires 100 * bunch <= 73 * tLine
    ensures bunch <= tLine
  {
  }

  lemma {:induction false} NotBeforeBase(lines: seq<nat>, tLine: nat, intra: nat, base: nat, i: nat)
    requires i < |lines|
    ensures base <= DueTime(Gapped(tLine, intra), base, lines, i)
  {
    MulMono(0, lines[i], tLine);
    MulMono(0, IndexInLine(lines, i), intra);
  }

  lemma {:induction false} GappedInWindow(
    lines: seq<nat>, h: nat, perLine: nat, base: nat, window: nat, tLine: nat, intra: nat, j: nat)
    requires LineMajor(lines, h, perLine) && h > 0 && window > 0 && j < |lines|
    requires tLine == Quotient(window, h) && 100 * ((perLine - 1) * intra) <= 73 * tLine
    ensures DueTime(Gapped(tLine, intra), base, lines, j) < base + window
  {
    IndexIs(lines, h, perLine, j);
    LinesMono(lines, h, perLine, j, j);
    var k := IndexInLine(lines, j);
    MulMono(k, perLine - 1, intra);
    SlotInWindow(lines[j], h, window, tLine, k * intra);
  }

  /** The packets of a line take up at most 73% of its slot. */
  lemma {:induction false} BunchedInSlot(tLine: nat, perLine: nat, gap: nat)
    requires perLine > 0
    ensures 100 * ((perLine - 1) * IntraGap(tLine, perLine, gap)) <= 73 * tLine
  {
    if perLine > 1 {
      var intra := IntraGap(tLine, perLine, gap);
      QuotientBounds(tLine * 73, 100 * (perLine - 1));
      assert intra * (100 * (perLine - 1)) == 100 * ((perLine - 1) * intra);
    }
  }

  // ----- Which frames are paced how -----

  /** Raw frames of 2160 lines or more, and IP10 at more than 50 frames a second unless it is set otherwise. */
  predicate ByLine(f: Format, interval: nat, burst: Option<bool>) {
    if f.sampling == YCbCr422_10 then f.height >= 2160
    else f.height > 0 && (burst == Some(true) || (burst == None && interval < 20_000_000))
  }

  /** The packets of just these frames go back to back after the first of their line; all others have a send time. */
  lemma {:induction false} StampsExactlyWhen(
    f: Format, payload: nat, interval: nat, window: nat, perFrame: nat, wide: bool, burst: Option<bool>,
    base: nat, now: nat, lines: seq<nat>, i: nat)
    requires i < |lines| && now > 0
    ensures SendTime(EnsurePacer(f, payload, interval, window, perFrame, wide, burst), base, now, lines, i) == 0
            <==> ByLine(f, interval, burst) && i > 0 && lines[i] == lines[i - 1]
  {
  }

  /** Where a frame is paced by lines, or is narrow IP10, a line's first packet is due at its part of the window. */
  lemma {:induction false} LinesOnSlots(
    f: Format, payload: nat, interval: nat, window: nat, perFrame: nat, wide: bool, burst: Option<bool>,
    base: nat, lines: seq<nat>, i: nat)
    requires i < |lines| && f.height > 0 && (i == 0 || lines[i] != lines[i - 1])
    requires ByLine(f, interval, burst) || (f.sampling == YCbCr422_8 && !wide)
    ensures DueTime(EnsurePacer(f, payload, interval, window, perFrame, wide, burst), base, lines, i)
         == base + lines[i] * (window / f.height)
  {
  }

  /** Narrow IP10 at up to 50 frames a second spreads a line's packets over 73% of its slot, the tail left idle. */
  lemma {:induction false} LineSpread(
    f: Format, payload: nat, interval: nat, window: nat, perFrame: nat, burst: Option<bool>, base: nat,
    lines: seq<nat>, i: nat, n: nat)
    requires 0 < i < |lines| && f.height > 0 && lines[i] == lines[i - 1]
    requires f.sampling == YCbCr422_8 && !ByLine(f, interval, burst)
    requires payload > 20 && n == (f.LineOctets() + payload - 21) / (payload - 20) > 1
    ensures var pacing := EnsurePacer(f, payload, interval, window, perFrame, false, burst);
            var gap := DueTime(pacing, base, lines, i) - DueTime(pacing, base, lines, i - 1);
            100 * ((n - 1) * gap) <= 73 * (window / f.height) < 100 * ((n - 1) * (gap + 1))
  {
    var tLine := Quotient(window, f.height);
    var gap := Quotient(tLine * 73, 100 * (n - 1));
    assert EnsurePacer(f, payload, interval, window, perFrame, false, burst) == Gapped(tLine, gap);
    Distribute(IndexInLine(lines, i - 1), 1, gap);
    QuotientBounds(tLine * 73, 100 * (n - 1));
    SpreadBounds(n - 1, gap);
  }

  lemma {:induction false} SpreadBounds(m: nat, gap: nat)
    ensures gap * (100 * m) == 100 * (m * gap) && gap * (100 * m) + 100 * m == 100 * (m * (gap + 1))
  {
    var p := m * gap;
    assert gap * (100 * m) == 100 * p && m * (gap + 1) == p + m;
  }

  /** All other frames spread their packets evenly: the last is due within one gap and a nanosecond each of the end. */
  lemma {:induction false} EvenlySpread(
    f: Format, payload: nat, interval: nat, window: nat, wide: bool, burst: Option<bool>, base: nat,
    lines: seq<nat>, i: nat)
    requires 0 < i < |lines| && !ByLine(f, interval, burst) && (f.sampling == YCbCr422_10 || wide || f.height == 0)
    ensures var pacing := EnsurePacer(f, payload, interval, window, |lines|, wide, burst);
            var gap := DueTime(pacing, base, lines, i) - DueTime(pacing, base, lines, i - 1);
            DueTime(pacing, base, lines, 0) == base && |lines| * gap <= window < |lines| * (gap + 1)
  {
    var gap := Quotient(window, |lines|);
    QuotientBounds(window, |lines|);
    Distribute(i - 1, 1, gap);
    assert |lines| * (gap + 1) == |lines| * gap + |lines|;
    assert 0 * gap == 0;
  }

  /** A packet that has a send time has the later of the time it is due and the present, whatever the mode. */
  lemma {:induction false} NeverPast(pacing: Pacing, base: nat, now: nat, lines: seq<nat>, i: nat)
    requires i < |lines| && SendTime(pacing, base, now, lines, i) != 0
    ensures var t, due := SendTime(pacing, base, now, lines, i), DueTime(pacing, base, lines, i);
            t >= now && t >= due && (t == now || t == due)
  {
  }

  // ----- A frame of any format -----

  /**
   Whatever the mode that the pacer chooses: the due times of a frame are in order and lie in the window,
   and so the stamps that are not back to back are in order too. Gapped pacing needs an exact estimate.
   */
  lemma {:induction false} FrameSchedule(
    f: Format, payload: nat, interval: nat, window: nat, wide: bool, burst: Option<bool>,
    base: nat, now: nat, i: nat, j: nat)
    requires Fits(f, payload) && f.height > 0 && window > 0
    requires i <= j < |Packets(f, payload, Cursor(0, 0))|
    requires EnsurePacer(f, payload, interval, window, |Packets(f, payload, Cursor(0, 0))|, wide, burst).Gapped? ==>
               f.Whole(payload - 20)
    ensures var ps := Packets(f, payload, Cursor(0, 0));
            var lines, pacing := Lines(ps), EnsurePacer(f, payload, interval, window, |ps|, wide, burst);
            && base <= DueTime(pacing, base, lines, i) <= DueTime(pacing, base, lines, j) < base + window
            && (SendTime(pacing, base, now, lines, j) != 0 ==>
                  SendTime(pacing, base, now, lines, i) <= SendTime(pacing, base, now, lines, j))
  {
    var ps := Packets(f, payload, Cursor(0, 0));
    var lines, pacing := Lines(ps), EnsurePacer(f, payload, interval, window, |ps|, wide, burst);
    if pacing.Even? {
      EvenSchedule(lines, base, window, i, j);
    } else {
      AlignedFrame(f, payload);
      if pacing.LineBurst? {
        BurstSchedule(lines, f.height, PerLine(f, payload), base, window, i, j);
      } else {
        EstimateExact(f, payload);
        GappedSchedule(lines, f.height, PerLine(f, payload), base, window, pacing.tLine, pacing.intraGap,
                       Quotient(window, |ps|), i, j);
      }
    }
  }

  const TIGHT := Format(14, 2, YCbCr422_8)

  lemma {:induction false} TightLine()
    ensures Fits(TIGHT, 27) && TIGHT.LineAligned() && TIGHT.height == 2
    ensures PerLine(TIGHT, 27) == 7 && EstimatedPerLine(TIGHT, 27) == 4
  {
    assert TIGHT.LineOctets() == 28 && FullSegment(TIGHT, 27) == 4;
  }

  lemma {:induction false} TightPacing(perFrame: nat)
    ensures EnsurePacer(TIGHT, 27, 33_000_000, 2000, perFrame, false, None) == Gapped(1000, 243)
  {
    TightLine();
  }

  /**
   Without it the order can break: at 27 octets a 28-octet line takes seven packets, the estimate is four,
   and the last packets of a line are due after the first of the next.
   */
  lemma {:induction false} InexactEstimateBreaksOrder()
    ensures var ps := Packets(TIGHT, 27, Cursor(0, 0));
            !InOrder(EnsurePacer(TIGHT, 27, 33_000_000, 2000, |ps|, false, None), 0, Lines(ps))
  {
    var ps := Packets(TIGHT, 27, Cursor(0, 0));
    var lines := Lines(ps);
    TightLine();
    AlignedFrame(TIGHT, 27);
    TightPacing(|ps|);
    GappedOrder(lines, 2, 7, 1000, 243, 0);
  }
}
