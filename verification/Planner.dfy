/** The packet planner: a greedy walk of a cursor over the lines of a frame. */
module Planner {
  import opened Arithmetic
  import opened VideoFormat

  const MAX_SRD := 3
  const RTP_AND_ESN := 14
  const SRD_HEADER := 6

  /** A run of octets of one line: its length, the line, and its first pixel. */
  datatype Srd = Srd(length: U16, line: U16, offset: U16)

  datatype Cursor = Cursor(line: nat, octet: nat)

  /** The cursor is at a pgroup of a line, or past the last line. */
  ghost predicate OnFrame(f: Format, c: Cursor) {
    && c.line <= f.height
    && (c.line < f.height ==> c.octet < f.LineOctets() && f.Whole(c.octet))
    && (c.line == f.height ==> c.octet == 0)
  }

  /** The segment that fits in `room` octets at the cursor. */
  function Segment(f: Format, room: int, c: Cursor): (seg: nat)
    requires room >= f.Pgroup() && c.octet <= f.LineOctets()
    ensures f.Whole(seg) && seg <= room && seg <= f.LineOctets() - c.octet
  {
    var left := f.LineOctets() - c.octet;
    var seg := if left < room then left else room;
    f.RoundDown(seg)
  }

  function Advance(f: Format, c: Cursor, seg: nat): Cursor {
    if c.octet + seg >= f.LineOctets() then Cursor(c.line + 1, 0) else Cursor(c.line, c.octet + seg)
  }

  function SrdAt(f: Format, c: Cursor, seg: nat): Srd {
    Srd(seg % 0x1_0000, c.line % 0x1_0000, f.PgroupsIn(c.octet) * 2 % 0x1_0000)
  }

  /** The segments of one packet with `budget` octets left for them, at most `room` of them, and the cursor after. */
  function Fill(f: Format, budget: int, c: Cursor, room: nat): (r: (seq<Srd>, Cursor))
    requires c.line < f.height ==> c.octet <= f.LineOctets()
    ensures |r.0| <= room
    ensures r.1.line < f.height ==> r.1.octet <= f.LineOctets()
    ensures r.0 == [] ==> r.1 == c
    ensures r.0 != [] ==> r.1.line > c.line || (r.1.line == c.line && r.1.octet > c.octet)
    decreases f.height - c.line, f.LineOctets() - c.octet
  {
    if c.line >= f.height || room == 0 || budget - SRD_HEADER < f.Pgroup() then ([], c)
    else
      var seg := Segment(f, budget - SRD_HEADER, c);
      if seg == 0 then ([], c)
      else
        var s, next := SrdAt(f, c, seg), Advance(f, c, seg);
        if f.LineAligned() then ([s], next)
        else
          var (rest, last) := Fill(f, budget - SRD_HEADER - seg, next, room - 1);
          ([s] + rest, last)
  }

  function PlanOne(f: Format, maxPayload: nat, c: Cursor): (r: (seq<Srd>, Cursor))
    requires c.line < f.height ==> c.octet <= f.LineOctets()
  {
    Fill(f, maxPayload - RTP_AND_ESN, c, MAX_SRD)
  }

  /** The packets of the rest of a frame; the cursor moves on line by line, octet by octet. */
  function Packets(f: Format, maxPayload: nat, c: Cursor): (ps: seq<seq<Srd>>)
    requires c.line < f.height ==> c.octet <= f.LineOctets()
    decreases f.height - c.line, f.LineOctets() - c.octet
  {
    var (srds, next) := PlanOne(f, maxPayload, c);
    if srds == [] then []
    else [srds] + (if next.line >= f.height then [] else Packets(f, maxPayload, next))
  }

  // ----- When the 16-bit and 15-bit header fields hold the plan -----

  /** The first whole number of pgroups that a 16-bit length does not hold. */
  function LengthLimit(f: Format): nat {
    if f.Pgroup() == 4 then 0x1_0000 else 0x1_0004
  }

  predicate LengthsFit(f: Format, budget: int) {
    f.LineOctets() < 0x1_0000 || budget - SRD_HEADER < LengthLimit(f)
  }

  /** Geometry in 15 bits, room for a pgroup in every packet, and segment lengths in 16 bits. */
  predicate Fits(f: Format, maxPayload: nat) {
    && 2 <= f.width <= 0x8000 && f.height <= 0x8000
    && maxPayload >= RTP_AND_ESN + SRD_HEADER + f.Pgroup()
    && LengthsFit(f, maxPayload - RTP_AND_ESN)
  }

  // ----- What a plan covers -----

  function Octets(srds: seq<Srd>): nat {
    if srds == [] then 0 else srds[0].length + Octets(srds[1..])
  }

  function Pos(f: Format, c: Cursor): nat {
    c.line * f.LineOctets() + c.octet
  }

  /** `s` is a well-formed segment of the frame: whole pgroups inside one line, in header fields that hold it. */
  predicate GoodSrd(f: Format, s: Srd) {
    && s.length > 0 && f.Whole(s.length)
    && s.line < f.height && s.line < 0x8000
    && s.offset < 0x8000 && s.offset % 2 == 0
    && f.OctetsOf(s.offset / 2) + s.length <= f.LineOctets()
  }

  /** The segments are good and cover the octets `p..q` of the frame, in order and without a gap. */
  ghost predicate Covers(f: Format, srds: seq<Srd>, p: nat, q: nat) {
    if srds == [] then p == q
    else
      && GoodSrd(f, srds[0])
      && f.ByteOffset(srds[0].line, srds[0].offset) == p
      && Covers(f, srds[1..], p + srds[0].length, q)
  }

  /** Whole numbers of pgroups. */
  lemma {:induction false} Pgroups(f: Format, a: nat, b: nat)
    requires f.Whole(a) && f.Whole(b)
    ensures f.Whole(a + b) && f.OctetsOf(f.PgroupsIn(a)) == a
    ensures a < b ==> a + f.Pgroup() <= b && f.PgroupsIn(a) < f.PgroupsIn(b) && f.Whole(b - a)
  {
    if f.sampling == YCbCr422_8 {
      ByFour(a, b);
    } else {
      ByFive(a, b);
    }
  }

  lemma {:induction false} ByFour(a: nat, b: nat)
    requires a % 4 == 0 && b % 4 == 0
    ensures (a + b) % 4 == 0 && 4 * (a / 4) == a && (a < b ==> a + 4 <= b && a / 4 < b / 4 && (b - a) % 4 == 0)
  {
    var x, y := a / 4, b / 4;
    assert a == 4 * x && b == 4 * y && a + b == 4 * (x + y) && b - a == 4 * (y - x);
  }

  lemma {:induction false} ByFive(a: nat, b: nat)
    requires a % 5 == 0 && b % 5 == 0
    ensures (a + b) % 5 == 0 && 5 * (a / 5) == a && (a < b ==> a + 5 <= b && a / 5 < b / 5 && (b - a) % 5 == 0)
  {
    var x, y := a / 5, b / 5;
    assert a == 5 * x && b == 5 * y && a + b == 5 * (x + y) && b - a == 5 * (y - x);
  }

  lemma {:induction false} LineIsPgroups(f: Format)
    ensures f.Whole(f.LineOctets()) && f.PgroupsIn(f.LineOctets()) == f.width / 2
  {
  }

  lemma {:induction false} SegmentPositive(f: Format, room: int, c: Cursor)
    requires OnFrame(f, c) && c.line < f.height && room >= f.Pgroup()
    ensures Segment(f, room, c) >= f.Pgroup()
  {
    LineIsPgroups(f);
    Pgroups(f, c.octet, f.LineOctets());
  }

  /** One segment of the walk: it is good, it starts at the cursor, and the cursor moves past it. */
  lemma {:induction false} SegmentStep(f: Format, c: Cursor, seg: nat)
    requires OnFrame(f, c) && c.line < f.height
    requires f.width <= 0x8000 && f.height <= 0x8000
    requires 0 < seg < 0x1_0000 && f.Whole(seg) && c.octet + seg <= f.LineOctets()
    ensures SrdAt(f, c, seg).length == seg && GoodSrd(f, SrdAt(f, c, seg))
    ensures f.ByteOffset(SrdAt(f, c, seg).line, SrdAt(f, c, seg).offset) == Pos(f, c)
    ensures OnFrame(f, Advance(f, c, seg)) && Pos(f, Advance(f, c, seg)) == Pos(f, c) + seg
  {
    LineIsPgroups(f);
    Pgroups(f, c.octet, seg);
    SrdFields(f, c, seg);
    OffsetField(f, c.octet);
    Distribute(c.line, 1, f.LineOctets());
  }

  lemma {:induction false} SrdFields(f: Format, c: Cursor, seg: nat)
    requires f.width <= 0x8000 && c.line < 0x8000 && seg < 0x1_0000
    requires f.Whole(c.octet) && c.octet < f.LineOctets()
    ensures SrdAt(f, c, seg) == Srd(seg, c.line, f.PgroupsIn(c.octet) * 2)
  {
    OffsetField(f, c.octet);
  }

  /** The pixel offset of a pgroup fits its field and leads back to the pgroup's first octet. */
  lemma {:induction false} OffsetField(f: Format, octet: nat)
    requires f.width <= 0x8000 && f.Whole(octet) && octet < f.LineOctets()
    ensures f.PgroupsIn(octet) * 2 < 0x8000 && f.OctetsOf(f.PgroupsIn(octet) * 2 / 2) == octet
  {
    var n := f.PgroupsIn(octet);
    LineIsPgroups(f);
    Pgroups(f, octet, f.LineOctets());
    assert n < f.width / 2 && n * 2 / 2 == n;
  }

  /** One turn of the planner: the segment at the cursor, then the rest of the packet unless lines are kept apart. */
  lemma {:induction false} FillOnce(
    f: Format, budget: int, c: Cursor, room: nat, seg: nat, srds: seq<Srd>, next: Cursor) returns (rest: seq<Srd>)
    requires c.line < f.height && c.octet <= f.LineOctets() && room > 0 && budget - SRD_HEADER >= f.Pgroup()
    requires (srds, next) == Fill(f, budget, c, room) && seg == Segment(f, budget - SRD_HEADER, c) > 0
    ensures srds == [SrdAt(f, c, seg)] + rest
    ensures if f.LineAligned() then rest == [] && next == Advance(f, c, seg)
            else (rest, next) == Fill(f, budget - SRD_HEADER - seg, Advance(f, c, seg), room - 1)
  {
    rest := srds[1..];
  }

  /** Packed 4:2:2 takes 20 bits a pixel at 10 bits and 16 at 8, in raster order. */
  lemma {:induction false} PixelPlace(f: Format, line: nat, offset: nat)
    requires f.width % 2 == 0 && offset % 2 == 0
    ensures var bits := if f.sampling == YCbCr422_8 then 16 else 20;
            8 * f.ByteOffset(line, offset) == (line * f.width + offset) * bits
            && 8 * f.FrameOctets() == f.height * f.width * bits
  {
    var w, o := f.width / 2, offset / 2;
    assert f.width == 2 * w && offset == 2 * o;
    var p, q := line * w, f.height * w;
    assert line * f.width == 2 * p && f.height * f.width == 2 * q;
    if f.sampling == YCbCr422_8 {
      assert line * (4 * w) == 4 * p && 4 * w * f.height == 4 * q;
    } else {
      assert line * (5 * w) == 5 * p && 5 * w * f.height == 5 * q;
    }
  }

  // ----- A packet, turn by turn -----

  /** A turn with `budget` octets left takes `seg` at the cursor, writes `s` for them and goes on to `after`. */
  ghost predicate Turns(f: Format, budget: int, c: Cursor, seg: nat, s: Srd, after: Cursor) {
    && c.line < f.height && 0 < seg && f.Whole(seg) && c.octet + seg <= f.LineOctets() && SRD_HEADER + seg <= budget
    && s == SrdAt(f, c, seg) && after == Advance(f, c, seg)
  }

  type Turn = (int, Cursor, nat, Srd, Cursor) -> bool

  ghost function TurnOf(f: Format): Turn {
    (budget: int, c: Cursor, seg: nat, s: Srd, after: Cursor) => Turns(f, budget, c, seg, s, after)
  }

  /** The segments come from turns one after the other, a single one where lines are kept apart. */
  ghost predicate Filled(turn: Turn, aligned: bool, budget: int, c: Cursor, srds: seq<Srd>, next: Cursor)
    decreases |srds|
  {
    if srds == [] then next == c
    else
      && (aligned ==> srds[1..] == [])
      && exists seg: nat, after: Cursor ::
           turn(budget, c, seg, srds[0], after)
           && Filled(turn, aligned, budget - SRD_HEADER - seg, after, srds[1..], next)
  }

  lemma {:induction false} FillIsFilled(f: Format, budget: int, c: Cursor, room: nat, srds: seq<Srd>, next: Cursor)
    requires c.line < f.height ==> c.octet <= f.LineOctets()
    requires (srds, next) == Fill(f, budget, c, room)
    ensures Filled(TurnOf(f), f.LineAligned(), budget, c, srds, next)
    decreases room, 0
  {
    if srds != [] {
      var seg, s, after, rest := FillTurn(f, budget, c, room, srds, next);
      RestIsFilled(f, budget - SRD_HEADER - seg, after, room - 1, rest, next);
      FilledCons(TurnOf(f), f.LineAligned(), budget, c, seg, s, after, rest, next);
    }
  }

  lemma {:induction false} RestIsFilled(f: Format, budget: int, c: Cursor, room: nat, srds: seq<Srd>, next: Cursor)
    requires c.line < f.height ==> c.octet <= f.LineOctets()
    requires if f.LineAligned() then srds == [] && next == c else (srds, next) == Fill(f, budget, c, room)
    ensures if f.LineAligned() then next == c else Filled(TurnOf(f), f.LineAligned(), budget, c, srds, next)
    decreases room, 1
  {
    if !f.LineAligned() {
      FillIsFilled(f, budget, c, room, srds, next);
    }
  }

  lemma {:induction false} FillTurn(f: Format, budget: int, c: Cursor, room: nat, srds: seq<Srd>, next: Cursor)
    returns (seg: nat, s: Srd, after: Cursor, rest: seq<Srd>)
    requires c.line < f.height ==> c.octet <= f.LineOctets()
    requires (srds, next) == Fill(f, budget, c, room) && srds != []
    ensures room > 0 && srds == [s] + rest && TurnOf(f)(budget, c, seg, s, after)
    ensures after.line < f.height ==> after.octet <= f.LineOctets()
    ensures if f.LineAligned() then rest == [] && next == after
            else (rest, next) == Fill(f, budget - SRD_HEADER - seg, after, room - 1)
  {
    FillGoesOn(f, budget, c, room, srds, next);
    seg := Segment(f, budget - SRD_HEADER, c);
    s, after := SrdAt(f, c, seg), Advance(f, c, seg);
    rest := FillOnce(f, budget, c, room, seg, srds, next);
  }

  /** What a packet with segments tells of its start. */
  lemma {:induction false} FillGoesOn(f: Format, budget: int, c: Cursor, room: nat, srds: seq<Srd>, next: Cursor)
    requires c.line < f.height ==> c.octet <= f.LineOctets()
    requires (srds, next) == Fill(f, budget, c, room) && srds != []
    ensures c.line < f.height && room > 0 && budget - SRD_HEADER >= f.Pgroup()
    ensures Segment(f, budget - SRD_HEADER, c) > 0
  {
  }

  lemma {:induction false} FilledCons(
    turn: Turn, aligned: bool, budget: int, c: Cursor, seg: nat, s: Srd, after: Cursor, rest: seq<Srd>, next: Cursor)
    requires turn(budget, c, seg, s, after) && (aligned ==> rest == [])
    requires if aligned then next == after else Filled(turn, aligned, budget - SRD_HEADER - seg, after, rest, next)
    ensures Filled(turn, aligned, budget, c, [s] + rest, next)
  {
    assert ([s] + rest)[0] == s && ([s] + rest)[1..] == rest;
    assert Filled(turn, aligned, budget - SRD_HEADER - seg, after, rest, next);
  }

  lemma {:induction false} TurnsTake(f: Format)
    ensures forall b, c, seg, s, after :: TurnOf(f)(b, c, seg, s, after) ==> s.length <= seg && SRD_HEADER + seg <= b
  {
  }

  lemma {:induction false} TurnsMove(f: Format)
    ensures forall b, c, seg, s, after :: TurnOf(f)(b, c, seg, s, after) ==> Pos(f, after) == Pos(f, c) + seg
  {
    forall b: int, c: Cursor, seg: nat, s: Srd, after: Cursor | TurnOf(f)(b, c, seg, s, after)
      ensures Pos(f, after) == Pos(f, c) + seg
    {
      AdvanceMoves(f, c, seg);
    }
  }

  lemma {:induction false} AdvanceMoves(f: Format, c: Cursor, seg: nat)
    requires c.octet + seg <= f.LineOctets()
    ensures Pos(f, Advance(f, c, seg)) == Pos(f, c) + seg
  {
    Distribute(c.line, 1, f.LineOctets());
  }

  /** The cursor is on the frame, and the lengths that the budget allows fit their fields. */
  ghost predicate OnCourse(f: Format, budget: int, c: Cursor) {
    OnFrame(f, c) && LengthsFit(f, budget)
  }

  /** `s` is a good segment at the cursor, and `after` is the cursor past it. */
  ghost predicate Passes(f: Format, c: Cursor, s: Srd, after: Cursor) {
    && GoodSrd(f, s) && f.ByteOffset(s.line, s.offset) == Pos(f, c)
    && OnFrame(f, after) && Pos(f, after) == Pos(f, c) + s.length
  }

  lemma {:induction false} TurnPasses(f: Format, budget: int, c: Cursor, seg: nat, s: Srd, after: Cursor)
    requires f.width <= 0x8000 && f.height <= 0x8000
    requires Turns(f, budget, c, seg, s, after) && OnCourse(f, budget, c)
    ensures Passes(f, c, s, after) && OnCourse(f, budget - SRD_HEADER - seg, after)
  {
    ShortSegment(f, budget, seg);
    SegmentStep(f, c, seg);
  }

  lemma {:induction false} ShortSegment(f: Format, budget: int, seg: nat)
    requires LengthsFit(f, budget) && f.Whole(seg) && seg <= f.LineOctets() && SRD_HEADER + seg <= budget
    ensures seg < 0x1_0000
  {
  }

  // ----- What a packet covers -----

  /** Every packet covers the octets from the cursor before it to the cursor after it ... */
  lemma {:induction false} FillCovers(f: Format, budget: int, c: Cursor, room: nat, srds: seq<Srd>, next: Cursor)
    requires OnFrame(f, c) && f.width <= 0x8000 && f.height <= 0x8000
    requires LengthsFit(f, budget) && (srds, next) == Fill(f, budget, c, room)
    ensures OnFrame(f, next) && Covers(f, srds, Pos(f, c), Pos(f, next))
  {
    FillIsFilled(f, budget, c, room, srds, next);
    var course := (b: int, c: Cursor) => OnCourse(f, b, c);
    var passes := (c: Cursor, s: Srd, after: Cursor) => Passes(f, c, s, after);
    forall b: int, c: Cursor, seg: nat, s: Srd, after: Cursor | TurnOf(f)(b, c, seg, s, after) && course(b, c)
      ensures passes(c, s, after) && course(b - SRD_HEADER - seg, after)
    {
      TurnPasses(f, b, c, seg, s, after);
    }
    FilledWalks(TurnOf(f), f.LineAligned(), course, passes, budget, c, srds, next);
    WalkCovers(f, passes, c, srds, next);
  }

  /** The segments lead the cursor from `c` to `next`. */
  ghost predicate Walks(passes: (Cursor, Srd, Cursor) -> bool, c: Cursor, srds: seq<Srd>, next: Cursor)
    decreases |srds|
  {
    if srds == [] then next == c
    else exists after: Cursor :: passes(c, srds[0], after) && Walks(passes, after, srds[1..], next)
  }

  lemma {:induction false} FilledWalks(
    turn: Turn, aligned: bool, course: (int, Cursor) -> bool, passes: (Cursor, Srd, Cursor) -> bool,
    budget: int, c: Cursor, srds: seq<Srd>, next: Cursor)
    requires Filled(turn, aligned, budget, c, srds, next) && course(budget, c)
    requires forall b, c, seg, s, after :: turn(b, c, seg, s, after) && course(b, c) ==>
               passes(c, s, after) && course(b - SRD_HEADER - seg, after)
    ensures Walks(passes, c, srds, next)
    decreases |srds|
  {
    if srds != [] {
      var seg: nat, after: Cursor :| turn(budget, c, seg, srds[0], after)
        && Filled(turn, aligned, budget - SRD_HEADER - seg, after, srds[1..], next);
      FilledWalks(turn, aligned, course, passes, budget - SRD_HEADER - seg, after, srds[1..], next);
    }
  }

  lemma {:induction false} WalkCovers(
    f: Format, passes: (Cursor, Srd, Cursor) -> bool, c: Cursor, srds: seq<Srd>, next: Cursor)
    requires OnFrame(f, c) && Walks(passes, c, srds, next)
    requires forall c, s, after :: passes(c, s, after) ==> Passes(f, c, s, after)
    ensures OnFrame(f, next) && Covers(f, srds, Pos(f, c), Pos(f, next))
    decreases |srds|
  {
    if srds == [] {
      CoversNothing(f, Pos(f, c));
    } else {
      var after: Cursor :| passes(c, srds[0], after) && Walks(passes, after, srds[1..], next);
      WalkCovers(f, passes, after, srds[1..], next);
      assert [srds[0]] + srds[1..] == srds;
      CoversCons(f, srds[0], srds[1..], Pos(f, c), Pos(f, after), Pos(f, next));
    }
  }

  lemma {:induction false} CoversNothing(f: Format, p: nat)
    ensures Covers(f, [], p, p)
  {
  }

  /** ... and respects its budget. */
  lemma {:induction false} FillBudget(f: Format, budget: int, c: Cursor, room: nat, srds: seq<Srd>, next: Cursor)
    requires c.line < f.height ==> c.octet <= f.LineOctets()
    requires (srds, next) == Fill(f, budget, c, room)
    ensures srds != [] ==> SRD_HEADER * |srds| + Octets(srds) <= budget
    ensures f.LineAligned() ==> |srds| <= 1
  {
    FillIsFilled(f, budget, c, room, srds, next);
    TurnsTake(f);
    FilledBudget(TurnOf(f), f.LineAligned(), budget, c, srds, next);
  }

  lemma {:induction false} FilledBudget(
    turn: Turn, aligned: bool, budget: int, c: Cursor, srds: seq<Srd>, next: Cursor)
    requires Filled(turn, aligned, budget, c, srds, next)
    requires forall b, c, seg, s, after :: turn(b, c, seg, s, after) ==> s.length <= seg && SRD_HEADER + seg <= b
    ensures srds != [] ==> SRD_HEADER * |srds| + Octets(srds) <= budget
    ensures aligned ==> |srds| <= 1
    decreases |srds|
  {
    if srds != [] {
      var seg: nat, after: Cursor :| turn(budget, c, seg, srds[0], after)
        && Filled(turn, aligned, budget - SRD_HEADER - seg, after, srds[1..], next);
      FilledBudget(turn, aligned, budget - SRD_HEADER - seg, after, srds[1..], next);
      assert [srds[0]] + srds[1..] == srds;
      WithinBudget(srds[0], srds[1..], seg, budget);
    }
  }

  lemma {:induction false} WithinBudget(s: Srd, rest: seq<Srd>, seg: nat, budget: int)
    requires s.length <= seg && SRD_HEADER + seg <= budget
    requires rest != [] ==> SRD_HEADER * |rest| + Octets(rest) <= budget - SRD_HEADER - seg
    ensures SRD_HEADER * |[s] + rest| + Octets([s] + rest) <= budget
  {
    OctetsCons(s, rest);
  }

  lemma {:induction false} OctetsCons(s: Srd, rest: seq<Srd>)
    ensures SRD_HEADER * |[s] + rest| == SRD_HEADER + SRD_HEADER * |rest|
    ensures Octets([s] + rest) == s.length + Octets(rest)
  {
    assert ([s] + rest)[1..] == rest;
  }

  lemma {:induction false} CoversCons(f: Format, s: Srd, rest: seq<Srd>, p: nat, p': nat, q: nat)
    requires GoodSrd(f, s) && f.ByteOffset(s.line, s.offset) == p && p' == p + s.length && Covers(f, rest, p', q)
    ensures Covers(f, [s] + rest, p, q)
  {
    assert ([s] + rest)[1..] == rest;
  }

  /** Whatever the lengths, the segments of a packet never hold more octets than the cursor moves by. */
  lemma {:induction false} FillAtMost(f: Format, budget: int, c: Cursor, room: nat, srds: seq<Srd>, next: Cursor)
    requires c.line < f.height ==> c.octet <= f.LineOctets()
    requires (srds, next) == Fill(f, budget, c, room)
    ensures Pos(f, c) + Octets(srds) <= Pos(f, next)
  {
    FillIsFilled(f, budget, c, room, srds, next);
    TurnsTake(f);
    TurnsMove(f);
    FilledAtMost(TurnOf(f), f.LineAligned(), (c: Cursor) => Pos(f, c), budget, c, srds, next);
  }

  lemma {:induction false} FilledAtMost(
    turn: Turn, aligned: bool, pos: Cursor -> nat, budget: int, c: Cursor, srds: seq<Srd>, next: Cursor)
    requires Filled(turn, aligned, budget, c, srds, next)
    requires forall b, c, seg, s, after :: turn(b, c, seg, s, after) ==> s.length <= seg && pos(after) == pos(c) + seg
    ensures pos(c) + Octets(srds) <= pos(next)
    decreases |srds|
  {
    if srds != [] {
      var seg: nat, after: Cursor :| turn(budget, c, seg, srds[0], after)
        && Filled(turn, aligned, budget - SRD_HEADER - seg, after, srds[1..], next);
      FilledAtMost(turn, aligned, pos, budget - SRD_HEADER - seg, after, srds[1..], next);
    }
  }

  // ----- How full a packet is -----

  /** The segment reaches the end of its line. */
  predicate EndsLine(f: Format, s: Srd) {
    f.OctetsOf(s.offset / 2) + s.length == f.LineOctets()
  }

  /** One segment of a packet with `budget` octets left: it fits, and stops only at the line or the budget. */
  ghost predicate Stops(f: Format, budget: int, s: Srd) {
    && 6 + f.Pgroup() <= budget && 6 + s.length <= budget
    && (EndsLine(f, s) || budget - 6 - s.length < f.Pgroup())
  }

  /** Segments of a packet with `budget` octets and `room` segments left, none of which could be longer or added. */
  ghost predicate Full(f: Format, budget: int, room: nat, srds: seq<Srd>, next: Cursor)
    decreases |srds|
  {
    if srds == [] then room == 0 || next.line == f.height || budget < 6 + f.Pgroup()
    else
      && Stops(f, budget, srds[0])
      && if f.sampling == YCbCr422_8 || f.height >= 2160 then srds[1..] == []
         else room > 0 && Full(f, budget - 6 - srds[0].length, room - 1, srds[1..], next)
  }

  lemma {:induction false} TakesAll(f: Format, budget: int, c: Cursor, seg: nat)
    requires OnFrame(f, c) && c.line < f.height && budget - SRD_HEADER >= f.Pgroup()
    requires seg == Segment(f, budget - SRD_HEADER, c)
    ensures seg > 0 && (c.octet + seg == f.LineOctets() || budget - SRD_HEADER - seg < f.Pgroup())
  {
    LineIsPgroups(f);
    Pgroups(f, c.octet, f.LineOctets());
    Pgroups(f, f.LineOctets() - c.octet, f.LineOctets() - c.octet);
  }

  lemma {:induction false} FirstFull(f: Format, budget: int, c: Cursor, seg: nat)
    requires OnFrame(f, c) && c.line < f.height && budget - SRD_HEADER >= f.Pgroup()
    requires f.width <= 0x8000 && f.height <= 0x8000 && LengthsFit(f, budget)
    requires seg == Segment(f, budget - SRD_HEADER, c)
    ensures Stops(f, budget, SrdAt(f, c, seg)) && SrdAt(f, c, seg).length == seg > 0
  {
    TakesAll(f, budget, c, seg);
    ShortSegment(f, budget, seg);
    SrdFields(f, c, seg);
    OffsetField(f, c.octet);
  }

  lemma {:induction false} FillFull(f: Format, budget: int, c: Cursor, room: nat, srds: seq<Srd>, next: Cursor)
    requires OnFrame(f, c) && f.width <= 0x8000 && f.height <= 0x8000
    requires LengthsFit(f, budget) && (srds, next) == Fill(f, budget, c, room)
    ensures Full(f, budget, room, srds, next)
    decreases room, 1
  {
    if c.line < f.height && room > 0 && budget - SRD_HEADER >= f.Pgroup() {
      var seg := Segment(f, budget - SRD_HEADER, c);
      FirstFull(f, budget, c, seg);
      var rest := FillOnce(f, budget, c, room, seg, srds, next);
      FullRest(f, budget, c, room, seg, rest, next);
      FullCons(f, budget, room, SrdAt(f, c, seg), rest, next);
    }
  }

  lemma {:induction false} FullRest(
    f: Format, budget: int, c: Cursor, room: nat, seg: nat, rest: seq<Srd>, next: Cursor)
    requires OnFrame(f, c) && c.line < f.height && f.width <= 0x8000 && f.height <= 0x8000
    requires room > 0 && budget - SRD_HEADER >= f.Pgroup() && LengthsFit(f, budget)
    requires 0 < seg == Segment(f, budget - SRD_HEADER, c) < 0x1_0000
    requires if f.LineAligned() then rest == [] && next == Advance(f, c, seg)
             else (rest, next) == Fill(f, budget - SRD_HEADER - seg, Advance(f, c, seg), room - 1)
    ensures if f.sampling == YCbCr422_8 || f.height >= 2160 then rest == []
            else Full(f, budget - 6 - seg, room - 1, rest, next)
    decreases room, 0
  {
    if !f.LineAligned() {
      SegmentStep(f, c, seg);
      FillFull(f, budget - SRD_HEADER - seg, Advance(f, c, seg), room - 1, rest, next);
    }
  }

  lemma {:induction false} FullCons(f: Format, budget: int, room: nat, s: Srd, rest: seq<Srd>, next: Cursor)
    requires Stops(f, budget, s) && room > 0
    requires if f.sampling == YCbCr422_8 || f.height >= 2160 then rest == []
             else Full(f, budget - 6 - s.length, room - 1, rest, next)
    ensures Full(f, budget, room, [s] + rest, next)
  {
    assert ([s] + rest)[0] == s && ([s] + rest)[1..] == rest;
  }

  /** The octets of the payload budget that a packet with these segments leaves. */
  function Spare(budget: int, srds: seq<Srd>): int {
    budget - 6 * |srds| - Octets(srds)
  }

  lemma {:induction false} FullMeans(f: Format, budget: int, room: nat, srds: seq<Srd>, next: Cursor)
    requires Full(f, budget, room, srds, next)
    ensures forall k :: 0 <= k < |srds| - 1 ==> EndsLine(f, srds[k])
    ensures srds != [] ==> EndsLine(f, srds[|srds| - 1]) || Spare(budget, srds) < f.Pgroup()
    ensures |srds| < room ==>
              next.line == f.height || (srds != [] && (f.sampling == YCbCr422_8 || f.height >= 2160))
              || Spare(budget, srds) < 6 + f.Pgroup()
    decreases |srds|
  {
    if srds != [] && f.sampling != YCbCr422_8 && f.height < 2160 {
      FullMeans(f, budget - 6 - srds[0].length, room - 1, srds[1..], next);
      assert |srds| > 1 ==> Stops(f, budget - 6 - srds[0].length, srds[1..][0]);
      forall k | 0 <= k < |srds| - 1
        ensures EndsLine(f, srds[k])
      {
        assert k > 0 ==> srds[k] == srds[1..][k - 1];
      }
    }
  }

  /** A packet that could hold no more: `last` if nothing of the frame is left after it. */
  ghost predicate FullPacket(f: Format, maxPayload: nat, srds: seq<Srd>, last: bool) {
    var spare := maxPayload - 14 - 6 * |srds| - Octets(srds);
    && 1 <= |srds| <= 3 && spare >= 0
    && (forall k :: 0 <= k < |srds| - 1 ==> EndsLine(f, srds[k]))
    && (EndsLine(f, srds[|srds| - 1]) || spare < f.Pgroup())
    && (|srds| < 3 ==> last || f.sampling == YCbCr422_8 || f.height >= 2160 || spare < 6 + f.Pgroup())
  }

  lemma {:induction false} FirstIsFull(f: Format, maxPayload: nat, c: Cursor, srds: seq<Srd>, next: Cursor)
    requires Fits(f, maxPayload) && OnFrame(f, c) && c.line < f.height
    requires (srds, next) == PlanOne(f, maxPayload, c)
    ensures FullPacket(f, maxPayload, srds, next.line >= f.height)
  {
    FirstNotEmpty(f, maxPayload, c, srds, next);
    FillBudget(f, maxPayload - RTP_AND_ESN, c, MAX_SRD, srds, next);
    FillFull(f, maxPayload - RTP_AND_ESN, c, MAX_SRD, srds, next);
    FullMeans(f, maxPayload - RTP_AND_ESN, MAX_SRD, srds, next);
  }

  /**
   No packet is emptier than it must be: every segment but the last ends its line, and the last one does too or
   leaves less than a pgroup of the budget; and fewer than three segments are all that is left of the frame, or
   the one that a line-aligned format allows, or leave too little for another header and a pgroup.
   */
  lemma {:induction false} PacketsFull(f: Format, maxPayload: nat, c: Cursor, ps: seq<seq<Srd>>, i: nat)
    requires Fits(f, maxPayload) && OnFrame(f, c) && c.line < f.height && ps == Packets(f, maxPayload, c) && i < |ps|
    ensures FullPacket(f, maxPayload, ps[i], i == |ps| - 1)
    decreases i
  {
    var next := PacketsUnfold(f, maxPayload, c, ps);
    if i == 0 {
      MarkerOnLast(f, maxPayload, c);
      FirstIsFull(f, maxPayload, c, ps[0], next);
    } else {
      PacketsFull(f, maxPayload, next, ps[1..], i - 1);
    }
  }

  /**
   The length condition is exact: the first packet of a frame names all the octets that the walk moves past if
   and only if it holds. Where it does not, the first length is cut to 16 bits.
   */
  lemma {:induction false} LengthsExactlyFit(f: Format, maxPayload: nat, srds: seq<Srd>, next: Cursor)
    requires 2 <= f.width <= 0x8000 && 0 < f.height <= 0x8000
    requires maxPayload >= RTP_AND_ESN + SRD_HEADER + f.Pgroup()
    requires (srds, next) == PlanOne(f, maxPayload, Cursor(0, 0))
    ensures Octets(srds) == Pos(f, next) <==> LengthsFit(f, maxPayload - RTP_AND_ESN)
    ensures Octets(srds) <= Pos(f, next)
  {
    var budget := maxPayload - RTP_AND_ESN;
    FillAtMost(f, budget, Cursor(0, 0), MAX_SRD, srds, next);
    if LengthsFit(f, budget) {
      FillCovers(f, budget, Cursor(0, 0), MAX_SRD, srds, next);
      CoversOctets(f, srds, 0, Pos(f, next));
    } else {
      LengthOverflow(f, budget, MAX_SRD, srds, next);
    }
  }

  lemma {:induction false} LengthOverflow(f: Format, budget: int, room: nat, srds: seq<Srd>, next: Cursor)
    requires f.height > 0 && room > 0 && !LengthsFit(f, budget)
    requires (srds, next) == Fill(f, budget, Cursor(0, 0), room)
    ensures Octets(srds) < Pos(f, next)
  {
    var c := Cursor(0, 0);
    LongSegment(f, budget);
    var seg := Segment(f, budget - SRD_HEADER, c);
    var rest := FillOnce(f, budget, c, room, seg, srds, next);
    AdvanceMoves(f, c, seg);
    if !f.LineAligned() {
      FillAtMost(f, budget - SRD_HEADER - seg, Advance(f, c, seg), room - 1, rest, next);
    }
    OctetsCons(SrdAt(f, c, seg), rest);
    assert SrdAt(f, c, seg).length < seg;
  }

  lemma {:induction false} LongSegment(f: Format, budget: int)
    requires f.height > 0 && !LengthsFit(f, budget)
    ensures budget - SRD_HEADER >= f.Pgroup() && Segment(f, budget - SRD_HEADER, Cursor(0, 0)) >= 0x1_0000
  {
    LineIsPgroups(f);
  }

  // ----- The whole frame -----

  /** A cursor inside the frame always yields a packet, and the end of the frame yields none. */
  lemma {:induction false} PacketsLeft(f: Format, maxPayload: nat, c: Cursor)
    requires Fits(f, maxPayload) && OnFrame(f, c)
    ensures PlanOne(f, maxPayload, c).0 == [] <==> c.line == f.height
  {
    if c.line < f.height {
      SegmentPositive(f, maxPayload - RTP_AND_ESN - SRD_HEADER, c);
    }
  }

  /** The octets of the first `i` packets. */
  function OctetsBefore(ps: seq<seq<Srd>>, i: nat): nat
    requires i <= |ps|
  {
    if i == 0 then 0 else Octets(ps[0]) + OctetsBefore(ps[1..], i - 1)
  }

  /** The next packet: what it covers, and that it fits. */
  lemma {:induction false} FirstPacket(f: Format, maxPayload: nat, c: Cursor, srds: seq<Srd>, next: Cursor)
    requires Fits(f, maxPayload) && OnFrame(f, c) && c.line < f.height
    requires (srds, next) == PlanOne(f, maxPayload, c)
    ensures OnFrame(f, next) && Pos(f, next) == Pos(f, c) + Octets(srds)
    ensures GoodPacket(f, maxPayload, srds, Pos(f, c), Pos(f, next))
  {
    FirstNotEmpty(f, maxPayload, c, srds, next);
    FillCovers(f, maxPayload - RTP_AND_ESN, c, MAX_SRD, srds, next);
    FillBudget(f, maxPayload - RTP_AND_ESN, c, MAX_SRD, srds, next);
    GoodPacketOf(f, maxPayload, srds, Pos(f, c), Pos(f, next));
  }

  lemma {:induction false} GoodPacketOf(f: Format, maxPayload: nat, srds: seq<Srd>, p: nat, q: nat)
    requires Covers(f, srds, p, q) && 1 <= |srds| <= MAX_SRD && (f.LineAligned() ==> |srds| <= 1)
    requires SRD_HEADER * |srds| + Octets(srds) <= maxPayload - RTP_AND_ESN
    ensures GoodPacket(f, maxPayload, srds, p, q) && q == p + Octets(srds)
  {
    CoversOctets(f, srds, p, q);
  }

  lemma {:induction false} FirstNotEmpty(f: Format, maxPayload: nat, c: Cursor, srds: seq<Srd>, next: Cursor)
    requires Fits(f, maxPayload) && OnFrame(f, c) && c.line < f.height
    requires (srds, next) == PlanOne(f, maxPayload, c)
    ensures 1 <= |srds| <= MAX_SRD
  {
    PacketsLeft(f, maxPayload, c);
  }

  /** A packet of one to three segments that covers the octets `p..q` and respects the budget. */
  ghost predicate GoodPacket(f: Format, maxPayload: nat, srds: seq<Srd>, p: nat, q: nat) {
    && Covers(f, srds, p, q)
    && 1 <= |srds| <= MAX_SRD && (f.LineAligned() ==> |srds| == 1)
    && RTP_AND_ESN + SRD_HEADER * |srds| + Octets(srds) <= maxPayload
  }

  /**
   The plan is exact: packet `i` covers the octets that follow those of the packets before it, in whole
   pgroups within the payload budget, and together the packets are the rest of the frame (`PacketsTotal`).
   */
  lemma {:induction false} PacketsTile(f: Format, maxPayload: nat, c: Cursor, p: nat, ps: seq<seq<Srd>>, i: nat)
    requires Fits(f, maxPayload) && OnFrame(f, c) && c.line < f.height
    requires p == Pos(f, c) && ps == Packets(f, maxPayload, c) && i < |ps|
    ensures GoodPacket(f, maxPayload, ps[i], p + OctetsBefore(ps, i), p + OctetsBefore(ps, i + 1))
  {
    PacketsTiling(f, maxPayload, c, ps);
    TilingAt(GoodAt(f, maxPayload), ps, p, i);
  }

  ghost function GoodAt(f: Format, maxPayload: nat): (seq<Srd>, nat, nat) -> bool {
    (s: seq<Srd>, p: nat, q: nat) => GoodPacket(f, maxPayload, s, p, q)
  }

  /** Packet after packet from octet `p` on, each of them good where it lies. */
  ghost predicate Tiling(good: (seq<Srd>, nat, nat) -> bool, ps: seq<seq<Srd>>, p: nat) {
    ps != [] ==> good(ps[0], p, p + Octets(ps[0])) && Tiling(good, ps[1..], p + Octets(ps[0]))
  }

  lemma {:induction false} PacketsTiling(f: Format, maxPayload: nat, c: Cursor, ps: seq<seq<Srd>>)
    requires Fits(f, maxPayload) && OnFrame(f, c) && c.line < f.height && ps == Packets(f, maxPayload, c)
    ensures Tiling(GoodAt(f, maxPayload), ps, Pos(f, c))
    decreases |ps|
  {
    var next := PacketsUnfold(f, maxPayload, c, ps);
    if next.line < f.height {
      PacketsTiling(f, maxPayload, next, ps[1..]);
    }
  }

  lemma {:induction false} TilingAt(good: (seq<Srd>, nat, nat) -> bool, ps: seq<seq<Srd>>, p: nat, i: nat)
    requires Tiling(good, ps, p) && i < |ps|
    ensures good(ps[i], p + OctetsBefore(ps, i), p + OctetsBefore(ps, i + 1))
    decreases i
  {
    OctetsBeforeStep(ps, i);
    if i > 0 {
      TilingAt(good, ps[1..], p + Octets(ps[0]), i - 1);
    }
  }

  /** The packets of the rest of a frame are the next one and those of the rest after it. */
  lemma {:induction false} PacketsUnfold(f: Format, maxPayload: nat, c: Cursor, ps: seq<seq<Srd>>)
    returns (next: Cursor)
    requires Fits(f, maxPayload) && OnFrame(f, c) && c.line < f.height
    requires ps == Packets(f, maxPayload, c)
    ensures ps != [] && (ps[0], next) == PlanOne(f, maxPayload, c)
    ensures OnFrame(f, next) && Pos(f, next) == Pos(f, c) + Octets(ps[0])
    ensures GoodPacket(f, maxPayload, ps[0], Pos(f, c), Pos(f, c) + Octets(ps[0]))
    ensures ps[1..] == if next.line >= f.height then [] else Packets(f, maxPayload, next)
  {
    next := PlanOne(f, maxPayload, c).1;
    FirstPacket(f, maxPayload, c, ps[0], next);
  }

  /** The walk reaches the end of the frame with its last packet and with no other: that one carries the marker. */
  lemma {:induction false} MarkerOnLast(f: Format, maxPayload: nat, c: Cursor)
    requires Fits(f, maxPayload) && OnFrame(f, c) && c.line < f.height
    ensures PlanOne(f, maxPayload, c).1.line >= f.height <==> |Packets(f, maxPayload, c)| == 1
  {
    var ps := Packets(f, maxPayload, c);
    var next := PacketsUnfold(f, maxPayload, c, ps);
    if next.line < f.height {
      PacketsLeft(f, maxPayload, next);
      assert ps[1..] != [];
    }
  }

  lemma {:induction false} OctetsBeforeStep(ps: seq<seq<Srd>>, i: nat)
    requires i < |ps|
    ensures OctetsBefore(ps, i + 1) == Octets(ps[0]) + OctetsBefore(ps[1..], i)
    ensures OctetsBefore(ps, i) == if i == 0 then 0 else Octets(ps[0]) + OctetsBefore(ps[1..], i - 1)
  {
  }

  lemma {:induction false} CoversOctets(f: Format, srds: seq<Srd>, p: nat, q: nat)
    requires Covers(f, srds, p, q)
    ensures q == p + Octets(srds)
    decreases |srds|
  {
    if srds != [] {
      CoversOctets(f, srds[1..], p + srds[0].length, q);
    }
  }

  lemma {:induction false} PacketsTotal(f: Format, maxPayload: nat, c: Cursor, p: nat, ps: seq<seq<Srd>>)
    requires Fits(f, maxPayload) && OnFrame(f, c) && c.line < f.height
    requires p == Pos(f, c) && ps == Packets(f, maxPayload, c)
    ensures ps != [] && p + OctetsBefore(ps, |ps|) == f.FrameOctets()
    decreases |ps|
  {
    var next := PacketsUnfold(f, maxPayload, c, ps);
    OctetsBeforeStep(ps, |ps| - 1);
    if next.line < f.height {
      PacketsTotal(f, maxPayload, next, p + Octets(ps[0]), ps[1..]);
    }
  }

  lemma {:induction false} OctetsBeforeMono(ps: seq<seq<Srd>>, i: nat, j: nat)
    requires i <= j <= |ps|
    ensures OctetsBefore(ps, i) <= OctetsBefore(ps, j)
  {
    if i > 0 {
      OctetsBeforeMono(ps[1..], i - 1, j - 1);
    }
  }

  /** Every octet of the frame is in exactly one packet. */
  lemma {:induction false} PacketOf(ps: seq<seq<Srd>>, b: nat) returns (i: nat)
    requires b < OctetsBefore(ps, |ps|)
    ensures i < |ps| && OctetsBefore(ps, i) <= b < OctetsBefore(ps, i + 1)
  {
    i := 0;
    while b >= OctetsBefore(ps, i + 1)
      invariant i < |ps| && OctetsBefore(ps, i) <= b
      decreases |ps| - i
    {
      if i + 1 == |ps| { assert false; }
      i := i + 1;
    }
  }
}
