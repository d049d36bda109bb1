/**
 The GPU form of IP10: one thread per row and lane, each scanning its lane with the plane's stride and
 reading or writing its column of the {Cb, Y0, Cr, Y1} pgroups.
 */
module Ip10Gpu {
  import opened VideoFormat
  import opened RowCode
  import opened Ip10Sample
  import opened Ip10Plane
  import opened Rows

  // ----- Where a thread reads and writes -----

  /** The position of element `g` of a lane that starts at `base`: `base[g * stride]`. */
  function At(base: nat, stride: nat, g: nat): nat {
    base + if stride == 1 then g else if stride == 2 then 2 * g else 4 * g
  }

  lemma {:induction false} AtIs(base: nat, stride: nat, g: nat)
    requires stride in {1, 2, 4}
    ensures At(base, stride, g) == base + g * stride
  {
  }

  /** `p` is one of the `n` positions of a lane. */
  ghost predicate Hit(p: nat, base: nat, stride: nat, n: nat) {
    exists g :: 0 <= g < n && p == At(base, stride, g)
  }

  /** The samples that the thread of `lane` scans: 0 is Cb, 1 is Y0, 2 is Cr, 3 is Y1. */
  function LaneSource<T>(y: seq<T>, cb: seq<T>, cr: seq<T>, lane: nat): (x: seq<T>)
    requires lane < 4 && |cb| == |cr| == |y| / 2
    ensures |x| == |y| / 2
  {
    if lane == 0 then cb
    else if lane == 2 then cr
    else Lane(y, lane / 2)[..|y| / 2]
  }

  /** Where column `lane` of row `r` starts in a frame with `ppl` pgroups to a line. */
  function ColumnStart(ppl: nat, r: nat, lane: nat): nat {
    r * (4 * ppl) + lane
  }

  lemma {:induction false} CellInFrame(ppl: nat, h: nat, r: nat, lane: nat, g: nat)
    requires r < h && lane < 4 && g < ppl
    ensures At(ColumnStart(ppl, r, lane), 4, g) < 4 * ppl * h
  {
    RowEnd(r, h, 4 * ppl);
  }

  /** No two threads share an octet ... */
  lemma {:induction false} CellsDistinct(ppl: nat, r: nat, lane: nat, g: nat, r': nat, lane': nat, g': nat)
    requires lane < 4 && g < ppl && lane' < 4 && g' < ppl
    requires At(ColumnStart(ppl, r, lane), 4, g) == At(ColumnStart(ppl, r', lane'), 4, g')
    ensures r == r' && lane == lane' && g == g'
  {
    RowsDisjoint(4 * ppl, r, lane + 4 * g, r', lane' + 4 * g');
  }

  /** ... and every octet of the frame belongs to one. */
  lemma {:induction false} CellsCover(ppl: nat, h: nat, p: nat) returns (r: nat, lane: nat, g: nat)
    requires p < 4 * ppl * h
    ensures r < h && lane < 4 && g < ppl && p == At(ColumnStart(ppl, r, lane), 4, g)
  {
    var i;
    r, i := RowOf(p, 4 * ppl, h);
    lane, g := i % 4, i / 4;
  }

  // ----- The encoder -----

  ghost predicate Geometry(packed: nat, y: nat, cb: nat, cr: nat, w: nat, h: nat) {
    packed == 4 * (w / 2) * h && y == w * h && cb == cr == w / 2 * h
  }

  /** The lane of row `r` that a thread scans. */
  ghost function LaneOf<T>(y: seq<T>, cb: seq<T>, cr: seq<T>, w: nat, h: nat, r: nat, lane: nat): (x: seq<T>)
    requires |y| == w * h && |cb| == |cr| == w / 2 * h && r < h && lane < 4
    ensures |x| == w / 2
  {
    LaneSource(Row(y, w, h, r), Row(cb, w / 2, h, r), Row(cr, w / 2, h, r), lane)
  }

  /** Where a thread's lane starts in its plane, and the distance between its samples there. */
  function LaneStart(w: nat, r: nat, lane: nat): nat {
    if lane % 2 == 0 then r * (w / 2) else r * w + lane / 2
  }

  function LaneStride(lane: nat): nat {
    if lane % 2 == 0 then 1 else 2
  }

  function PlaneOf<T>(y: seq<T>, cb: seq<T>, cr: seq<T>, lane: nat): seq<T> {
    if lane == 0 then cb else if lane == 2 then cr else y
  }

  lemma {:induction false} LaneOfAt<T>(y: seq<T>, cb: seq<T>, cr: seq<T>, w: nat, h: nat, r: nat, lane: nat, g: nat)
    requires |y| == w * h && |cb| == |cr| == w / 2 * h && r < h && lane < 4 && g < w / 2
    ensures var p := At(LaneStart(w, r, lane), LaneStride(lane), g);
            p < |PlaneOf(y, cb, cr, lane)| && LaneOf(y, cb, cr, w, h, r, lane)[g] == PlaneOf(y, cb, cr, lane)[p]
  {
    if lane % 2 == 0 {
      RowAt(PlaneOf(y, cb, cr, lane), w / 2, h, r, g);
    } else {
      RowAt(y, w, h, r, lane / 2 + 2 * g);
    }
  }

  /** No two threads share a sample of a plane. */
  lemma {:induction false} SamplesDistinct(w: nat, r: nat, lane: nat, g: nat, r': nat, lane': nat, g': nat)
    requires lane < 4 && g < w / 2 && lane' < 4 && g' < w / 2 && (lane == lane' || lane % 2 == lane' % 2 == 1)
    requires At(LaneStart(w, r, lane), LaneStride(lane), g) == At(LaneStart(w, r', lane'), LaneStride(lane'), g')
    ensures r == r' && lane == lane' && g == g'
  {
    if lane % 2 == 0 {
      RowsDisjoint(w / 2, r, g, r', g');
    } else {
      RowsDisjoint(w, r, lane / 2 + 2 * g, r', lane' / 2 + 2 * g');
    }
  }

  /** Column `lane` of row `r` holds the code of the lane `x`. */
  ghost predicate ColumnHolds(packed: seq<Byte>, ppl: nat, r: nat, lane: nat, code: seq<Byte>) {
    |code| == ppl && forall g :: 0 <= g < ppl ==>
      At(ColumnStart(ppl, r, lane), 4, g) < |packed| && packed[At(ColumnStart(ppl, r, lane), 4, g)] == code[g]
  }

  /** One thread's scan of `n` samples, from `input` at `stride` to every fourth octet of `packed`. */
  method EncodeScan(
    c: Code<Table, Sample, Byte>, input: array<Word>, from: nat, stride: nat, packed: array<Byte>, to: nat, n: nat,
    ghost x: seq<Sample>)
    requires 1 <= stride <= 2 && |x| == n
    requires input as object != packed
    requires forall g :: 0 <= g < n ==>
      At(from, stride, g) < input.Length && x[g] == input[At(from, stride, g)] % 1024
    requires forall g :: 0 <= g < n ==> At(to, 4, g) < packed.Length
    modifies packed
    ensures forall g :: 0 <= g < n ==> packed[At(to, 4, g)] == EncodeRow(c, x, 1)[g]
    ensures forall p :: 0 <= p < packed.Length && !Hit(p, to, 4, n) ==> packed[p] == old(packed[p])
  {
    ghost var code := EncodeRow(c, x, 1);
    var table := c.start;
    for g := 0 to n
      invariant table == EncTable(c, x, 1, g)
      invariant forall k :: 0 <= k < g ==> packed[At(to, 4, k)] == code[k]
      invariant forall p :: 0 <= p < packed.Length && !Hit(p, to, 4, n) ==> packed[p] == old(packed[p])
    {
      AtIs(from, stride, g);
      AtIs(to, 4, g);
      var codeWord := c.enc(table, input[from + g * stride] % 1024);
      assert codeWord == code[g];
      packed[to + g * 4] := codeWord;
      table := c.next(c.dec(table, codeWord));
      assert Hit(At(to, 4, g), to, 4, n);
      AtDistinct(to, g);
    }
  }

  lemma {:induction false} AtDistinct(base: nat, g: nat)
    ensures forall k :: 0 <= k < g ==> At(base, 4, k) != At(base, 4, g)
  {
  }

  /** Column `lane` of row `r` holds the scan of its lane. */
  ghost predicate ColumnEncoded(
    packed: seq<Byte>, y: seq<Word>, cb: seq<Word>, cr: seq<Word>, w: nat, h: nat, r: nat, lane: nat)
    requires |y| == w * h && |cb| == |cr| == w / 2 * h && r < h && lane < 4
  {
    ColumnHolds(packed, w / 2, r, lane, EncodeRow(IP10, Masked(LaneOf(y, cb, cr, w, h, r, lane)), 1))
  }

  /** The kernel body of thread `tid`. */
  method EncodeThread(
    y: array<Word>, cb: array<Word>, cr: array<Word>, packed: array<Byte>, width: nat, height: nat, tid: nat)
    requires Geometry(packed.Length, y.Length, cb.Length, cr.Length, width, height)
    requires y as object != packed && cb as object != packed && cr as object != packed
    modifies packed
    ensures tid / 4 < height ==>
      ColumnEncoded(packed[..], y[..], cb[..], cr[..], width, height, tid / 4, tid % 4)
    ensures forall p :: 0 <= p < packed.Length && !Hit(p, ColumnStart(width / 2, tid / 4, tid % 4), 4, width / 2) ==>
      packed[p] == old(packed[p])
  {
    var row, lane := tid / 4, tid % 4;
    if row >= height { return; }
    var ppl := width / 2;
    var input, from, stride := LanePtr(y, cb, cr, row, width, height, ppl, lane);
    ghost var source := LaneOf(y[..], cb[..], cr[..], width, height, row, lane);
    forall g | 0 <= g < ppl
      ensures At(ColumnStart(ppl, row, lane), 4, g) < packed.Length
    {
      CellInFrame(ppl, height, row, lane, g);
    }
    forall g | 0 <= g < ppl
      ensures At(from, stride, g) < input.Length && source[g] == input[At(from, stride, g)]
    {
      LaneOfAt(y[..], cb[..], cr[..], width, height, row, lane, g);
    }
    var to := row * (ppl * 4) + lane;
    assert to == ColumnStart(ppl, row, lane);
    EncodeScan(IP10, input, from, stride, packed, to, ppl, Masked(source));
  }

  /** The plane, start and stride of a thread's lane. */
  method LanePtr(
    y: array<Word>, cb: array<Word>, cr: array<Word>, row: nat, width: nat, height: nat, ppl: nat, lane: nat)
    returns (plane: array<Word>, from: nat, stride: nat)
    requires y.Length == width * height && cb.Length == cr.Length == ppl * height
    requires ppl == width / 2 && row < height && lane < 4
    ensures plane == (if lane == 0 then cb else if lane == 2 then cr else y)
    ensures from == LaneStart(width, row, lane) && stride == LaneStride(lane)
  {
    if lane == 0 {
      plane, from, stride := cb, row * ppl, 1;
    } else if lane == 2 {
      plane, from, stride := cr, row * ppl, 1;
    } else if lane == 1 {
      plane, from, stride := y, row * width, 2;
    } else {
      plane, from, stride := y, row * width + 1, 2;
    }
  }

  /** The octets of another thread's column are untouched. */
  lemma {:induction false} OtherColumn(
    before: seq<Byte>, after: seq<Byte>, ppl: nat, r: nat, lane: nat, r': nat, lane': nat, code: seq<Byte>)
    requires |before| == |after| && lane < 4 && lane' < 4 && (r, lane) != (r', lane')
    requires forall p :: 0 <= p < |after| && !Hit(p, ColumnStart(ppl, r, lane), 4, ppl) ==> after[p] == before[p]
    requires ColumnHolds(before, ppl, r', lane', code)
    ensures ColumnHolds(after, ppl, r', lane', code)
  {
    forall g' | 0 <= g' < ppl
      ensures after[At(ColumnStart(ppl, r', lane'), 4, g')] == code[g']
    {
      var p := At(ColumnStart(ppl, r', lane'), 4, g');
      if Hit(p, ColumnStart(ppl, r, lane), 4, ppl) {
        var g :| 0 <= g < ppl && p == At(ColumnStart(ppl, r, lane), 4, g);
        CellsDistinct(ppl, r, lane, g, r', lane', g');
      }
    }
  }

  /** Every column of `packed` holds the scan of its lane. */
  ghost predicate AllColumnsEncoded(packed: seq<Byte>, y: seq<Word>, cb: seq<Word>, cr: seq<Word>, w: nat, h: nat)
    requires |y| == w * h && |cb| == |cr| == w / 2 * h
  {
    forall r, lane | 0 <= r < h && 0 <= lane < 4 :: ColumnEncoded(packed, y, cb, cr, w, h, r, lane)
  }

  /**
   The launch: the threads run in any order, and running one again changes nothing. The grid is rounded up
   to whole blocks, so thread numbers past the last row occur too.
   */
  method Pack422(
    y: array<Word>, cb: array<Word>, cr: array<Word>, packed: array<Byte>, width: nat, height: nat, order: seq<nat>)
    requires Geometry(packed.Length, y.Length, cb.Length, cr.Length, width, height)
    requires y as object != packed && cb as object != packed && cr as object != packed
    requires forall tid :: 0 <= tid < 4 * height ==> tid in order
    modifies packed
    ensures AllColumnsEncoded(packed[..], y[..], cb[..], cr[..], width, height)
  {
    for i := 0 to |order|
      invariant forall k :: 0 <= k < i && order[k] / 4 < height ==>
        ColumnEncoded(packed[..], y[..], cb[..], cr[..], width, height, order[k] / 4, order[k] % 4)
    {
      ghost var before := packed[..];
      EncodeThread(y, cb, cr, packed, width, height, order[i]);
      forall k | 0 <= k < i && order[k] / 4 < height
        ensures ColumnEncoded(packed[..], y[..], cb[..], cr[..], width, height, order[k] / 4, order[k] % 4)
      {
        var r, lane := order[k] / 4, order[k] % 4;
        if order[k] != order[i] {
          OtherColumn(before, packed[..], width / 2, order[i] / 4, order[i] % 4, r, lane,
                      EncodeRow(IP10, Masked(LaneOf(y[..], cb[..], cr[..], width, height, r, lane)), 1));
        }
      }
    }
    forall r, lane | 0 <= r < height && 0 <= lane < 4
      ensures ColumnEncoded(packed[..], y[..], cb[..], cr[..], width, height, r, lane)
    {
      var tid := 4 * r + lane;
      assert tid in order;
      assert tid / 4 == r && tid % 4 == lane;
    }
  }

  /** Row `r` of `packed` is the three rows interleaved in pgroups {Cb, Y0, Cr, Y1}. */
  ghost predicate Interleaved(packed: seq<Byte>, y: seq<Byte>, cb: seq<Byte>, cr: seq<Byte>, w: nat, h: nat)
    requires |y| == w * h && |cb| == |cr| == w / 2 * h
  {
    forall r, lane | 0 <= r < h && 0 <= lane < 4 ::
      ColumnHolds(packed, w / 2, r, lane, LaneOf(y, cb, cr, w, h, r, lane))
  }

  /** Pgroup `g` of row `r`: the octets of the `g`-th Cb, the even luma, the `g`-th Cr and the odd luma. */
  ghost predicate Pgroup(
    packed: seq<Byte>, y: seq<Byte>, cb: seq<Byte>, cr: seq<Byte>, w: nat, h: nat, r: nat, g: nat)
    requires |y| == w * h && |cb| == |cr| == w / 2 * h && r < h && g < w / 2
  {
    var at := r * (4 * (w / 2)) + 4 * g;
    && at + 4 <= |packed|
    && packed[at] == Row(cb, w / 2, h, r)[g] && packed[at + 1] == Row(y, w, h, r)[2 * g]
    && packed[at + 2] == Row(cr, w / 2, h, r)[g] && packed[at + 3] == Row(y, w, h, r)[2 * g + 1]
  }

  /** The interleaved rows pgroup by pgroup. */
  lemma {:induction false} InterleavedMeans(
    packed: seq<Byte>, y: seq<Byte>, cb: seq<Byte>, cr: seq<Byte>, w: nat, h: nat)
    requires |y| == w * h && |cb| == |cr| == w / 2 * h
    ensures Interleaved(packed, y, cb, cr, w, h)
       <==> forall r, g :: 0 <= r < h && 0 <= g < w / 2 ==> Pgroup(packed, y, cb, cr, w, h, r, g)
  {
    if Interleaved(packed, y, cb, cr, w, h) {
      forall r, g | 0 <= r < h && 0 <= g < w / 2
        ensures Pgroup(packed, y, cb, cr, w, h, r, g)
      {
        PgroupOfColumns(packed, y, cb, cr, w, h, r, g);
      }
    }
    if forall r, g :: 0 <= r < h && 0 <= g < w / 2 ==> Pgroup(packed, y, cb, cr, w, h, r, g) {
      forall r, lane | 0 <= r < h && 0 <= lane < 4
        ensures ColumnHolds(packed, w / 2, r, lane, LaneOf(y, cb, cr, w, h, r, lane))
      {
        ColumnOfPgroups(packed, y, cb, cr, w, h, r, lane);
      }
    }
  }

  lemma {:induction false} PgroupOfColumns(
    packed: seq<Byte>, y: seq<Byte>, cb: seq<Byte>, cr: seq<Byte>, w: nat, h: nat, r: nat, g: nat)
    requires |y| == w * h && |cb| == |cr| == w / 2 * h && r < h && g < w / 2
    requires Interleaved(packed, y, cb, cr, w, h)
    ensures Pgroup(packed, y, cb, cr, w, h, r, g)
  {
    ColumnAt(packed, y, cb, cr, w, h, r, 0, g);
    ColumnAt(packed, y, cb, cr, w, h, r, 1, g);
    ColumnAt(packed, y, cb, cr, w, h, r, 2, g);
    ColumnAt(packed, y, cb, cr, w, h, r, 3, g);
  }

  lemma {:induction false} ColumnOfPgroups(
    packed: seq<Byte>, y: seq<Byte>, cb: seq<Byte>, cr: seq<Byte>, w: nat, h: nat, r: nat, lane: nat)
    requires |y| == w * h && |cb| == |cr| == w / 2 * h && r < h && lane < 4
    requires forall g :: 0 <= g < w / 2 ==> Pgroup(packed, y, cb, cr, w, h, r, g)
    ensures ColumnHolds(packed, w / 2, r, lane, LaneOf(y, cb, cr, w, h, r, lane))
  {
    forall g | 0 <= g < w / 2
      ensures At(ColumnStart(w / 2, r, lane), 4, g) < |packed|
      ensures packed[At(ColumnStart(w / 2, r, lane), 4, g)] == LaneOf(y, cb, cr, w, h, r, lane)[g]
    {
      assert Pgroup(packed, y, cb, cr, w, h, r, g);
    }
  }

  lemma {:induction false} ColumnAt(
    packed: seq<Byte>, y: seq<Byte>, cb: seq<Byte>, cr: seq<Byte>, w: nat, h: nat, r: nat, lane: nat, g: nat)
    requires |y| == w * h && |cb| == |cr| == w / 2 * h && r < h && lane < 4 && g < w / 2
    requires Interleaved(packed, y, cb, cr, w, h)
    ensures var p := r * (4 * (w / 2)) + 4 * g + lane;
            p < |packed| && packed[p] == LaneOf(y, cb, cr, w, h, r, lane)[g]
  {
    assert ColumnHolds(packed, w / 2, r, lane, LaneOf(y, cb, cr, w, h, r, lane));
    assert At(ColumnStart(w / 2, r, lane), 4, g) == r * (4 * (w / 2)) + 4 * g + lane;
  }

  /**
   The refinement: for every even width, the four scans of each row equal the row walk of the CPU
   reference, at distance 2 on Y and 1 on Cb and Cr, interleaved in pgroups.
   */
  lemma {:induction false} ScansEqualRowWalk(
    packed: seq<Byte>, y: seq<Word>, cb: seq<Word>, cr: seq<Word>,
    yc: seq<Byte>, cbc: seq<Byte>, crc: seq<Byte>, w: nat, h: nat)
    requires w % 2 == 0
    requires EncodedPlane(y, yc, w, h, 2) && EncodedPlane(cb, cbc, w / 2, h, 1) && EncodedPlane(cr, crc, w / 2, h, 1)
    ensures AllColumnsEncoded(packed, y, cb, cr, w, h) <==> Interleaved(packed, yc, cbc, crc, w, h)
  {
    forall r, lane | 0 <= r < h && 0 <= lane < 4
      ensures ColumnEncoded(packed, y, cb, cr, w, h, r, lane)
         <==> ColumnHolds(packed, w / 2, r, lane, LaneOf(yc, cbc, crc, w, h, r, lane))
    {
      LaneScan(Row(y, w, h, r), Row(cb, w / 2, h, r), Row(cr, w / 2, h, r), lane);
    }
  }

  lemma {:induction false} LaneScan(y: seq<Word>, cb: seq<Word>, cr: seq<Word>, lane: nat)
    requires |y| % 2 == 0 && |cb| == |cr| == |y| / 2 && lane < 4
    ensures EncodeRow(IP10, Masked(LaneSource(y, cb, cr, lane)), 1)
         == LaneSource(EncodeRow(IP10, Masked(y), 2), EncodeRow(IP10, Masked(cb), 1), EncodeRow(IP10, Masked(cr), 1),
                       lane)
  {
    if lane % 2 == 1 {
      EvenLane(y, lane / 2);
      EvenLane(EncodeRow(IP10, Masked(y), 2), lane / 2);
      LaneOfEncoded(IP10, Masked(y), lane / 2);
      assert Lane(Masked(y), lane / 2) == Masked(Lane(y, lane / 2));
    }
  }

  lemma {:induction false} EvenLane<T>(y: seq<T>, l: nat)
    requires |y| % 2 == 0 && l < 2
    ensures Lane(y, l)[..|y| / 2] == Lane(y, l)
  {
  }

  // ----- The decoder -----

  /** Column `lane` of row `r` of a frame of pgroups. */
  ghost function ColumnOf(packed: seq<Byte>, ppl: nat, h: nat, r: nat, lane: nat): (c: seq<Byte>)
    requires |packed| == 4 * ppl * h && r < h && lane < 4
    ensures |c| == ppl
  {
    seq(ppl, g requires 0 <= g < ppl =>
      CellInFrame(ppl, h, r, lane, g); packed[At(ColumnStart(ppl, r, lane), 4, g)])
  }

  method DecodeScan(
    c: Code<Table, Sample, Byte>, packed: array<Byte>, from: nat, plane: array<Word>, to: nat, stride: nat, n: nat,
    ghost codes: seq<Byte>)
    requires 1 <= stride <= 2 && |codes| == n
    requires packed as object != plane
    requires forall g :: 0 <= g < n ==> At(from, 4, g) < packed.Length && codes[g] == packed[At(from, 4, g)]
    requires forall g :: 0 <= g < n ==> At(to, stride, g) < plane.Length
    modifies plane
    ensures forall g :: 0 <= g < n ==> plane[At(to, stride, g)] == DecodeRow(c, codes, 1)[g]
    ensures forall p :: 0 <= p < plane.Length && !Hit(p, to, stride, n) ==> plane[p] == old(plane[p])
  {
    ghost var samples := DecodeRow(c, codes, 1);
    var table := c.start;
    for g := 0 to n
      invariant table == DecTable(c, codes, 1, g)
      invariant forall k :: 0 <= k < g ==> plane[At(to, stride, k)] == samples[k]
      invariant forall p :: 0 <= p < plane.Length && !Hit(p, to, stride, n) ==> plane[p] == old(plane[p])
    {
      AtIs(from, 4, g);
      AtIs(to, stride, g);
      var recon := c.dec(table, packed[from + g * 4]);
      plane[to + g * stride] := recon;
      table := c.next(recon);
      assert Hit(At(to, stride, g), to, stride, n);
    }
  }

  /** The lane of a thread holds the reconstruction of its column. */
  ghost predicate LaneDecoded(
    packed: seq<Byte>, y: seq<Word>, cb: seq<Word>, cr: seq<Word>, w: nat, h: nat, r: nat, lane: nat)
    requires Geometry(|packed|, |y|, |cb|, |cr|, w, h) && r < h && lane < 4
  {
    LaneOf(y, cb, cr, w, h, r, lane) == DecodeRow(IP10, ColumnOf(packed, w / 2, h, r, lane), 1)
  }

  method DecodeThread(
    packed: array<Byte>, y: array<Word>, cb: array<Word>, cr: array<Word>, width: nat, height: nat, tid: nat)
    requires Geometry(packed.Length, y.Length, cb.Length, cr.Length, width, height)
    requires y as object != packed && cb as object != packed && cr as object != packed
    requires y != cb && y != cr && cb != cr
    modifies y, cb, cr
    ensures tid / 4 < height ==>
      LaneDecoded(packed[..], y[..], cb[..], cr[..], width, height, tid / 4, tid % 4)
    ensures OnlyLane(old(y[..]), old(cb[..]), old(cr[..]), y[..], cb[..], cr[..], width, tid / 4, tid % 4)
  {
    var row, lane := tid / 4, tid % 4;
    if row >= height { return; }
    var ppl := width / 2;
    var plane, to, stride := LanePtr(y, cb, cr, row, width, height, ppl, lane);
    ghost var codes := ColumnOf(packed[..], ppl, height, row, lane);
    ThreadInBounds(y[..], cb[..], cr[..], width, height, row, lane);
    var from := row * (ppl * 4) + lane;
    assert from == ColumnStart(ppl, row, lane);
    DecodeScan(IP10, packed, from, plane, to, stride, ppl, codes);
    LaneFromPlane(y[..], cb[..], cr[..], width, height, row, lane, DecodeRow(IP10, codes, 1));
  }

  /** A thread stays inside the packed frame and inside its plane. */
  lemma {:induction false} ThreadInBounds<T>(y: seq<T>, cb: seq<T>, cr: seq<T>, w: nat, h: nat, r: nat, lane: nat)
    requires |y| == w * h && |cb| == |cr| == w / 2 * h && r < h && lane < 4
    ensures forall g :: 0 <= g < w / 2 ==> At(ColumnStart(w / 2, r, lane), 4, g) < 4 * (w / 2) * h
    ensures forall g :: 0 <= g < w / 2 ==> At(LaneStart(w, r, lane), LaneStride(lane), g) < |PlaneOf(y, cb, cr, lane)|
  {
    forall g | 0 <= g < w / 2
      ensures At(ColumnStart(w / 2, r, lane), 4, g) < 4 * (w / 2) * h
      ensures At(LaneStart(w, r, lane), LaneStride(lane), g) < |PlaneOf(y, cb, cr, lane)|
    {
      CellInFrame(w / 2, h, r, lane, g);
      LaneOfAt(y, cb, cr, w, h, r, lane, g);
    }
  }

  /** A plane that holds `x` at a lane's positions has it as that lane. */
  lemma {:induction false} LaneFromPlane<T>(
    y: seq<T>, cb: seq<T>, cr: seq<T>, w: nat, h: nat, r: nat, lane: nat, x: seq<T>)
    requires |y| == w * h && |cb| == |cr| == w / 2 * h && r < h && lane < 4 && |x| == w / 2
    requires forall g :: 0 <= g < w / 2 ==>
               At(LaneStart(w, r, lane), LaneStride(lane), g) < |PlaneOf(y, cb, cr, lane)|
               && PlaneOf(y, cb, cr, lane)[At(LaneStart(w, r, lane), LaneStride(lane), g)] == x[g]
    ensures LaneOf(y, cb, cr, w, h, r, lane) == x
  {
    forall g | 0 <= g < w / 2
      ensures LaneOf(y, cb, cr, w, h, r, lane)[g] == x[g]
    {
      LaneOfAt(y, cb, cr, w, h, r, lane, g);
    }
  }

  /** The planes have changed at most in the lane `lane` of row `r`. */
  ghost predicate OnlyLane<T>(
    y: seq<T>, cb: seq<T>, cr: seq<T>, y': seq<T>, cb': seq<T>, cr': seq<T>, w: nat, r: nat, lane: nat)
  {
    && |y'| == |y| && |cb'| == |cb| && |cr'| == |cr|
    && (lane % 2 == 0 ==> y' == y) && (lane != 0 ==> cb' == cb) && (lane != 2 ==> cr' == cr)
    && forall p :: 0 <= p < |PlaneOf(y, cb, cr, lane)| && !Hit(p, LaneStart(w, r, lane), LaneStride(lane), w / 2) ==>
         PlaneOf(y', cb', cr', lane)[p] == PlaneOf(y, cb, cr, lane)[p]
  }

  lemma {:induction false} OtherLane<T>(
    y: seq<T>, cb: seq<T>, cr: seq<T>, y': seq<T>, cb': seq<T>, cr': seq<T>,
    w: nat, h: nat, r: nat, lane: nat, r': nat, lane': nat)
    requires |y| == w * h && |cb| == |cr| == w / 2 * h && r' < h && lane < 4 && lane' < 4
    requires OnlyLane(y, cb, cr, y', cb', cr', w, r, lane) && (r, lane) != (r', lane')
    ensures LaneOf(y', cb', cr', w, h, r', lane') == LaneOf(y, cb, cr, w, h, r', lane')
  {
    var x := LaneOf(y, cb, cr, w, h, r', lane');
    forall g | 0 <= g < w / 2
      ensures At(LaneStart(w, r', lane'), LaneStride(lane'), g) < |PlaneOf(y', cb', cr', lane')|
      ensures PlaneOf(y', cb', cr', lane')[At(LaneStart(w, r', lane'), LaneStride(lane'), g)] == x[g]
    {
      LaneOfAt(y, cb, cr, w, h, r', lane', g);
      OtherSample(y, cb, cr, y', cb', cr', w, r, lane, r', lane', g);
    }
    LaneFromPlane(y', cb', cr', w, h, r', lane', x);
  }

  lemma {:induction false} OtherSample<T>(
    y: seq<T>, cb: seq<T>, cr: seq<T>, y': seq<T>, cb': seq<T>, cr': seq<T>,
    w: nat, r: nat, lane: nat, r': nat, lane': nat, g: nat)
    requires lane < 4 && lane' < 4 && g < w / 2
    requires OnlyLane(y, cb, cr, y', cb', cr', w, r, lane) && (r, lane) != (r', lane')
    requires At(LaneStart(w, r', lane'), LaneStride(lane'), g) < |PlaneOf(y, cb, cr, lane')|
    ensures |PlaneOf(y', cb', cr', lane')| == |PlaneOf(y, cb, cr, lane')|
    ensures var p := At(LaneStart(w, r', lane'), LaneStride(lane'), g);
            PlaneOf(y', cb', cr', lane')[p] == PlaneOf(y, cb, cr, lane')[p]
  {
    if lane == lane' || lane % 2 == lane' % 2 == 1 {
      NotHit(w, r, lane, r', lane', g);
    }
  }

  /** A sample of one lane is none of another lane of the same plane. */
  lemma {:induction false} NotHit(w: nat, r: nat, lane: nat, r': nat, lane': nat, g': nat)
    requires lane < 4 && lane' < 4 && (r, lane) != (r', lane') && g' < w / 2
    requires lane == lane' || lane % 2 == lane' % 2 == 1
    ensures !Hit(At(LaneStart(w, r', lane'), LaneStride(lane'), g'), LaneStart(w, r, lane), LaneStride(lane), w / 2)
  {
    var p := At(LaneStart(w, r', lane'), LaneStride(lane'), g');
    if Hit(p, LaneStart(w, r, lane), LaneStride(lane), w / 2) {
      var g :| 0 <= g < w / 2 && p == At(LaneStart(w, r, lane), LaneStride(lane), g);
      SamplesDistinct(w, r, lane, g, r', lane', g');
    }
  }

  /** The launch of the decoder, its threads in any order. */
  method Unpack422(
    packed: array<Byte>, y: array<Word>, cb: array<Word>, cr: array<Word>, width: nat, height: nat, order: seq<nat>)
    requires Geometry(packed.Length, y.Length, cb.Length, cr.Length, width, height)
    requires y as object != packed && cb as object != packed && cr as object != packed
    requires y != cb && y != cr && cb != cr
    requires forall tid :: 0 <= tid < 4 * height ==> tid in order
    modifies y, cb, cr
    ensures AllLanesDecoded(packed[..], y[..], cb[..], cr[..], width, height)
  {
    for i := 0 to |order|
      invariant forall k :: 0 <= k < i && order[k] / 4 < height ==>
        LaneDecoded(packed[..], y[..], cb[..], cr[..], width, height, order[k] / 4, order[k] % 4)
    {
      ghost var y0, cb0, cr0 := y[..], cb[..], cr[..];
      DecodeThread(packed, y, cb, cr, width, height, order[i]);
      forall k | 0 <= k < i && order[k] / 4 < height
        ensures LaneDecoded(packed[..], y[..], cb[..], cr[..], width, height, order[k] / 4, order[k] % 4)
      {
        if order[k] != order[i] {
          OtherLane(y0, cb0, cr0, y[..], cb[..], cr[..], width, height,
                    order[i] / 4, order[i] % 4, order[k] / 4, order[k] % 4);
        }
      }
    }
    forall r, lane | 0 <= r < height && 0 <= lane < 4
      ensures LaneDecoded(packed[..], y[..], cb[..], cr[..], width, height, r, lane)
    {
      var tid := 4 * r + lane;
      assert tid in order;
      assert tid / 4 == r && tid % 4 == lane;
    }
  }

  ghost predicate AllLanesDecoded(packed: seq<Byte>, y: seq<Word>, cb: seq<Word>, cr: seq<Word>, w: nat, h: nat)
    requires Geometry(|packed|, |y|, |cb|, |cr|, w, h)
  {
    forall r, lane | 0 <= r < h && 0 <= lane < 4 :: LaneDecoded(packed, y, cb, cr, w, h, r, lane)
  }

  /** For every even width, the decoding scans reconstruct what the CPU walk does from the planes' own codes. */
  lemma {:induction false} DecodeScansEqualRowWalk(
    packed: seq<Byte>, yc: seq<Byte>, cbc: seq<Byte>, crc: seq<Byte>,
    y: seq<Word>, cb: seq<Word>, cr: seq<Word>, w: nat, h: nat)
    requires w % 2 == 0 && Geometry(|packed|, |y|, |cb|, |cr|, w, h)
    requires |yc| == |y| && |cbc| == |crc| == |cb|
    requires Interleaved(packed, yc, cbc, crc, w, h) && AllLanesDecoded(packed, y, cb, cr, w, h)
    ensures DecodedPlane(yc, y, w, h, 2) && DecodedPlane(cbc, cb, w / 2, h, 1) && DecodedPlane(crc, cr, w / 2, h, 1)
  {
    forall r | 0 <= r < h
      ensures Row(y, w, h, r) == DecodeRow(IP10, Row(yc, w, h, r), 2)
      ensures Row(cb, w / 2, h, r) == DecodeRow(IP10, Row(cbc, w / 2, h, r), 1)
      ensures Row(cr, w / 2, h, r) == DecodeRow(IP10, Row(crc, w / 2, h, r), 1)
    {
      forall lane | 0 <= lane < 4
        ensures LaneOf(y, cb, cr, w, h, r, lane) == DecodeRow(IP10, LaneOf(yc, cbc, crc, w, h, r, lane), 1)
      {
        assert LaneDecoded(packed, y, cb, cr, w, h, r, lane);
        assert ColumnHolds(packed, w / 2, r, lane, LaneOf(yc, cbc, crc, w, h, r, lane));
        assert ColumnOf(packed, w / 2, h, r, lane) == LaneOf(yc, cbc, crc, w, h, r, lane);
      }
      RowFromLanes(Row(yc, w, h, r), Row(y, w, h, r), LaneOf(y, cb, cr, w, h, r, 1), LaneOf(y, cb, cr, w, h, r, 3));
      assert LaneOf(y, cb, cr, w, h, r, 0) == Row(cb, w / 2, h, r);
      assert LaneOf(y, cb, cr, w, h, r, 2) == Row(cr, w / 2, h, r);
    }
  }

  /** A row of even width whose two lanes are decoded lane by lane is decoded at distance 2. */
  lemma {:induction false} RowFromLanes(c: seq<Byte>, x: seq<Word>, even: seq<Word>, odd: seq<Word>)
    requires |x| == |c| && |c| % 2 == 0
    requires even == Lane(x, 0)[..|x| / 2] == DecodeRow(IP10, Lane(c, 0)[..|c| / 2], 1)
    requires odd == Lane(x, 1)[..|x| / 2] == DecodeRow(IP10, Lane(c, 1)[..|c| / 2], 1)
    ensures x == DecodeRow(IP10, c, 2)
  {
    var d := DecodeRow(IP10, c, 2);
    EvenLane(x, 0);
    EvenLane(x, 1);
    EvenLane(c, 0);
    EvenLane(c, 1);
    LaneOfDecoded(IP10, c, 0);
    LaneOfDecoded(IP10, c, 1);
    forall i | 0 <= i < |x|
      ensures x[i] == d[i]
    {
      var l, k := i % 2, i / 2;
      assert i == 2 * k + l;
      assert Lane(x, l)[k] == x[i] && Lane(d, l)[k] == d[i];
    }
  }
}
