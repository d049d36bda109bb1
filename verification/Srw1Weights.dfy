/** The order of convolution weights: HWIO as trained, OIHW as the engine reads them. */
module Srw1Weights {
  import opened Arithmetic
  import opened RtpTime

  datatype Shape = Shape(k: nat, cin: nat, cout: nat) {
    predicate Valid() {
      k > 0 && cin > 0 && cout > 0
    }

    function Count(): nat {
      Pair(Pair(Pair(cout, 0, cin), 0, k), 0, k)
    }
  }

  /** One weight of a convolution: from input channel `ci` to output channel `co` at row `kh`, column `kw`. */
  datatype Tap = Tap(co: nat, ci: nat, kh: nat, kw: nat)

  predicate InShape(sh: Shape, t: Tap) {
    t.co < sh.cout && t.ci < sh.cin && t.kh < sh.k && t.kw < sh.k
  }

  /** Position `b` of row `a`, when a row is `m` long. */
  function Pair(a: nat, b: nat, m: nat): nat {
    a * m + b
  }

  function Src(sh: Shape, t: Tap): nat {
    Pair(Pair(Pair(t.kh, t.kw, sh.k), t.ci, sh.cin), t.co, sh.cout)
  }

  function Dst(sh: Shape, t: Tap): nat {
    Pair(Pair(Pair(t.co, t.ci, sh.cin), t.kh, sh.k), t.kw, sh.k)
  }

  function Row(x: nat, m: nat): nat
    requires m > 0
  {
    x / m
  }

  function Col(x: nat, m: nat): (c: nat)
    requires m > 0
    ensures c < m
  {
    x % m
  }

  function TapAtSrc(sh: Shape, s: nat): Tap
    requires sh.Valid()
  {
    var a := Row(s, sh.cout);
    var b := Row(a, sh.cin);
    Tap(Col(s, sh.cout), Col(a, sh.cin), Row(b, sh.k), Col(b, sh.k))
  }

  function TapAtDst(sh: Shape, d: nat): Tap
    requires sh.Valid()
  {
    var a := Row(d, sh.k);
    var b := Row(a, sh.k);
    Tap(Row(b, sh.cin), Col(b, sh.cin), Col(a, sh.k), Col(d, sh.k))
  }

  // ----- Both orders number the taps, one to one -----

  lemma {:induction false} PairSplits(a: nat, b: nat, m: nat)
    requires b < m
    ensures Row(Pair(a, b, m), m) == a && Col(Pair(a, b, m), m) == b
  {
    QuotientIs(a * m + b, m, a);
  }

  lemma {:induction false} SplitPairs(x: nat, m: nat)
    requires m > 0
    ensures Pair(Row(x, m), Col(x, m), m) == x
  {
    QuotientBounds(x, m);
  }

  lemma {:induction false} PairBelow(a: nat, b: nat, m: nat, n: nat)
    requires a < n && b < m
    ensures Pair(a, b, m) < Pair(n, 0, m)
  {
    MulMono(a + 1, n, m);
    assert (a + 1) * m == a * m + m;
  }

  lemma {:induction false} RowBelow(x: nat, m: nat, n: nat)
    requires m > 0 && x < Pair(n, 0, m)
    ensures Row(x, m) < n
  {
    QuotientBounds(x, m);
    if n <= Row(x, m) {
      MulMono(n, Row(x, m), m);
    }
  }

  /** The HWIO order has as many places as the OIHW order. */
  lemma {:induction false} SameCount(sh: Shape)
    ensures Pair(Pair(Pair(sh.k, 0, sh.k), 0, sh.cin), 0, sh.cout) == sh.Count()
    ensures sh.Count() == sh.cout * sh.cin * sh.k * sh.k
  {
    assert sh.k * sh.k * sh.cin * sh.cout == sh.cout * sh.cin * sh.k * sh.k;
  }

  lemma {:induction false} DstOfTap(sh: Shape, t: Tap)
    requires sh.Valid() && InShape(sh, t)
    ensures Dst(sh, t) < sh.Count() && TapAtDst(sh, Dst(sh, t)) == t
  {
    var a := Pair(t.co, t.ci, sh.cin);
    var b := Pair(a, t.kh, sh.k);
    PairSplits(b, t.kw, sh.k);
    PairSplits(a, t.kh, sh.k);
    PairSplits(t.co, t.ci, sh.cin);
    PairBelow(t.co, t.ci, sh.cin, sh.cout);
    PairBelow(a, t.kh, sh.k, Pair(sh.cout, 0, sh.cin));
    PairBelow(b, t.kw, sh.k, Pair(Pair(sh.cout, 0, sh.cin), 0, sh.k));
  }

  lemma {:induction false} TapOfDst(sh: Shape, d: nat)
    requires sh.Valid() && d < sh.Count()
    ensures InShape(sh, TapAtDst(sh, d)) && Dst(sh, TapAtDst(sh, d)) == d
  {
    var a := Row(d, sh.k);
    var b := Row(a, sh.k);
    SplitPairs(d, sh.k);
    SplitPairs(a, sh.k);
    SplitPairs(b, sh.cin);
    RowBelow(d, sh.k, Pair(Pair(sh.cout, 0, sh.cin), 0, sh.k));
    RowBelow(a, sh.k, Pair(sh.cout, 0, sh.cin));
    RowBelow(b, sh.cin, sh.cout);
  }

  lemma {:induction false} SrcOfTap(sh: Shape, t: Tap)
    requires sh.Valid() && InShape(sh, t)
    ensures Src(sh, t) < sh.Count() && TapAtSrc(sh, Src(sh, t)) == t
  {
    var b := Pair(t.kh, t.kw, sh.k);
    var a := Pair(b, t.ci, sh.cin);
    PairSplits(a, t.co, sh.cout);
    PairSplits(b, t.ci, sh.cin);
    PairSplits(t.kh, t.kw, sh.k);
    PairBelow(t.kh, t.kw, sh.k, sh.k);
    PairBelow(b, t.ci, sh.cin, Pair(sh.k, 0, sh.k));
    PairBelow(a, t.co, sh.cout, Pair(Pair(sh.k, 0, sh.k), 0, sh.cin));
    SameCount(sh);
  }

  lemma {:induction false} TapOfSrc(sh: Shape, s: nat)
    requires sh.Valid() && s < sh.Count()
    ensures InShape(sh, TapAtSrc(sh, s)) && Src(sh, TapAtSrc(sh, s)) == s
  {
    var a := Row(s, sh.cout);
    var b := Row(a, sh.cin);
    SplitPairs(s, sh.cout);
    SplitPairs(a, sh.cin);
    SplitPairs(b, sh.k);
    SameCount(sh);
    RowBelow(s, sh.cout, Pair(Pair(sh.k, 0, sh.k), 0, sh.cin));
    RowBelow(a, sh.cin, Pair(sh.k, 0, sh.k));
    RowBelow(b, sh.k, sh.k);
  }

  // ----- The permutation -----

  function Oihw(sh: Shape, w: seq<U32>): (v: seq<U32>)
    requires sh.Valid() && |w| == sh.Count()
    ensures |v| == sh.Count()
  {
    seq(sh.Count(), d requires 0 <= d < sh.Count() => At(w, Src(sh, TapAtDst(sh, d))))
  }

  function Hwio(sh: Shape, v: seq<U32>): (w: seq<U32>)
    requires sh.Valid() && |v| == sh.Count()
    ensures |w| == sh.Count()
  {
    seq(sh.Count(), s requires 0 <= s < sh.Count() => At(v, Dst(sh, TapAtSrc(sh, s))))
  }

  function At(w: seq<U32>, i: nat): U32 {
    if i < |w| then w[i] else 0
  }

  /** The reordering loses nothing: it has an inverse on both sides. */
  lemma {:induction false} OihwBijection(sh: Shape, w: seq<U32>)
    requires sh.Valid() && |w| == sh.Count()
    ensures Hwio(sh, Oihw(sh, w)) == w && Oihw(sh, Hwio(sh, w)) == w
  {
    forall i | 0 <= i < sh.Count()
      ensures Hwio(sh, Oihw(sh, w))[i] == w[i] && Oihw(sh, Hwio(sh, w))[i] == w[i]
    {
      TapOfSrc(sh, i);
      DstOfTap(sh, TapAtSrc(sh, i));
      TapOfDst(sh, i);
      SrcOfTap(sh, TapAtDst(sh, i));
    }
  }

  /** Every tap has the same weight before and after. */
  lemma {:induction false} OihwKeepsTaps(sh: Shape, w: seq<U32>, t: Tap)
    requires sh.Valid() && |w| == sh.Count() && InShape(sh, t)
    ensures Src(sh, t) < |w| && Dst(sh, t) < |w| && Oihw(sh, w)[Dst(sh, t)] == w[Src(sh, t)]
    ensures Src(sh, t) == ((t.kh * sh.k + t.kw) * sh.cin + t.ci) * sh.cout + t.co
    ensures Dst(sh, t) == ((t.co * sh.cin + t.ci) * sh.k + t.kh) * sh.k + t.kw
  {
    SrcOfTap(sh, t);
    DstOfTap(sh, t);
  }

  /** The first `s` weights are in place. */
  ghost predicate Placed(sh: Shape, w: seq<U32>, v: seq<U32>, s: nat)
    requires sh.Valid() && |w| == sh.Count() == |v| && s <= |w|
  {
    forall i :: 0 <= i < s ==> At(v, Dst(sh, TapAtSrc(sh, i))) == w[i]
  }

  lemma {:induction false} PlaceNext(sh: Shape, w: seq<U32>, v: seq<U32>, t: Tap)
    requires sh.Valid() && InShape(sh, t) && |w| == sh.Count() == |v|
    requires Src(sh, t) < |w| && Placed(sh, w, v, Src(sh, t))
    ensures Dst(sh, t) < |v| && Placed(sh, w, v[Dst(sh, t) := w[Src(sh, t)]], Src(sh, t) + 1)
  {
    DstOfTap(sh, t);
    SrcOfTap(sh, t);
    var v' := v[Dst(sh, t) := w[Src(sh, t)]];
    forall i | 0 <= i < Src(sh, t) + 1
      ensures At(v', Dst(sh, TapAtSrc(sh, i))) == w[i]
    {
      TapOfSrc(sh, i);
      DstOfTap(sh, TapAtSrc(sh, i));
    }
  }

  lemma {:induction false} AllPlaced(sh: Shape, w: seq<U32>, v: seq<U32>)
    requires sh.Valid() && |w| == sh.Count() == |v| && Placed(sh, w, v, |w|)
    ensures v == Oihw(sh, w)
  {
    forall d | 0 <= d < |v|
      ensures v[d] == Oihw(sh, w)[d]
    {
      TapOfDst(sh, d);
      SrcOfTap(sh, TapAtDst(sh, d));
    }
  }

  lemma {:induction false} RowEnds(a: nat, m: nat)
    ensures Pair(a, m, m) == Pair(a + 1, 0, m)
  {
    Distribute(a, 1, m);
  }

  /** The first place of the HWIO order is 0, and the one after the last is the count. */
  lemma {:induction false} Ends(sh: Shape)
    ensures Pair(Pair(Pair(0, 0, sh.k), 0, sh.cin), 0, sh.cout) == 0
    ensures Pair(Pair(Pair(sh.k, 0, sh.k), 0, sh.cin), 0, sh.cout) == sh.Count()
  {
    SameCount(sh);
  }

  /** The converter's nested loops, over the weights in the order they are stored in. */
  method ToOihw(sh: Shape, w: seq<U32>) returns (out: array<U32>)
    requires sh.Valid() && |w| == sh.Count()
    ensures out[..] == Oihw(sh, w)
  {
    Ends(sh);
    out := new U32[sh.Count()](_ => 0);
    for kh := 0 to sh.k
      invariant Pair(Pair(Pair(kh, 0, sh.k), 0, sh.cin), 0, sh.cout) <= |w|
      invariant Placed(sh, w, out[..], Pair(Pair(Pair(kh, 0, sh.k), 0, sh.cin), 0, sh.cout))
    {
      PlaceKernelRow(sh, w, out, kh);
      RowEnds(kh, sh.k);
    }
    AllPlaced(sh, w, out[..]);
  }

  /** The taps of one row of the kernel. */
  method PlaceKernelRow(sh: Shape, w: seq<U32>, out: array<U32>, kh: nat)
    requires sh.Valid() && |w| == sh.Count() == out.Length && kh < sh.k
    requires Pair(Pair(Pair(kh, 0, sh.k), 0, sh.cin), 0, sh.cout) <= |w|
    requires Placed(sh, w, out[..], Pair(Pair(Pair(kh, 0, sh.k), 0, sh.cin), 0, sh.cout))
    modifies out
    ensures Pair(Pair(Pair(kh, sh.k, sh.k), 0, sh.cin), 0, sh.cout) <= |w|
    ensures Placed(sh, w, out[..], Pair(Pair(Pair(kh, sh.k, sh.k), 0, sh.cin), 0, sh.cout))
  {
    for kw := 0 to sh.k
      invariant Pair(Pair(Pair(kh, kw, sh.k), 0, sh.cin), 0, sh.cout) <= |w|
      invariant Placed(sh, w, out[..], Pair(Pair(Pair(kh, kw, sh.k), 0, sh.cin), 0, sh.cout))
    {
      PlaceTap(sh, w, out, kh, kw);
      RowEnds(Pair(kh, kw, sh.k), sh.cin);
    }
  }

  /** The two inner loops: all channels of one tap of the kernel. */
  method PlaceTap(sh: Shape, w: seq<U32>, out: array<U32>, kh: nat, kw: nat)
    requires sh.Valid() && |w| == sh.Count() == out.Length && kh < sh.k && kw < sh.k
    requires Pair(Pair(Pair(kh, kw, sh.k), 0, sh.cin), 0, sh.cout) <= |w|
    requires Placed(sh, w, out[..], Pair(Pair(Pair(kh, kw, sh.k), 0, sh.cin), 0, sh.cout))
    modifies out
    ensures Pair(Pair(Pair(kh, kw, sh.k), sh.cin, sh.cin), 0, sh.cout) <= |w|
    ensures Placed(sh, w, out[..], Pair(Pair(Pair(kh, kw, sh.k), sh.cin, sh.cin), 0, sh.cout))
  {
    for ci := 0 to sh.cin
      invariant Pair(Pair(Pair(kh, kw, sh.k), ci, sh.cin), 0, sh.cout) <= |w|
      invariant Placed(sh, w, out[..], Pair(Pair(Pair(kh, kw, sh.k), ci, sh.cin), 0, sh.cout))
    {
      PlaceRow(sh, w, out, kh, kw, ci);
      RowEnds(Pair(Pair(kh, kw, sh.k), ci, sh.cin), sh.cout);
    }
  }

  method PlaceRow(sh: Shape, w: seq<U32>, out: array<U32>, kh: nat, kw: nat, ci: nat)
    requires sh.Valid() && |w| == sh.Count() == out.Length && kh < sh.k && kw < sh.k && ci < sh.cin
    requires Src(sh, Tap(0, ci, kh, kw)) <= |w| && Placed(sh, w, out[..], Src(sh, Tap(0, ci, kh, kw)))
    modifies out
    ensures Src(sh, Tap(sh.cout, ci, kh, kw)) <= |w|
    ensures Placed(sh, w, out[..], Src(sh, Tap(sh.cout, ci, kh, kw)))
  {
    var base := ((kh * sh.k + kw) * sh.cin + ci) * sh.cout;
    for co := 0 to sh.cout
      invariant Src(sh, Tap(co, ci, kh, kw)) == base + co <= |w|
      invariant Placed(sh, w, out[..], base + co)
    {
      SrcOfTap(sh, Tap(co, ci, kh, kw));
      PlaceOne(sh, w, out, Tap(co, ci, kh, kw), base + co);
      assert Src(sh, Tap(co + 1, ci, kh, kw)) == Src(sh, Tap(co, ci, kh, kw)) + 1;
    }
  }

  method PlaceOne(sh: Shape, w: seq<U32>, out: array<U32>, t: Tap, src: nat)
    requires sh.Valid() && |w| == sh.Count() == out.Length && InShape(sh, t)
    requires src == Src(sh, t) && src < |w| && Placed(sh, w, out[..], src)
    modifies out
    ensures Placed(sh, w, out[..], src + 1)
  {
    SrcOfTap(sh, t);
    DstOfTap(sh, t);
    PlaceNext(sh, w, out[..], t);
    ghost var before := out[..];
    out[((t.co * sh.cin + t.ci) * sh.k + t.kh) * sh.k + t.kw] := w[src];
    assert out[..] == before[Dst(sh, t) := w[src]];
  }
}
