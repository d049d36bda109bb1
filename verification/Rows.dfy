/** The rows of a raster stored as one sequence. */
module Rows {
  import opened Arithmetic

  lemma {:induction false} RowEnd(r: nat, h: nat, w: nat)
    requires r < h
    ensures r * w + w == (r + 1) * w <= h * w
  {
    MulMono(r + 1, h, w);
  }

  /** Row `r` of a raster of `h` rows, each `w` wide. */
  function Row<T>(x: seq<T>, w: nat, h: nat, r: nat): (row: seq<T>)
    requires |x| == w * h && r < h
    ensures |row| == w
  {
    RowEnd(r, h, w);
    x[r * w..r * w + w]
  }

  lemma {:induction false} RowAt<T>(x: seq<T>, w: nat, h: nat, r: nat, i: nat)
    requires |x| == w * h && r < h && i < w
    ensures r * w + i < |x| && Row(x, w, h, r)[i] == x[r * w + i]
  {
    RowEnd(r, h, w);
  }

  /** Every position of a raster lies in one row. */
  lemma {:induction false} RowOf(p: nat, w: nat, h: nat) returns (r: nat, i: nat)
    requires p < w * h
    ensures r < h && i < w && p == r * w + i
  {
    r, i := p / w, p % w;
    if r >= h {
      MulMono(h, r, w);
    }
  }

  /** A raster is determined by its rows. */
  lemma {:induction false} RowsDetermine<T>(x: seq<T>, y: seq<T>, w: nat, h: nat)
    requires |x| == |y| == w * h
    requires forall r :: 0 <= r < h ==> Row(x, w, h, r) == Row(y, w, h, r)
    ensures x == y
  {
    forall p | 0 <= p < |x|
      ensures x[p] == y[p]
    {
      var r, i := RowOf(p, w, h);
      RowAt(x, w, h, r, i);
      RowAt(y, w, h, r, i);
    }
  }

  /** Two positions in different rows differ. */
  lemma {:induction false} RowsDisjoint(w: nat, r: nat, i: nat, s: nat, j: nat)
    requires i < w && j < w && r * w + i == s * w + j
    ensures r == s && i == j
  {
    if r < s {
      MulMono(r + 1, s, w);
    } else if s < r {
      MulMono(s + 1, r, w);
    }
  }

  /** Writing inside one row leaves every other row alone. */
  lemma {:induction false} OtherRows<T>(x: seq<T>, y: seq<T>, w: nat, h: nat, r: nat, s: nat)
    requires |x| == |y| == w * h && r < h && s < h && r != s
    requires forall p :: 0 <= p < |x| && !(r * w <= p < r * w + w) ==> x[p] == y[p]
    ensures Row(x, w, h, s) == Row(y, w, h, s)
  {
    forall i | 0 <= i < w
      ensures Row(x, w, h, s)[i] == Row(y, w, h, s)[i]
    {
      RowAt(x, w, h, s, i);
      RowAt(y, w, h, s, i);
      if r * w <= s * w + i < r * w + w {
        RowsDisjoint(w, r, s * w + i - r * w, s, i);
      }
    }
  }
}
