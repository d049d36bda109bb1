/** The CPU reference of IP10: a walk over every row of a plane, restarted on each row. */
module Ip10Plane {
  import opened VideoFormat
  import opened RowCode
  import opened Ip10Sample
  import opened Rows

  type Word = x: int | 0 <= x < 0x1_0000

  /** `x & 0x3ff`, sample by sample. */
  function Masked(x: seq<Word>): (m: seq<Sample>) {
    seq(|x|, i requires 0 <= i < |x| => x[i] % 1024)
  }

  /** `code` is the coded form of the plane `x`, row by row. */
  ghost predicate EncodedPlane(x: seq<Word>, code: seq<Byte>, w: nat, h: nat, back: nat)
    requires back > 0
  {
    && |x| == |code| == w * h
    && forall r :: 0 <= r < h ==> Row(code, w, h, r) == EncodeRow(IP10, Masked(Row(x, w, h, r)), back)
  }

  /** `x` is the reconstruction of the coded plane `code`, row by row. */
  ghost predicate DecodedPlane(code: seq<Byte>, x: seq<Word>, w: nat, h: nat, back: nat)
    requires back > 0
  {
    && |x| == |code| == w * h
    && forall r :: 0 <= r < h ==> Row(x, w, h, r) == DecodeRow(IP10, Row(code, w, h, r), back)
  }

  lemma {:induction false} ReencodeRow(c: seq<Byte>, x: seq<Word>, back: nat)
    requires back > 0
    requires x == DecodeRow(IP10, c, back)
    ensures EncodeRow(IP10, Masked(x), back) == c
  {
    assert Masked(x) == DecodeRow(IP10, c, back);
    Ip10Retracts();
    RowRetraction(IP10, c, back);
  }

  /** Encoding the decoding of any byte plane returns that plane, at every lane distance. */
  lemma {:induction false} PlaneRetraction(code: seq<Byte>, x: seq<Word>, again: seq<Byte>, w: nat, h: nat, back: nat)
    requires back > 0
    requires DecodedPlane(code, x, w, h, back) && EncodedPlane(x, again, w, h, back)
    ensures again == code
  {
    forall r | 0 <= r < h
      ensures Row(again, w, h, r) == Row(code, w, h, r)
    {
      ReencodeRow(Row(code, w, h, r), Row(x, w, h, r), back);
    }
    RowsDetermine(again, code, w, h);
  }

  /** A second generation of coding loses nothing more. */
  lemma {:induction false} SecondGenerationLossless(
    x: seq<Word>, code: seq<Byte>, x1: seq<Word>, code1: seq<Byte>, x2: seq<Word>, w: nat, h: nat, back: nat)
    requires back > 0
    requires EncodedPlane(x, code, w, h, back) && DecodedPlane(code, x1, w, h, back)
    requires EncodedPlane(x1, code1, w, h, back) && DecodedPlane(code1, x2, w, h, back)
    ensures x2 == x1
  {
    PlaneRetraction(code, x1, code1, w, h, back);
    RowsDetermine(x1, x2, w, h);
  }

  /** Every reconstructed sample of a plane is a 10-bit value within 3 of its source sample. */
  lemma {:induction false} PlaneErrorBound(
    x: seq<Word>, code: seq<Byte>, y: seq<Word>, w: nat, h: nat, back: nat, r: nat, i: nat)
    requires back > 0 && r < h && i < w
    requires EncodedPlane(x, code, w, h, back) && DecodedPlane(code, y, w, h, back)
    ensures var y', x' := Row(y, w, h, r)[i], Row(x, w, h, r)[i] % 1024;
            y' < 1024 && Within(3, y', x')
  {
    var row := Masked(Row(x, w, h, r));
    RowErrorBound(row, back, i);
    var sample: Sample := DecodeRow(IP10, EncodeRow(IP10, row, back), back)[i];
  }

  /** Where the lanes of a row step by at most 58, every sample after a lane's first is exact. */
  lemma {:induction false} SmoothPlaneExact(
    x: seq<Word>, code: seq<Byte>, y: seq<Word>, w: nat, h: nat, back: nat, r: nat, i: nat)
    requires back > 0 && r < h && back <= i < w
    requires EncodedPlane(x, code, w, h, back) && DecodedPlane(code, y, w, h, back)
    requires StepsWithin(Masked(Row(x, w, h, r)), back, 58)
    ensures Row(y, w, h, r)[i] == Row(x, w, h, r)[i] % 1024
  {
    SmoothRowExact(Masked(Row(x, w, h, r)), back, i);
  }

  /** The first sample of every lane of every row is sent as it is, less 448, if it is in 448 to 575. */
  lemma {:induction false} FirstSamplesSent(
    x: seq<Word>, code: seq<Byte>, y: seq<Word>, w: nat, h: nat, back: nat, r: nat, i: nat)
    requires back > 0 && r < h && i < w && i < back
    requires EncodedPlane(x, code, w, h, back) && DecodedPlane(code, y, w, h, back)
    ensures var sample := Row(x, w, h, r)[i] % 1024;
            if 448 <= sample < 576 then Row(code, w, h, r)[i] == sample - 448 && Row(y, w, h, r)[i] == sample
            else Row(code, w, h, r)[i] >= 128
  {
    FirstSampleCode(Masked(Row(x, w, h, r)), back, i);
  }

  /** Changing samples of one lane of one row changes the code of no other lane and no other row. */
  lemma {:induction false} LaneIndependence(
    x: seq<Word>, cx: seq<Byte>, y: seq<Word>, cy: seq<Byte>, w: nat, h: nat, back: nat, r: nat, i: nat)
    requires 1 <= back <= 2 && r < h && i < w
    requires EncodedPlane(x, cx, w, h, back) && EncodedPlane(y, cy, w, h, back)
    requires forall j :: 0 <= j < w && LaneIx(j, back) == LaneIx(i, back) ==> Row(x, w, h, r)[j] == Row(y, w, h, r)[j]
    ensures Row(cx, w, h, r)[i] == Row(cy, w, h, r)[i]
  {
    var mx, my := Masked(Row(x, w, h, r)), Masked(Row(y, w, h, r));
    SameLaneSameTable(IP10, mx, my, back, i);
    assert mx[i] == my[i];
  }

  // ----- The two walks -----

  /** The remembered reconstructions give the table of the next sample of each lane that has started. */
  ghost predicate EncTracks<T, S, C>(code: Code<T, S, C>, x: seq<S>, back: nat, i: nat, last: seq<S>)
    requires 1 <= back <= 2 && i <= |x|
  {
    && |last| == 2
    && (i >= back ==> code.next(last[LaneIx(i, back)]) == EncTable(code, x, back, i))
    && (back == 2 && i >= 1 ==> code.next(last[1 - i % 2]) == EncTable(code, x, 2, i + 1))
  }

  ghost predicate DecTracks<T, S, C>(code: Code<T, S, C>, c: seq<C>, back: nat, i: nat, last: seq<S>)
    requires 1 <= back <= 2 && i <= |c|
  {
    && |last| == 2
    && (i >= back ==> code.next(last[LaneIx(i, back)]) == DecTable(code, c, back, i))
    && (back == 2 && i >= 1 ==> code.next(last[1 - i % 2]) == DecTable(code, c, 2, i + 1))
  }

  lemma {:induction false} EncStep<T, S, C>(
    code: Code<T, S, C>, x: seq<S>, back: nat, i: nat, last: seq<S>, table: T, word: C, recon: S)
    requires 1 <= back <= 2 && i < |x|
    requires EncTracks(code, x, back, i, last)
    requires table == if i < back then code.start else code.next(last[LaneIx(i, back)])
    requires word == code.enc(table, x[i]) && recon == code.dec(table, word)
    ensures word == EncodeRow(code, x, back)[i]
    ensures EncTracks(code, x, back, i + 1, last[LaneIx(i, back) := recon])
  {
    assert table == EncTable(code, x, back, i);
    assert code.next(recon) == EncTable(code, x, back, i + back);
  }

  lemma {:induction false} DecStep<T, S, C>(
    code: Code<T, S, C>, c: seq<C>, back: nat, i: nat, last: seq<S>, table: T, recon: S)
    requires 1 <= back <= 2 && i < |c|
    requires DecTracks(code, c, back, i, last)
    requires table == if i < back then code.start else code.next(last[LaneIx(i, back)])
    requires recon == code.dec(table, c[i])
    ensures recon == DecodeRow(code, c, back)[i]
    ensures DecTracks(code, c, back, i + 1, last[LaneIx(i, back) := recon])
  {
    assert table == DecTable(code, c, back, i);
    assert code.next(recon) == DecTable(code, c, back, i + back);
  }

  method EncodePlane(input: array<Word>, output: array<Byte>, width: nat, height: nat, back: nat)
    requires 1 <= back <= 2
    requires input.Length == output.Length == width * height
    requires input as object != output
    modifies output
    ensures EncodedPlane(input[..], output[..], width, height, back)
  {
    for row := 0 to height
      invariant forall r :: 0 <= r < row ==>
        Row(output[..], width, height, r) == EncodeRow(IP10, Masked(Row(input[..], width, height, r)), back)
    {
      ghost var before := output[..];
      RowEnd(row, height, width);
      EncodeRowAt(IP10, input, output, row * width, width, back, Masked(Row(input[..], width, height, row)));
      forall r | 0 <= r < row
        ensures Row(output[..], width, height, r) == Row(before, width, height, r)
      {
        OtherRows(output[..], before, width, height, row, r);
      }
    }
  }

  /** The inner loop: the row of `width` samples `x` (once masked) that starts at position `at`. */
  method EncodeRowAt(
    c: Code<Table, Sample, Byte>, input: array<Word>, output: array<Byte>, at: nat, width: nat, back: nat,
    ghost x: seq<Sample>)
    requires 1 <= back <= 2
    requires at + width <= input.Length == output.Length
    requires input as object != output
    requires |x| == width && forall i :: 0 <= i < width ==> x[i] == input[at + i] % 1024
    modifies output
    ensures output[at..at + width] == EncodeRow(c, x, back)
    ensures forall p :: 0 <= p < output.Length && !(at <= p < at + width) ==> output[p] == old(output[p])
  {
    var lastRecon: seq<Sample> := [0, 0];
    ghost var row := EncodeRow(c, x, back);
    for i := 0 to width
      invariant EncTracks(c, x, back, i, lastRecon)
      invariant forall p :: 0 <= p < output.Length && !(at <= p < at + width) ==> output[p] == old(output[p])
      invariant |row| == width && output[at..at + i] == row[..i]
    {
      var lane := i % back;
      LaneIxIs(i, back);
      var table := if i < back then c.start else c.next(lastRecon[lane]);
      var sample := input[at + i] % 1024;
      var codeWord := c.enc(table, sample);
      var recon := c.dec(table, codeWord);
      EncStep(c, x, back, i, lastRecon, table, codeWord, recon);
      output[at + i] := codeWord;
      lastRecon := lastRecon[lane := recon];
      assert output[at..at + i + 1] == output[at..at + i] + [row[i]];
      assert row[..i + 1] == row[..i] + [row[i]];
    }
  }

  method DecodePlane(input: array<Byte>, output: array<Word>, width: nat, height: nat, back: nat)
    requires 1 <= back <= 2
    requires input.Length == output.Length == width * height
    requires input as object != output
    modifies output
    ensures DecodedPlane(input[..], output[..], width, height, back)
  {
    for row := 0 to height
      invariant forall r :: 0 <= r < row ==>
        Row(output[..], width, height, r) == DecodeRow(IP10, Row(input[..], width, height, r), back)
    {
      ghost var before := output[..];
      RowEnd(row, height, width);
      DecodeRowAt(IP10, input, output, row * width, width, back);
      forall r | 0 <= r < row
        ensures Row(output[..], width, height, r) == Row(before, width, height, r)
      {
        OtherRows(output[..], before, width, height, row, r);
      }
    }
  }

  /** The inner loop: the row of `width` code words that starts at position `at`. */
  method DecodeRowAt(
    c: Code<Table, Sample, Byte>, input: array<Byte>, output: array<Word>, at: nat, width: nat, back: nat)
    requires 1 <= back <= 2
    requires at + width <= input.Length == output.Length
    requires input as object != output
    modifies output
    ensures output[at..at + width] == DecodeRow(c, input[at..at + width], back)
    ensures forall p :: 0 <= p < output.Length && !(at <= p < at + width) ==> output[p] == old(output[p])
  {
    ghost var codes := input[at..at + width];
    var lastRecon: seq<Sample> := [0, 0];
    ghost var row := DecodeRow(c, codes, back);
    for i := 0 to width
      invariant DecTracks(c, codes, back, i, lastRecon)
      invariant forall p :: 0 <= p < output.Length && !(at <= p < at + width) ==> output[p] == old(output[p])
      invariant |row| == width && output[at..at + i] == row[..i]
    {
      var lane := i % back;
      LaneIxIs(i, back);
      var table := if i < back then c.start else c.next(lastRecon[lane]);
      var recon := c.dec(table, input[at + i]);
      DecStep(c, codes, back, i, lastRecon, table, recon);
      assert recon == row[i];
      output[at + i] := recon;
      lastRecon := lastRecon[lane := recon];
      assert output[at..at + i + 1] == output[at..at + i] + [row[i]];
      assert row[..i + 1] == row[..i] + [row[i]];
    }
  }
}
