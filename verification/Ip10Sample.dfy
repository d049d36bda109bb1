/** The Blackmagic IP10 (10:8) code: its constants, its per-sample arithmetic and what it does to a lane. */
module Ip10Sample {
  import opened VideoFormat
  import opened RowCode

  type Sample = x: int | 0 <= x < 1024
  type Table = t: int | 0 <= t <= 128

  datatype Cfg = Cfg(
    lossyCodeWidth: int, lossyRounding: int, losslessCodes: int, lossyCodes: int, codeTables: int,
    defaultTable: int, lowestTableThresh: int, highestTableThresh: int, lossyFlag: int)

  function Shl(n: nat): (r: nat)
    ensures r > 0
  {
    if n == 0 then 1 else 2 * Shl(n - 1)
  }

  function MakeCfg(sampleBits: nat, codedBits: nat): Cfg
    requires codedBits <= sampleBits
  {
    var sampleStates, codedStates := Shl(sampleBits), Shl(codedBits);
    var width := Shl(sampleBits - codedBits + 1) - 1;
    Cfg(width, width / 2, codedStates / 2, codedStates / 2, 1 + codedStates / 2,
        (1 + codedStates / 2) / 2, codedStates / 2 / 2, sampleStates - codedStates / 2 / 2,
        codedStates / 2)
  }

  /** The one flavour that is transmitted, 10 bits coded in 8. */
  const CFG := Cfg(7, 3, 128, 128, 129, 64, 64, 960, 128)

  lemma {:induction false} CfgIsTenToEight()
    ensures MakeCfg(10, 8) == CFG
  {
    assert Shl(3) == 8;
    assert Shl(8) == 32 * Shl(3);
    assert Shl(10) == 4 * Shl(8);
  }

  function NextTable(sample: Sample): Table {
    if sample < CFG.lowestTableThresh then 0
    else if sample >= CFG.highestTableThresh then CFG.lossyCodes
    else (sample - CFG.lowestTableThresh + CFG.lossyRounding) / CFG.lossyCodeWidth
  }

  /** `flag | i` for the single-bit flag 0x80. */
  function WithFlag(i: nat): nat {
    if HasFlag(i) then i else i + CFG.lossyFlag
  }

  predicate HasFlag(code: nat) {
    code / CFG.lossyFlag % 2 == 1
  }

  function EncodeSample(table: Table, sample: Sample): (code: Byte) {
    var low := table * CFG.lossyCodeWidth;
    var high := low + CFG.losslessCodes;
    if low <= sample < high then sample - low
    else if sample < low then WithFlag(sample / CFG.lossyCodeWidth)
    else WithFlag((sample - high) / CFG.lossyCodeWidth + table)
  }

  function DecodeSample(table: Table, code: Byte): (sample: Sample) {
    var index := if HasFlag(code) then code - CFG.lossyFlag else code;
    if HasFlag(code) then
      if index < table then index * CFG.lossyCodeWidth + CFG.lossyRounding
      else index * CFG.lossyCodeWidth + CFG.lossyRounding + CFG.losslessCodes
    else table * CFG.lossyCodeWidth + index
  }

  lemma {:induction false} SampleRetraction(table: Table, code: Byte)
    ensures EncodeSample(table, DecodeSample(table, code)) == code
  {
  }

  predicate Within(d: int, a: int, b: int) {
    -d <= a - b <= d
  }

  lemma {:induction false} SampleErrorBound(table: Table, sample: Sample)
    ensures Within(3, DecodeSample(table, EncodeSample(table, sample)), sample)
  {
  }

  /** A sample within 60 of the previous reconstruction falls in the next lossless window. */
  lemma {:induction false} NearSampleExact(previous: Sample, sample: Sample)
    requires Within(60, sample, previous)
    ensures DecodeSample(NextTable(previous), EncodeSample(NextTable(previous), sample)) == sample
  {
  }

  const DEFAULT_TABLE: Table := CFG.defaultTable

  /** The lane code of IP10: every lane starts from the middle table. */
  const IP10: Code<Table, Sample, Byte> := Code(DEFAULT_TABLE, EncodeSample, DecodeSample, NextTable)

  lemma {:induction false} Ip10Retracts()
    ensures Retracts(IP10)
  {
    forall table: Table, code: Byte
      ensures IP10.enc(table, IP10.dec(table, code)) == code
    {
      SampleRetraction(table, code);
    }
  }

  /** Every reconstructed sample of a row is within 3 of its source. */
  lemma {:induction false} RowErrorBound(x: seq<Sample>, back: nat, i: nat)
    requires back > 0 && i < |x|
    ensures Within(3, DecodeRow(IP10, EncodeRow(IP10, x, back), back)[i], x[i])
  {
    Reconstruction(IP10, x, back, i);
    SampleErrorBound(EncTable(IP10, x, back, i), x[i]);
  }

  /** Consecutive samples of the same lane differ by at most `d`. */
  ghost predicate StepsWithin(x: seq<Sample>, back: nat, d: nat) {
    forall i :: 0 <= i < |x| - back ==> Within(d, x[i + back], x[i])
  }

  /** Where lanes step by at most 58, every sample after the first of its lane is reconstructed exactly. */
  lemma {:induction false} SmoothRowExact(x: seq<Sample>, back: nat, i: nat)
    requires back > 0 && StepsWithin(x, back, 58)
    requires back <= i < |x|
    ensures DecodeRow(IP10, EncodeRow(IP10, x, back), back)[i] == x[i]
  {
    var near := (a: Sample, b: Sample) => Within(58, b, a);
    forall t: Table, a: Sample, b: Sample |
      near(a, b) && (t == IP10.start || IP10.dec(t, IP10.enc(t, a)) == a)
      ensures var n := IP10.next(IP10.dec(t, IP10.enc(t, a)));
              IP10.dec(n, IP10.enc(n, b)) == b
    {
      if t == IP10.start {
        SmoothStart(a, b);
      } else {
        NearSampleExact(a, b);
      }
    }
    NearRowExact(IP10, near, x, back, i);
  }

  /** From the first sample of a lane, which may be off by 3, to its second. */
  lemma {:induction false} SmoothStart(first: Sample, second: Sample)
    requires Within(58, second, first)
    ensures var r := DecodeSample(DEFAULT_TABLE, EncodeSample(DEFAULT_TABLE, first));
            DecodeSample(NextTable(r), EncodeSample(NextTable(r), second)) == second
  {
    var r := DecodeSample(DEFAULT_TABLE, EncodeSample(DEFAULT_TABLE, first));
    var low := NextTable(r) * CFG.lossyCodeWidth;
    assert low <= second < low + CFG.losslessCodes;
  }

  /** 58 is the largest such step: a row that steps by 59 loses its second sample. */
  lemma {:induction false} SmoothStepIsTight()
    ensures var x: seq<Sample> := [90, 149];
            StepsWithin(x, 1, 59) && DecodeRow(IP10, EncodeRow(IP10, x, 1), 1)[1] != x[1]
  {
    var x: seq<Sample> := [90, 149];
    Reconstruction(IP10, x, 1, 1);
    Reconstruction(IP10, x, 1, 0);
    assert EncodeSample(64, 90) == 140 && DecodeSample(64, 140) == 87;
  }

  // ----- The code words -----

  /** What a code word stands for: an offset into the table's window of 128, or a step of 7 below or above it. */
  lemma {:induction false} CodeWordMeans(table: Table, code: Byte)
    ensures DecodeSample(table, code)
         == if code < 128 then 7 * table + code
            else if code - 128 < table then 7 * (code - 128) + 3
            else 7 * (code - 128) + 131
  {
  }

  /** A sample in the window is coded by its place in it, and only such a sample has a code word below 128. */
  lemma {:induction false} WindowIsLossless(table: Table, sample: Sample)
    ensures EncodeSample(table, sample) < 128 <==> 7 * table <= sample < 7 * table + 128
    ensures EncodeSample(table, sample) < 128 ==> EncodeSample(table, sample) == sample - 7 * table
  {
  }

  /** The next window is the one that has the sample nearest to its place 64, and the first or last at the ends. */
  lemma {:induction false} WindowFollows(sample: Sample, other: Table)
    ensures sample < 64 ==> NextTable(sample) == 0
    ensures sample >= 960 ==> NextTable(sample) == 128
    ensures 64 <= sample < 960 ==> Within(3, sample - 7 * NextTable(sample), 64)
    ensures 64 <= sample < 960 && other != NextTable(sample) ==> !Within(3, sample - 7 * other, 64)
  {
  }

  /**
   The first sample of every lane is coded in the middle window, 448 to 575: in it the sample itself is sent, less
   448, and comes back exactly; out of it the code word has its top bit set.
   */
  lemma {:induction false} FirstSampleCode(x: seq<Sample>, back: nat, i: nat)
    requires back > 0 && i < |x| && i < back
    ensures 448 <= x[i] < 576 ==>
              EncodeRow(IP10, x, back)[i] == x[i] - 448
              && DecodeRow(IP10, EncodeRow(IP10, x, back), back)[i] == x[i]
    ensures !(448 <= x[i] < 576) ==> EncodeRow(IP10, x, back)[i] >= 128
  {
    Reconstruction(IP10, x, back, i);
    assert EncTable(IP10, x, back, i) == IP10.start == 64;
    assert EncodeRow(IP10, x, back)[i] == EncodeSample(64, x[i]);
    WindowIsLossless(64, x[i]);
  }

  /** A later sample is coded in the window that follows the reconstruction of the one before it in its lane. */
  lemma {:induction false} LaterSampleCode(x: seq<Sample>, back: nat, i: nat)
    requires 0 < back <= i < |x|
    ensures var before := DecodeRow(IP10, EncodeRow(IP10, x, back), back)[i - back];
            EncodeRow(IP10, x, back)[i] == EncodeSample(NextTable(before), x[i])
  {
    Reconstruction(IP10, x, back, i - back);
  }
}
