/**
 A context-adaptive code on a row of samples cut in `back` interleaved lanes.

 Each sample is coded under a table; the table of the next sample of its lane, `back` places on, is chosen
 from the reconstruction of this one, which the decoder knows as well, so the two sides need no side
 channel to agree on it.
 */
module RowCode {

  datatype Code<!T, !S, !C> = Code(start: T, enc: (T, S) -> C, dec: (T, C) -> S, next: S -> T)

  /** The table in force at sample `i` when the encoder walks row `x`. */
  function EncTable<T, S, C>(code: Code<T, S, C>, x: seq<S>, back: nat, i: nat): T
    requires back > 0 && i < |x| + back
  {
    if i < back then code.start
    else
      var t := EncTable(code, x, back, i - back);
      code.next(code.dec(t, code.enc(t, x[i - back])))
  }

  /** The table in force at code word `i` when the decoder walks row `c`. */
  function DecTable<T, S, C>(code: Code<T, S, C>, c: seq<C>, back: nat, i: nat): T
    requires back > 0 && i < |c| + back
  {
    if i < back then code.start else code.next(code.dec(DecTable(code, c, back, i - back), c[i - back]))
  }

  function EncodeRow<T, S, C>(code: Code<T, S, C>, x: seq<S>, back: nat): (c: seq<C>)
    requires back > 0
  {
    seq(|x|, i requires 0 <= i < |x| => code.enc(EncTable(code, x, back, i), x[i]))
  }

  function DecodeRow<T, S, C>(code: Code<T, S, C>, c: seq<C>, back: nat): (x: seq<S>)
    requires back > 0
  {
    seq(|c|, i requires 0 <= i < |c| => code.dec(DecTable(code, c, back, i), c[i]))
  }

  /** Encoding undoes decoding, table by table. */
  ghost predicate Retracts<T(!new), S, C(!new)>(code: Code<T, S, C>) {
    forall t, c :: code.enc(t, code.dec(t, c)) == c
  }

  /** Encoder and decoder are under the same table at every sample. */
  lemma {:induction false} Lockstep<T, S, C>(code: Code<T, S, C>, x: seq<S>, back: nat, i: nat)
    requires back > 0 && i < |x| + back
    ensures DecTable(code, EncodeRow(code, x, back), back, i) == EncTable(code, x, back, i)
  {
    if i >= back {
      Lockstep(code, x, back, i - back);
    }
  }

  /** What the decoder reconstructs for sample `i`, and the table that this leaves to its lane. */
  lemma {:induction false} Reconstruction<T, S, C>(code: Code<T, S, C>, x: seq<S>, back: nat, i: nat)
    requires back > 0 && i < |x|
    ensures var t := EncTable(code, x, back, i);
            var r := DecodeRow(code, EncodeRow(code, x, back), back)[i];
            r == code.dec(t, code.enc(t, x[i])) && EncTable(code, x, back, i + back) == code.next(r)
  {
    Lockstep(code, x, back, i);
  }

  /** After a lane's first sample, or one reconstructed exactly, a sample `near` it is reconstructed exactly. */
  ghost predicate Follows<T(!new), S(!new), C>(code: Code<T, S, C>, near: (S, S) -> bool) {
    forall t, a, b :: near(a, b) && (t == code.start || code.dec(t, code.enc(t, a)) == a) ==>
      var n := code.next(code.dec(t, code.enc(t, a)));
      code.dec(n, code.enc(n, b)) == b
  }

  /** In a row whose lanes move only to near samples, every sample after its lane's first is exact. */
  lemma {:induction false} NearRowExact<T(!new), S(!new), C>(
    code: Code<T, S, C>, near: (S, S) -> bool, x: seq<S>, back: nat, i: nat)
    requires Follows(code, near)
    requires back > 0 && back <= i < |x|
    requires forall j :: 0 <= j < |x| - back ==> near(x[j], x[j + back])
    ensures DecodeRow(code, EncodeRow(code, x, back), back)[i] == x[i]
  {
    Reconstruction(code, x, back, i);
    Reconstruction(code, x, back, i - back);
    if i - back >= back {
      NearRowExact(code, near, x, back, i - back);
    }
    assert near(x[i - back], x[i - back + back]);
  }

  lemma {:induction false} ReencodeTable<T(!new), S, C(!new)>(code: Code<T, S, C>, c: seq<C>, back: nat, i: nat)
    requires Retracts(code)
    requires back > 0 && i < |c| + back
    ensures EncTable(code, DecodeRow(code, c, back), back, i) == DecTable(code, c, back, i)
  {
    if i >= back {
      ReencodeTable(code, c, back, i - back);
    }
  }

  /** Any row of code words survives decoding followed by encoding. */
  lemma {:induction false} RowRetraction<T(!new), S, C(!new)>(code: Code<T, S, C>, c: seq<C>, back: nat)
    requires Retracts(code)
    requires back > 0
    ensures EncodeRow(code, DecodeRow(code, c, back), back) == c
  {
    forall i | 0 <= i < |c|
      ensures EncodeRow(code, DecodeRow(code, c, back), back)[i] == c[i]
    {
      ReencodeTable(code, c, back, i);
    }
  }

  /** The lane of position `i`: `i % back`. */
  function LaneIx(i: nat, back: nat): nat
    requires 1 <= back <= 2
  {
    if back == 1 then 0 else i % 2
  }

  lemma {:induction false} LaneIxIs(i: nat, back: nat)
    requires 1 <= back <= 2
    ensures LaneIx(i, back) == i % back
  {
  }

  /** A table depends on the earlier samples of its own lane only. */
  lemma {:induction false} SameLaneSameTable<T, S, C>(code: Code<T, S, C>, x: seq<S>, y: seq<S>, back: nat, i: nat)
    requires 1 <= back <= 2 && i < |x| == |y|
    requires forall j :: 0 <= j < i && LaneIx(j, back) == LaneIx(i, back) ==> x[j] == y[j]
    ensures EncTable(code, x, back, i) == EncTable(code, y, back, i)
  {
    if i >= back {
      SameLaneSameTable(code, x, y, back, i - back);
    }
  }

  /** Every second sample of a row, from sample `l` on: one of the two lanes of a 2-back row. */
  function Lane<T>(x: seq<T>, l: nat): (lane: seq<T>)
    requires l < 2
    ensures |lane| == (|x| - l + 1) / 2
  {
    seq((|x| - l + 1) / 2, k requires 0 <= k < (|x| - l + 1) / 2 => x[2 * k + l])
  }

  /** A 2-back row is two independent 1-back rows. */
  lemma {:induction false} LaneTable<T, S, C>(code: Code<T, S, C>, x: seq<S>, l: nat, k: nat)
    requires l < 2 && k < |Lane(x, l)|
    ensures EncTable(code, x, 2, 2 * k + l) == EncTable(code, Lane(x, l), 1, k)
  {
    if k > 0 {
      LaneTable(code, x, l, k - 1);
      assert Lane(x, l)[k - 1] == x[2 * (k - 1) + l];
    }
  }

  lemma {:induction false} LaneDecTable<T, S, C>(code: Code<T, S, C>, c: seq<C>, l: nat, k: nat)
    requires l < 2 && k < |Lane(c, l)|
    ensures DecTable(code, c, 2, 2 * k + l) == DecTable(code, Lane(c, l), 1, k)
  {
    if k > 0 {
      LaneDecTable(code, c, l, k - 1);
      assert Lane(c, l)[k - 1] == c[2 * (k - 1) + l];
    }
  }

  lemma {:induction false} LaneOfEncoded<T, S, C>(code: Code<T, S, C>, x: seq<S>, l: nat)
    requires l < 2
    ensures Lane(EncodeRow(code, x, 2), l) == EncodeRow(code, Lane(x, l), 1)
  {
    forall k | 0 <= k < |Lane(x, l)|
      ensures EncodeRow(code, x, 2)[2 * k + l] == EncodeRow(code, Lane(x, l), 1)[k]
    {
      LaneTable(code, x, l, k);
    }
  }

  lemma {:induction false} LaneOfDecoded<T, S, C>(code: Code<T, S, C>, c: seq<C>, l: nat)
    requires l < 2
    ensures Lane(DecodeRow(code, c, 2), l) == DecodeRow(code, Lane(c, l), 1)
  {
    forall k | 0 <= k < |Lane(c, l)|
      ensures DecodeRow(code, c, 2)[2 * k + l] == DecodeRow(code, Lane(c, l), 1)[k]
    {
      LaneDecTable(code, c, l, k);
    }
  }
}
