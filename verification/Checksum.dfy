/** The Internet checksum of section 1 of RFC 1071: a one's-complement sum of 16-bit words. */
module Checksum {
  import opened VideoFormat
  import opened RtpTime

  const WORD := 0x1_0000
  const ONES := 0xffff

  /** The plain sum of the big-endian words; a last odd byte counts as the high half of a word. */
  function WordSum(d: seq<Byte>): nat {
    if |d| == 0 then 0
    else if |d| == 1 then (d[0] as int) * 256
    else (d[0] as int) * 256 + d[1] + WordSum(d[2..])
  }

  /** Add the carries back in until 16 bits are left. */
  function Fold(x: nat): (r: nat)
    ensures r < WORD
    decreases x
  {
    if x / WORD == 0 then x else Fold(x % WORD + x / WORD)
  }

  /** The checksum as 32-bit arithmetic computes it. */
  function ChecksumOf(d: seq<Byte>): (c: U16) {
    ONES - Fold(WordSum(d) % TWO32)
  }

  method InetChecksum(data: array<Byte>, from: nat, len: nat) returns (c: U16)
    requires from + len <= data.Length
    ensures c == ChecksumOf(data[from..from + len])
  {
    var sum: U32 := AddWords(data, from, len);
    ghost var total := sum;
    while sum / WORD != 0
      invariant Fold(sum) == Fold(total)
      decreases sum
    {
      sum := sum % WORD + sum / WORD;
    }
    c := ONES - sum;
  }

  /** The accumulation loop, in 32 bits. */
  method AddWords(data: array<Byte>, from: nat, len: nat) returns (sum: U32)
    requires from + len <= data.Length
    ensures sum == WordSum(data[from..from + len]) % TWO32
  {
    ghost var d, total: nat := data[from..from + len], 0;
    var i: nat := 0;
    sum := 0;
    while i + 1 < len
      invariant i <= len && i % 2 == 0
      invariant sum == total % TWO32 && total + WordSum(d[i..]) == WordSum(d)
    {
      assert d[i..][2..] == d[i + 2..];
      var word: nat := (data[from + i] as int) * 256 + data[from + i + 1];
      AddCarry(sum, word, total);
      sum, total := (sum + word) % TWO32, total + word;
      i := i + 2;
    }
    if len % 2 == 1 {
      assert d[i..] == [data[from + len - 1]];
      var word: nat := (data[from + len - 1] as int) * 256;
      AddCarry(sum, word, total);
      sum, total := (sum + word) % TWO32, total + word;
    } else {
      assert d[i..] == [];
    }
    assert total == WordSum(d);
  }

  lemma {:induction false} AddCarry(sum: U32, word: nat, total: nat)
    requires sum == total % TWO32
    ensures (sum + word) % TWO32 == (total + word) % TWO32
  {
  }

  // ----- What the checksum is -----

  /** Folding keeps the value modulo 65535, and never makes a zero out of anything else. */
  lemma {:induction false} FoldMeans(x: nat)
    ensures Fold(x) % ONES == x % ONES && (Fold(x) == 0 <==> x == 0)
    decreases x
  {
    if x / WORD != 0 {
      FoldMeans(x % WORD + x / WORD);
      EndAround(x % WORD, x / WORD);
    }
  }

  lemma {:induction false} EndAround(low: nat, high: nat)
    ensures (low + high) % ONES == (high * WORD + low) % ONES
  {
    assert high * WORD + low == high * ONES + (low + high);
  }

  /** The sum is that of the parts, two octets to a word, high octet first. */
  lemma {:induction false} SumAppend(a: seq<Byte>, b: seq<Byte>)
    requires |a| % 2 == 0
    ensures WordSum(a + b) == WordSum(a) + WordSum(b)
    ensures |b| == 2 ==> WordSum(b) == 256 * (b[0] as int) + b[1]
  {
    if a == [] {
      assert a + b == b;
    } else {
      SumAppend(a[2..], b);
      assert (a + b)[2..] == a[2..] + b;
    }
    if |b| == 2 {
      assert b[2..] == [];
    }
  }

  /** A last odd octet counts as if a zero octet followed it. */
  lemma {:induction false} OddPads(d: seq<Byte>)
    requires |d| % 2 == 1
    ensures ChecksumOf(d) == ChecksumOf(d + [0])
  {
    var n := |d| - 1;
    assert d == d[..n] + [d[n]] && d + [0] == d[..n] + [d[n], 0];
    SumAppend(d[..n], [d[n]]);
    SumAppend(d[..n], [d[n], 0]);
  }

  lemma {:induction false} WordSumBound(d: seq<Byte>)
    ensures WordSum(d) <= (|d| + 1) / 2 * ONES
  {
    if |d| > 1 {
      WordSumBound(d[2..]);
    }
  }

  /** Short enough for the 32-bit sum not to wrap: 131074 octets. */
  predicate Short(d: seq<Byte>) {
    |d| <= 131_074
  }

  lemma {:induction false} SumFits(d: seq<Byte>)
    requires Short(d)
    ensures WordSum(d) < TWO32
  {
    WordSumBound(d);
  }

  /** A buffer verifies exactly when its words sum to a positive multiple of 65535. */
  lemma {:induction false} VerifiesExactlyWhen(d: seq<Byte>)
    requires Short(d)
    ensures ChecksumOf(d) == 0 <==> WordSum(d) > 0 && WordSum(d) % ONES == 0
  {
    SumFits(d);
    FoldMeans(WordSum(d));
    AllOnes(Fold(WordSum(d)), WordSum(d));
  }

  lemma {:induction false} AllOnes(f: nat, s: nat)
    requires f < WORD && f % ONES == s % ONES && (f == 0 <==> s == 0)
    ensures f == ONES <==> s > 0 && s % ONES == 0
  {
  }

  // ----- A field that holds the checksum -----

  function FieldAt(d: seq<Byte>, p: nat): U16
    requires p + 2 <= |d|
  {
    (d[p] as int) * 256 + d[p + 1]
  }

  function WithField(d: seq<Byte>, p: nat, v: U16): (r: seq<Byte>)
    requires p + 2 <= |d|
    ensures |r| == |d| && FieldAt(r, p) == v
  {
    d[p := v / 256][p + 1 := v % 256]
  }

  /** Changing an aligned word changes the sum by as much. */
  lemma {:induction false} SumWithField(d: seq<Byte>, p: nat, v: U16)
    requires p % 2 == 0 && p + 2 <= |d|
    ensures WordSum(WithField(d, p, v)) == WordSum(d) - FieldAt(d, p) + v
  {
    var e := WithField(d, p, v);
    if p == 0 {
      assert e[2..] == d[2..];
    } else {
      SumWithField(d[2..], p - 2, v);
      assert e[2..] == WithField(d[2..], p - 2, v);
    }
  }

  /** Store the checksum in a field that was zero, and the buffer verifies. */
  lemma {:induction false} SelfVerifies(d: seq<Byte>, p: nat)
    requires Short(d) && p % 2 == 0 && p + 2 <= |d| && FieldAt(d, p) == 0
    ensures ChecksumOf(WithField(d, p, ChecksumOf(d))) == 0
  {
    SumWithField(d, p, ChecksumOf(d));
    ChecksumCompletes(d);
    VerifiesExactlyWhen(WithField(d, p, ChecksumOf(d)));
  }

  /** The checksum makes the sum a positive multiple of 65535. */
  lemma {:induction false} ChecksumCompletes(d: seq<Byte>)
    requires Short(d)
    ensures WordSum(d) + ChecksumOf(d) > 0 && (WordSum(d) + ChecksumOf(d)) % ONES == 0
  {
    SumFits(d);
    FoldMeans(WordSum(d));
    Complement(WordSum(d), Fold(WordSum(d)));
  }

  lemma {:induction false} Complement(s: nat, f: nat)
    requires f <= ONES && f % ONES == s % ONES && (f == 0 <==> s == 0)
    ensures s + (ONES - f) > 0 && (s + (ONES - f)) % ONES == 0
  {
  }

  /** In a buffer that verifies, a change of one aligned word is noticed unless it swaps the two zeros. */
  lemma {:induction false} DetectsChangedWord(d: seq<Byte>, p: nat, v: U16)
    requires Short(d) && p % 2 == 0 && p + 2 <= |d| && ChecksumOf(d) == 0
    requires v != FieldAt(d, p) && !(v in {0, ONES} && FieldAt(d, p) in {0, ONES})
    ensures ChecksumOf(WithField(d, p, v)) != 0
  {
    SumWithField(d, p, v);
    VerifiesExactlyWhen(d);
    VerifiesExactlyWhen(WithField(d, p, v));
    OtherResidue(WordSum(d), FieldAt(d, p), v);
  }

  lemma {:induction false} OtherResidue(s: nat, was: U16, v: U16)
    requires s % ONES == 0 && s >= was && v != was && !(v in {0, ONES} && was in {0, ONES})
    ensures (s - was + v) % ONES != 0
  {
    var q := s / ONES;
    assert s - was + v == q * ONES + (v - was);
  }
}
