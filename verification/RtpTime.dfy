/** RTP timestamps and absolute time: the ST 2110-10 clock model, in ticks and nanoseconds. */
module RtpTime {
  import opened Arithmetic

  const TWO32 := 0x1_0000_0000
  const TWO31 := 0x8000_0000
  const TWO64 := 0x1_0000_0000_0000_0000
  const NS_PER_SEC := 1_000_000_000

  type U32 = x: int | 0 <= x < TWO32
  type U64 = x: int | 0 <= x < TWO64

  /** A 32-bit and a 64-bit value read back as a signed one. */
  function Signed32(x: U32): int {
    if x < TWO31 then x else x - TWO32
  }

  function Signed64(x: U64): int {
    if x < TWO64 / 2 then x else x - TWO64
  }

  /** Media-clock ticks since the epoch at `ns`, kept to 64 bits. */
  function TicksAbs(ns: U64, rate: nat): U64 {
    Ticks(ns, rate) % TWO64
  }

  function Ticks(ns: nat, rate: nat): nat {
    ns * rate / NS_PER_SEC
  }

  function TickNs(ticks: nat, rate: nat): nat
    requires rate > 0
  {
    ticks * NS_PER_SEC / rate
  }

  /** The tick with stamp `ts` in the 2^32 ticks around the reference. */
  function UnwrapTick(ts: U32, nearTicks: U64): U64 {
    var back := Signed32((nearTicks % TWO32 - ts) % TWO32);
    (nearTicks - back) % TWO64
  }

  /** The instant that stamp `ts` refers to, given a reference on the sender's clock. */
  function UnwrapNs(ts: U32, rate: nat, near: U64): U64
    requires rate > 0
  {
    TickNs(UnwrapTick(ts, TicksAbs(near, rate)), rate) % TWO64
  }

  /** What to add to `ts` to move it onto the reference instant. */
  function RestampDelta(ts: U32, rate: nat, ref: U64): U32 {
    (TicksAbs(ref, rate) % TWO32 - ts) % TWO32
  }

  /** The 90 kHz stamp, computed in two parts that fit in 64 bits. */
  function Timestamp90k(ns: U64): U32 {
    (ns / NS_PER_SEC * 90000 + ns % NS_PER_SEC * 90000 / NS_PER_SEC) % TWO32
  }

  // ----- The properties of the clock -----

  /** A rate of at most one tick per nanosecond keeps every product within 64 bits. */
  lemma {:induction false} TicksFit(ns: U64, rate: nat)
    requires 0 < rate <= NS_PER_SEC
    ensures Ticks(ns, rate) <= ns && TicksAbs(ns, rate) == Ticks(ns, rate)
  {
    MulMono(rate, NS_PER_SEC, ns);
    QuotientMono(ns * rate, ns * NS_PER_SEC, NS_PER_SEC);
    QuotientIs(ns * NS_PER_SEC, NS_PER_SEC, ns);
  }

  /** The instant of the tick that holds `t` is at most one tick and 1 ns before `t`, never after it. */
  lemma {:induction false} TickInstant(t: nat, rate: nat)
    requires 0 < rate <= NS_PER_SEC
    ensures TickNs(Ticks(t, rate), rate) <= t
    ensures (t - TickNs(Ticks(t, rate), rate)) * rate < NS_PER_SEC + rate
  {
    var k := Ticks(t, rate);
    QuotientBounds(t * rate, NS_PER_SEC);
    QuotientBounds(k * NS_PER_SEC, rate);
    var n := TickNs(k, rate);
    if n > t {
      MulMono(t + 1, n, rate);
    }
  }

  /** Later ticks are strictly later instants. */
  lemma {:induction false} TickNsStrict(k: nat, m: nat, rate: nat)
    requires 0 < rate <= NS_PER_SEC && k < m
    ensures TickNs(k, rate) < TickNs(m, rate)
  {
    QuotientBounds(k * NS_PER_SEC, rate);
    QuotientBounds(m * NS_PER_SEC, rate);
    if TickNs(m, rate) <= TickNs(k, rate) {
      MulMono(TickNs(m, rate), TickNs(k, rate), rate);
    }
  }

  /**
   Unwrapping recovers the tick of a capture at `t` from its 32-bit stamp whenever the reference and the
   capture are less than 2^31 ticks apart, on either side and across any number of 32-bit wraps.
   */
  lemma {:induction false} UnwrapRecovers(t: U64, near: U64, rate: nat)
    requires 0 < rate <= NS_PER_SEC
    requires -TWO31 <= Ticks(near, rate) - Ticks(t, rate) < TWO31
    ensures UnwrapNs(Ticks(t, rate) % TWO32, rate, near) == TickNs(Ticks(t, rate), rate) <= t
    ensures (t - UnwrapNs(Ticks(t, rate) % TWO32, rate, near)) * rate < NS_PER_SEC + rate
  {
    TicksFit(t, rate);
    TicksFit(near, rate);
    TickInstant(t, rate);
    UnwrapBack(Ticks(near, rate), Ticks(t, rate));
  }

  lemma {:induction false} UnwrapBack(near: nat, k: nat)
    requires -TWO31 <= near - k < TWO31
    requires near < TWO64 && k < TWO64
    ensures UnwrapTick(k % TWO32, near) == k
  {
    BackIs(near, k);
  }

  lemma {:induction false} BackIs(near: nat, k: nat)
    requires -TWO31 <= near - k < TWO31
    ensures Signed32((near % TWO32 - k % TWO32) % TWO32) == near - k
  {
    var a, b, m := near % TWO32, k % TWO32, near / TWO32 - k / TWO32;
    assert near - k == m * TWO32 + (a - b) && -1 <= m <= 1;
  }

  /** Captures in different ticks unwrap to different instants, in the same order. */
  lemma {:induction false} UnwrapStrictlyMonotone(t: U64, near: U64, t': U64, near': U64, rate: nat)
    requires 0 < rate <= NS_PER_SEC
    requires -TWO31 <= Ticks(near, rate) - Ticks(t, rate) < TWO31
    requires -TWO31 <= Ticks(near', rate) - Ticks(t', rate) < TWO31
    requires Ticks(t, rate) < Ticks(t', rate)
    ensures UnwrapNs(Ticks(t, rate) % TWO32, rate, near) < UnwrapNs(Ticks(t', rate) % TWO32, rate, near')
  {
    UnwrapRecovers(t, near, rate);
    UnwrapRecovers(t', near', rate);
    TickNsStrict(Ticks(t, rate), Ticks(t', rate), rate);
  }

  /** The two-part stamp is the 128-bit one, modulo 2^32. */
  lemma {:induction false} SplitStampExact(ns: U64)
    ensures Timestamp90k(ns) == Ticks(ns, 90000) % TWO32
  {
    var s, f := ns / NS_PER_SEC, ns % NS_PER_SEC;
    assert ns * 90000 == s * 90000 * NS_PER_SEC + f * 90000;
  }

  /** A restamped packet unwraps to the tick that holds the reference instant. */
  lemma {:induction false} RestampLandsOnReference(ts: U32, rate: nat, ref: U64)
    requires 0 < rate <= NS_PER_SEC
    ensures UnwrapNs((ts + RestampDelta(ts, rate, ref)) % TWO32, rate, ref) == TickNs(Ticks(ref, rate), rate) <= ref
    ensures (ref - UnwrapNs((ts + RestampDelta(ts, rate, ref)) % TWO32, rate, ref)) * rate < NS_PER_SEC + rate
  {
    RestampIsTick(ts, rate, ref);
    UnwrapRecovers(ref, ref, rate);
  }

  lemma {:induction false} RestampIsTick(ts: U32, rate: nat, ref: U64)
    requires 0 < rate <= NS_PER_SEC
    ensures (ts + RestampDelta(ts, rate, ref)) % TWO32 == Ticks(ref, rate) % TWO32
  {
    TicksFit(ref, rate);
    DeltaReaches(ts, Ticks(ref, rate) % TWO32);
  }

  lemma {:induction false} DeltaReaches(ts: U32, want: U32)
    ensures (ts + (want - ts) % TWO32) % TWO32 == want
  {
  }
}
