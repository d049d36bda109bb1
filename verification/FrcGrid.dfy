/** The uniform output grid of frame-rate conversion: rigid ticks over irregular source brackets. */
module FrcGrid {
  import opened Arithmetic

  /** An output frame's time, and where it lies between the two source frames: 0 at the older, 1 at the newer. */
  datatype Tick = Tick(ts: nat, phase: real)

  function Phase(ts: nat, prev: nat, cur: nat): real
    requires prev < cur
  {
    if ts <= prev then 0.0 else (ts - prev) as real / (cur - prev) as real
  }

  function Anchored(next: nat, cur: nat): nat {
    if next == 0 then cur else next
  }

  /** How many ticks of the grid from `next` on lie at or before `cur`. */
  function Reached(interval: nat, next: nat, cur: nat): nat
    requires interval > 0
  {
    if next <= cur then Quotient(cur - next, interval) + 1 else 0
  }

  /** The first tick that a bracket may emit: past a stall, the last one at or before `cur`. */
  function Start(interval: nat, next: nat, prev: nat, cur: nat, stall: nat): (start: nat)
    requires interval > 0
    ensures start >= next
  {
    if cur - prev > stall && next < cur then next + Quotient(cur - next, interval) * interval else next
  }

  datatype Bracketed = Bracketed(next: nat, ticks: seq<Tick>, dropped: nat)

  /** One bracket: the ticks from `Start` on, at most `maxOut` of them; the others are dropped. */
  function Bracket(interval: nat, next: nat, prev: nat, cur: nat, maxOut: nat, stall: nat): Bracketed {
    if interval == 0 || cur <= prev || maxOut == 0 then Bracketed(next, [], 0)
    else
      var first := Anchored(next, cur);
      var start := Start(interval, first, prev, cur, stall);
      var due := Reached(interval, start, cur);
      var n := if due <= maxOut then due else maxOut;
      Bracketed(start + due * interval, TicksFrom(interval, start, prev, cur, n),
                Quotient(start - first, interval) + (due - n))
  }

  function TicksFrom(interval: nat, start: nat, prev: nat, cur: nat, n: nat): (ticks: seq<Tick>)
    requires prev < cur
    ensures |ticks| == n
  {
    seq(n, i requires 0 <= i < n => TickAt(interval, start, prev, cur, i))
  }

  function TickAt(interval: nat, start: nat, prev: nat, cur: nat, i: nat): Tick
    requires prev < cur
  {
    Tick(start + i * interval, Phase(start + i * interval, prev, cur))
  }

  lemma {:induction false} ReachedIs(interval: nat, start: nat, cur: nat, n: nat)
    requires interval > 0 && start + n * interval > cur
    requires n == 0 || start + (n - 1) * interval <= cur
    ensures n == Reached(interval, start, cur)
  {
    if n > 0 {
      assert n * interval == (n - 1) * interval + interval;
      QuotientIs(cur - start, interval, n - 1);
    } else {
      assert start > cur;
    }
  }

  lemma {:induction false} SkipIs(interval: nat, skip: nat)
    requires interval > 0
    ensures Quotient(skip * interval, interval) == skip
  {
    QuotientIs(skip * interval, interval, skip);
  }

  class UniformGrid {
    var interval: nat
    var next: nat

    constructor (interval: nat)
      ensures this.interval == interval && next == 0
    {
      this.interval, next := interval, 0;
    }

    /** Collect the ticks of the bracket `(prev, cur]` into `out`, and move the grid past `cur`. */
    method Ticks(prev: nat, cur: nat, out: array<Tick>, maxOut: nat, stall: nat) returns (n: nat, dropped: nat)
      requires maxOut <= out.Length
      modifies this`next, out
      ensures var b := Bracket(interval, old(next), prev, cur, maxOut, stall);
              next == b.next && dropped == b.dropped && n <= out.Length
              && out[..n] == b.ticks && out[n..] == old(out[..])[n..]
    {
      n, dropped := 0, 0;
      if interval == 0 || cur <= prev || maxOut == 0 { return; }
      if next == 0 { next := cur; }
      ghost var first := next;
      if cur - prev > stall && next < cur {
        var skip := Quotient(cur - next, interval);
        dropped := skip;
        next := next + skip * interval;
      }
      SkipIs(interval, dropped);
      assert dropped == Quotient(next - first, interval);
      var over;
      n, over := Emit(prev, cur, out, maxOut);
      dropped := dropped + over;
    }

    /** The walk over the ticks up to `cur`: the first `maxOut` go out, the rest are counted. */
    method Emit(prev: nat, cur: nat, out: array<Tick>, maxOut: nat) returns (n: nat, over: nat)
      requires interval > 0 && prev < cur && maxOut <= out.Length
      modifies this`next, out
      ensures var due := Reached(interval, old(next), cur);
              && next == old(next) + due * interval && n + over == due
              && n == (if due <= maxOut then due else maxOut)
              && out[..n] == TicksFrom(interval, old(next), prev, cur, n) && out[n..] == old(out[..])[n..]
    {
      n, over := 0, 0;
      ghost var start, k: nat := next, 0;
      while next <= cur
        invariant next == start + k * interval && interval == old(interval)
        invariant k > 0 ==> start + (k - 1) * interval <= cur
        invariant n == (if k <= maxOut then k else maxOut) && n + over == k
        invariant forall i :: 0 <= i < n ==> out[i] == TickAt(interval, start, prev, cur, i)
        invariant out[n..] == old(out[..])[n..]
        decreases cur + interval - next
      {
        if n < maxOut {
          out[n] := Tick(next, Phase(next, prev, cur));
          n := n + 1;
        } else {
          over := over + 1;
        }
        assert (k + 1) * interval == k * interval + interval;
        next := next + interval;
        k := k + 1;
      }
      ReachedIs(interval, start, cur, k);
    }
  }

  // ----- What a bracket does -----

  /** `ts` is `k` intervals after the anchor. */
  ghost predicate OnGrid(anchor: nat, interval: nat, ts: nat, k: nat) {
    ts == anchor + k * interval
  }

  /** The grid moves by one interval for every tick emitted or dropped, to the first tick after `cur`. */
  lemma {:induction false} BracketAdvances(interval: nat, next: nat, prev: nat, cur: nat, maxOut: nat, stall: nat)
    requires interval > 0 && prev < cur && maxOut > 0
    ensures var b := Bracket(interval, next, prev, cur, maxOut, stall);
            var first := Anchored(next, cur);
            && b.next == first + (|b.ticks| + b.dropped) * interval
            && cur < b.next && |b.ticks| <= maxOut
            && (first <= cur ==> b.next <= cur + interval)
            && (first > cur ==> b == Bracketed(first, [], 0))
  {
    var first := Anchored(next, cur);
    var start := Start(interval, first, prev, cur, stall);
    StartOnGrid(interval, first, prev, cur, stall);
    ReachedPasses(interval, start, cur);
    Distribute(Quotient(start - first, interval), Reached(interval, start, cur), interval);
  }

  lemma {:induction false} StartOnGrid(interval: nat, first: nat, prev: nat, cur: nat, stall: nat)
    requires interval > 0
    ensures var start := Start(interval, first, prev, cur, stall);
            && start == first + Quotient(start - first, interval) * interval
            && (first <= cur ==> start <= cur)
            && (cur - prev > stall && first <= cur ==> cur < start + interval)
  {
    if first <= cur {
      QuotientBounds(cur - first, interval);
      SkipIs(interval, Quotient(cur - first, interval));
    }
    SkipIs(interval, 0);
  }

  lemma {:induction false} ReachedPasses(interval: nat, start: nat, cur: nat)
    requires interval > 0
    ensures cur < start + Reached(interval, start, cur) * interval
    ensures start <= cur ==> start + Reached(interval, start, cur) * interval <= cur + interval
  {
    if start <= cur {
      var q := Quotient(cur - start, interval);
      QuotientBounds(cur - start, interval);
      assert (q + 1) * interval == q * interval + interval;
    }
  }

  /** The emitted ticks are consecutive, none is after `cur`, and they come after every dropped stall tick. */
  lemma {:induction false} BracketTick(interval: nat, next: nat, prev: nat, cur: nat, maxOut: nat, stall: nat, i: nat)
    requires interval > 0 && prev < cur && maxOut > 0
    requires i < |Bracket(interval, next, prev, cur, maxOut, stall).ticks|
    ensures var b := Bracket(interval, next, prev, cur, maxOut, stall);
            var first := Anchored(next, cur);
            var skip := Quotient(Start(interval, first, prev, cur, stall) - first, interval);
            && OnGrid(first, interval, b.ticks[i].ts, skip + i) && skip <= b.dropped
            && first <= b.ticks[i].ts <= cur
            && b.ticks[i].phase == Phase(b.ticks[i].ts, prev, cur)
  {
    var first := Anchored(next, cur);
    var start := Start(interval, first, prev, cur, stall);
    StartOnGrid(interval, first, prev, cur, stall);
    Distribute(Quotient(start - first, interval), i, interval);
    QuotientBounds(cur - start, interval);
    MulMono(i, Quotient(cur - start, interval), interval);
  }

  /** A bracket longer than the stall bound emits at most one tick: the output freezes. */
  lemma {:induction false} StallFreezes(interval: nat, next: nat, prev: nat, cur: nat, maxOut: nat, stall: nat)
    requires interval > 0 && cur - prev > stall
    ensures |Bracket(interval, next, prev, cur, maxOut, stall).ticks| <= 1
  {
    if maxOut > 0 {
      var first := Anchored(next, cur);
      StartOnGrid(interval, first, prev, cur, stall);
      var start := Start(interval, first, prev, cur, stall);
      if start <= cur {
        QuotientIs(cur - start, interval, 0);
      }
    }
  }

  /** That tick is the last of the grid at or before `cur`, if the grid has one that is due. */
  lemma {:induction false} StallEmitsLast(interval: nat, next: nat, prev: nat, cur: nat, maxOut: nat, stall: nat)
    requires interval > 0 && maxOut > 0 && prev < cur && cur - prev > stall && Anchored(next, cur) <= cur
    ensures var ticks := Bracket(interval, next, prev, cur, maxOut, stall).ticks;
            |ticks| == 1 && ticks[0].ts <= cur < ticks[0].ts + interval
  {
    var first := Anchored(next, cur);
    StartOnGrid(interval, first, prev, cur, stall);
    var start := Start(interval, first, prev, cur, stall);
    QuotientIs(cur - start, interval, 0);
    MulMono(0, 0, interval);
  }

  /** Without a stall every tick of the grid that is due goes out, from the first on, until the burst is full. */
  lemma {:induction false} DueTicksEmitted(
    interval: nat, next: nat, prev: nat, cur: nat, maxOut: nat, stall: nat, k: nat)
    requires interval > 0 && prev < cur && cur - prev <= stall && k < maxOut
    requires Anchored(next, cur) + k * interval <= cur
    ensures var ticks := Bracket(interval, next, prev, cur, maxOut, stall).ticks;
            k < |ticks| && ticks[k].ts == Anchored(next, cur) + k * interval
  {
    var first := Anchored(next, cur);
    QuotientBounds(cur - first, interval);
    var q := Quotient(cur - first, interval);
    if q < k {
      MulMono(q + 1, k, interval);
      Distribute(q, 1, interval);
    }
  }

  /** A bracket that neither stalls nor outruns the burst drops nothing. */
  lemma {:induction false} NothingDropped(interval: nat, next: nat, prev: nat, cur: nat, maxOut: nat, stall: nat)
    requires interval > 0 && maxOut > 0 && prev < cur && cur - prev <= stall && cur - prev <= maxOut * interval
    requires next == 0 || prev < next
    ensures Bracket(interval, next, prev, cur, maxOut, stall).dropped == 0
  {
    var first := Anchored(next, cur);
    SkipIs(interval, 0);
    if first <= cur {
      var q := Quotient(cur - first, interval);
      QuotientBounds(cur - first, interval);
      if q >= maxOut {
        MulMono(maxOut, q, interval);
      }
    }
  }

  /** The phase is the part of the bracket that lies before the tick, and 0 if all of it comes after. */
  lemma {:induction false} PhaseIsPlace(ts: nat, prev: nat, cur: nat)
    requires prev < cur
    ensures ts <= prev ==> Phase(ts, prev, cur) == 0.0
    ensures prev <= ts ==> Phase(ts, prev, cur) * (cur - prev) as real == (ts - prev) as real
  {
    if prev < ts {
      Product((ts - prev) as real, (cur - prev) as real);
    }
  }

  lemma {:induction false} Product(a: real, b: real)
    requires b > 0.0
    ensures a / b * b == a
  {
  }

  /** Inside its bracket a tick has a phase in (0, 1]; at or before the older frame the phase is 0. */
  lemma {:induction false} PhaseRange(ts: nat, prev: nat, cur: nat)
    requires prev < cur && ts <= cur
    ensures 0.0 <= Phase(ts, prev, cur) <= 1.0
    ensures Phase(ts, prev, cur) == 0.0 <==> ts <= prev
    ensures Phase(ts, prev, cur) == 1.0 <==> ts == cur
  {
    if ts > prev {
      Ratio((ts - prev) as real, (cur - prev) as real);
    }
  }

  lemma {:induction false} Ratio(a: real, b: real)
    requires 0.0 < a <= b
    ensures 0.0 < a / b <= 1.0 && (a / b == 1.0 <==> a == b)
  {
    var q := a / b;
    assert q * b == a;
    if q <= 0.0 {
      RealMono(q, 0.0, b);
    }
    if q > 1.0 {
      RealMono(1.0, q, b);
    }
  }

  lemma {:induction false} RealMono(x: real, y: real, b: real)
    requires x <= y && b > 0.0
    ensures x * b <= y * b && (x < y ==> x * b < y * b)
  {
  }
}
