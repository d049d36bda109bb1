/** Frame-rate conversion on the uniform grid: what the operator emits for each source frame, over whole runs. */
module FrcOperator {
  import opened Arithmetic
  import opened FrcGrid

  const PASS := 0.99

  /** `burst` is the most frames that one source frame may lead to. */
  datatype Config = Config(interval: nat, burst: nat) {
    function MaxOut(): nat {
      if burst < 16 then burst else 16
    }

    function Stall(): nat {
      8 * interval
    }

    function Pool(): (n: nat)
      ensures n > 0
    {
      2 * burst + 6
    }

    predicate Runs() {
      interval > 0 && burst > 0
    }
  }

  /** The source frame as it came, the source frame moved onto the grid, or a synthetic frame of the pool. */
  datatype Out =
    | Passed(ts: nat)
    | Real(ts: nat)
    | Synthetic(slot: nat, ts: nat, phase: real)

  datatype State = State(started: bool, srcPrev: nat, next: nat, dropped: nat, idx: nat)

  const INIT := State(false, 0, 0, 0, 0)

  /** The two captures span a bracket: both are known, and the second is later. */
  predicate Spans(s: State, capture: nat) {
    s.started && s.srcPrev != 0 && s.srcPrev < capture
  }

  /** A state of the operator: the pool index is in the pool. */
  predicate Good(cfg: Config, s: State) {
    s.idx < cfg.Pool()
  }

  function BracketOf(cfg: Config, s: State, capture: nat): Bracketed {
    Bracket(cfg.interval, s.next, s.srcPrev, capture, cfg.MaxOut(), cfg.Stall())
  }

  function TicksOf(cfg: Config, s: State, capture: nat): seq<Tick> {
    if Spans(s, capture) then BracketOf(cfg, s, capture).ticks else []
  }

  /** A tick that lands on the newer frame takes that frame; only the last one can. */
  predicate IsReal(ticks: seq<Tick>, i: nat)
    requires i < |ticks|
  {
    i == |ticks| - 1 && ticks[i].phase >= PASS
  }

  /** The pool slot after `i` frames, starting from slot `idx`. */
  function TurnAt(idx: nat, pool: nat, i: nat): (slot: nat)
    requires idx < pool
    ensures slot < pool
  {
    if i == 0 then idx else NextIdx(TurnAt(idx, pool, i - 1), pool)
  }

  function Turn(idx: nat, pool: nat): nat -> nat
    requires idx < pool
  {
    (i: nat) => TurnAt(idx, pool, i)
  }

  function Emission(ticks: seq<Tick>, i: nat, slot: nat -> nat): Out
    requires i < |ticks|
  {
    if IsReal(ticks, i) then Real(ticks[i].ts) else Synthetic(slot(i), ticks[i].ts, ticks[i].phase)
  }

  function Emissions(ticks: seq<Tick>, slot: nat -> nat): (outs: seq<Out>)
    ensures |outs| == |ticks|
  {
    seq(|ticks|, i requires 0 <= i < |ticks| => Emission(ticks, i, slot))
  }

  function Synthesized(ticks: seq<Tick>): nat {
    if ticks != [] && IsReal(ticks, |ticks| - 1) then |ticks| - 1 else |ticks|
  }

  function Outs(cfg: Config, s: State, capture: nat): seq<Out>
    requires Good(cfg, s)
  {
    if Spans(s, capture) then Emissions(TicksOf(cfg, s, capture), Turn(s.idx, cfg.Pool())) else [Passed(capture)]
  }

  function Step(cfg: Config, s: State, capture: nat): (s': State)
    requires Good(cfg, s)
    ensures Good(cfg, s')
  {
    if Spans(s, capture) then
      var b := BracketOf(cfg, s, capture);
      State(true, capture, b.next, s.dropped + b.dropped, Turn(s.idx, cfg.Pool())(Synthesized(b.ticks)))
    else s.(started := true, srcPrev := capture)
  }

  // ----- The operator's own form -----

  class GpuFrame {
    var capture: nat

    constructor (capture: nat)
      ensures this.capture == capture
    {
      this.capture := capture;
    }
  }

  class FrcOp {
    const cfg: Config
    const grid: UniformGrid
    var prev: GpuFrame?
    var srcPrev: nat
    var dropped: nat
    var idx: nat

    predicate Valid()
      reads this, grid
    {
      grid.interval == cfg.interval && idx < cfg.Pool()
    }

    function View(): State
      reads this, grid
    {
      State(prev != null, srcPrev, grid.next, dropped, idx)
    }

    constructor (cfg: Config)
      ensures Valid() && this.cfg == cfg && View() == INIT && fresh(grid)
    {
      this.cfg := cfg;
      grid := new UniformGrid(cfg.interval);
      prev, srcPrev, dropped, idx := null, 0, 0, 0;
    }

    /** One source frame. A real frame taken for a tick is restamped in place; its own capture time stays here. */
    method Compute(cur: GpuFrame) returns (outs: seq<Out>)
      requires Valid()
      modifies this, grid, cur
      ensures Valid() && prev == cur
      ensures outs == Outs(cfg, old(View()), old(cur.capture)) && View() == Step(cfg, old(View()), old(cur.capture))
      ensures cur.capture == if outs != [] && outs[|outs| - 1].Real? then outs[|outs| - 1].ts else old(cur.capture)
    {
      var pc, cc := srcPrev, cur.capture;
      srcPrev := cc;
      if prev == null || pc == 0 || cc <= pc {
        prev := cur;
        return [Passed(cc)];
      }
      var buffer := new Tick[16](i => Tick(0, 0.0));
      var n, lost := grid.Ticks(pc, cc, buffer, cfg.MaxOut(), cfg.Stall());
      dropped := dropped + lost;
      outs := EmitAll(cur, buffer[..n], Turn(idx, cfg.Pool()));
      prev := cur;
    }

    method EmitAll(cur: GpuFrame, ticks: seq<Tick>, ghost slot: nat -> nat) returns (outs: seq<Out>)
      requires slot(0) == idx && InTurn(slot, cfg.Pool())
      modifies this`idx, cur
      ensures outs == Emissions(ticks, slot) && idx == slot(Synthesized(ticks))
      ensures cur.capture
           == if ticks != [] && IsReal(ticks, |ticks| - 1) then ticks[|ticks| - 1].ts else old(cur.capture)
    {
      outs := [];
      for i := 0 to |ticks|
        invariant outs == Emissions(ticks, slot)[..i]
        invariant idx == slot(if i == |ticks| then Synthesized(ticks) else i)
        invariant cur.capture
               == if i > 0 && IsReal(ticks, i - 1) then ticks[i - 1].ts else old(cur.capture)
      {
        if i == |ticks| - 1 && ticks[i].phase >= PASS {
          cur.capture := ticks[i].ts;
          outs := outs + [Real(ticks[i].ts)];
        } else {
          outs := outs + [Synthetic(idx, ticks[i].ts, ticks[i].phase)];
          WrapOnce(idx, cfg.Pool());
          idx := (idx + 1) % cfg.Pool();
        }
      }
    }
  }

  ghost predicate InTurn(slot: nat -> nat, pool: nat)
    requires pool > 0
  {
    forall i: nat :: slot(i) < pool && slot(i + 1) == NextIdx(slot(i), pool)
  }

  lemma {:induction false} WrapOnce(idx: nat, pool: nat)
    requires idx < pool
    ensures (idx + 1) % pool == NextIdx(idx, pool)
  {
  }

  // ----- Runs -----

  /** The state and the grid ticks after any run of source frames. */
  function Run(cfg: Config, captures: seq<nat>): (r: (State, seq<Tick>))
    ensures Good(cfg, r.0)
  {
    if captures == [] then (INIT, [])
    else
      var n := |captures| - 1;
      var (s, ticks) := Run(cfg, captures[..n]);
      (Step(cfg, s, captures[n]), ticks + TicksOf(cfg, s, captures[n]))
  }

  /** Where the grid is anchored: the newer end of the first bracket, or 0 if there is none yet. */
  function Anchor(captures: seq<nat>): nat {
    if |captures| < 2 then 0
    else
      var n := |captures| - 1;
      var a := Anchor(captures[..n]);
      if a != 0 then a else if captures[n - 1] != 0 && captures[n - 1] < captures[n] then captures[n] else 0
  }

  function Slot(anchor: nat, interval: nat, ts: nat): nat
    requires interval > 0
  {
    if ts < anchor then 0 else Quotient(ts - anchor, interval)
  }

  /** Every tick is a whole number of intervals after the anchor, below `total` of them, and no two share one. */
  ghost predicate Rigid(anchor: nat, interval: nat, ticks: seq<Tick>, total: nat) {
    && interval > 0
    && (forall i :: 0 <= i < |ticks| ==>
          OnGrid(anchor, interval, ticks[i].ts, Slot(anchor, interval, ticks[i].ts))
          && Slot(anchor, interval, ticks[i].ts) < total)
    && (forall i, j :: 0 <= i < j < |ticks| ==>
          Slot(anchor, interval, ticks[i].ts) < Slot(anchor, interval, ticks[j].ts))
  }

  lemma {:induction false} SlotIs(anchor: nat, interval: nat, ts: nat, k: nat)
    requires interval > 0 && OnGrid(anchor, interval, ts, k)
    ensures Slot(anchor, interval, ts) == k
  {
    QuotientIs(ts - anchor, interval, k);
  }

  /** The next tick is as far from the anchor as ticks were emitted or dropped, and those emitted are rigid. */
  ghost predicate OnOneGrid(cfg: Config, s: State, ticks: seq<Tick>, anchor: nat) {
    && (if anchor == 0 then s.next == 0 && ticks == [] && s.dropped == 0
        else s.next == anchor + (|ticks| + s.dropped) * cfg.interval)
    && Rigid(anchor, cfg.interval, ticks, |ticks| + s.dropped)
  }

  /**
   Whatever the capture times (missing, out of order, wobbling): every emitted tick is on one rigid grid,
   they strictly increase, and every tick of the grid is either emitted or counted as dropped.
   */
  lemma {:induction false} GridRigid(cfg: Config, captures: seq<nat>)
    requires cfg.Runs()
    ensures var (s, ticks) := Run(cfg, captures);
            && (s.started <==> captures != []) && (s.started ==> s.srcPrev == captures[|captures| - 1])
            && OnOneGrid(cfg, s, ticks, Anchor(captures))
  {
    if captures != [] {
      var n := |captures| - 1;
      GridRigid(cfg, captures[..n]);
      var (s, ticks) := Run(cfg, captures[..n]);
      GridStep(cfg, s, ticks, Anchor(captures[..n]), captures[n]);
    }
  }

  lemma {:induction false} GridStep(cfg: Config, s: State, ticks: seq<Tick>, anchor: nat, capture: nat)
    requires cfg.Runs() && Good(cfg, s) && OnOneGrid(cfg, s, ticks, anchor)
    ensures OnOneGrid(cfg, Step(cfg, s, capture), ticks + TicksOf(cfg, s, capture),
                      if anchor == 0 && Spans(s, capture) then capture else anchor)
  {
    if Spans(s, capture) {
      var anchor' := if anchor == 0 then capture else anchor;
      assert Anchored(s.next, capture) == anchor' + (|ticks| + s.dropped) * cfg.interval by {
        NextAnchored(s, ticks, anchor, capture, cfg.interval);
      }
      assert Rigid(anchor', cfg.interval, ticks, |ticks| + s.dropped);
      StepNext(cfg, s, capture, anchor', ticks);
      StepRigid(cfg, s, capture, anchor', ticks);
    } else {
      assert ticks + [] == ticks;
    }
  }

  lemma {:induction false} NextAnchored(s: State, ticks: seq<Tick>, anchor: nat, capture: nat, interval: nat)
    requires if anchor == 0 then s.next == 0 && ticks == [] && s.dropped == 0
             else s.next == anchor + (|ticks| + s.dropped) * interval
    ensures Anchored(s.next, capture)
         == (if anchor == 0 then capture else anchor) + (|ticks| + s.dropped) * interval
  {
  }

  lemma {:induction false} StepNext(cfg: Config, s: State, capture: nat, anchor: nat, ticks: seq<Tick>)
    requires cfg.Runs() && Good(cfg, s) && Spans(s, capture)
    requires Anchored(s.next, capture) == anchor + (|ticks| + s.dropped) * cfg.interval
    ensures var s' := Step(cfg, s, capture);
            s'.next == anchor + (|ticks + TicksOf(cfg, s, capture)| + s'.dropped) * cfg.interval
  {
    var b := BracketOf(cfg, s, capture);
    BracketAdvances(cfg.interval, s.next, s.srcPrev, capture, cfg.MaxOut(), cfg.Stall());
    Distribute(|ticks| + s.dropped, |b.ticks| + b.dropped, cfg.interval);
  }

  lemma {:induction false} StepRigid(cfg: Config, s: State, capture: nat, anchor: nat, ticks: seq<Tick>)
    requires cfg.Runs() && Good(cfg, s) && Spans(s, capture)
    requires Anchored(s.next, capture) == anchor + (|ticks| + s.dropped) * cfg.interval
    requires Rigid(anchor, cfg.interval, ticks, |ticks| + s.dropped)
    ensures var ticks' := ticks + TicksOf(cfg, s, capture);
            Rigid(anchor, cfg.interval, ticks', |ticks'| + Step(cfg, s, capture).dropped)
  {
    var b := BracketOf(cfg, s, capture);
    var first := Anchored(s.next, capture);
    var skip := Quotient(Start(cfg.interval, first, s.srcPrev, capture, cfg.Stall()) - first, cfg.interval);
    forall i | 0 <= i < |b.ticks|
      ensures OnGrid(anchor, cfg.interval, b.ticks[i].ts, |ticks| + s.dropped + skip + i) && skip <= b.dropped
      ensures Slot(anchor, cfg.interval, b.ticks[i].ts) == |ticks| + s.dropped + skip + i
    {
      BracketTick(cfg.interval, s.next, s.srcPrev, capture, cfg.MaxOut(), cfg.Stall(), i);
      Distribute(|ticks| + s.dropped, skip + i, cfg.interval);
      SlotIs(anchor, cfg.interval, b.ticks[i].ts, |ticks| + s.dropped + skip + i);
    }
  }

  /** Later ticks have later times, at least an interval apart. */
  lemma {:induction false} RigidOrder(anchor: nat, interval: nat, ticks: seq<Tick>, total: nat, i: nat, j: nat)
    requires Rigid(anchor, interval, ticks, total) && i < j < |ticks|
    ensures ticks[i].ts + interval <= ticks[j].ts
  {
    var a, b := Slot(anchor, interval, ticks[i].ts), Slot(anchor, interval, ticks[j].ts);
    MulMono(a + 1, b, interval);
    Distribute(a, 1, interval);
  }

  // ----- A source whose capture times increase -----

  ghost predicate Clean(captures: seq<nat>) {
    (forall i :: 0 <= i < |captures| ==> captures[i] > 0)
    && forall i :: 0 < i < |captures| ==> captures[i - 1] < captures[i]
  }

  /**
   With increasing captures the grid is never behind a bracket: every tick has a phase in (0, 1], the next
   tick is in the interval after the last capture, and the ticks emitted or dropped are exactly those from
   the anchor to the last capture.
   */
  lemma {:induction false} GridExact(cfg: Config, captures: seq<nat>)
    requires cfg.Runs() && Clean(captures) && |captures| >= 2
    ensures var (s, ticks) := Run(cfg, captures);
            var last := captures[|captures| - 1];
            && Anchor(captures) == captures[1] <= last
            && last < s.next <= last + cfg.interval
            && |ticks| + s.dropped == Quotient(last - captures[1], cfg.interval) + 1
            && forall i :: 0 <= i < |ticks| ==> 0.0 < ticks[i].phase <= 1.0
  {
    var (s, ticks) := Run(cfg, captures);
    var last := captures[|captures| - 1];
    CleanStep(cfg, captures);
    GridRigid(cfg, captures);
    var total := |ticks| + s.dropped;
    if total == 0 {
      assert false;
    }
    Distribute(total - 1, 1, cfg.interval);
    QuotientIs(last - captures[1], cfg.interval, total - 1);
  }

  lemma {:induction false} CleanStep(cfg: Config, captures: seq<nat>)
    requires cfg.Runs() && Clean(captures) && |captures| >= 2
    ensures var (s, ticks) := Run(cfg, captures);
            var last := captures[|captures| - 1];
            && Anchor(captures) == captures[1] <= last
            && last < s.next <= last + cfg.interval
            && forall i :: 0 <= i < |ticks| ==> 0.0 < ticks[i].phase <= 1.0
  {
    var n := |captures| - 1;
    var before := captures[..n];
    var (s, ticks) := Run(cfg, before);
    GridRigid(cfg, before);
    if n > 1 {
      CleanStep(cfg, before);
    }
    assert s.srcPrev == captures[n - 1] && (s.next == 0 || s.srcPrev < s.next);
    BracketAdvances(cfg.interval, s.next, s.srcPrev, captures[n], cfg.MaxOut(), cfg.Stall());
    var new' := TicksOf(cfg, s, captures[n]);
    forall i | 0 <= i < |new'|
      ensures 0.0 < new'[i].phase <= 1.0
    {
      BracketTick(cfg.interval, s.next, s.srcPrev, captures[n], cfg.MaxOut(), cfg.Stall(), i);
      PhaseRange(new'[i].ts, s.srcPrev, captures[n]);
    }
  }

  /**
   All phases of a bracket are positive exactly when the grid is not anchored yet, or is past the older frame,
   or the bracket is a stall.
   */
  lemma {:induction false} PhasesPositiveExactlyWhen(cfg: Config, s: State, capture: nat)
    requires cfg.Runs() && Good(cfg, s) && Spans(s, capture)
    ensures (forall i :: 0 <= i < |TicksOf(cfg, s, capture)| ==> TicksOf(cfg, s, capture)[i].phase > 0.0)
            <==> s.next == 0 || s.srcPrev < s.next || capture - s.srcPrev > 8 * cfg.interval
  {
    var ticks := TicksOf(cfg, s, capture);
    FirstTickDecides(cfg, s, capture);
    FirstTick(cfg, s, capture);
    StartsAfter(cfg.interval, Anchored(s.next, capture), s.srcPrev, capture, cfg.Stall());
  }

  lemma {:induction false} FirstTickDecides(cfg: Config, s: State, capture: nat)
    requires cfg.Runs() && Good(cfg, s) && Spans(s, capture)
    ensures var ticks := TicksOf(cfg, s, capture);
            (forall i :: 0 <= i < |ticks| ==> ticks[i].phase > 0.0) <==> ticks == [] || s.srcPrev < ticks[0].ts
  {
    var ticks := TicksOf(cfg, s, capture);
    forall i | 0 <= i < |ticks|
      ensures ticks[0].ts <= ticks[i].ts && (ticks[i].phase > 0.0 <==> s.srcPrev < ticks[i].ts)
    {
      BracketTick(cfg.interval, s.next, s.srcPrev, capture, cfg.MaxOut(), cfg.Stall(), i);
      PhaseRange(ticks[i].ts, s.srcPrev, capture);
      MulMono(0, i, cfg.interval);
    }
  }

  /** The first tick is where the bracket starts, if that is not past the newer frame. */
  lemma {:induction false} FirstTick(cfg: Config, s: State, capture: nat)
    requires cfg.Runs() && Good(cfg, s) && Spans(s, capture)
    ensures var start := Start(cfg.interval, Anchored(s.next, capture), s.srcPrev, capture, cfg.Stall());
            var ticks := TicksOf(cfg, s, capture);
            if start <= capture then ticks != [] && ticks[0].ts == start else ticks == []
  {
    MulMono(0, 0, cfg.interval);
  }

  /** Where a bracket starts: after the older frame, unless the grid is behind it and the bracket is no stall. */
  lemma {:induction false} StartsAfter(interval: nat, first: nat, prev: nat, cur: nat, stall: nat)
    requires interval > 0 && prev < cur && stall >= interval
    ensures Start(interval, first, prev, cur, stall) <= prev <==> first <= prev && cur - prev <= stall
  {
    StartOnGrid(interval, first, prev, cur, stall);
  }

  /** A missing capture time leaves the grid behind the next bracket, whose first ticks then have phase 0. */
  lemma {:induction false} MissingCaptureGivesPhaseZero()
    ensures TicksOf(Config(100, 4), Run(Config(100, 4), [100, 200, 0, 500]).0, 600)
         == [Tick(300, 0.0), Tick(400, 0.0), Tick(500, 0.0), Tick(600, 1.0)]
  {
    var cfg := Config(100, 4);
    assert [100, 200, 0, 500][..3] == [100, 200, 0] && [100, 200, 0][..2] == [100, 200];
    assert [100, 200][..1] == [100] && [100][..0] == [];
    assert Run(cfg, [100]).0 == State(true, 100, 0, 0, 0);
    assert Run(cfg, [100, 200]).0.(idx := 0) == State(true, 200, 300, 0, 0);
    assert Run(cfg, [100, 200, 0]).0.(idx := 0) == State(true, 0, 300, 0, 0);
    assert Run(cfg, [100, 200, 0, 500]).0.(idx := 0) == State(true, 500, 300, 0, 0);
  }

  /** Every tick of a bracket has the phase of its place in it, or 0 if it comes before. */
  lemma {:induction false} PhasesExact(cfg: Config, s: State, capture: nat, i: nat)
    requires cfg.Runs() && Good(cfg, s) && Spans(s, capture) && i < |TicksOf(cfg, s, capture)|
    ensures AtPlace(TicksOf(cfg, s, capture)[i], s.srcPrev, capture)
  {
    var tick := TicksOf(cfg, s, capture)[i];
    assert tick.phase == Phase(tick.ts, s.srcPrev, capture);
    TickAtPlace(tick, s.srcPrev, capture);
  }

  ghost predicate AtPlace(tick: Tick, prev: nat, cur: nat) {
    if tick.ts < prev then tick.phase == 0.0 else tick.phase * (cur - prev) as real == (tick.ts - prev) as real
  }

  lemma {:induction false} TickAtPlace(tick: Tick, prev: nat, cur: nat)
    requires prev < cur && tick.phase == Phase(tick.ts, prev, cur)
    ensures AtPlace(tick, prev, cur)
  {
    PhaseIsPlace(tick.ts, prev, cur);
  }

  /**
   One source frame leads to at most 16 ticks and at most the burst. A bracket of more than eight intervals leads to
   one, the last that is due; a shorter one to all that are due, as far as the burst allows.
   */
  lemma {:induction false} TicksExactlyDue(cfg: Config, s: State, capture: nat, k: nat)
    requires cfg.Runs() && Good(cfg, s) && Spans(s, capture)
    ensures var ticks, first := TicksOf(cfg, s, capture), if s.next == 0 then capture else s.next;
            && |ticks| <= 16 && |ticks| <= cfg.burst && (first > capture ==> ticks == [])
            && (first <= capture && capture - s.srcPrev > 8 * cfg.interval ==>
                  |ticks| == 1 && ticks[0].ts <= capture < ticks[0].ts + cfg.interval)
            && (capture - s.srcPrev <= 8 * cfg.interval && first + k * cfg.interval <= capture
                && k < 16 && k < cfg.burst ==>
                  k < |ticks| && ticks[k].ts == first + k * cfg.interval)
  {
    var first := Anchored(s.next, capture);
    BracketAdvances(cfg.interval, s.next, s.srcPrev, capture, cfg.MaxOut(), cfg.Stall());
    if first <= capture && capture - s.srcPrev > 8 * cfg.interval {
      StallEmitsLast(cfg.interval, s.next, s.srcPrev, capture, cfg.MaxOut(), cfg.Stall());
    }
    if capture - s.srcPrev <= 8 * cfg.interval && first + k * cfg.interval <= capture && k < cfg.MaxOut() {
      DueTicksEmitted(cfg.interval, s.next, s.srcPrev, capture, cfg.MaxOut(), cfg.Stall(), k);
    }
  }

  /** A bracket that is not a stall, and whose ticks fit in the burst. */
  predicate Narrow(cfg: Config, prev: nat, cur: nat) {
    cur - prev <= 8 * cfg.interval && cur - prev <= 16 * cfg.interval && cur - prev <= cfg.burst * cfg.interval
  }

  ghost predicate AllNarrow(cfg: Config, captures: seq<nat>) {
    forall i :: 0 < i < |captures| ==> Narrow(cfg, captures[i - 1], captures[i])
  }

  lemma {:induction false} PrefixNarrow(cfg: Config, captures: seq<nat>, n: nat)
    requires n <= |captures| && Clean(captures) && AllNarrow(cfg, captures)
    ensures Clean(captures[..n]) && AllNarrow(cfg, captures[..n])
  {
  }

  /** A source that neither stalls nor outruns the burst loses nothing: tick `i` is exactly `i` intervals on. */
  lemma {:induction false} UnbrokenCadence(cfg: Config, captures: seq<nat>)
    requires cfg.Runs() && Clean(captures) && |captures| >= 2
    requires AllNarrow(cfg, captures)
    ensures var (s, ticks) := Run(cfg, captures);
            && s.dropped == 0
            && forall i :: 0 <= i < |ticks| ==> OnGrid(captures[1], cfg.interval, ticks[i].ts, i)
  {
    var (s, ticks) := Run(cfg, captures);
    GridExact(cfg, captures);
    GridRigid(cfg, captures);
    DropsNothing(cfg, captures);
    forall i | 0 <= i < |ticks|
      ensures OnGrid(captures[1], cfg.interval, ticks[i].ts, i)
    {
      NoSlotSkipped(captures[1], cfg.interval, ticks, i);
    }
  }

  lemma {:induction false} DropsNothing(cfg: Config, captures: seq<nat>)
    requires cfg.Runs() && Clean(captures)
    requires AllNarrow(cfg, captures)
    ensures Run(cfg, captures).0.dropped == 0
  {
    if captures != [] {
      var n := |captures| - 1;
      PrefixNarrow(cfg, captures, n);
      DropsNothing(cfg, captures[..n]);
      NotBehind(cfg, captures[..n]);
      var s := Run(cfg, captures[..n]).0;
      if Spans(s, captures[n]) {
        MulMono(cfg.MaxOut(), cfg.burst, cfg.interval);
        NothingDropped(cfg.interval, s.next, s.srcPrev, captures[n], cfg.MaxOut(), cfg.Stall());
      }
    }
  }

  lemma {:induction false} NotBehind(cfg: Config, captures: seq<nat>)
    requires cfg.Runs() && Clean(captures)
    ensures var s := Run(cfg, captures).0;
            && (s.started <==> captures != [])
            && (s.started ==> s.srcPrev == captures[|captures| - 1] && (s.next == 0 || s.srcPrev < s.next))
  {
    GridRigid(cfg, captures);
    if |captures| >= 2 {
      CleanStep(cfg, captures);
    }
  }

  lemma {:induction false} NoSlotSkipped(anchor: nat, interval: nat, ticks: seq<Tick>, i: nat)
    requires Rigid(anchor, interval, ticks, |ticks|) && i < |ticks|
    ensures Slot(anchor, interval, ticks[i].ts) == i
  {
    SlotAtLeast(anchor, interval, ticks, |ticks|, i);
    SlotAtMost(anchor, interval, ticks, i);
  }

  lemma {:induction false} SlotAtLeast(anchor: nat, interval: nat, ticks: seq<Tick>, total: nat, i: nat)
    requires Rigid(anchor, interval, ticks, total) && i < |ticks|
    ensures Slot(anchor, interval, ticks[i].ts) >= i
  {
    if i > 0 {
      SlotAtLeast(anchor, interval, ticks, total, i - 1);
    }
  }

  lemma {:induction false} SlotAtMost(anchor: nat, interval: nat, ticks: seq<Tick>, i: nat)
    requires Rigid(anchor, interval, ticks, |ticks|) && i < |ticks|
    ensures Slot(anchor, interval, ticks[i].ts) <= i
    decreases |ticks| - i
  {
    if i + 1 < |ticks| {
      SlotAtMost(anchor, interval, ticks, i + 1);
    }
  }

  // ----- Stamps and buffers -----

  /** The frames that leave for a source frame, each at the time of its tick. */
  lemma {:induction false} OutsFollowTicks(cfg: Config, s: State, capture: nat, i: nat)
    requires cfg.Runs() && Good(cfg, s) && Spans(s, capture) && i < |TicksOf(cfg, s, capture)|
    ensures var outs, tick := Outs(cfg, s, capture), TicksOf(cfg, s, capture)[i];
            && |outs| == |TicksOf(cfg, s, capture)| && !outs[i].Passed? && outs[i].ts == tick.ts
            && (outs[i].Synthetic? ==> outs[i].phase == tick.phase)
  {
  }

  /** The source frame is taken for the last tick exactly when that is within a hundredth of the bracket of it. */
  lemma {:induction false} RealExactlyWhen(cfg: Config, s: State, capture: nat, i: nat)
    requires cfg.Runs() && Good(cfg, s) && Spans(s, capture) && i < |Outs(cfg, s, capture)|
    ensures var outs := Outs(cfg, s, capture);
            outs[i].Real? <==> i == |outs| - 1 && 100 * (capture - outs[i].ts) <= capture - s.srcPrev
  {
    var tick := TicksOf(cfg, s, capture)[i];
    BracketTick(cfg.interval, s.next, s.srcPrev, capture, cfg.MaxOut(), cfg.Stall(), i);
    LateExactlyWhen(tick.ts, s.srcPrev, capture);
  }

  lemma {:induction false} LateExactlyWhen(ts: nat, prev: nat, cur: nat)
    requires prev < cur && ts <= cur
    ensures Phase(ts, prev, cur) >= PASS <==> 100 * (cur - ts) <= cur - prev
  {
    PhaseIsPlace(ts, prev, cur);
    if ts > prev {
      Threshold(Phase(ts, prev, cur), ts - prev, cur - prev);
    }
  }

  lemma {:induction false} Threshold(phase: real, place: nat, span: nat)
    requires span > 0 && phase * span as real == place as real
    ensures phase >= PASS <==> 100 * place >= 99 * span
  {
    AtLeast(phase, PASS, place as real, span as real);
    Hundredths(place, span);
  }

  lemma {:induction false} AtLeast(x: real, y: real, a: real, b: real)
    requires b > 0.0 && x * b == a
    ensures x >= y <==> a >= y * b
  {
    if x >= y {
      RealMono(y, x, b);
    } else {
      RealMono(x, y, b);
    }
  }

  lemma {:induction false} Hundredths(place: nat, span: nat)
    ensures place as real >= 0.99 * span as real <==> 100 * place >= 99 * span
  {
    assert (100 * place) as real == 100.0 * place as real && (99 * span) as real == 99.0 * span as real;
  }

  /**
   A source frame passes through untouched exactly when it is the first, or the one before it has no capture time, or
   its own is no later; else what leaves for it are the ticks of the bracket between the two.
   */
  lemma {:induction false} PassesExactlyWhen(cfg: Config, captures: seq<nat>, i: nat)
    requires cfg.Runs() && i < |captures|
    ensures var outs := Outs(cfg, Run(cfg, captures[..i]).0, captures[i]);
            if i == 0 || captures[i - 1] == 0 || captures[i] <= captures[i - 1] then outs == [Passed(captures[i])]
            else forall k :: 0 <= k < |outs| ==> !outs[k].Passed?
  {
    GridRigid(cfg, captures[..i]);
    var s := Run(cfg, captures[..i]).0;
    if i > 0 {
      assert captures[..i][i - 1] == captures[i - 1];
    }
  }

  /** A source frame taken for a tick moves back by at most a hundredth of its bracket. */
  lemma {:induction false} RestampIsSmall(cfg: Config, s: State, capture: nat, i: nat)
    requires cfg.Runs() && Good(cfg, s) && Spans(s, capture)
    requires i < |Outs(cfg, s, capture)| && Outs(cfg, s, capture)[i].Real?
    ensures var ts := Outs(cfg, s, capture)[i].ts;
            ts <= capture && 100 * (capture - ts) <= capture - s.srcPrev
  {
    var tick := TicksOf(cfg, s, capture)[i];
    assert tick.phase >= PASS;
    BracketTick(cfg.interval, s.next, s.srcPrev, capture, cfg.MaxOut(), cfg.Stall(), i);
    LateExactlyWhen(tick.ts, s.srcPrev, capture);
  }

  /** All frames that a run emits, in order. */
  function Emitted(cfg: Config, captures: seq<nat>): seq<Out> {
    if captures == [] then []
    else
      var n := |captures| - 1;
      Emitted(cfg, captures[..n]) + Outs(cfg, Run(cfg, captures[..n]).0, captures[n])
  }

  /** The pool slots of the synthetic frames, in order. */
  function PoolSlots(outs: seq<Out>): seq<nat> {
    if outs == [] then []
    else
      var n := |outs| - 1;
      PoolSlots(outs[..n]) + if outs[n].Synthetic? then [outs[n].slot] else []
  }

  lemma {:induction false} PoolSlotsAppend(a: seq<Out>, b: seq<Out>)
    ensures PoolSlots(a + b) == PoolSlots(a) + PoolSlots(b)
  {
    if b == [] {
      assert a + b == a;
    } else {
      var n := |b| - 1;
      PoolSlotsAppend(a, b[..n]);
      assert (a + b)[..|a + b| - 1] == a + b[..n];
    }
  }

  ghost predicate InOrder(slots: seq<nat>, idx: nat, pool: nat)
    requires pool > 0
  {
    idx == TurnAt(0, pool, |slots|) && forall n :: 0 <= n < |slots| ==> slots[n] == TurnAt(0, pool, n)
  }

  /** The synthetic frames of a run use the pool in turn ... */
  lemma {:induction false} PoolInTurn(cfg: Config, captures: seq<nat>)
    ensures InOrder(PoolSlots(Emitted(cfg, captures)), Run(cfg, captures).0.idx, cfg.Pool())
  {
    if captures != [] {
      var n := |captures| - 1;
      PoolInTurn(cfg, captures[..n]);
      var s, before := Run(cfg, captures[..n]).0, Emitted(cfg, captures[..n]);
      PoolSlotsAppend(before, Outs(cfg, s, captures[n]));
      StepInOrder(cfg, s, captures[n], PoolSlots(before));
    }
  }

  lemma {:induction false} StepInOrder(cfg: Config, s: State, capture: nat, slots: seq<nat>)
    requires Good(cfg, s) && InOrder(slots, s.idx, cfg.Pool())
    ensures InOrder(slots + PoolSlots(Outs(cfg, s, capture)), Step(cfg, s, capture).idx, cfg.Pool())
  {
    var outs := Outs(cfg, s, capture);
    if Spans(s, capture) {
      var ticks := TicksOf(cfg, s, capture);
      StepSlots(ticks, |ticks|, Turn(s.idx, cfg.Pool()));
      assert outs[..|ticks|] == outs;
      JoinTurns(slots, PoolSlots(outs), s.idx, cfg.Pool());
    } else {
      assert PoolSlots(outs) == PoolSlots(outs[..0]) == [];
    }
  }

  lemma {:induction false} JoinTurns(a: seq<nat>, b: seq<nat>, idx: nat, pool: nat)
    requires pool > 0 && idx == TurnAt(0, pool, |a|)
    requires forall n :: 0 <= n < |a| ==> a[n] == TurnAt(0, pool, n)
    requires forall n :: 0 <= n < |b| ==> b[n] == TurnAt(idx, pool, n)
    ensures forall n :: 0 <= n < |a + b| ==> (a + b)[n] == TurnAt(0, pool, n)
    ensures TurnAt(idx, pool, |b|) == TurnAt(0, pool, |a + b|)
  {
    TurnOn(|a|, pool, |b|);
    forall n | |a| <= n < |a + b|
      ensures (a + b)[n] == TurnAt(0, pool, n)
    {
      TurnOn(|a|, pool, n - |a|);
    }
  }

  lemma {:induction false} StepSlots(ticks: seq<Tick>, k: nat, slot: nat -> nat)
    requires k <= |ticks|
    ensures var slots := PoolSlots(Emissions(ticks, slot)[..k]);
            && |slots| == (if k == |ticks| then Synthesized(ticks) else k)
            && forall n :: 0 <= n < |slots| ==> slots[n] == slot(n)
  {
    var outs := Emissions(ticks, slot);
    if k > 0 {
      StepSlots(ticks, k - 1, slot);
      assert outs[..k][..k - 1] == outs[..k - 1];
    }
  }

  lemma {:induction false} TurnOn(used: nat, pool: nat, n: nat)
    requires pool > 0
    ensures TurnAt(TurnAt(0, pool, used), pool, n) == TurnAt(0, pool, used + n)
  {
    if n > 0 {
      TurnOn(used, pool, n - 1);
    }
  }

  lemma {:induction false} TurnIsMod(pool: nat, n: nat)
    requires pool > 0
    ensures TurnAt(0, pool, n) == n % pool
  {
    if n > 0 {
      TurnIsMod(pool, n - 1);
      NextMod(n - 1, pool);
    }
  }

  lemma {:induction false} NextMod(n: nat, pool: nat)
    requires pool > 0
    ensures (n + 1) % pool == NextIdx(n % pool, pool)
  {
    var q, r := n / pool, n % pool;
    QuotientBounds(n, pool);
    Distribute(q, 1, pool);
    if r + 1 < pool {
      Remainder(n + 1, pool, q);
    } else {
      Remainder(n + 1, pool, q + 1);
    }
  }

  lemma {:induction false} Remainder(a: nat, b: nat, q: nat)
    requires b > 0 && q * b <= a < q * b + b
    ensures a % b == a - q * b
  {
    QuotientIs(a, b, q);
  }

  lemma {:induction false} PoolRoundRobin(cfg: Config, captures: seq<nat>, n: nat)
    requires n < |PoolSlots(Emitted(cfg, captures))|
    ensures PoolSlots(Emitted(cfg, captures))[n] == n % (2 * cfg.burst + 6)
  {
    PoolInTurn(cfg, captures);
    TurnIsMod(cfg.Pool(), n);
  }

  /** ... so no two among the last `Pool()` of them share a buffer. */
  lemma {:induction false} PoolNeverAliases(cfg: Config, captures: seq<nat>, m: nat, n: nat)
    requires m < n < m + (2 * cfg.burst + 6) && n < |PoolSlots(Emitted(cfg, captures))|
    ensures PoolSlots(Emitted(cfg, captures))[m] != PoolSlots(Emitted(cfg, captures))[n]
  {
    PoolRoundRobin(cfg, captures, m);
    PoolRoundRobin(cfg, captures, n);
    DistinctMod(m, n, 2 * cfg.burst + 6);
  }

  lemma {:induction false} DistinctMod(m: nat, n: nat, pool: nat)
    requires pool > 0 && m < n < m + pool
    ensures m % pool != n % pool
  {
    if m % pool == n % pool {
      QuotientBounds(m, pool);
      QuotientBounds(n, pool);
      assert (n / pool - m / pool) * pool == n - m;
      QuotientMono(m, n, pool);
      if n / pool > m / pool {
        MulMono(1, n / pool - m / pool, pool);
      }
    }
  }
}
