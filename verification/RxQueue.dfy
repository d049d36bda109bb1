/**
 The receiver's frame queue and buffer ring, as the interleaved steps of the polling thread, the consumer,
 and the operators downstream.
 */
module RxQueue {
  import opened Arithmetic
  import opened VideoFormat

  const FIRST_RING := 8
  const WINDOW := 32

  type Image = seq<Byte>

  /** `depth` is the queue depth asked for; `drain` sheds a standing queue; `octets` is the size of a frame. */
  datatype Config = Config(depth: nat, drain: bool, octets: nat) {
    function MaxQ(): nat {
      if depth < 2 then 2 else depth
    }

    function Blank(): Image {
      seq(octets, i => 0)
    }
  }

  /** A completed frame: its number, the ring slot of its buffer, and what the buffer held on completion. */
  datatype Frame = Frame(number: nat, buf: nat, image: Image)

  /**
   The polling thread fills a buffer, or has looked at `k` slots of the ring from `first` on for a free one.
   While it looks it still refers to the buffer it completed; `held` are the slots in use as it began to look.
   */
  datatype Poll =
    | Filling(cur: nat)
    | Scanning(finished: Option<nat>, first: nat, k: nat, held: set<nat>)

  /** The least queue depth seen in the window, and the completions in it so far. */
  datatype Governor = Governor(least: Option<nat>, count: nat)

  /** `downstream` has one element for every reference that an operator holds to a popped frame. */
  datatype Rx = Rx(
    ring: seq<Image>, idx: nat, poll: Poll, queue: seq<Frame>, downstream: multiset<Frame>,
    frames: nat, emitted: seq<Frame>, dropped: nat, drained: nat, gov: Governor)

  function Init(cfg: Config): Rx {
    Rx(seq(FIRST_RING, i => cfg.Blank()), 0, Scanning(None, 0, 0, {}), [], multiset{}, 0, [], 0, 0, Governor(None, 0))
  }

  // ----- References to a buffer -----

  function Bufs(fs: set<Frame>): set<nat> {
    set f | f in fs :: f.buf
  }

  /** The frames that someone refers to. */
  function Live(s: Rx): set<Frame> {
    (set f | f in s.queue) + (set f | f in s.downstream)
  }

  function PollRefs(p: Poll): set<nat> {
    match p
    case Filling(cur) => {cur}
    case Scanning(finished, _, _, _) => if finished.Some? then {finished.value} else {}
  }

  /** The slots that something besides the ring refers to: those with a use count above one. */
  function Held(s: Rx): set<nat> {
    PollRefs(s.poll) + Bufs(Live(s))
  }

  // ----- Steps -----

  datatype Step =
    | Write(image: Image)
    | Complete
    | Check
    | Grow
    | Pop
    | Copy(f: Frame)
    | Release(f: Frame)

  /** One completion in the drain window: the governor after it, and whether the oldest frame is shed. */
  function Govern(cfg: Config, g: Governor, size: nat): (Governor, bool) {
    if !cfg.drain then (g, false)
    else
      var least := if g.least.Some? && g.least.value < size then g.least.value else size;
      if g.count + 1 >= WINDOW then (Governor(None, 0), least >= 2 && size > 0)
      else (Governor(Some(least), g.count + 1), false)
  }

  /** The section under the queue's lock: shed the oldest frame of a standing queue, then push or drop the new one. */
  function Enqueue(cfg: Config, s: Rx, f: Frame): Rx {
    var (gov, shed) := Govern(cfg, s.gov, |s.queue|);
    var q := if shed && s.queue != [] then s.queue[1..] else s.queue;
    var drained := if shed && s.queue != [] then s.drained + 1 else s.drained;
    if |q| < cfg.MaxQ() then s.(queue := q + [f], drained := drained, gov := gov)
    else s.(queue := q, drained := drained, dropped := s.dropped + 1, gov := gov)
  }

  function WriteStep(cfg: Config, s: Rx, image: Image): Option<Rx> {
    if s.poll.Filling? && s.poll.cur < |s.ring| && |image| == cfg.octets then
      Some(s.(ring := s.ring[s.poll.cur := image]))
    else None
  }

  function CompleteStep(cfg: Config, s: Rx): Option<Rx> {
    if s.poll.Filling? && s.poll.cur < |s.ring| then
      var q := Enqueue(cfg, s, Frame(s.frames, s.poll.cur, s.ring[s.poll.cur]));
      Some(q.(frames := s.frames + 1, poll := Scanning(Some(s.poll.cur), s.idx, 0, Held(q))))
    else None
  }

  /** Look at one slot: take it if only the ring refers to it, else go on. */
  function CheckStep(s: Rx): Option<Rx> {
    if s.poll.Scanning? && s.poll.k < |s.ring| then
      Some(s.(idx := NextIdx(s.idx, |s.ring|),
              poll := if s.idx in Held(s) then s.poll.(k := s.poll.k + 1) else Filling(s.idx)))
    else None
  }

  function GrowStep(cfg: Config, s: Rx): Option<Rx> {
    if s.poll.Scanning? && s.poll.k >= |s.ring| then Some(s.(ring := s.ring + [cfg.Blank()], poll := Filling(|s.ring|)))
    else None
  }

  function PopStep(s: Rx): Option<Rx> {
    if s.queue == [] then None
    else Some(s.(queue := s.queue[1..], emitted := s.emitted + [s.queue[0]],
                 downstream := s.downstream + multiset{s.queue[0]}))
  }

  function Apply(cfg: Config, s: Rx, step: Step): Option<Rx> {
    match step
    case Write(image) => WriteStep(cfg, s, image)
    case Complete => CompleteStep(cfg, s)
    case Check => CheckStep(s)
    case Grow => GrowStep(cfg, s)
    case Pop => PopStep(s)
    case Copy(f) => if f in s.downstream then Some(s.(downstream := s.downstream + multiset{f})) else None
    case Release(f) => if f in s.downstream then Some(s.(downstream := s.downstream - multiset{f})) else None
  }

  /** The state after the steps, in whatever order the threads take them; None if one of them cannot happen. */
  function Run(cfg: Config, steps: seq<Step>): Option<Rx> {
    if steps == [] then Some(Init(cfg))
    else
      var before := Run(cfg, steps[..|steps| - 1]);
      if before.None? then None else Apply(cfg, before.value, steps[|steps| - 1])
  }

  // ----- What every run keeps -----

  /** Every live frame's buffer is in the ring and still holds the frame; no two live frames share a buffer. */
  ghost predicate Intact(s: Rx) {
    && (forall f :: f in Live(s) ==> f.buf < |s.ring| && s.ring[f.buf] == f.image)
    && (forall f, g :: f in Live(s) && g in Live(s) && f.buf == g.buf ==> f == g)
  }

  /** The buffer being filled is in the ring, and nobody else refers to it. */
  ghost predicate Exclusive(s: Rx) {
    s.poll.Filling? ==> s.poll.cur < |s.ring| && s.poll.cur !in Bufs(Live(s))
  }

  ghost predicate Increasing(fs: seq<Frame>, below: nat) {
    && (forall i :: 0 <= i < |fs| ==> fs[i].number < below)
    && (forall i, j :: 0 <= i < j < |fs| ==> fs[i].number < fs[j].number)
  }

  /** Frames leave and queue in the order of completion, and none is lost or made up. */
  ghost predicate Accounted(cfg: Config, s: Rx) {
    && Increasing(s.emitted + s.queue, s.frames)
    && s.frames == |s.emitted| + |s.queue| + s.dropped + s.drained
    && |s.queue| <= cfg.MaxQ()
    && (forall f :: f in s.downstream ==> f in s.emitted)
  }

  /** Slot `j` of a scan that began at `first`. */
  function ScanSlot(first: nat, n: nat, j: nat): nat {
    if first + j < n then first + j else if first + j >= n + n then 0 else first + j - n
  }

  /** A scan goes round the ring in order, and what it passed over was in use when it began. */
  ghost predicate ScanOk(s: Rx) {
    && s.idx < |s.ring|
    && (s.poll.Scanning? ==>
          && s.poll.first < |s.ring| && s.poll.k <= |s.ring|
          && s.idx == ScanSlot(s.poll.first, |s.ring|, s.poll.k)
          && Held(s) <= s.poll.held
          && (s.poll.finished.Some? ==> s.poll.finished.value < |s.ring|)
          && forall j :: 0 <= j < s.poll.k ==> ScanSlot(s.poll.first, |s.ring|, j) in s.poll.held)
  }

  ghost predicate Inv(cfg: Config, s: Rx) {
    Intact(s) && Exclusive(s) && Accounted(cfg, s) && ScanOk(s)
  }

  lemma {:induction false} InvRun(cfg: Config, steps: seq<Step>)
    requires Run(cfg, steps).Some?
    ensures Inv(cfg, Run(cfg, steps).value)
  {
    if steps != [] {
      var n := |steps| - 1;
      InvRun(cfg, steps[..n]);
      InvStep(cfg, Run(cfg, steps[..n]).value, steps[n]);
    }
  }

  lemma {:induction false} InvStep(cfg: Config, s: Rx, step: Step)
    requires Inv(cfg, s) && Apply(cfg, s, step).Some?
    ensures Inv(cfg, Apply(cfg, s, step).value)
  {
    match step
    case Write(_) => InvPoll(cfg, s, step);
    case Complete => InvComplete(cfg, s);
    case Check => InvPoll(cfg, s, step);
    case Grow => InvPoll(cfg, s, step);
    case Pop => InvPop(cfg, s);
    case Copy(f) => InvHold(cfg, s, step);
    case Release(f) => InvHold(cfg, s, step);
  }

  /** The polling thread's own steps leave the frames alone. */
  lemma {:induction false} InvPoll(cfg: Config, s: Rx, step: Step)
    requires Inv(cfg, s) && (step.Write? || step.Check? || step.Grow?) && Apply(cfg, s, step).Some?
    ensures Inv(cfg, Apply(cfg, s, step).value)
  {
    var s' := Apply(cfg, s, step).value;
    assert Live(s') == Live(s);
  }

  lemma {:induction false} InvHold(cfg: Config, s: Rx, step: Step)
    requires Inv(cfg, s) && (step.Copy? || step.Release?) && Apply(cfg, s, step).Some?
    ensures Inv(cfg, Apply(cfg, s, step).value)
  {
    assert Live(Apply(cfg, s, step).value) <= Live(s);
  }

  lemma {:induction false} InvPop(cfg: Config, s: Rx)
    requires Inv(cfg, s) && PopStep(s).Some?
    ensures Inv(cfg, PopStep(s).value)
  {
    var s' := PopStep(s).value;
    assert s.queue == [s.queue[0]] + s.queue[1..];
    assert s'.emitted + s'.queue == s.emitted + s.queue;
    assert Live(s') == Live(s);
  }

  lemma {:induction false} InvComplete(cfg: Config, s: Rx)
    requires Inv(cfg, s) && CompleteStep(cfg, s).Some?
    ensures Inv(cfg, CompleteStep(cfg, s).value)
  {
    var f := Frame(s.frames, s.poll.cur, s.ring[s.poll.cur]);
    var q := Enqueue(cfg, s, f);
    EnqueueAccounts(cfg, s, f);
    forall g | g in Live(q)
      ensures g == f || g in Live(s)
    {
    }
    IntactCompletes(s, f, q);
    assert Live(CompleteStep(cfg, s).value) == Live(q);
  }

  lemma {:induction false} IntactCompletes(s: Rx, f: Frame, q: Rx)
    requires Intact(s) && Exclusive(s) && s.poll.Filling? && f.buf == s.poll.cur && f.image == s.ring[f.buf]
    requires q.ring == s.ring && forall g :: g in Live(q) ==> g == f || g in Live(s)
    ensures Intact(q)
  {
    forall g | g in Live(s)
      ensures g.buf in Bufs(Live(s))
    {
    }
  }

  /** The new frame goes to the end of the queue or is dropped, and the oldest is shed or not: all are counted. */
  lemma {:induction false} EnqueueAccounts(cfg: Config, s: Rx, f: Frame)
    requires Accounted(cfg, s) && f.number == s.frames
    ensures Accounted(cfg, Enqueue(cfg, s, f).(frames := s.frames + 1))
  {
    var (gov, shed) := Govern(cfg, s.gov, |s.queue|);
    if shed && s.queue != [] {
      IncreasingShed(s.emitted, s.queue, s.frames);
      IncreasingWith(s.emitted, s.queue[1..], f);
    } else {
      IncreasingWith(s.emitted, s.queue, f);
    }
  }

  lemma {:induction false} IncreasingShed(a: seq<Frame>, q: seq<Frame>, below: nat)
    requires q != [] && Increasing(a + q, below)
    ensures Increasing(a + q[1..], below)
  {
    assert a + q == a + [q[0]] + q[1..];
    IncreasingWithout(a, q[0], q[1..], below);
  }

  lemma {:induction false} IncreasingWith(a: seq<Frame>, b: seq<Frame>, f: Frame)
    requires Increasing(a + b, f.number)
    ensures Increasing(a + b, f.number + 1) && Increasing(a + (b + [f]), f.number + 1)
  {
    assert a + (b + [f]) == a + b + [f];
  }

  lemma {:induction false} IncreasingWithout(a: seq<Frame>, x: Frame, b: seq<Frame>, below: nat)
    requires Increasing(a + [x] + b, below)
    ensures Increasing(a + b, below)
  {
    var all, kept := a + [x] + b, a + b;
    forall i | 0 <= i < |kept|
      ensures kept[i] == all[if i < |a| then i else i + 1]
    {
    }
    forall i, j | 0 <= i < j < |kept|
      ensures kept[i].number < kept[j].number
    {
      var i', j' := if i < |a| then i else i + 1, if j < |a| then j else j + 1;
      assert all[i'].number < all[j'].number;
    }
  }

  // ----- How far the ring grows -----

  function DownstreamBufs(s: Rx): set<nat> {
    Bufs(set f | f in s.downstream)
  }

  /** The most slots that the ring needs when the operators downstream refer to at most `d` buffers. */
  function RingLimit(cfg: Config, d: nat): nat {
    if cfg.MaxQ() + d + 2 < 8 then 8 else cfg.MaxQ() + d + 2
  }

  ghost predicate RingOk(cfg: Config, s: Rx, d: nat) {
    && 8 <= |s.ring| <= RingLimit(cfg, d)
    && (s.poll.Scanning? ==> |s.poll.held| <= cfg.MaxQ() + d + 1)
  }

  /** A scan that has gone all the way round found every slot of the ring in use when it began. */
  lemma {:induction false} GrowsOnlyWhenFull(cfg: Config, s: Rx)
    requires Inv(cfg, s) && GrowStep(cfg, s).Some?
    ensures forall slot :: 0 <= slot < |s.ring| ==> slot in s.poll.held
    ensures |s.ring| <= |s.poll.held|
  {
    var first, n := s.poll.first, |s.ring|;
    forall slot | 0 <= slot < n
      ensures slot in s.poll.held
    {
      var j := if slot >= first then slot - first else slot + n - first;
      assert ScanSlot(first, n, j) == slot;
    }
    Subset(Slots(n), s.poll.held);
  }

  function Slots(n: nat): (slots: set<nat>)
    ensures |slots| == n && forall i :: i in slots <==> 0 <= i < n
  {
    if n == 0 then {} else Slots(n - 1) + {n - 1}
  }

  lemma {:induction false} Subset<T>(a: set<T>, b: set<T>)
    requires a <= b
    ensures |a| <= |b|
  {
    assert b == a + (b - a);
  }

  /** A frame set needs no more buffers than it has frames, and a queue no more than it is long. */
  lemma {:induction false} FewBufs(q: seq<Frame>)
    ensures |Bufs(set f | f in q)| <= |q|
  {
    if q == [] {
      assert Bufs(set f | f in q) == {};
    } else {
      FewBufs(q[1..]);
      assert (set f | f in q) == {q[0]} + (set f | f in q[1..]);
      assert Bufs(set f | f in q) == {q[0].buf} + Bufs(set f | f in q[1..]);
    }
  }

  lemma {:induction false} FewHeld(s: Rx, d: nat)
    requires |DownstreamBufs(s)| <= d
    ensures |PollRefs(s.poll)| <= 1 && |Held(s)| <= 1 + |s.queue| + d
  {
    FewBufs(s.queue);
    assert Held(s) == PollRefs(s.poll) + (Bufs(set f | f in s.queue) + DownstreamBufs(s));
  }

  /**
   Whatever the interleaving, as long as the operators downstream never refer to more than `d` buffers at once
   the ring stays within the queue's depth plus `d` plus two.
   */
  lemma {:induction false} RingBounded(cfg: Config, steps: seq<Step>, d: nat)
    requires Run(cfg, steps).Some?
    requires forall i :: 0 <= i <= |steps| && Run(cfg, steps[..i]).Some? ==>
               |DownstreamBufs(Run(cfg, steps[..i]).value)| <= d
    ensures RingOk(cfg, Run(cfg, steps).value, d)
  {
    if steps != [] {
      var n := |steps| - 1;
      forall i | 0 <= i <= n && Run(cfg, steps[..n][..i]).Some?
        ensures |DownstreamBufs(Run(cfg, steps[..n][..i]).value)| <= d
      {
        assert steps[..n][..i] == steps[..i];
      }
      RingBounded(cfg, steps[..n], d);
      InvRun(cfg, steps[..n]);
      assert steps[..n + 1] == steps;
      RingStep(cfg, Run(cfg, steps[..n]).value, steps[n], d);
    }
  }

  lemma {:induction false} RingStep(cfg: Config, s: Rx, step: Step, d: nat)
    requires Inv(cfg, s) && RingOk(cfg, s, d) && Apply(cfg, s, step).Some?
    requires |DownstreamBufs(Apply(cfg, s, step).value)| <= d
    ensures RingOk(cfg, Apply(cfg, s, step).value, d)
  {
    if step.Grow? {
      GrowsOnlyWhenFull(cfg, s);
    } else if step.Complete? {
      var q := Enqueue(cfg, s, Frame(s.frames, s.poll.cur, s.ring[s.poll.cur]));
      EnqueueAccounts(cfg, s, Frame(s.frames, s.poll.cur, s.ring[s.poll.cur]));
      assert DownstreamBufs(q) == DownstreamBufs(Apply(cfg, s, step).value);
      FewHeld(q, d);
    }
  }

  // ----- The drain governor -----

  /** The governor after a run of completions that saw these queue depths, and whether the last one shed a frame. */
  function GovernAll(cfg: Config, sizes: seq<nat>): (Governor, bool) {
    if sizes == [] then (Governor(None, 0), false)
    else Govern(cfg, GovernAll(cfg, sizes[..|sizes| - 1]).0, sizes[|sizes| - 1])
  }

  ghost predicate LeastOf(least: Option<nat>, sizes: seq<nat>) {
    && (least.None? <==> sizes == [])
    && (least.Some? ==> least.value in sizes && forall i :: 0 <= i < |sizes| ==> least.value <= sizes[i])
  }

  /** No completion saw fewer than two queued frames. */
  ghost predicate Standing(sizes: seq<nat>) {
    forall i :: 0 <= i < |sizes| ==> sizes[i] >= 2
  }

  lemma {:induction false} GovernStep(cfg: Config, g: Governor, window: seq<nat>, size: nat)
    requires cfg.drain && g.count == |window| < WINDOW && LeastOf(g.least, window)
    ensures var (g', shed) := Govern(cfg, g, size);
            var full := |window| + 1 == WINDOW;
            && g'.count == (if full then 0 else |window| + 1)
            && LeastOf(g'.least, if full then [] else window + [size])
            && (shed <==> full && Standing(window + [size]))
  {
    var least := if g.least.Some? && g.least.value < size then g.least.value else size;
    assert (window + [size])[|window|] == size;
    assert LeastOf(Some(least), window + [size]);
  }

  /** The depths seen in the window that is still open. */
  function OpenWindow(sizes: seq<nat>): (w: seq<nat>)
    ensures |w| < WINDOW
  {
    if sizes == [] then []
    else
      var w := OpenWindow(sizes[..|sizes| - 1]) + [sizes[|sizes| - 1]];
      if |w| == WINDOW then [] else w
  }

  /** The governor counts the completions of the open window and knows its least depth. */
  lemma {:induction false} GovernsWindow(cfg: Config, sizes: seq<nat>)
    requires cfg.drain
    ensures var g := GovernAll(cfg, sizes).0;
            g.count == |OpenWindow(sizes)| && LeastOf(g.least, OpenWindow(sizes))
  {
    if sizes != [] {
      var n := |sizes| - 1;
      GovernsWindow(cfg, sizes[..n]);
      GovernStep(cfg, GovernAll(cfg, sizes[..n]).0, OpenWindow(sizes[..n]), sizes[n]);
    }
  }

  /** The open window is what is left over after whole windows of 32. */
  lemma {:induction false} OpenWindowIs(sizes: seq<nat>)
    ensures |OpenWindow(sizes)| == |sizes| % WINDOW
    ensures OpenWindow(sizes) == sizes[|sizes| - |OpenWindow(sizes)|..]
  {
    if sizes != [] {
      var n := |sizes| - 1;
      OpenWindowIs(sizes[..n]);
      NextCount(n);
      WindowOf(sizes, |OpenWindow(sizes[..n])|);
    }
  }

  lemma {:induction false} WindowOf(sizes: seq<nat>, count: nat)
    requires count < |sizes|
    ensures var n := |sizes| - 1;
            && sizes[..n][n - count..] == sizes[n - count..n]
            && sizes[n - count..] == sizes[n - count..n] + [sizes[n]]
            && sizes[|sizes|..] == []
  {
  }

  /** A frame is shed exactly at the end of a window of 32 completions none of which saw the queue below two. */
  lemma {:induction false} ShedsStandingQueue(cfg: Config, sizes: seq<nat>)
    requires cfg.drain && sizes != []
    ensures GovernAll(cfg, sizes).1
       <==> |sizes| >= 32 && |sizes| % 32 == 0 && Standing(sizes[|sizes| - 32..])
  {
    var n := |sizes| - 1;
    var window := OpenWindow(sizes[..n]);
    GovernsWindow(cfg, sizes[..n]);
    GovernStep(cfg, GovernAll(cfg, sizes[..n]).0, window, sizes[n]);
    OpenWindowIs(sizes[..n]);
    NextCount(n);
    WindowOf(sizes, |window|);
  }

  lemma {:induction false} NextCount(n: nat)
    ensures (n + 1) % WINDOW == if n % WINDOW + 1 == WINDOW then 0 else n % WINDOW + 1
  {
  }

  /** At most one frame is shed for every 32 completed. */
  lemma {:induction false} DrainIsRare(cfg: Config, steps: seq<Step>)
    requires Run(cfg, steps).Some?
    ensures var s := Run(cfg, steps).value;
            s.gov.count < 32 && 32 * s.drained + s.gov.count <= s.frames
  {
    if steps != [] {
      var n := |steps| - 1;
      DrainIsRare(cfg, steps[..n]);
      DrainStep(cfg, Run(cfg, steps[..n]).value, steps[n]);
    }
  }

  lemma {:induction false} DrainStep(cfg: Config, s: Rx, step: Step)
    requires s.gov.count < WINDOW && WINDOW * s.drained + s.gov.count <= s.frames && Apply(cfg, s, step).Some?
    ensures var s' := Apply(cfg, s, step).value;
            s'.gov.count < WINDOW && WINDOW * s'.drained + s'.gov.count <= s'.frames
  {
  }

  /** How long the queue was as each frame was completed. */
  function Depths(cfg: Config, steps: seq<Step>): seq<nat> {
    if steps == [] then []
    else
      var n := |steps| - 1;
      var before := Run(cfg, steps[..n]);
      Depths(cfg, steps[..n]) + if steps[n].Complete? && before.Some? then [|before.value.queue|] else []
  }

  lemma {:induction false} GovernorRuns(cfg: Config, steps: seq<Step>)
    requires Run(cfg, steps).Some?
    ensures var s := Run(cfg, steps).value;
            s.gov == GovernAll(cfg, Depths(cfg, steps)).0 && s.frames == |Depths(cfg, steps)|
  {
    if steps != [] {
      var n := |steps| - 1;
      GovernorRuns(cfg, steps[..n]);
      var s := Run(cfg, steps[..n]).value;
      StepGoverns(cfg, s, steps[n]);
      OneMoreDepth(cfg, Depths(cfg, steps[..n]), |s.queue|);
    }
  }

  /** Only a completion moves the governor, by the queue's length. */
  lemma {:induction false} StepGoverns(cfg: Config, s: Rx, step: Step)
    requires Apply(cfg, s, step).Some?
    ensures var s' := Apply(cfg, s, step).value;
            && s'.gov == (if step.Complete? then Govern(cfg, s.gov, |s.queue|).0 else s.gov)
            && s'.frames == (if step.Complete? then s.frames + 1 else s.frames)
            && (step.Complete? ==>
                  s'.drained == s.drained + if Govern(cfg, s.gov, |s.queue|).1 then 1 else 0)
  {
  }

  lemma {:induction false} OneMoreDepth(cfg: Config, depths: seq<nat>, depth: nat)
    ensures GovernAll(cfg, depths + [depth]) == Govern(cfg, GovernAll(cfg, depths).0, depth)
    ensures depths + [] == depths
  {
    assert (depths + [depth])[..|depths|] == depths;
  }

  /**
   Over any interleaving: completing a frame sheds the oldest one exactly if draining is on and this is the last of
   32 completions none of which saw fewer than two frames queued.
   */
  lemma {:induction false} DrainsExactlyWhen(cfg: Config, steps: seq<Step>)
    requires Run(cfg, steps).Some? && CompleteStep(cfg, Run(cfg, steps).value).Some?
    ensures var s := Run(cfg, steps).value;
            CompleteStep(cfg, s).value.drained
            == s.drained + if cfg.drain && StoodForAWindow(Depths(cfg, steps) + [|s.queue|]) then 1 else 0
  {
    var s := Run(cfg, steps).value;
    GovernorRuns(cfg, steps);
    StepGoverns(cfg, s, Complete);
    OneMoreDepth(cfg, Depths(cfg, steps), |s.queue|);
    if cfg.drain {
      ShedsStandingQueue(cfg, Depths(cfg, steps) + [|s.queue|]);
    }
  }

  /** The completions come to whole windows of 32, and none of the last window saw fewer than two queued frames. */
  ghost predicate StoodForAWindow(depths: seq<nat>) {
    |depths| >= 32 && |depths| % 32 == 0 && Standing(depths[|depths| - 32..])
  }

  /**
   A completed frame goes to the end of the queue if that has room for it, which is `depth` frames but at least two,
   once the oldest is shed or not; else it is dropped, and nothing else moves.
   */
  lemma {:induction false} DropsOnlyWhenFull(cfg: Config, s: Rx)
    requires CompleteStep(cfg, s).Some?
    ensures var s', f := CompleteStep(cfg, s).value, Frame(s.frames, s.poll.cur, s.ring[s.poll.cur]);
            var shed := s'.drained - s.drained;
            && 0 <= shed <= 1 && shed <= |s.queue|
            && (|s.queue| - shed < cfg.depth || |s.queue| - shed < 2 ==>
                  s'.queue == s.queue[shed..] + [f] && s'.dropped == s.dropped)
            && (|s.queue| - shed >= cfg.depth && |s.queue| - shed >= 2 ==>
                  s'.queue == s.queue[shed..] && s'.dropped == s.dropped + 1)
            && s'.emitted == s.emitted && s'.downstream == s.downstream && s'.ring == s.ring
  {
  }

  // ----- The receiver's own form -----

  /** The queue between the polling thread and the consumer; each method runs under its lock. */
  class FrameQueue {
    const cfg: Config
    var frames: seq<Frame>
    var dropped: nat
    var drained: nat
    var winMin: Option<nat>
    var winCount: nat

    constructor (cfg: Config)
      ensures this.cfg == cfg && frames == [] && dropped == drained == winCount == 0 && winMin == None
    {
      this.cfg := cfg;
      frames, dropped, drained, winMin, winCount := [], 0, 0, None, 0;
    }

    predicate Shows(s: Rx)
      reads this
    {
      && frames == s.queue && dropped == s.dropped && drained == s.drained
      && Governor(winMin, winCount) == s.gov
    }

    method Push(f: Frame, ghost s: Rx)
      requires Shows(s)
      modifies this
      ensures Shows(Enqueue(cfg, s, f))
    {
      if cfg.drain {
        if winMin.None? || |frames| < winMin.value { winMin := Some(|frames|); }
        winCount := winCount + 1;
        if winCount >= WINDOW {
          if winMin.value >= 2 && frames != [] {
            frames, drained := frames[1..], drained + 1;
          }
          winCount, winMin := 0, None;
        }
      }
      if |frames| < cfg.MaxQ() {
        frames := frames + [f];
      } else {
        dropped := dropped + 1;
      }
    }

    method PopFront(ghost s: Rx) returns (r: Option<Frame>)
      requires Shows(s)
      modifies this
      ensures r.Some? <==> PopStep(s).Some?
      ensures Shows(if r.Some? then PopStep(s).value else s)
      ensures r.Some? ==> PopStep(s).value.emitted == s.emitted + [r.value]
    {
      if frames == [] { return None; }
      r := Some(frames[0]);
      frames := frames[1..];
    }
  }
}
