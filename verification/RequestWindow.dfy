/** The batched log against the plain sliding window it stands for, over single operations and runs. */
module RequestWindow {
  import opened Records
  import opened Keys
  import opened RequestLog

  // ----- the plain window -----

  /** The timestamps newer than the cutoff. */
  function Newer(ts: seq<int>, cutoff: int): seq<int> {
    if ts == [] then []
    else if ts[0] > cutoff then [ts[0]] + Newer(ts[1..], cutoff)
    else Newer(ts[1..], cutoff)
  }

  lemma {:induction false} AllNewer(ts: seq<int>, cutoff: int)
    requires forall i :: 0 <= i < |ts| ==> ts[i] > cutoff
    ensures Newer(ts, cutoff) == ts
  {
    if ts != [] { AllNewer(ts[1..], cutoff); }
  }

  lemma {:induction false} NewerIsSuffix(ts: seq<int>, cutoff: int)
    requires NonDecreasing(ts)
    ensures Newer(ts, cutoff) == SuffixAfter(ts, cutoff)
  {
    if ts == [] {
    } else if ts[0] > cutoff {
      AllNewer(ts, cutoff);
    } else {
      NewerIsSuffix(ts[1..], cutoff);
    }
  }

  lemma {:induction false} NewerLength(ts: seq<int>, cutoff: int)
    ensures |Newer(ts, cutoff)| <= |ts|
    ensures |Newer(ts, cutoff)| == |ts| <==> forall i :: 0 <= i < |ts| ==> ts[i] > cutoff
  {
    if ts != [] {
      NewerLength(ts[1..], cutoff);
      assert forall i :: 0 < i < |ts| ==> ts[i] == ts[1..][i - 1];
    }
  }

  lemma {:induction false} NewerSkips(ts: seq<int>, cutoff: int)
    ensures Newer(ts, cutoff) == Newer(SuffixAfter(ts, cutoff), cutoff)
  {
    if ts != [] && ts[0] <= cutoff {
      NewerSkips(ts[1..], cutoff);
      assert SuffixAfter(ts, cutoff) == SuffixAfter(ts[1..], cutoff);
    }
  }

  /** What must hold of the survivors for a clean to be the plain window: they are all inside it, the
      batch that is cut starts whole seconds from the window's edge, and no survivor in it lies 2^32
      seconds after that. */
  ghost predicate PlainClean(bs: seq<Batch>, cutoff: int) {
    var n := CutBatch(bs, cutoff);
    n == |bs|
    || (&& AllInside(SuffixAfter(AllTimes(bs), cutoff), cutoff)
        && WholeSeconds(bs[n].start, cutoff) && CutInRange(bs, cutoff))
  }

  predicate AllInside(ts: seq<int>, cutoff: int) { forall i :: 0 <= i < |ts| ==> ts[i] > cutoff }

  lemma RebasedSame(ts: seq<int>, m: nat, d: int, cutoff: int)
    requires 0 <= d < SEC && 0 < m <= |ts| && forall i :: 0 <= i < m ==> OnGrid(ts[i], d, cutoff)
    ensures RebasedFirst(ts, m, d, cutoff) == ts <==> d == 0 && forall i :: 0 <= i < m ==> InRange(ts[i], cutoff)
  {
    forall i | 0 <= i < m ensures Rebased(ts[i], d, cutoff) == ts[i] <==> d == 0 && InRange(ts[i], cutoff) {
      RebasedExact(ts[i], d, cutoff);
    }
    var r := RebasedFirst(ts, m, d, cutoff);
    assert r == ts ==> r[0] == ts[0];
    assert r == ts ==> forall i :: 0 <= i < m ==> r[i] == ts[i];
  }

  /** A clean yields exactly the timestamps newer than the cutoff if and only if nothing survives, or
      the survivors are all inside the window and the cut batch starts whole seconds from its edge,
      within 2^32 seconds. Nothing is assumed of the order of batches or entries. */
  lemma CleanIsExact(bs: seq<Batch>, cutoff: int)
    ensures AllTimes(Cleaned(bs, cutoff)) == Newer(AllTimes(bs), cutoff) <==> PlainClean(bs, cutoff)
  {
    var ts := AllTimes(bs);
    var survivors := SuffixAfter(ts, cutoff);
    CleanRebases(bs, cutoff);
    NewerSkips(ts, cutoff);
    NewerLength(survivors, cutoff);
    ShiftIsZero(bs, cutoff);
    if survivors != [] && AllInside(survivors, cutoff) {
      AllNewer(survivors, cutoff);
      CutUnmoved(bs, cutoff);
    }
  }

  lemma CutUnmoved(bs: seq<Batch>, cutoff: int)
    requires SuffixAfter(AllTimes(bs), cutoff) != []
    ensures var survivors := SuffixAfter(AllTimes(bs), cutoff);
            var d := FirstShift(survivors, cutoff);
            RebasedFirst(survivors, CutLength(bs, cutoff), d, cutoff) == survivors <==> d == 0 && CutInRange(bs, cutoff)
  {
    var survivors, m := SuffixAfter(AllTimes(bs), cutoff), CutLength(bs, cutoff);
    CutLengthFits(bs, cutoff);
    forall i | 0 <= i < m ensures OnGrid(survivors[i], FirstShift(survivors, cutoff), cutoff) {
      SameGrid(bs, cutoff, i);
    }
    RebasedSame(survivors, m, FirstShift(survivors, cutoff), cutoff);
  }

  /** For batches in time order, a clean leaves the timestamps inside the window, those in the batch of
      the first one moved back together by its sub-second distance from the window's edge; nothing
      moves exactly when nothing is left or that batch starts whole seconds from the edge. */
  lemma CleanIsWindow(bs: seq<Batch>, cutoff: int)
    requires InOrder(bs, cutoff)
    ensures var inside, n := Newer(AllTimes(bs), cutoff), CutBatch(bs, cutoff);
            && AllTimes(Cleaned(bs, cutoff)) == ShiftedFirst(inside, CutLength(bs, cutoff), FirstShift(inside, cutoff))
            && (AllTimes(Cleaned(bs, cutoff)) == inside <==> n == |bs| || WholeSeconds(bs[n].start, cutoff))
  {
    InOrderInBatches(bs, cutoff);
    InBatchOrderInRange(bs, cutoff);
    CleanIsSuffix(bs, cutoff);
    NewerIsSuffix(AllTimes(bs), cutoff);
    NewerLength(SuffixAfter(AllTimes(bs), cutoff), cutoff);
    NewerSkips(AllTimes(bs), cutoff);
    CleanIsExact(bs, cutoff);
  }

  // ----- batch size -----

  lemma AddKeepsBound(bs: seq<Batch>, t: int)
    requires Bounded(bs)
    ensures Bounded(Added(bs, t))
  {}

  lemma {:induction false} CleanKeepsBound(bs: seq<Batch>, cutoff: int)
    requires Bounded(bs)
    ensures Bounded(Cleaned(bs, cutoff))
  {
    if bs != [] {
      CleanKeepsBound(bs[1..], cutoff);
    }
  }

  // ----- runs -----

  /** A reload gives back some of the batches, in another order: those of the given places. */
  datatype Op = Request(t: int) | Clean(cutoff: int) | Reload(order: seq<nat>)

  /** Distinct places of a list of n. */
  predicate Selection(order: seq<nat>, n: nat) {
    && (forall i :: 0 <= i < |order| ==> order[i] < n)
    && (forall i, j :: 0 <= i < j < |order| ==> order[i] != order[j])
  }

  function Selected<T>(xs: seq<T>, order: seq<nat>): (r: seq<T>)
    requires Selection(order, |xs|)
    ensures |r| == |order|
  {
    seq(|order|, i requires 0 <= i < |order| => xs[order[i]])
  }

  /** An order that is no selection changes nothing. */
  function Step(bs: seq<Batch>, op: Op): seq<Batch> {
    match op
    case Request(t) => Added(bs, t)
    case Clean(c) => Cleaned(bs, c)
    case Reload(order) => if Selection(order, |bs|) then Selected(bs, order) else bs
  }

  /** The log after a run. */
  function LogAfter(bs: seq<Batch>, ops: seq<Op>): seq<Batch>
    decreases |ops|
  {
    if ops == [] then bs else LogAfter(Step(bs, ops[0]), ops[1..])
  }

  /** A request is not before the times of the batch it joins nor before its start, and no clock is
      2^32 seconds ahead of another. */
  ghost predicate Timely(bs: seq<Batch>, op: Op) {
    match op
    case Request(t) => StartsBatch(bs) || Joins(bs[|bs| - 1], t)
    case Clean(c) => CutBatch(bs, c) < |bs| ==> WithinHorizon(Times(bs[CutBatch(bs, c)]), c)
    case Reload(order) => Selection(order, |bs|)
  }

  predicate Joins(b: Batch, t: int) {
    0 <= t - b.start < U32 * SEC && (b.data != [] ==> TimeAt(b, |b.data| - 1) <= t)
  }

  ghost predicate TimelyRun(bs: seq<Batch>, ops: seq<Op>)
    decreases |ops|
  {
    ops == [] || (Timely(bs, ops[0]) && TimelyRun(Step(bs, ops[0]), ops[1..]))
  }

  /** When a held request was made, and how many cleans it has survived. */
  datatype Mark = Mark(made: int, cleans: nat)

  /** A batch, with a mark for each of its entries. */
  datatype Held = Held(batch: Batch, marks: seq<Mark>)

  function Batches(hs: seq<Held>): (bs: seq<Batch>)
    ensures |bs| == |hs|
  {
    seq(|hs|, i requires 0 <= i < |hs| => hs[i].batch)
  }

  function Survive(ms: seq<Mark>): (r: seq<Mark>)
    ensures |r| == |ms|
  {
    seq(|ms|, i requires 0 <= i < |ms| => Mark(ms[i].made, ms[i].cleans + 1))
  }

  function SurviveAll(hs: seq<Held>): (r: seq<Held>)
    ensures |r| == |hs|
  {
    seq(|hs|, i requires 0 <= i < |hs| => Held(hs[i].batch, Survive(hs[i].marks)))
  }

  function AddedHeld(hs: seq<Held>, t: int): seq<Held> {
    if StartsBatch(Batches(hs)) then hs + [Held(Batch(t, [0]), [Mark(t, 0)])]
    else
      var last := hs[|hs| - 1];
      hs[..|hs| - 1] + [Held(Joined(last.batch, t), last.marks + [Mark(t, 0)])]
  }

  /** Every entry that a clean leaves has survived one more. */
  function CleanedHeld(hs: seq<Held>, cutoff: int): seq<Held>
    requires forall i :: 0 <= i < |hs| ==> |hs[i].marks| == |hs[i].batch.data|
  {
    if hs == [] then []
    else
      var j := FirstLive(hs[0].batch, cutoff, 0);
      if j < |hs[0].batch.data|
      then [Held(Cut(hs[0].batch, cutoff, j), Survive(hs[0].marks[j..]))] + SurviveAll(hs[1..])
      else [Held(Batch(cutoff, []), [])] + CleanedHeld(hs[1..], cutoff)
  }

  predicate Near(t: int, m: Mark) {
    m.made - (m.cleans + 1) * SEC < t <= m.made
  }

  /** Entry by entry, the times are near the requests they record, and in order. */
  ghost predicate Tracks(ts: seq<int>, ms: seq<Mark>) {
    && |ts| == |ms|
    && (forall i :: 0 <= i < |ts| ==> Near(ts[i], ms[i]))
    && NonDecreasing(ts)
  }

  ghost predicate FaithfulOne(h: Held) { Tracks(Times(h.batch), h.marks) && |h.batch.data| <= MAX_BATCH }

  /** Every held entry decodes to within (cleans + 1) seconds before the request it records; times are
      in order inside each batch, and batches may be in any order. */
  ghost predicate Faithful(hs: seq<Held>) {
    forall i :: 0 <= i < |hs| ==> FaithfulOne(hs[i])
  }

  ghost function StepHeld(hs: seq<Held>, op: Op): seq<Held>
    requires Faithful(hs) && Timely(Batches(hs), op)
  {
    match op
    case Request(t) => AddedHeld(hs, t)
    case Clean(c) => CleanedHeld(hs, c)
    case Reload(order) => Selected(hs, order)
  }

  lemma BatchesConcat(a: seq<Held>, b: seq<Held>)
    ensures Batches(a + b) == Batches(a) + Batches(b)
  {}

  lemma AddedBatches(hs: seq<Held>, t: int)
    ensures Batches(AddedHeld(hs, t)) == Added(Batches(hs), t)
  {
    if StartsBatch(Batches(hs)) {
      BatchesConcat(hs, [Held(Batch(t, [0]), [Mark(t, 0)])]);
    } else {
      var n, last := |hs| - 1, hs[|hs| - 1];
      BatchesConcat(hs[..n], [Held(Joined(last.batch, t), last.marks + [Mark(t, 0)])]);
      assert Batches(hs[..n]) == Batches(hs)[..n];
    }
  }

  lemma CutBatches(h: Held, rest: seq<Held>, cutoff: int, j: nat)
    requires |h.marks| == |h.batch.data| && j < |h.batch.data|
    requires forall i :: 0 <= i < |rest| ==> |rest[i].marks| == |rest[i].batch.data|
    ensures Batches([Held(Cut(h.batch, cutoff, j), Survive(h.marks[j..]))] + SurviveAll(rest))
      == [Cut(h.batch, cutoff, j)] + Batches(rest)
  {
    BatchesConcat([Held(Cut(h.batch, cutoff, j), Survive(h.marks[j..]))], SurviveAll(rest));
    assert Batches(SurviveAll(rest)) == Batches(rest);
  }

  lemma {:induction false} CleanedBatches(hs: seq<Held>, cutoff: int)
    requires forall i :: 0 <= i < |hs| ==> |hs[i].marks| == |hs[i].batch.data|
    ensures Batches(CleanedHeld(hs, cutoff)) == Cleaned(Batches(hs), cutoff)
  {
    if hs != [] {
      var j := FirstLive(hs[0].batch, cutoff, 0);
      assert Batches(hs)[1..] == Batches(hs[1..]);
      if j < |hs[0].batch.data| {
        CutBatches(hs[0], hs[1..], cutoff, j);
      } else {
        CleanedBatches(hs[1..], cutoff);
        BatchesConcat([Held(Batch(cutoff, []), [])], CleanedHeld(hs[1..], cutoff));
      }
    }
  }

  /** The marks only follow the batches: those change as the log does. */
  lemma StepBatches(hs: seq<Held>, op: Op)
    requires Faithful(hs) && Timely(Batches(hs), op)
    ensures Batches(StepHeld(hs, op)) == Step(Batches(hs), op)
  {
    match op
    case Request(t) => AddedBatches(hs, t);
    case Clean(c) =>
      assert forall i :: 0 <= i < |hs| ==> FaithfulOne(hs[i]);
      CleanedBatches(hs, c);
    case Reload(order) => assert Batches(Selected(hs, order)) == Selected(Batches(hs), order);
  }

  lemma TrackAppended(ts: seq<int>, ms: seq<Mark>, stamp: int, t: int)
    requires Tracks(ts, ms) && t - SEC < stamp <= t
    requires ts != [] ==> ts[|ts| - 1] <= stamp
    ensures Tracks(ts + [stamp], ms + [Mark(t, 0)])
  {}

  lemma TrackSurvivors(ts: seq<int>, ms: seq<Mark>, f: nat, m: nat, d: int)
    requires Tracks(ts, ms) && f <= |ts| && 0 <= d < SEC
    ensures Tracks(ShiftedFirst(ts[f..], m, d), Survive(ms[f..]))
  {
    var us, ns := ShiftedFirst(ts[f..], m, d), Survive(ms[f..]);
    forall i | 0 <= i < |us| ensures Near(us[i], ns[i]) {
      assert Near(ts[f + i], ms[f + i]);
    }
  }

  lemma JoinNotBefore(b: Batch, t: int)
    requires b.data != [] && Joins(b, t)
    ensures TimeAt(b, |b.data| - 1) <= b.start + Wrap(TruncSeconds(t - b.start)) * SEC
  {
    var s := Wrap(Sum(b.data[..|b.data|]));
    assert TruncSeconds(t - b.start) >= s;
  }

  lemma JoinFaithful(h: Held, t: int)
    requires FaithfulOne(h) && |h.batch.data| < MAX_BATCH && Joins(h.batch, t)
    ensures FaithfulOne(Held(Joined(h.batch, t), h.marks + [Mark(t, 0)]))
  {
    var b := h.batch;
    JoinedTimes(b, t);
    StampAccuracy([b], t);
    if b.data != [] { JoinNotBefore(b, t); }
    TrackAppended(Times(b), h.marks, b.start + Wrap(TruncSeconds(t - b.start)) * SEC, t);
  }

  lemma RequestKeepsFaith(hs: seq<Held>, t: int)
    requires Faithful(hs) && Timely(Batches(hs), Request(t))
    ensures Faithful(AddedHeld(hs, t))
  {
    if StartsBatch(Batches(hs)) {
      OnlyEntry(t);
    } else {
      assert FaithfulOne(hs[|hs| - 1]);
      JoinFaithful(hs[|hs| - 1], t);
    }
  }

  lemma CutFaithful(h: Held, cutoff: int, j: nat)
    requires FaithfulOne(h) && j < |h.batch.data|
    requires TimeAt(h.batch, j) > cutoff && WithinHorizon(Times(h.batch), cutoff)
    ensures |h.marks| == |h.batch.data| && FaithfulOne(Held(Cut(h.batch, cutoff, j), Survive(h.marks[j..])))
  {
    CutTimes(h.batch, cutoff, j);
    TrackSurvivors(Times(h.batch), h.marks, j, |h.batch.data| - j, Shift(TimeAt(h.batch, j), cutoff));
  }

  lemma KeptFaithful(h: Held)
    requires FaithfulOne(h)
    ensures FaithfulOne(Held(h.batch, Survive(h.marks)))
  {
    TrackSurvivors(Times(h.batch), h.marks, 0, 0, 0);
    assert Times(h.batch)[0..] == Times(h.batch) && h.marks[0..] == h.marks;
    assert ShiftedFirst(Times(h.batch), 0, 0) == Times(h.batch);
  }

  lemma SurvivorsFaithful(hs: seq<Held>)
    requires Faithful(hs)
    ensures Faithful(SurviveAll(hs))
  {
    forall i | 0 <= i < |hs| ensures FaithfulOne(SurviveAll(hs)[i]) {
      KeptFaithful(hs[i]);
    }
  }

  lemma {:induction false} CleanKeepsFaith(hs: seq<Held>, cutoff: int)
    requires Faithful(hs) && Timely(Batches(hs), Clean(cutoff))
    ensures forall i :: 0 <= i < |hs| ==> |hs[i].marks| == |hs[i].batch.data|
    ensures Faithful(CleanedHeld(hs, cutoff))
  {
    assert forall i :: 0 <= i < |hs| ==> FaithfulOne(hs[i]);
    if hs != [] {
      var j := FirstLive(hs[0].batch, cutoff, 0);
      assert Batches(hs)[1..] == Batches(hs[1..]);
      if j < |hs[0].batch.data| {
        CutFaithful(hs[0], cutoff, j);
        SurvivorsFaithful(hs[1..]);
      } else {
        CleanKeepsFaith(hs[1..], cutoff);
        assert FaithfulOne(Held(Batch(cutoff, []), []));
      }
    }
  }

  lemma StepKeepsFaith(hs: seq<Held>, op: Op)
    requires Faithful(hs) && Timely(Batches(hs), op)
    ensures Faithful(StepHeld(hs, op))
  {
    match op
    case Request(t) => RequestKeepsFaith(hs, t);
    case Clean(c) => CleanKeepsFaith(hs, c);
    case Reload(order) => assert forall i :: 0 <= i < |order| ==> FaithfulOne(hs[order[i]]);
  }

  ghost function RunFrom(hs: seq<Held>, ops: seq<Op>): seq<Held>
    requires Faithful(hs) && TimelyRun(Batches(hs), ops)
    decreases |ops|
  {
    if ops == [] then hs
    else
      StepKeepsFaith(hs, ops[0]);
      StepBatches(hs, ops[0]);
      RunFrom(StepHeld(hs, ops[0]), ops[1..])
  }

  /** Over every run of requests, cleans and reloads that reorder the batches, the log's entries are the
      marked ones, and one that has survived k cleans decodes to a time in (t - (k+1)s, t], t being the
      instant its request was made; times stay in order inside the batches, and batches bounded. */
  lemma {:induction false} DriftBound(hs: seq<Held>, ops: seq<Op>)
    requires Faithful(hs) && TimelyRun(Batches(hs), ops)
    ensures Faithful(RunFrom(hs, ops))
    ensures Batches(RunFrom(hs, ops)) == LogAfter(Batches(hs), ops)
    decreases |ops|
  {
    if ops != [] {
      StepKeepsFaith(hs, ops[0]);
      StepBatches(hs, ops[0]);
      DriftBound(StepHeld(hs, ops[0]), ops[1..]);
    }
  }

  /** Whether a clean drops entry k of batch i. */
  predicate Drops(bs: seq<Batch>, cutoff: int, i: nat, k: nat) {
    var n := CutBatch(bs, cutoff);
    i < n || (i == n < |bs| && k < FirstLive(bs[n], cutoff, 0))
  }

  /** A clean drops a request only when it is at most (cleans + 1) seconds short of leaving the window. */
  lemma DroppedIsOld(hs: seq<Held>, cutoff: int, i: nat, k: nat)
    requires Faithful(hs) && i < |hs| && k < |hs[i].marks| && Drops(Batches(hs), cutoff, i, k)
    ensures hs[i].marks[k].made < cutoff + (hs[i].marks[k].cleans + 1) * SEC
  {
    var b := Batches(hs)[i];
    assert FaithfulOne(hs[i]) && Near(Times(b)[k], hs[i].marks[k]);
    assert FirstLive(b, cutoff, 0) > k && TimeAt(b, k) <= cutoff;
  }

  // ----- the drift is real -----

  /** k cleans, each a second and a nanosecond after the one before. */
  function CleanEvery(bs: seq<Batch>, cutoff: int, k: nat): seq<Batch> {
    if k == 0 then bs else Cleaned(CleanEvery(bs, cutoff, k - 1), cutoff + k * (SEC + 1))
  }

  lemma SingleTime(c: int, v: uint32)
    ensures TimeAt(Batch(c, [v]), 0) == c + v * SEC
    ensures AllTimes([Batch(c, [v])]) == [c + v * SEC]
  {
    var b := Batch(c, [v]);
    assert b.data[..1] == [v] && [v][..0] == [];
    assert Sum([v]) == v;
    assert [b][1..] == [] && Times(b) == [TimeAt(b, 0)];
  }

  lemma SingleClean(c: int, v: uint32)
    ensures Cleaned([Batch(c, [v])], c + SEC + 1) == [Batch(c + SEC + 1, if v >= 2 then [v - 2] else [])]
  {
    var b, cutoff := Batch(c, [v]), c + SEC + 1;
    SingleTime(c, v);
    assert [b][1..] == [] && b.data[1..] == [];
    if v >= 2 {
      assert FirstLive(b, cutoff, 0) == 0;
      assert TruncSeconds(v * SEC - SEC - 1) == v - 2;
      assert Cut(b, cutoff, 0) == Batch(cutoff, [v - 2]);
    } else {
      assert FirstLive(b, cutoff, 0) == 1;
      assert Cleaned([], cutoff) == [];
    }
  }

  lemma {:induction false} TwoSecondsAClean(c: int, v: uint32, k: nat)
    requires 2 * k <= v
    ensures CleanEvery([Batch(c, [v])], c, k) == [Batch(c + k * (SEC + 1), [v - 2 * k])]
  {
    if k > 0 {
      TwoSecondsAClean(c, v, k - 1);
      SingleClean(c + (k - 1) * (SEC + 1), v - 2 * (k - 1));
    }
  }

  /** A request with 2n seconds left in the window is gone after n + 1 cleans, while its own instant
      is still newer than that clean's cutoff: cleaning slightly slower than once a second halves
      the window. */
  lemma WindowHalves(c: int, n: nat)
    requires 2 <= n && 2 * n < U32
    ensures AllTimes([Batch(c, [2 * n])]) == [c + 2 * n * SEC]
    ensures AllTimes(CleanEvery([Batch(c, [2 * n])], c, n + 1)) == []
    ensures c + 2 * n * SEC > c + (n + 1) * (SEC + 1)
  {
    TwoSecondsAClean(c, 2 * n, n);
    SingleClean(c + n * (SEC + 1), 0);
    SingleTime(c, 2 * n);
    assert AllTimes([Batch(c + (n + 1) * (SEC + 1), [])]) == [] by {
      assert [Batch(c + (n + 1) * (SEC + 1), [])][1..] == [];
    }
  }

  // ----- entries out of range -----

  function Seconds(start: int, n: int): int { start + n * SEC }

  /** Three requests: at the start of a batch, a seconds after it, and one recorded late, b seconds after it. */
  function LateLog(start: int, a: nat, b: nat): seq<Batch> {
    Added(Added(Added([], start), Seconds(start, a)), Seconds(start, b))
  }

  lemma JoinedWhole(b: Batch, n: uint32)
    ensures Times(Joined(b, Seconds(b.start, n))) == Times(b) + [Seconds(b.start, n)]
  {
    JoinedTimes(b, Seconds(b.start, n));
    assert Seconds(b.start, n) - b.start == n * SEC;
  }

  lemma AddedToOne(b: Batch, t: int)
    requires |b.data| < MAX_BATCH
    ensures Added([b], t) == [Joined(b, t)]
  {
    assert [b][..0] == [];
  }

  lemma LateBatch(start: int, a: uint32, b: uint32)
    ensures |LateLog(start, a, b)| == 1 && LateLog(start, a, b)[0].start == start
    ensures Times(LateLog(start, a, b)[0]) == [start, Seconds(start, a), Seconds(start, b)]
  {
    var b1 := Batch(start, [0]);
    var b2 := Joined(b1, Seconds(start, a));
    var b3 := Joined(b2, Seconds(start, b));
    AddedToOne(b1, Seconds(start, a));
    AddedToOne(b2, Seconds(start, b));
    assert Added([], start) == [b1] && LateLog(start, a, b) == [b3];
    OnlyEntry(start);
    JoinedWhole(b1, a);
    JoinedWhole(b2, b);
  }

  lemma ThrownTo(start: int, b: uint32, c: uint32)
    requires b < c
    ensures Rebased(Seconds(start, b), 0, Seconds(start, c)) == Seconds(start, b + U32)
  {
    assert Seconds(start, b) - 0 - Seconds(start, c) == (b - c) * SEC;
    assert Wrap(b - c) == b - c + U32;
  }

  lemma KeptAt(start: int, a: uint32, c: uint32)
    requires c < a
    ensures Rebased(Seconds(start, a), 0, Seconds(start, c)) == Seconds(start, a)
    ensures Shift(Seconds(start, a), Seconds(start, c)) == 0
  {
    assert Seconds(start, a) - 0 - Seconds(start, c) == (a - c) * SEC;
  }

  /** A clean between the two last requests: the late one is thrown 2^32 seconds ahead. */
  lemma LateEntryThrown(start: int, a: uint32, b: uint32, c: uint32, rest: seq<Batch>)
    requires b < c < a
    ensures AllTimes(Cleaned(LateLog(start, a, b) + rest, Seconds(start, c)))
      == [Seconds(start, a), Seconds(start, b + U32)] + AllTimes(rest)
    ensures SuffixAfter(AllTimes(LateLog(start, a, b) + rest), Seconds(start, c))
      == [Seconds(start, a), Seconds(start, b)] + AllTimes(rest)
  {
    var bs, cutoff := LateLog(start, a, b) + rest, Seconds(start, c);
    LateBatch(start, a, b);
    assert Times(bs[0])[1] == TimeAt(bs[0], 1) && Times(bs[0])[0] == TimeAt(bs[0], 0);
    LaterSeconds(start, 0, c);
    LaterSeconds(start, c, a);
    assert FirstLive(bs[0], cutoff, 0) == 1;
    LiveHead(bs, cutoff);
    CutRebases(bs[0], cutoff, 1);
    KeptAt(start, a, c);
    ThrownTo(start, b, c);
    assert bs[1..] == rest;
  }

  lemma LaterSeconds(start: int, a: int, b: int)
    ensures a < b ==> Seconds(start, a) < Seconds(start, b)
    ensures Seconds(start, 0) == start
  {}

  lemma ShiftedNotLater(ts: seq<int>, m: nat, d: nat, i: nat)
    requires i < |ts|
    ensures ShiftedFirst(ts, m, d)[i] <= ts[i]
  {}

  /** So a clean does not leave the suffix moved back. */
  lemma LateEntryNoSuffix(start: int, a: uint32, b: uint32, c: uint32, rest: seq<Batch>)
    requires b < c < a
    ensures !CleansToSuffix(LateLog(start, a, b) + rest, Seconds(start, c))
  {
    var bs, cutoff := LateLog(start, a, b) + rest, Seconds(start, c);
    var survivors := SuffixAfter(AllTimes(bs), cutoff);
    LateEntryThrown(start, a, b, c, rest);
    LaterSeconds(start, b, b + U32);
    ShiftedNotLater(survivors, CutLength(bs, cutoff), FirstShift(survivors, cutoff), 1);
    assert survivors[1] < AllTimes(Cleaned(bs, cutoff))[1];
  }

  lemma SuffixFromSecond(x: int, y: int, tail: seq<int>, cutoff: int)
    requires x <= cutoff < y
    ensures SuffixAfter([x, y] + tail, cutoff) == [y] + tail
  {
    FirstAfterIs([x, y] + tail, cutoff, 1);
  }

  lemma SecondBlocks(bs: seq<Batch>, x: int, y: int, tail: seq<int>, cutoff: int)
    requires AllTimes(bs) == [x, y] + tail && x <= cutoff < y
    ensures SuffixAfter(AllTimes(bs), cutoff) == [y] + tail
    ensures |AllTimes(Cleaned(bs, cutoff))| == 1 + |tail|
  {
    SuffixFromSecond(x, y, tail, cutoff);
    CleanRebases(bs, cutoff);
  }

  /** A clean after that drops the request before it and, for 2^32 seconds, nothing behind it, old as the
      requests recorded there may be. */
  lemma ThrownEntryBlocks(start: int, a: uint32, b: uint32, c: uint32, rest: seq<Batch>, cutoff: int)
    requires b < c < a && Seconds(start, a) <= cutoff < Seconds(start, b + U32)
    ensures var left := Cleaned(LateLog(start, a, b) + rest, Seconds(start, c));
            SuffixAfter(AllTimes(left), cutoff) == [Seconds(start, b + U32)] + AllTimes(rest)
            && |AllTimes(Cleaned(left, cutoff))| == 1 + |AllTimes(rest)|
  {
    LateEntryThrown(start, a, b, c, rest);
    SecondBlocks(Cleaned(LateLog(start, a, b) + rest, Seconds(start, c)), Seconds(start, a), Seconds(start, b + U32),
      AllTimes(rest), cutoff);
  }
}
