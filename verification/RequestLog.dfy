/** The batched request log of the second format: what its batches stand for, and what adding a
    request and cleaning out expired ones do to that meaning. */
module RequestLog {
  import opened Records
  import opened Keys

  const MAX_BATCH: nat := 2500

  // ----- machine arithmetic -----

  /** Whole seconds of a duration, rounded toward zero. */
  function TruncSeconds(d: int): int {
    if d >= 0 then d / SEC else -((-d) / SEC)
  }

  /** The next value of a 32-bit counter. */
  function Increment(c: uint32): uint32 { Wrap(c + 1) }

  function Sum(s: seq<int>): int {
    if s == [] then 0 else Sum(s[..|s| - 1]) + s[|s| - 1]
  }

  lemma {:induction false} SumConcat(a: seq<int>, b: seq<int>)
    ensures Sum(a + b) == Sum(a) + Sum(b)
    decreases |b|
  {
    if b == [] {
      assert a + b == a;
    } else {
      assert (a + b)[..|a + b| - 1] == a + b[..|b| - 1];
      SumConcat(a, b[..|b| - 1]);
    }
  }

  // ----- meaning -----

  /** The instant entry k of a batch decodes to. */
  function TimeAt(b: Batch, k: nat): int
    requires k < |b.data|
  {
    b.start + Wrap(Sum(b.data[..k + 1])) * SEC
  }

  function Times(b: Batch): (ts: seq<int>)
    ensures |ts| == |b.data|
  {
    seq(|b.data|, k requires 0 <= k < |b.data| => TimeAt(b, k))
  }

  /** The timestamps a list of batches stands for, in list order. */
  function AllTimes(bs: seq<Batch>): seq<int> {
    if bs == [] then [] else Times(bs[0]) + AllTimes(bs[1..])
  }

  lemma {:induction false} AllTimesConcat(a: seq<Batch>, b: seq<Batch>)
    ensures AllTimes(a + b) == AllTimes(a) + AllTimes(b)
    decreases |a|
  {
    if a == [] {
      assert a + b == b;
    } else {
      assert (a + b)[1..] == a[1..] + b;
      AllTimesConcat(a[1..], b);
    }
  }

  lemma AllTimesLast(bs: seq<Batch>)
    requires bs != []
    ensures AllTimes(bs) == AllTimes(bs[..|bs| - 1]) + Times(bs[|bs| - 1])
  {
    var n := |bs| - 1;
    assert bs == bs[..n] + [bs[n]];
    AllTimesConcat(bs[..n], [bs[n]]);
  }

  predicate Bounded(bs: seq<Batch>) {
    forall i :: 0 <= i < |bs| ==> |bs[i].data| <= MAX_BATCH
  }

  function Entries(bs: seq<Batch>): nat {
    if bs == [] then 0 else Entries(bs[..|bs| - 1]) + |bs[|bs| - 1].data|
  }

  /** The number of entries as a 32-bit count. */
  function EntryCount(bs: seq<Batch>): uint32 { Wrap(Entries(bs)) }

  lemma {:induction false} EntriesIsLength(bs: seq<Batch>)
    ensures Entries(bs) == |AllTimes(bs)|
    decreases |bs|
  {
    if bs != [] {
      AllTimesLast(bs);
      EntriesIsLength(bs[..|bs| - 1]);
    }
  }

  // ----- adding a request -----

  predicate StartsBatch(bs: seq<Batch>) {
    bs == [] || |bs[|bs| - 1].data| == MAX_BATCH
  }

  /** A batch after one more request. */
  function Joined(b: Batch, t: int): Batch {
    Batch(b.start, b.data + [Delta(b, t)])
  }

  /** The delta that records a request made at t after the entries of b. */
  function Delta(b: Batch, t: int): uint32 {
    Wrap(TruncSeconds(t - b.start) - Sum(b.data))
  }

  function Added(bs: seq<Batch>, t: int): seq<Batch> {
    if StartsBatch(bs) then bs + [Batch(t, [0])]
    else bs[..|bs| - 1] + [Joined(bs[|bs| - 1], t)]
  }

  /** The instant under which a request made at t is recorded. */
  function Stamp(bs: seq<Batch>, t: int): int {
    if StartsBatch(bs) then t
    else
      var start := bs[|bs| - 1].start;
      start + Wrap(TruncSeconds(t - start)) * SEC
  }

  lemma WrapSum(x: int, y: int)
    ensures Wrap(x + Wrap(y - x)) == Wrap(y)
  {}

  lemma TimesExtended(start: int, data: seq<uint32>, v: uint32)
    ensures Times(Batch(start, data + [v])) == Times(Batch(start, data)) + [start + Wrap(Sum(data) + v) * SEC]
  {
    var b, c := Batch(start, data), Batch(start, data + [v]);
    forall k | 0 <= k < |data| ensures TimeAt(b, k) == TimeAt(c, k) {
      assert (data + [v])[..k + 1] == data[..k + 1];
    }
    assert (data + [v])[..|data| + 1] == data + [v];
    assert (data + [v])[..|data|] == data;
  }

  lemma JoinedTimes(b: Batch, t: int)
    ensures Times(Joined(b, t)) == Times(b) + [b.start + Wrap(TruncSeconds(t - b.start)) * SEC]
  {
    var x := TruncSeconds(t - b.start);
    TimesExtended(b.start, b.data, Wrap(x - Sum(b.data)));
    WrapSum(Sum(b.data), x);
  }

  lemma LastExtended(front: seq<Batch>, b: Batch, longer: Batch, t: int)
    requires Times(longer) == Times(b) + [t]
    ensures AllTimes(front + [longer]) == AllTimes(front + [b]) + [t]
  {
    AllTimesConcat(front, [longer]);
    AllTimesConcat(front, [b]);
  }

  lemma AddExtendsLast(bs: seq<Batch>, t: int)
    requires !StartsBatch(bs)
    ensures AllTimes(Added(bs, t)) == AllTimes(bs) + [Stamp(bs, t)]
  {
    var front, last := bs[..|bs| - 1], bs[|bs| - 1];
    JoinedTimes(last, t);
    LastExtended(front, last, Joined(last, t), Stamp(bs, t));
    assert bs == front + [last];
  }

  lemma OnlyEntry(t: int)
    ensures Times(Batch(t, [0])) == [t]
  {
    assert [0][..1] == [0];
    assert Sum([0]) == 0;
  }

  /** Adding appends one timestamp and changes no other, for every list and every clock. */
  lemma AddAppends(bs: seq<Batch>, t: int)
    ensures AllTimes(Added(bs, t)) == AllTimes(bs) + [Stamp(bs, t)]
  {
    if StartsBatch(bs) {
      AllTimesConcat(bs, [Batch(t, [0])]);
      OnlyEntry(t);
    } else {
      AddExtendsLast(bs, t);
    }
  }

  /** The recorded instant is the request's own, rounded down to less than a second before it,
      exactly when the request is not before the batch it joins nor 2^32 seconds after it. */
  lemma StampAccuracy(bs: seq<Batch>, t: int)
    ensures t - SEC < Stamp(bs, t) <= t
      <==> StartsBatch(bs) || 0 <= t - bs[|bs| - 1].start < U32 * SEC
  {
    if !StartsBatch(bs) {
      var d := t - bs[|bs| - 1].start;
      if d < 0 {
        assert Wrap(TruncSeconds(d)) >= 0;
      } else if d >= U32 * SEC {
        assert TruncSeconds(d) >= U32;
        assert Wrap(TruncSeconds(d)) <= TruncSeconds(d) - U32;
      }
    }
  }

  /** A request joins the last batch while that holds fewer than 2500 entries: its start and entries
      stay and one is appended. Otherwise a batch is started at the request. The other batches stay. */
  lemma AddShape(bs: seq<Batch>, t: int)
    ensures var cs, n := Added(bs, t), |bs| - 1;
            if bs == [] || |bs[n].data| == 2500 then cs == bs + [Batch(t, [0])]
            else
              && |cs| == |bs| && cs[..n] == bs[..n] && cs[n].start == bs[n].start
              && |cs[n].data| == |bs[n].data| + 1 && cs[n].data[..|bs[n].data|] == bs[n].data
  {}

  /** A duration is cut to whole seconds toward zero. */
  lemma TruncMeans(d: int)
    ensures d >= 0 ==> TruncSeconds(d) * 1_000_000_000 <= d < (TruncSeconds(d) + 1) * 1_000_000_000
    ensures d <= 0 ==> (TruncSeconds(d) - 1) * 1_000_000_000 < d <= TruncSeconds(d) * 1_000_000_000
  {}

  /** A request that joins a batch is recorded a whole number of seconds after its start, and that number
      is the distance of the request cut to whole seconds, modulo 2^32. */
  lemma StampMeans(bs: seq<Batch>, t: int) returns (seconds: nat)
    requires bs != [] && |bs[|bs| - 1].data| < 2500
    ensures Stamp(bs, t) == bs[|bs| - 1].start + seconds * 1_000_000_000
    ensures seconds < 0x1_0000_0000 && (TruncSeconds(t - bs[|bs| - 1].start) - seconds) % 0x1_0000_0000 == 0
  {
    seconds := Wrap(TruncSeconds(t - bs[|bs| - 1].start));
  }

  // ----- cleaning -----

  /** The instant before which a window that ends now has not begun. */
  function Cutoff(now: int, windowSeconds: nat): int { now - windowSeconds * SEC }

  /** The first entry from j on that is newer than the cutoff, or the length. */
  function FirstLive(b: Batch, cutoff: int, j: nat): (r: nat)
    requires j <= |b.data|
    ensures j <= r <= |b.data|
    ensures forall i :: j <= i < r ==> TimeAt(b, i) <= cutoff
    ensures r < |b.data| ==> TimeAt(b, r) > cutoff
    decreases |b.data| - j
  {
    if j == |b.data| then j
    else if TimeAt(b, j) > cutoff then j
    else FirstLive(b, cutoff, j + 1)
  }

  /** A batch cut at its entry j: re-based to the cutoff, later deltas kept. */
  function Cut(b: Batch, cutoff: int, j: nat): Batch
    requires j < |b.data|
  {
    Batch(cutoff, [Wrap(TruncSeconds(TimeAt(b, j) - cutoff))] + b.data[j + 1..])
  }

  function Cleaned(bs: seq<Batch>, cutoff: int): (cs: seq<Batch>)
    ensures |cs| == |bs|
  {
    if bs == [] then []
    else
      var j := FirstLive(bs[0], cutoff, 0);
      if j < |bs[0].data| then [Cut(bs[0], cutoff, j)] + bs[1..]
      else [Batch(cutoff, [])] + Cleaned(bs[1..], cutoff)
  }

  /** The first timestamp newer than the cutoff, or the length. */
  function FirstAfter(ts: seq<int>, cutoff: int): (f: nat)
    ensures f <= |ts|
    ensures forall i :: 0 <= i < f ==> ts[i] <= cutoff
    ensures f < |ts| ==> ts[f] > cutoff
  {
    if ts == [] then 0 else if ts[0] > cutoff then 0 else 1 + FirstAfter(ts[1..], cutoff)
  }

  lemma {:induction false} FirstAfterIs(ts: seq<int>, cutoff: int, f: nat)
    requires f <= |ts| && (forall i :: 0 <= i < f ==> ts[i] <= cutoff) && (f < |ts| ==> ts[f] > cutoff)
    ensures FirstAfter(ts, cutoff) == f
  {}

  /** The whole list's first live entry is found batch by batch. */
  lemma {:induction false} FirstAfterInBatches(bs: seq<Batch>, cutoff: int)
    requires bs != []
    ensures var j := FirstLive(bs[0], cutoff, 0);
            FirstAfter(AllTimes(bs), cutoff)
            == if j < |bs[0].data| then j else |bs[0].data| + FirstAfter(AllTimes(bs[1..]), cutoff)
  {
    var j := FirstLive(bs[0], cutoff, 0);
    var head, tail := Times(bs[0]), AllTimes(bs[1..]);
    var f := if j < |head| then j else |head| + FirstAfter(tail, cutoff);
    assert forall i :: 0 <= i < |head| ==> (head + tail)[i] == TimeAt(bs[0], i);
    FirstAfterIs(head + tail, cutoff, f);
  }

  /** How far the first live entry, and all that follow it in its batch, are moved back. */
  function Shift(t: int, cutoff: int): (d: int)
    ensures 0 <= d < SEC
  {
    (t - cutoff) % SEC
  }

  lemma SplitSum(data: seq<int>, j: nat, k: nat)
    requires j <= k < |data|
    ensures Sum(data[..k + 1]) == Sum(data[..j + 1]) + Sum(data[j + 1..k + 1])
  {
    assert data[..k + 1] == data[..j + 1] + data[j + 1..k + 1];
    SumConcat(data[..j + 1], data[j + 1..k + 1]);
  }

  lemma SumOfCut(v: int, data: seq<int>, j: nat, k: nat)
    requires j <= k < |data|
    ensures Sum(([v] + data[j + 1..])[..k - j + 1]) == v + Sum(data[j + 1..k + 1])
  {
    assert ([v] + data[j + 1..])[..k - j + 1] == [v] + data[j + 1..k + 1];
    SumConcat([v], data[j + 1..k + 1]);
    assert [v][..0] == [];
    assert Sum([v]) == v;
  }

  /** Where an entry at t of the cut batch decodes to afterwards: d earlier, as a whole number of seconds
      after the cutoff taken modulo 2^32. */
  function Rebased(t: int, d: int, cutoff: int): int {
    cutoff + Wrap((t - d - cutoff) / SEC) * SEC
  }

  /** Once moved back by d, t is a whole number of seconds from the cutoff. */
  predicate OnGrid(t: int, d: int, cutoff: int) { (t - d - cutoff) % SEC == 0 }

  predicate WholeSeconds(from: int, to: int) { (from - to) % SEC == 0 }

  predicate InRange(t: int, cutoff: int) { cutoff <= t < cutoff + U32 * SEC }

  lemma RebasedExact(t: int, d: int, cutoff: int)
    requires 0 <= d < SEC && OnGrid(t, d, cutoff)
    ensures Rebased(t, d, cutoff) == t - d <==> InRange(t, cutoff)
    ensures Rebased(t, d, cutoff) == t <==> d == 0 && InRange(t, cutoff)
  {
    var m := (t - d - cutoff) / SEC;
    assert t - d - cutoff == m * SEC;
    if Rebased(t, d, cutoff) == t { assert (Wrap(m) - m) * SEC == d; }
  }

  lemma CutEntry(b: Batch, cutoff: int, j: nat, k: nat)
    requires j <= k < |b.data| && TimeAt(b, j) > cutoff
    ensures TimeAt(Cut(b, cutoff, j), k - j) == Rebased(TimeAt(b, k), Shift(TimeAt(b, j), cutoff), cutoff)
    ensures OnGrid(TimeAt(b, k), Shift(TimeAt(b, j), cutoff), cutoff)
  {
    var sj, sk, d := Sum(b.data[..j + 1]), Sum(b.data[..k + 1]), Sum(b.data[j + 1..k + 1]);
    SplitSum(b.data, j, k);
    WrapDifference(sj, sk, d);
    SumOfCut(Wrap((TimeAt(b, j) - cutoff) / SEC), b.data, j, k);
    CutArithmetic(b.start, cutoff, Wrap(sj), Wrap(sk), (TimeAt(b, j) - cutoff) / SEC, d);
  }

  /** A survivor of the cut batch moves back by the batch's shift exactly when it lies from the
      cutoff up to 2^32 seconds after it; any other entry is thrown onto another second. */
  lemma SurvivorShift(b: Batch, cutoff: int, j: nat, k: nat)
    requires j <= k < |b.data| && TimeAt(b, j) > cutoff
    ensures TimeAt(Cut(b, cutoff, j), k - j) == TimeAt(b, k) - Shift(TimeAt(b, j), cutoff)
      <==> InRange(TimeAt(b, k), cutoff)
  {
    CutEntry(b, cutoff, j, k);
    RebasedExact(TimeAt(b, k), Shift(TimeAt(b, j), cutoff), cutoff);
  }

  lemma WrapDifference(sj: int, sk: int, d: int)
    requires sk == sj + d
    ensures (Wrap(sk) - Wrap(sj) - d) % U32 == 0
  {}

  lemma CutArithmetic(start: int, cutoff: int, oj: uint32, ok: uint32, q: int, d: int)
    requires q == (start + oj * SEC - cutoff) / SEC
    requires (ok - oj - d) % U32 == 0
    ensures var r, t := (start + oj * SEC - cutoff) % SEC, start + ok * SEC;
            cutoff + Wrap(Wrap(q) + d) * SEC == Rebased(t, r, cutoff) && OnGrid(t, r, cutoff)
  {
    var r := (start + oj * SEC - cutoff) % SEC;
    var m := q + ok - oj;
    assert start + oj * SEC - cutoff == q * SEC + r;
    assert start + ok * SEC - r - cutoff == m * SEC;
    assert Wrap(Wrap(q) + d) == Wrap(m);
  }

  predicate NonDecreasing(ts: seq<int>) {
    forall i, j :: 0 <= i < j < |ts| ==> ts[i] <= ts[j]
  }

  /** Every entry decodes to an instant less than 2^32 seconds after the cutoff. */
  predicate WithinHorizon(ts: seq<int>, cutoff: int) {
    forall i :: 0 <= i < |ts| ==> ts[i] < cutoff + U32 * SEC
  }

  function ShiftedFirst(ts: seq<int>, m: nat, d: int): (r: seq<int>)
    ensures |r| == |ts|
  {
    seq(|ts|, i requires 0 <= i < |ts| => if i < m then ts[i] - d else ts[i])
  }

  lemma CutTimes(b: Batch, cutoff: int, j: nat)
    requires j < |b.data| && TimeAt(b, j) > cutoff
    requires NonDecreasing(Times(b)) && WithinHorizon(Times(b), cutoff)
    ensures Times(Cut(b, cutoff, j))
         == ShiftedFirst(Times(b)[j..], |b.data| - j, Shift(TimeAt(b, j), cutoff))
  {
    var c := Cut(b, cutoff, j);
    forall k | j <= k < |b.data|
      ensures TimeAt(c, k - j) == TimeAt(b, k) - Shift(TimeAt(b, j), cutoff)
    {
      assert Times(b)[j] == TimeAt(b, j) && Times(b)[k] == TimeAt(b, k);
      SurvivorShift(b, cutoff, j, k);
    }
    var ts, d := Times(b)[j..], Shift(TimeAt(b, j), cutoff);
    forall i | 0 <= i < |ts| ensures Times(c)[i] == ShiftedFirst(ts, |ts|, d)[i] {
      assert TimeAt(c, j + i - j) == TimeAt(b, j + i) - d;
    }
  }

  /** The timestamps from the first one newer than the cutoff. */
  function SuffixAfter(ts: seq<int>, cutoff: int): seq<int> {
    ts[FirstAfter(ts, cutoff)..]
  }

  lemma LiveHead(bs: seq<Batch>, cutoff: int)
    requires bs != [] && FirstLive(bs[0], cutoff, 0) < |bs[0].data|
    ensures var j, ts := FirstLive(bs[0], cutoff, 0), AllTimes(bs);
            AllTimes(Cleaned(bs, cutoff)) == Times(Cut(bs[0], cutoff, j)) + AllTimes(bs[1..])
            && SuffixAfter(ts, cutoff) == Times(bs[0])[j..] + AllTimes(bs[1..])
  {
    FirstAfterInBatches(bs, cutoff);
    assert Cleaned(bs, cutoff)[1..] == bs[1..];
  }

  lemma DeadSuffix(bs: seq<Batch>, cutoff: int)
    requires bs != [] && FirstLive(bs[0], cutoff, 0) == |bs[0].data|
    ensures SuffixAfter(AllTimes(bs), cutoff) == SuffixAfter(AllTimes(bs[1..]), cutoff)
  {
    var head, rest := Times(bs[0]), AllTimes(bs[1..]);
    FirstAfterInBatches(bs, cutoff);
    assert AllTimes(bs) == head + rest;
  }

  lemma DeadHead(bs: seq<Batch>, cutoff: int)
    requires bs != [] && FirstLive(bs[0], cutoff, 0) == |bs[0].data|
    ensures var ts, rest := AllTimes(bs), AllTimes(bs[1..]);
            AllTimes(Cleaned(bs, cutoff)) == AllTimes(Cleaned(bs[1..], cutoff))
            && SuffixAfter(ts, cutoff) == SuffixAfter(rest, cutoff)
  {
    DeadSuffix(bs, cutoff);
    assert Cleaned(bs, cutoff)[1..] == Cleaned(bs[1..], cutoff);
    assert Times(Batch(cutoff, [])) == [];
  }

  function RebasedFirst(ts: seq<int>, m: nat, d: int, cutoff: int): (r: seq<int>)
    ensures |r| == |ts|
  {
    seq(|ts|, i requires 0 <= i < |ts| => if i < m then Rebased(ts[i], d, cutoff) else ts[i])
  }

  /** How many entries of the cut batch survive. */
  function CutLength(bs: seq<Batch>, cutoff: int): nat {
    if bs == [] then 0
    else
      var j := FirstLive(bs[0], cutoff, 0);
      if j < |bs[0].data| then |bs[0].data| - j else CutLength(bs[1..], cutoff)
  }

  /** The shift that the first survivor suffers. */
  function FirstShift(survivors: seq<int>, cutoff: int): int {
    if survivors == [] then 0 else Shift(survivors[0], cutoff)
  }

  /** The first batch with a live entry, or the number of batches. */
  function CutBatch(bs: seq<Batch>, cutoff: int): (n: nat)
    ensures n <= |bs|
    ensures forall i :: 0 <= i < n ==> FirstLive(bs[i], cutoff, 0) == |bs[i].data|
    ensures n < |bs| ==> FirstLive(bs[n], cutoff, 0) < |bs[n].data|
  {
    if bs == [] then 0
    else if FirstLive(bs[0], cutoff, 0) < |bs[0].data| then 0
    else 1 + CutBatch(bs[1..], cutoff)
  }

  lemma {:induction false} CleanedParts(bs: seq<Batch>, cutoff: int)
    ensures var n, cs := CutBatch(bs, cutoff), Cleaned(bs, cutoff);
            && (forall i :: 0 <= i < n ==> cs[i] == Batch(cutoff, []))
            && (n < |bs| ==> cs[n] == Cut(bs[n], cutoff, FirstLive(bs[n], cutoff, 0)) && cs[n + 1..] == bs[n + 1..])
  {
    if bs != [] {
      var cs, rest := Cleaned(bs, cutoff), bs[1..];
      if FirstLive(bs[0], cutoff, 0) < |bs[0].data| {
        assert cs[1..] == rest;
      } else {
        CleanedParts(rest, cutoff);
        assert cs == [Batch(cutoff, [])] + Cleaned(rest, cutoff);
      }
    }
  }

  /** The batches before the n-th, with no entry after the cutoff, are emptied; the n-th is left from its
      first entry j after the cutoff on, with the deltas behind that one as they were; all of these start
      at the cutoff, and the later batches stay. */
  lemma CleanShape(bs: seq<Batch>, cutoff: int) returns (n: nat, j: nat)
    ensures n <= |bs| && forall i :: 0 <= i < n ==> Cleaned(bs, cutoff)[i] == Batch(cutoff, [])
    ensures forall i, k :: 0 <= i < n && 0 <= k < |bs[i].data| ==> TimeAt(bs[i], k) <= cutoff
    ensures n < |bs| ==>
              && j < |bs[n].data| && TimeAt(bs[n], j) > cutoff
              && (forall k :: 0 <= k < j ==> TimeAt(bs[n], k) <= cutoff)
              && Cleaned(bs, cutoff)[n].start == cutoff && |Cleaned(bs, cutoff)[n].data| == |bs[n].data| - j
              && Cleaned(bs, cutoff)[n].data[1..] == bs[n].data[j + 1..]
              && Cleaned(bs, cutoff)[n + 1..] == bs[n + 1..]
  {
    n, j := CutBatch(bs, cutoff), 0;
    CleanedParts(bs, cutoff);
    if n < |bs| { j := FirstLive(bs[n], cutoff, 0); }
  }

  lemma RebasedFirstConcat(a: seq<int>, b: seq<int>, d: int, cutoff: int)
    ensures RebasedFirst(a + b, |a|, d, cutoff) == RebasedFirst(a, |a|, d, cutoff) + b
  {}

  lemma CutRebases(b: Batch, cutoff: int, j: nat)
    requires j < |b.data| && TimeAt(b, j) > cutoff
    ensures Times(Cut(b, cutoff, j)) == RebasedFirst(Times(b)[j..], |b.data| - j, Shift(TimeAt(b, j), cutoff), cutoff)
  {
    var c, ts, d := Cut(b, cutoff, j), Times(b)[j..], Shift(TimeAt(b, j), cutoff);
    forall i | 0 <= i < |ts| ensures Times(c)[i] == RebasedFirst(ts, |ts|, d, cutoff)[i] {
      CutEntry(b, cutoff, j, j + i);
      assert TimeAt(c, j + i - j) == Rebased(TimeAt(b, j + i), d, cutoff);
    }
  }

  /** What a clean does, for every list: the timestamps from the first one newer than the cutoff are
      left, re-based as far as they share its batch. */
  lemma {:induction false} CleanRebases(bs: seq<Batch>, cutoff: int)
    ensures var survivors := SuffixAfter(AllTimes(bs), cutoff);
            AllTimes(Cleaned(bs, cutoff))
              == RebasedFirst(survivors, CutLength(bs, cutoff), FirstShift(survivors, cutoff), cutoff)
  {
    if bs != [] {
      var j := FirstLive(bs[0], cutoff, 0);
      if j < |bs[0].data| {
        LiveHead(bs, cutoff);
        CutRebases(bs[0], cutoff, j);
        RebasedFirstConcat(Times(bs[0])[j..], AllTimes(bs[1..]), Shift(TimeAt(bs[0], j), cutoff), cutoff);
      } else {
        CleanRebases(bs[1..], cutoff);
        DeadHead(bs, cutoff);
      }
    }
  }

  lemma {:induction false} CutLengthFits(bs: seq<Batch>, cutoff: int)
    ensures var survivors := SuffixAfter(AllTimes(bs), cutoff);
            CutLength(bs, cutoff) <= |survivors| && (survivors != [] ==> CutLength(bs, cutoff) > 0)
  {
    if bs != [] {
      if FirstLive(bs[0], cutoff, 0) < |bs[0].data| {
        LiveHead(bs, cutoff);
      } else {
        CutLengthFits(bs[1..], cutoff);
        DeadHead(bs, cutoff);
      }
    }
  }

  /** The survivors of one batch are whole seconds apart. */
  lemma {:induction false} SameGrid(bs: seq<Batch>, cutoff: int, i: nat)
    requires i < CutLength(bs, cutoff)
    ensures var survivors := SuffixAfter(AllTimes(bs), cutoff);
            i < |survivors| && OnGrid(survivors[i], FirstShift(survivors, cutoff), cutoff)
  {
    var j := FirstLive(bs[0], cutoff, 0);
    if j < |bs[0].data| {
      LiveHead(bs, cutoff);
      CutEntry(bs[0], cutoff, j, j + i);
    } else {
      SameGrid(bs[1..], cutoff, i);
      DeadHead(bs, cutoff);
    }
  }

  /** Whether entry t of the old list can be entry c of the cleaned one: moved back by less than a second
      if it is in range; if not, kept or thrown into range. */
  predicate Survives(t: int, c: int, cutoff: int) {
    if InRange(t, cutoff) then t - SEC < c <= t else c == t || InRange(c, cutoff)
  }

  /** Entry by entry, the times are those of the cleaned list. */
  ghost predicate Outlive(ts: seq<int>, cs: seq<int>, cutoff: int) {
    |ts| == |cs| && forall i :: 0 <= i < |ts| ==> Survives(ts[i], cs[i], cutoff)
  }

  /** Cleaning drops the first f entries, none of them live, and no others, whatever the order of the
      batches and of the entries in them: entry i of what is left is entry f + i of the list. Behind the
      cut batch it keeps its time; in it, it moves back by less than a second if it is in range, that is
      from the cutoff up to 2^32 seconds after it, and is thrown into that range otherwise. */
  lemma CleanNeverDropsLive(bs: seq<Batch>, cutoff: int)
    ensures var ts, cs, f := AllTimes(bs), AllTimes(Cleaned(bs, cutoff)), FirstAfter(AllTimes(bs), cutoff);
            && (forall i :: 0 <= i < f ==> ts[i] <= cutoff)
            && Outlive(ts[f..], cs, cutoff)
            && CutLength(bs, cutoff) <= |cs|
            && ts[f..][CutLength(bs, cutoff)..] == cs[CutLength(bs, cutoff)..]
  {
    var survivors, m := SuffixAfter(AllTimes(bs), cutoff), CutLength(bs, cutoff);
    CleanRebases(bs, cutoff);
    CutLengthFits(bs, cutoff);
    forall i | 0 <= i < |survivors| && i < m ensures OnGrid(survivors[i], FirstShift(survivors, cutoff), cutoff) {
      SameGrid(bs, cutoff, i);
    }
    RebasedSurvive(survivors, m, FirstShift(survivors, cutoff), cutoff);
  }

  /** A clean drops nothing exactly when the list is empty or its first entry is live, however old the
      others are. */
  lemma DropsNothingWhen(bs: seq<Batch>, cutoff: int)
    ensures |AllTimes(Cleaned(bs, cutoff))| == |AllTimes(bs)|
      <==> AllTimes(bs) == [] || AllTimes(bs)[0] > cutoff
  {
    CleanRebases(bs, cutoff);
  }

  lemma RebasedSurvive(ts: seq<int>, m: nat, d: int, cutoff: int)
    requires 0 <= d < SEC && forall i :: 0 <= i < |ts| && i < m ==> OnGrid(ts[i], d, cutoff)
    ensures Outlive(ts, RebasedFirst(ts, m, d, cutoff), cutoff)
    ensures m <= |ts| ==> ts[m..] == RebasedFirst(ts, m, d, cutoff)[m..]
  {
    forall i | 0 <= i < |ts| ensures Survives(ts[i], RebasedFirst(ts, m, d, cutoff)[i], cutoff) {
      if i < m { RebasedSurvives(ts[i], d, cutoff); }
    }
  }

  lemma RebasedSurvives(t: int, d: int, cutoff: int)
    requires 0 <= d < SEC && OnGrid(t, d, cutoff)
    ensures Survives(t, Rebased(t, d, cutoff), cutoff)
  {
    RebasedExact(t, d, cutoff);
  }

  // ----- when nothing is thrown -----

  /** Cleaning leaves the timestamps from the first one newer than the cutoff; those that share its
      batch are moved back together by its sub-second distance from the cutoff. */
  ghost predicate CleansToSuffix(bs: seq<Batch>, cutoff: int) {
    var survivors := SuffixAfter(AllTimes(bs), cutoff);
    AllTimes(Cleaned(bs, cutoff)) == ShiftedFirst(survivors, CutLength(bs, cutoff), FirstShift(survivors, cutoff))
  }

  /** The survivors of the cut batch lie from the cutoff up to 2^32 seconds after it. */
  predicate CutInRange(bs: seq<Batch>, cutoff: int) {
    var survivors := SuffixAfter(AllTimes(bs), cutoff);
    forall i :: 0 <= i < |survivors| && i < CutLength(bs, cutoff) ==> InRange(survivors[i], cutoff)
  }

  /** Whatever the order of the list, a clean leaves the suffix, with its first batch moved back
      together, exactly when the survivors of that batch are in range. */
  lemma CleanIsSuffix(bs: seq<Batch>, cutoff: int)
    ensures CleansToSuffix(bs, cutoff) <==> CutInRange(bs, cutoff)
  {
    var survivors, m := SuffixAfter(AllTimes(bs), cutoff), CutLength(bs, cutoff);
    var d := FirstShift(survivors, cutoff);
    CleanRebases(bs, cutoff);
    forall i | 0 <= i < |survivors| && i < m
      ensures Rebased(survivors[i], d, cutoff) == survivors[i] - d <==> InRange(survivors[i], cutoff)
    {
      SameGrid(bs, cutoff, i);
      RebasedExact(survivors[i], d, cutoff);
    }
    SameWhenInRange(survivors, m, d, cutoff);
  }

  lemma SameWhenInRange(ts: seq<int>, m: nat, d: int, cutoff: int)
    requires forall i :: 0 <= i < |ts| && i < m ==> (Rebased(ts[i], d, cutoff) == ts[i] - d <==> InRange(ts[i], cutoff))
    ensures RebasedFirst(ts, m, d, cutoff) == ShiftedFirst(ts, m, d)
      <==> forall i :: 0 <= i < |ts| && i < m ==> InRange(ts[i], cutoff)
  {
    var a, b := RebasedFirst(ts, m, d, cutoff), ShiftedFirst(ts, m, d);
    assert forall i :: 0 <= i < |ts| ==> (a[i] == b[i] <==> (i < m ==> InRange(ts[i], cutoff)));
  }

  /** Times in order inside each batch, and less than 2^32 seconds after the cutoff. */
  predicate InBatchOrder(bs: seq<Batch>, cutoff: int) {
    forall i :: 0 <= i < |bs| ==> NonDecreasing(Times(bs[i])) && WithinHorizon(Times(bs[i]), cutoff)
  }

  lemma OrderedInRange(ts: seq<int>, cutoff: int, j: nat)
    requires j < |ts| && ts[j] > cutoff && NonDecreasing(ts) && WithinHorizon(ts, cutoff)
    ensures forall i :: 0 <= i < |ts| - j ==> InRange(ts[j..][i], cutoff)
  {
    forall i | 0 <= i < |ts| - j ensures InRange(ts[j..][i], cutoff) {
      assert ts[j] <= ts[j + i];
    }
  }

  /** Order inside the batches is enough for the cut batch to be in range. */
  lemma {:induction false} InBatchOrderInRange(bs: seq<Batch>, cutoff: int)
    requires InBatchOrder(bs, cutoff)
    ensures CutInRange(bs, cutoff)
  {
    if bs != [] {
      var j := FirstLive(bs[0], cutoff, 0);
      if j < |bs[0].data| {
        LiveHead(bs, cutoff);
        OrderedInRange(Times(bs[0]), cutoff, j);
      } else {
        InBatchOrderInRange(bs[1..], cutoff);
        DeadHead(bs, cutoff);
      }
    }
  }

  /** The whole list in time order. */
  ghost predicate InOrder(bs: seq<Batch>, cutoff: int) {
    NonDecreasing(AllTimes(bs)) && WithinHorizon(AllTimes(bs), cutoff)
  }

  lemma {:induction false} InOrderInBatches(bs: seq<Batch>, cutoff: int)
    requires InOrder(bs, cutoff)
    ensures InBatchOrder(bs, cutoff)
  {
    if bs != [] {
      SplitOrder(Times(bs[0]), AllTimes(bs[1..]), cutoff);
      InOrderInBatches(bs[1..], cutoff);
    }
  }

  /** Nothing moves exactly when nothing survives or the cut batch starts whole seconds from the cutoff. */
  lemma {:induction false} ShiftIsZero(bs: seq<Batch>, cutoff: int)
    ensures var survivors, n := SuffixAfter(AllTimes(bs), cutoff), CutBatch(bs, cutoff);
            && (survivors == [] <==> n == |bs|)
            && (FirstShift(survivors, cutoff) == 0 <==> n == |bs| || WholeSeconds(bs[n].start, cutoff))
  {
    if bs != [] {
      var j := FirstLive(bs[0], cutoff, 0);
      if j < |bs[0].data| {
        LiveHead(bs, cutoff);
        WholeSecondShift(bs[0], cutoff, j);
      } else {
        ShiftIsZero(bs[1..], cutoff);
        DeadHead(bs, cutoff);
      }
    }
  }

  lemma WholeSecondShift(b: Batch, cutoff: int, j: nat)
    requires j < |b.data|
    ensures Shift(TimeAt(b, j), cutoff) == 0 <==> WholeSeconds(b.start, cutoff)
  {
    assert TimeAt(b, j) - cutoff == (b.start - cutoff) + Wrap(Sum(b.data[..j + 1])) * SEC;
  }

  lemma SplitOrder(a: seq<int>, b: seq<int>, cutoff: int)
    requires NonDecreasing(a + b) && WithinHorizon(a + b, cutoff)
    ensures NonDecreasing(a) && NonDecreasing(b) && WithinHorizon(a, cutoff) && WithinHorizon(b, cutoff)
  {
    var c := a + b;
    assert forall i :: 0 <= i < |a| ==> a[i] == c[i];
    assert forall i :: 0 <= i < |b| ==> b[i] == c[|a| + i];
  }
}
