/** The mutable request-limit record of the second format. Batches hold Go slices: windows onto
    arrays that an append may write in place and that cleaning shares with the old batch. */
module RequestLimitsV2 {
  import opened Records
  import opened Keys
  import opened RequestLog

  /** A slice: len elements of arr from off on, with capacity up to the end of arr. */
  datatype Slice = Slice(arr: array<uint32>, off: nat, len: nat)

  datatype RequestsV2 = RequestsV2(data: Slice, start: int)

  ghost predicate Fits(s: Slice) {
    s.off + s.len <= s.arr.Length
  }

  ghost function Elements(s: Slice): seq<uint32>
    requires Fits(s)
    reads s.arr
  {
    s.arr[s.off..s.off + s.len]
  }

  ghost function Arrays(bs: seq<RequestsV2>): set<object> {
    set i | 0 <= i < |bs| :: bs[i].data.arr
  }

  ghost predicate Separate(bs: seq<RequestsV2>) {
    forall i, j :: 0 <= i < j < |bs| ==> bs[i].data.arr != bs[j].data.arr
  }

  ghost predicate ShowsOne(b: RequestsV2, v: Batch)
    reads b.data.arr
  {
    Fits(b.data) && b.start == v.start && Elements(b.data) == v.data
  }

  /** The batches, on the current heap, have the contents of the list. */
  ghost predicate Shows(bs: seq<RequestsV2>, log: seq<Batch>)
    reads Arrays(bs)
  {
    |bs| == |log| && forall i :: 0 <= i < |bs| ==> ShowsOne(bs[i], log[i])
  }

  /** Seconds from the cutoff to entry j. */
  function Rest(b: Batch, cutoff: int, j: nat): uint32
    requires j < |b.data|
  {
    Wrap(TruncSeconds(TimeAt(b, j) - cutoff))
  }

  /** What cutting at entry j leaves in the old batch: its slot j is overwritten, because the new
      batch shares it, unless the surviving entry is the last one. */
  function OverwrittenAt(b: Batch, cutoff: int, j: nat): Batch
    requires j < |b.data|
  {
    if j == |b.data| - 1 then b else Batch(b.start, b.data[j := Rest(b, cutoff, j)])
  }

  predicate HasLive(b: Batch, cutoff: int) {
    FirstLive(b, cutoff, 0) < |b.data|
  }

  /** What the old batch holds after it was scanned. */
  function Kept(b: Batch, cutoff: int): Batch {
    if HasLive(b, cutoff) then OverwrittenAt(b, cutoff, FirstLive(b, cutoff, 0)) else b
  }

  /** The batch that a scanned one is replaced by. */
  function Remainder(b: Batch, cutoff: int): Batch {
    if HasLive(b, cutoff) then Cut(b, cutoff, FirstLive(b, cutoff, 0)) else Batch(cutoff, [])
  }

  /** What cleaning leaves in the batches it was given: batches are scanned up to the first live entry. */
  function Overwritten(bs: seq<Batch>, cutoff: int): (r: seq<Batch>)
    ensures |r| == |bs|
  {
    if bs == [] then []
    else [Kept(bs[0], cutoff)] + (if HasLive(bs[0], cutoff) then bs[1..] else Overwritten(bs[1..], cutoff))
  }

  lemma CleanedUnfolds(bs: seq<Batch>, cutoff: int)
    requires bs != []
    ensures Cleaned(bs, cutoff)
      == [Remainder(bs[0], cutoff)] + (if HasLive(bs[0], cutoff) then bs[1..] else Cleaned(bs[1..], cutoff))
  {}

  /** The overwrite changes no batch's length, so counting the old batches after cleaning still
      counts the entries held before it. */
  lemma {:induction false} OverwrittenKeepsEntries(bs: seq<Batch>, cutoff: int)
    ensures Entries(Overwritten(bs, cutoff)) == Entries(bs)
  {
    EntriesIsLength(bs);
    EntriesIsLength(Overwritten(bs, cutoff));
    if bs != [] {
      OverwrittenKeepsEntries(bs[1..], cutoff);
      EntriesIsLength(bs[1..]);
      EntriesIsLength(Overwritten(bs[1..], cutoff));
      var r := Overwritten(bs, cutoff);
      assert r[1..] == bs[1..] || r[1..] == Overwritten(bs[1..], cutoff);
    }
  }

  lemma {:induction false} OverwrittenParts(bs: seq<Batch>, cutoff: int)
    ensures var n := CutBatch(bs, cutoff);
            Overwritten(bs, cutoff) == if n == |bs| then bs else bs[n := Kept(bs[n], cutoff)]
  {
    if bs != [] {
      var rest := bs[1..];
      if HasLive(bs[0], cutoff) {
        assert Overwritten(bs, cutoff) == [Kept(bs[0], cutoff)] + rest;
      } else {
        OverwrittenParts(rest, cutoff);
        OneBehind(bs[0], rest, Overwritten(rest, cutoff), cutoff);
      }
    }
  }

  lemma OneBehind(b: Batch, rest: seq<Batch>, held: seq<Batch>, cutoff: int)
    requires var m := CutBatch(rest, cutoff);
             held == if m == |rest| then rest else rest[m := Kept(rest[m], cutoff)]
    ensures var m, bs := CutBatch(rest, cutoff), [b] + rest;
            [b] + held == if m == |rest| then bs else bs[m + 1 := Kept(bs[m + 1], cutoff)]
  {}

  /** What the overwrite changes: in the n-th batch, the first with an entry after the cutoff, the slot of
      that entry j, unless it is the last, takes the entry's whole seconds after the cutoff. */
  lemma OverwrittenSlot(bs: seq<Batch>, cutoff: int) returns (n: nat, j: nat)
    ensures n <= |bs| && forall i, k :: 0 <= i < n && 0 <= k < |bs[i].data| ==> TimeAt(bs[i], k) <= cutoff
    ensures n == |bs| ==> Overwritten(bs, cutoff) == bs
    ensures n < |bs| ==>
              && j < |bs[n].data| && TimeAt(bs[n], j) > cutoff
              && (forall k :: 0 <= k < j ==> TimeAt(bs[n], k) <= cutoff)
              && (j == |bs[n].data| - 1 ==> Overwritten(bs, cutoff) == bs)
              && var seconds := Wrap(TruncSeconds(TimeAt(bs[n], j) - cutoff));
                 j < |bs[n].data| - 1 ==>
                   Overwritten(bs, cutoff) == bs[n := Batch(bs[n].start, bs[n].data[j := seconds])]
  {
    n, j := CutBatch(bs, cutoff), 0;
    OverwrittenParts(bs, cutoff);
    if n < |bs| {
      j := FirstLive(bs[n], cutoff, 0);
      KeptSlot(bs[n], cutoff, j);
      if j == |bs[n].data| - 1 { assert bs[n := bs[n]] == bs; }
    }
  }

  lemma KeptSlot(b: Batch, cutoff: int, j: nat)
    requires j < |b.data| && j == FirstLive(b, cutoff, 0)
    ensures Kept(b, cutoff) ==
      if j == |b.data| - 1 then b else Batch(b.start, b.data[j := Wrap(TruncSeconds(TimeAt(b, j) - cutoff))])
  {}

  method Append(s: Slice, v: uint32) returns (r: Slice)
    requires Fits(s)
    modifies s.arr
    ensures Fits(r) && Elements(r) == old(Elements(s)) + [v]
    ensures r.arr == s.arr || fresh(r.arr)
  {
    if s.off + s.len < s.arr.Length {
      s.arr[s.off + s.len] := v;
      r := Slice(s.arr, s.off, s.len + 1);
    } else {
      var grown := new uint32[2 * s.len + 1];
      for i := 0 to s.len
        modifies grown
        invariant forall k :: 0 <= k < i ==> grown[k] == s.arr[s.off + k]
      {
        grown[i] := s.arr[s.off + i];
      }
      grown[s.len] := v;
      r := Slice(grown, 0, s.len + 1);
      assert forall k :: 0 <= k < s.len ==> Elements(r)[k] == old(Elements(s))[k];
    }
  }

  /** The running counter after j entries. */
  function Prefix(v: Batch, j: nat): uint32
    requires j <= |v.data|
  {
    Wrap(Sum(v.data[..j]))
  }

  lemma NextPrefix(v: Batch, j: nat)
    requires j < |v.data|
    ensures Prefix(v, j + 1) == Wrap(v.data[j] + Prefix(v, j))
    ensures TimeAt(v, j) == v.start + Prefix(v, j + 1) * SEC
  {
    assert v.data[..j + 1][..j] == v.data[..j];
  }

  lemma FirstLiveIs(v: Batch, cutoff: int, j: nat)
    requires j <= |v.data|
    requires forall i :: 0 <= i < j ==> TimeAt(v, i) <= cutoff
    requires j < |v.data| ==> TimeAt(v, j) > cutoff
    ensures FirstLive(v, cutoff, 0) == j
  {}

  /** Finds the first entry inside the window; tt is its instant. */
  method FindLive(b: RequestsV2, ghost v: Batch, window: nat, now: int) returns (j: nat, tt: int)
    requires ShowsOne(b, v)
    ensures j <= |v.data|
    ensures forall i :: 0 <= i < j ==> TimeAt(v, i) <= Cutoff(now, window)
    ensures j < |v.data| ==> tt == TimeAt(v, j) > Cutoff(now, window)
  {
    var counter: uint32 := 0;
    tt := b.start;
    j := 0;
    assert b.data.len == |v.data|;
    while j < b.data.len
      invariant j <= |v.data|
      invariant counter == Prefix(v, j)
      invariant forall i :: 0 <= i < j ==> TimeAt(v, i) <= Cutoff(now, window)
    {
      var key := b.data.arr[b.data.off + j];
      assert key == Elements(b.data)[j] == v.data[j];
      NextPrefix(v, j);
      tt := b.start + Wrap(key + counter) * SEC;
      if now - tt < window * SEC {
        return;
      }
      counter := Wrap(key + counter);
      j := j + 1;
    }
  }

  /** Subtracts the deltas of b from the distance of t. */
  method NextDelta(b: RequestsV2, ghost v: Batch, t: int) returns (value: uint32)
    requires ShowsOne(b, v)
    ensures value == Delta(v, t)
  {
    var acc: int := Wrap(TruncSeconds(t - b.start));
    assert v.data[..0] == [];
    for i := 0 to b.data.len
      invariant acc == Wrap(TruncSeconds(t - v.start) - Sum(v.data[..i]))
    {
      var el: int := b.data.arr[b.data.off + i];
      assert el == v.data[i] && v.data[..i + 1][..i] == v.data[..i];
      WrapTwice(TruncSeconds(t - v.start) - Sum(v.data[..i]), -el);
      acc := Wrap(acc - el);
    }
    assert v.data[..b.data.len] == v.data;
    value := acc;
  }

  /** Re-bases the batch b, whose entry j is the first live one, to newStart. The new slice shares
      the array of b, and its first slot is overwritten there, unless j is the last entry. */
  method CutSlice(b: RequestsV2, ghost v: Batch, j: nat, tt: int, newStart: int) returns (data: Slice)
    requires ShowsOne(b, v) && j < |v.data| && tt == TimeAt(v, j)
    modifies b.data.arr
    ensures data.arr == b.data.arr || fresh(data.arr)
    ensures ShowsOne(RequestsV2(data, newStart), Cut(v, newStart, j))
    ensures ShowsOne(b, OverwrittenAt(v, newStart, j))
  {
    var value := Wrap(TruncSeconds(tt - newStart));
    ghost var before := Elements(b.data);
    if j != b.data.len - 1 {
      data := Slice(b.data.arr, b.data.off + j, b.data.len - j);
      data.arr[data.off] := value;
      assert Elements(data) == [value] + before[j + 1..];
      assert Elements(b.data) == before[j := value];
    } else {
      var single := new uint32[1] [value];
      data := Slice(single, 0, 1);
      assert Elements(data) == [value] + before[j + 1..];
      assert Elements(b.data) == before;
    }
  }

  /** Scans a batch ahead of which no entry is live: it is cut at its first live entry, or replaced
      by an empty one. */
  method CleanBatch(b: RequestsV2, ghost v: Batch, window: nat, now: int, newStart: int)
    returns (data: Slice, live: bool)
    requires ShowsOne(b, v) && newStart == Cutoff(now, window)
    modifies b.data.arr
    ensures data.arr == b.data.arr || fresh(data.arr)
    ensures live == HasLive(v, newStart)
    ensures ShowsOne(RequestsV2(data, newStart), Remainder(v, newStart)) && ShowsOne(b, Kept(v, newStart))
  {
    var empty := new uint32[MAX_BATCH];
    data := Slice(empty, 0, 0);
    var j, tt := FindLive(b, v, window, now);
    FirstLiveIs(v, newStart, j);
    live := j < b.data.len;
    if live {
      data := CutSlice(b, v, j, tt, newStart);
    }
  }

  /** A clean has gone through the first i batches of log: cleaned is what it has built, held what
      the record shows meanwhile. */
  ghost predicate Pending(log: seq<Batch>, held: seq<Batch>, cleaned: seq<Batch>, cutoff: int, i: nat, reached: bool) {
    && |held| == |log| && |cleaned| == i <= |log|
    && held[i..] == log[i..]
    && Cleaned(log, cutoff) == cleaned + (if reached then log[i..] else Cleaned(log[i..], cutoff))
    && Overwritten(log, cutoff) == held[..i] + (if reached then log[i..] else Overwritten(log[i..], cutoff))
  }

  lemma Regroup<T>(x: seq<T>, a: seq<T>, h: T, t: seq<T>)
    requires x == a + ([h] + t)
    ensures x == (a + [h]) + t
  {}

  lemma SplitHeld(log: seq<Batch>, held: seq<Batch>, i: nat, h: Batch)
    requires |held| == |log| && i < |log| && held[i..] == log[i..]
    ensures held[i] == log[i] && log[i..][0] == log[i] && log[i..][1..] == log[i + 1..]
    ensures log[i..] == [log[i]] + log[i + 1..]
    ensures held[i := h][..i + 1] == held[..i] + [h] && held[i := h][i + 1..] == log[i + 1..]
  {
    assert held[i] == held[i..][0];
    assert held[i + 1..] == held[i..][1..];
  }

  lemma PendingStart(log: seq<Batch>, cutoff: int)
    ensures Pending(log, log, [], cutoff, 0, false)
  {
    assert log[0..] == log;
  }

  lemma PendingDone(log: seq<Batch>, held: seq<Batch>, cleaned: seq<Batch>, cutoff: int, reached: bool)
    requires Pending(log, held, cleaned, cutoff, |log|, reached)
    ensures Cleaned(log, cutoff) == cleaned && Overwritten(log, cutoff) == held
  {
    assert log[|log|..] == [] && held[..|log|] == held;
  }

  lemma PendingKept(log: seq<Batch>, held: seq<Batch>, cleaned: seq<Batch>, cutoff: int, i: nat)
    requires Pending(log, held, cleaned, cutoff, i, true) && i < |log|
    ensures Pending(log, held, cleaned + [held[i]], cutoff, i + 1, true)
  {
    SplitHeld(log, held, i, held[i]);
    assert held[i := held[i]] == held;
    Regroup(Cleaned(log, cutoff), cleaned, held[i], log[i + 1..]);
    Regroup(Overwritten(log, cutoff), held[..i], held[i], log[i + 1..]);
  }

  lemma PendingScanned(log: seq<Batch>, held: seq<Batch>, cleaned: seq<Batch>, cutoff: int, i: nat)
    requires Pending(log, held, cleaned, cutoff, i, false) && i < |log|
    ensures Pending(log, held[i := Kept(held[i], cutoff)], cleaned + [Remainder(held[i], cutoff)], cutoff, i + 1,
                    HasLive(held[i], cutoff))
  {
    var rest, live := log[i + 1..], HasLive(held[i], cutoff);
    SplitHeld(log, held, i, Kept(held[i], cutoff));
    CleanedUnfolds(log[i..], cutoff);
    Regroup(Cleaned(log, cutoff), cleaned, Remainder(held[i], cutoff), if live then rest else Cleaned(rest, cutoff));
    Regroup(Overwritten(log, cutoff), held[..i], Kept(held[i], cutoff),
      if live then rest else Overwritten(rest, cutoff));
  }

  class RequestLimitsV2 {
    var windowSeconds: nat
    var requestsCount: uint32
    var requests: seq<RequestsV2>
    var threshold: nat

    /** The batches as values. */
    ghost var Log: seq<Batch>
    ghost var Repr: set<object>

    ghost predicate Valid()
      reads this, Repr
      ensures Valid() ==> this in Repr
    {
      this in Repr && Arrays(requests) <= Repr && Separate(requests) && Shows(requests, Log)
    }

    constructor (windowSeconds: nat, requestsCount: uint32, threshold: nat)
      ensures Valid() && fresh(Repr) && Log == [] && requests == []
      ensures this.windowSeconds == windowSeconds && this.requestsCount == requestsCount && this.threshold == threshold
    {
      this.windowSeconds, this.requestsCount, this.threshold := windowSeconds, requestsCount, threshold;
      requests, Log, Repr := [], [], {this};
    }

    /** Records a request. */
    method AddCounter(counterTime: int)
      requires Valid()
      modifies Repr
      ensures Valid() && fresh(Repr - old(Repr))
      ensures Log == Added(old(Log), counterTime)
      ensures requestsCount == Increment(old(requestsCount))
      ensures windowSeconds == old(windowSeconds) && threshold == old(threshold)
    {
      requestsCount := Increment(requestsCount);
      var n := |requests|;
      assert n > 0 ==> ShowsOne(requests[n - 1], Log[n - 1]);
      if n == 0 || requests[n - 1].data.len == MAX_BATCH {
        StartBatch(counterTime);
      } else {
        var value := NextDelta(requests[n - 1], Log[n - 1], counterTime);
        AppendToLast(value);
      }
    }

    method StartBatch(counterTime: int)
      requires Valid()
      modifies this`requests, this`Log, this`Repr
      ensures Valid() && fresh(Repr - old(Repr))
      ensures Log == old(Log) + [Batch(counterTime, [0])]
      ensures unchanged(`windowSeconds, `requestsCount, `threshold)
    {
      var data := new uint32[1] [0];
      requests := requests + [RequestsV2(Slice(data, 0, 1), counterTime)];
      Log := Log + [Batch(counterTime, [0])];
      Repr := Repr + {data};
      assert data[0..1] == [0];
    }

    method AppendToLast(value: uint32)
      requires Valid() && requests != []
      modifies this`requests, this`Log, this`Repr, requests[|requests| - 1].data.arr
      ensures Valid() && fresh(Repr - old(Repr))
      ensures Log == old(Log[..|Log| - 1] + [Batch(Log[|Log| - 1].start, Log[|Log| - 1].data + [value])])
      ensures unchanged(`windowSeconds, `requestsCount, `threshold)
    {
      var n := |requests| - 1;
      var last := requests[n];
      assert ShowsOne(last, Log[n]);
      var data := Append(last.data, value);
      assert forall i :: 0 <= i < n ==> requests[i].data.arr != last.data.arr && ShowsOne(requests[i], Log[i]);
      requests := requests[n := RequestsV2(data, last.start)];
      Log := Log[..n] + [Batch(Log[n].start, Log[n].data + [value])];
      Repr := Repr + {data.arr};
    }

    /** The list out covers the first i batches, position by position, with the contents of cleaned. */
    ghost predicate Building(out: seq<RequestsV2>, cleaned: seq<Batch>, i: nat)
      reads this, Repr, Arrays(out)
    {
      Valid() && Shows(out, cleaned) && Disjoint(out, requests, i)
    }

    /** Scans the i-th batch, ahead of which no entry is live. */
    method CleanOne(i: nat, now: int, newStart: int, out: seq<RequestsV2>, ghost cleaned: seq<Batch>)
      returns (next: seq<RequestsV2>, live: bool)
      requires Building(out, cleaned, i) && i < |requests| && newStart == Cutoff(now, windowSeconds)
      modifies this`Log, requests[i].data.arr
      ensures Building(next, cleaned + [Remainder(old(Log[i]), newStart)], i + 1)
      ensures fresh(Arrays(next) - Arrays(out) - Repr)
      ensures Log == old(Log)[i := Kept(old(Log[i]), newStart)]
      ensures live == HasLive(old(Log[i]), newStart)
    {
      assert ShowsOne(requests[i], Log[i]);
      var data;
      data, live := CleanBatch(requests[i], Log[i], windowSeconds, now, newStart);
      assert forall k :: 0 <= k < |requests| && k != i ==>
        requests[k].data.arr != requests[i].data.arr && ShowsOne(requests[k], Log[k]);
      Log := Log[i := Kept(Log[i], newStart)];
      assert forall k :: 0 <= k < i ==> Owned(out[k].data.arr, requests, k) && ShowsOne(out[k], cleaned[k]);
      next := out + [RequestsV2(data, newStart)];
      DisjointAppend(out, requests, i, RequestsV2(data, newStart));
    }

    /** Goes through the i-th batch: scans it, or keeps it whole once a live entry was reached. */
    method CleanNext(i: nat, now: int, newStart: int, out: seq<RequestsV2>, reached: bool,
                     ghost log: seq<Batch>, ghost cleaned: seq<Batch>)
      returns (next: seq<RequestsV2>, live: bool, ghost made: seq<Batch>)
      requires Building(out, cleaned, i) && i < |requests| && newStart == Cutoff(now, windowSeconds)
      requires Pending(log, Log, cleaned, newStart, i, reached)
      modifies this`Log, requests[i].data.arr
      ensures Building(next, made, i + 1) && fresh(Arrays(next) - Arrays(out) - Repr)
      ensures Pending(log, Log, made, newStart, i + 1, live)
    {
      if reached {
        PendingKept(log, Log, cleaned, newStart, i);
        assert ShowsOne(requests[i], Log[i]);
        DisjointAppend(out, requests, i, requests[i]);
        next, live, made := out + [requests[i]], true, cleaned + [Log[i]];
      } else {
        PendingScanned(log, Log, cleaned, newStart, i);
        made := cleaned + [Remainder(Log[i], newStart)];
        next, live := CleanOne(i, now, newStart, out, cleaned);
      }
    }

    /** Builds the batches that remain after dropping what left the window; their contents are
        cleaned. The caller installs them; until then the record still holds the old ones, one slot
        of which may be overwritten. */
    method CleanCounters(now: int) returns (out: seq<RequestsV2>, ghost cleaned: seq<Batch>)
      requires Valid()
      modifies this`Log, Repr - {this}
      ensures Valid() && Log == Overwritten(old(Log), Cutoff(now, windowSeconds))
      ensures cleaned == Cleaned(old(Log), Cutoff(now, windowSeconds))
      ensures Shows(out, cleaned) && Separate(out) && fresh(Arrays(out) - Repr)
    {
      var newStart := Cutoff(now, windowSeconds);
      ghost var log := Log;
      out, cleaned := [], [];
      var reached := false;
      var i := 0;
      PendingStart(log, newStart);
      while i < |requests|
        invariant i <= |requests| && Building(out, cleaned, i) && fresh(Arrays(out) - Repr)
        invariant Pending(log, Log, cleaned, newStart, i, reached)
        invariant newStart == Cutoff(now, windowSeconds)
      {
        out, reached, cleaned := CleanNext(i, now, newStart, out, reached, log, cleaned);
        i := i + 1;
      }
      PendingDone(log, Log, cleaned, newStart, reached);
    }

    /** Replaces the batches by those a clean built, and the count. */
    method Install(out: seq<RequestsV2>, ghost cleaned: seq<Batch>, count: uint32)
      requires Valid() && Shows(out, cleaned) && Separate(out)
      modifies this
      ensures Valid() && Log == cleaned && requestsCount == count && Repr == old(Repr) + Arrays(out)
      ensures windowSeconds == old(windowSeconds) && threshold == old(threshold)
    {
      requests, Log, requestsCount := out, cleaned, count;
      Repr := Repr + Arrays(out);
    }

    /** Appends a batch that shares no array with the record. */
    method Extend(batch: RequestsV2, ghost v: Batch)
      requires Valid() && ShowsOne(batch, v) && batch.data.arr !in Repr
      modifies this`requests, this`Log, this`Repr
      ensures Valid() && Repr == old(Repr) + {batch.data.arr} && Log == old(Log) + [v]
    {
      requests := requests + [batch];
      Log := Log + [v];
      Repr := Repr + {batch.data.arr};
    }
  }

  /** The array belongs to no other batch of the list than its k-th. */
  ghost predicate Owned(arr: array<uint32>, bs: seq<RequestsV2>, k: nat) {
    forall i :: 0 <= i < |bs| && i != k ==> bs[i].data.arr != arr
  }

  /** The new list out covers the first i batches of bs and shares arrays with them position by position. */
  ghost predicate Disjoint(out: seq<RequestsV2>, bs: seq<RequestsV2>, i: nat) {
    |out| == i && Separate(out) && forall k :: 0 <= k < i ==> Owned(out[k].data.arr, bs, k)
  }

  lemma DisjointAppend(out: seq<RequestsV2>, bs: seq<RequestsV2>, i: nat, b: RequestsV2)
    requires Disjoint(out, bs, i) && i < |bs|
    requires Owned(b.data.arr, bs, i)
    requires b.data.arr == bs[i].data.arr || b.data.arr !in Arrays(out)
    ensures Disjoint(out + [b], bs, i + 1)
  {
    forall k | 0 <= k < i ensures out[k].data.arr != b.data.arr {
      assert Owned(out[k].data.arr, bs, k);
    }
  }
}
