/** The request-limit record of the first format, one list of signed deltas, and its conversion to
    batches. */
module RequestLimitsV1 {
  import opened Records
  import opened Keys
  import opened RequestLog
  import V2 = RequestLimitsV2

  predicate Fits32(x: int) { -0x8000_0000 <= x < 0x8000_0000 }

  datatype Log = Log(start: int, data: seq<int32>)

  /** The sum of the deltas up to entry k. */
  function Total(log: Log, k: nat): int
    requires k < |log.data|
  {
    Sum(log.data[..k + 1])
  }

  /** The instant entry k decodes to. */
  function TimeAt1(log: Log, k: nat): int
    requires k < |log.data|
  {
    log.start + Wrap32(Total(log, k)) * SEC
  }

  function Times1(log: Log): (ts: seq<int>)
    ensures |ts| == |log.data|
  {
    seq(|log.data|, k requires 0 <= k < |log.data| => TimeAt1(log, k))
  }

  function Delta1(log: Log, t: int): int32 {
    Wrap32(TruncSeconds(t - log.start) - Sum(log.data))
  }

  function Added1(log: Log, t: int): Log {
    Log(log.start, log.data + [Delta1(log, t)])
  }

  function FirstLive1(log: Log, cutoff: int, j: nat): (r: nat)
    requires j <= |log.data|
    ensures j <= r <= |log.data|
    ensures forall i :: j <= i < r ==> TimeAt1(log, i) <= cutoff
    ensures r < |log.data| ==> TimeAt1(log, r) > cutoff
    decreases |log.data| - j
  {
    if j == |log.data| then j else if TimeAt1(log, j) > cutoff then j else FirstLive1(log, cutoff, j + 1)
  }

  /** Seconds from one instant to another, in 32 bits. */
  function Distance(from: int, to: int): int32 { Wrap32(TruncSeconds(to - from)) }

  function Rest1(log: Log, cutoff: int, j: nat): int32
    requires j < |log.data|
  {
    Distance(cutoff, TimeAt1(log, j))
  }

  function Cut1(log: Log, cutoff: int, j: nat): Log
    requires j < |log.data|
  {
    Log(cutoff, [Rest1(log, cutoff, j)] + log.data[j + 1..])
  }

  function Cleaned1(log: Log, cutoff: int): Log {
    var j := FirstLive1(log, cutoff, 0);
    if j == |log.data| then Log(cutoff, []) else Cut1(log, cutoff, j)
  }

  // ----- conversion -----

  function ChunkLength(data: seq<int32>): nat {
    if |data| < MAX_BATCH then |data| else MAX_BATCH
  }

  function Unsigned(data: seq<int32>): (r: seq<uint32>)
    ensures |r| == |data|
  {
    seq(|data|, i requires 0 <= i < |data| => Wrap(data[i]))
  }

  /** The instant that a run of deltas leads to. */
  function After(start: int, run: seq<int>): int { start + Sum(run) * SEC }

  function FirstChunk(start: int, data: seq<int32>): Batch
    requires data != []
  {
    Batch(start + data[0] * SEC, [0] + Unsigned(data[1..ChunkLength(data)]))
  }

  /** The batches that a list of deltas after the instant start is cut into. */
  function Chunks(start: int, data: seq<int32>): (bs: seq<Batch>)
    decreases |data|
  {
    if data == [] then []
    else
      var n := ChunkLength(data);
      [FirstChunk(start, data)] + Chunks(After(start, data[..n]), data[n..])
  }

  /** All chunks but the last hold 2500 entries, none is empty, and each starts at its first entry. */
  lemma {:induction false} ChunkShape(start: int, data: seq<int32>, i: nat)
    requires i < |Chunks(start, data)|
    ensures 0 < |Chunks(start, data)[i].data| <= 2500
    ensures i < |Chunks(start, data)| - 1 ==> |Chunks(start, data)[i].data| == 2500
    ensures Chunks(start, data)[i].data[0] == 0
    decreases |data|
  {
    var n := ChunkLength(data);
    var rest := Chunks(After(start, data[..n]), data[n..]);
    assert Chunks(start, data) == [FirstChunk(start, data)] + rest;
    if i > 0 {
      ChunkShape(After(start, data[..n]), data[n..], i - 1);
    } else if n == |data| {
      assert data[n..] == [];
    }
  }

  /** The first entry of the chunk that holds entry k. */
  function Head(k: nat): nat { k - k % MAX_BATCH }

  lemma {:induction false} UnsignedSum(data: seq<int32>)
    ensures (Sum(Unsigned(data)) - Sum(data)) % U32 == 0
    decreases |data|
  {
    if data != [] {
      var n := |data| - 1;
      UnsignedSum(data[..n]);
      assert Unsigned(data)[..n] == Unsigned(data[..n]);
    }
  }

  /** An entry of a chunk decodes to the chunk's start plus the unsigned distance from its first entry. */
  lemma ChunkTime(start: int, data: seq<int32>, k: nat)
    requires k < ChunkLength(data)
    ensures TimeAt(FirstChunk(start, data), k)
      == start + (data[0] + Wrap(Sum(data[..k + 1]) - data[0])) * SEC
  {
    var n := ChunkLength(data);
    var c := FirstChunk(start, data);
    assert c.data[..k + 1] == [0] + Unsigned(data[1..k + 1]);
    SumConcat([0], Unsigned(data[1..k + 1]));
    SingleSum(0);
    UnsignedSum(data[1..k + 1]);
    assert data[..k + 1] == [data[0]] + data[1..k + 1];
    SumConcat([data[0]], data[1..k + 1]);
    SingleSum(data[0]);
    SameWrap(Sum(Unsigned(data[1..k + 1])), Sum(data[..k + 1]) - data[0]);
  }

  lemma SingleSum(x: int)
    ensures Sum([x]) == x
  {
    assert [x][..0] == [];
  }

  lemma SameWrap(x: int, y: int)
    requires (x - y) % U32 == 0
    ensures Wrap(x) == Wrap(y)
  {}

  /** What entry k of a list of deltas decodes to after conversion. */
  function ConvertedTime(start: int, data: seq<int32>, k: nat): int
    requires k < |data|
  {
    var p := Sum(data[..Head(k) + 1]);
    start + (p + Wrap(Sum(data[..k + 1]) - p)) * SEC
  }

  lemma {:induction false} ChunksDecode(start: int, data: seq<int32>)
    ensures |AllTimes(Chunks(start, data))| == |data|
    ensures forall k :: 0 <= k < |data| ==> AllTimes(Chunks(start, data))[k] == ConvertedTime(start, data, k)
    decreases |data|
  {
    if data != [] {
      var n := ChunkLength(data);
      var rest := Chunks(After(start, data[..n]), data[n..]);
      ChunksDecode(After(start, data[..n]), data[n..]);
      assert Chunks(start, data)[1..] == rest;
      var first := Times(FirstChunk(start, data));
      forall k | 0 <= k < |data| ensures (first + AllTimes(rest))[k] == ConvertedTime(start, data, k) {
        if k < n {
          EarlyChunkTime(start, data, k);
        } else {
          LaterChunkTime(start, data, k);
        }
      }
    }
  }

  lemma EarlyChunkTime(start: int, data: seq<int32>, k: nat)
    requires k < ChunkLength(data)
    ensures TimeAt(FirstChunk(start, data), k) == ConvertedTime(start, data, k)
  {
    ChunkTime(start, data, k);
    assert Head(k) == 0;
    assert data[..1] == [data[0]];
    SingleSum(data[0]);
  }

  lemma LaterChunkTime(start: int, data: seq<int32>, k: nat)
    requires MAX_BATCH <= k < |data|
    ensures ConvertedTime(start, data, k)
      == ConvertedTime(After(start, data[..MAX_BATCH]), data[MAX_BATCH..], k - MAX_BATCH)
  {
    var h := Head(k);
    assert Head(k - MAX_BATCH) == h - MAX_BATCH;
    PrefixAfter(data, MAX_BATCH, h);
    PrefixAfter(data, MAX_BATCH, k);
  }

  lemma PrefixAfter(data: seq<int>, n: nat, k: nat)
    requires n <= k < |data|
    ensures Sum(data[..k + 1]) == Sum(data[..n]) + Sum(data[n..][..k - n + 1])
  {
    assert data[..k + 1] == data[..n] + data[n..][..k - n + 1];
    SumConcat(data[..n], data[n..][..k - n + 1]);
  }

  /** Entry k keeps its instant: its chunk's first total fits 32 bits, and the entry does not decode
      to before that first entry. */
  predicate KeepsTime(log: Log, k: nat)
    requires k < |log.data|
  {
    Fits32(Total(log, Head(k))) && TimeAt1(log, k) >= TimeAt1(log, Head(k))
  }

  lemma EntryPreserved(log: Log, k: nat)
    requires k < |log.data|
    ensures KeepsTime(log, k) ==> ConvertedTime(log.start, log.data, k) == TimeAt1(log, k)
    ensures Fits32(Total(log, Head(k))) && ConvertedTime(log.start, log.data, k) == TimeAt1(log, k) ==>
      KeepsTime(log, k)
  {
    var p, q := Total(log, Head(k)), Total(log, k);
    assert ConvertedTime(log.start, log.data, k) == log.start + (p + Wrap(q - p)) * SEC;
    assert (Wrap32(q) - (p + Wrap(q - p))) % U32 == 0;
  }

  lemma HeadPreserved(log: Log, k: nat)
    requires k < |log.data| && ConvertedTime(log.start, log.data, Head(k)) == TimeAt1(log, Head(k))
    ensures Fits32(Total(log, Head(k)))
  {
    assert Head(Head(k)) == Head(k);
    var p := Total(log, Head(k));
    assert Wrap(p - p) == 0;
    assert p == Wrap32(p);
  }

  /** Conversion preserves every decoded time exactly when, in each run of 2500 entries, the first
      total fits 32 bits and no entry decodes to before the first. */
  lemma ConversionPreservesTimes(log: Log)
    ensures AllTimes(Chunks(log.start, log.data)) == Times1(log)
      <==> forall k :: 0 <= k < |log.data| ==> KeepsTime(log, k)
  {
    ChunksDecode(log.start, log.data);
    var ts := AllTimes(Chunks(log.start, log.data));
    if forall k :: 0 <= k < |log.data| ==> KeepsTime(log, k) {
      forall k | 0 <= k < |log.data| ensures ts[k] == Times1(log)[k] {
        EntryPreserved(log, k);
      }
    }
    if ts == Times1(log) {
      forall k | 0 <= k < |log.data| ensures KeepsTime(log, k) {
        assert ts[k] == Times1(log)[k] && ts[Head(k)] == Times1(log)[Head(k)];
        HeadPreserved(log, k);
        EntryPreserved(log, k);
      }
    }
  }

  // ----- logs in order -----

  /** Deltas after the first are not negative and the last total fits 32 bits. */
  predicate Orderly(log: Log) {
    (forall k :: 1 <= k < |log.data| ==> log.data[k] >= 0) && (log.data != [] ==> Fits32(Sum(log.data)))
  }

  lemma {:induction false} TotalsInOrder(log: Log, j: nat, k: nat)
    requires forall k :: 1 <= k < |log.data| ==> log.data[k] >= 0
    requires j <= k < |log.data|
    ensures Total(log, j) <= Total(log, k)
    decreases k
  {
    if j < k {
      assert log.data[..k + 1][..k] == log.data[..k - 1 + 1];
      TotalsInOrder(log, j, k - 1);
    }
  }

  lemma OrderlyTotals(log: Log, j: nat, k: nat)
    requires Orderly(log) && j <= k < |log.data|
    ensures Fits32(Total(log, j)) && Total(log, j) <= Total(log, k)
    ensures TimeAt1(log, j) == log.start + Total(log, j) * SEC
  {
    var n := |log.data| - 1;
    TotalsInOrder(log, j, k);
    TotalsInOrder(log, 0, j);
    TotalsInOrder(log, j, n);
    assert log.data[..n + 1] == log.data;
    assert log.data[..1] == [log.data[0]];
    SingleSum(log.data[0]);
  }

  lemma OrderlyTimes(log: Log)
    requires Orderly(log)
    ensures NonDecreasing(Times1(log))
    ensures AllTimes(Chunks(log.start, log.data)) == Times1(log)
  {
    forall j, k | 0 <= j < k < |log.data| ensures Times1(log)[j] <= Times1(log)[k] {
      OrderlyTotals(log, j, k);
      OrderlyTotals(log, k, k);
    }
    forall k | 0 <= k < |log.data| ensures KeepsTime(log, k) {
      OrderlyTotals(log, Head(k), k);
      OrderlyTotals(log, k, k);
    }
    ConversionPreservesTimes(log);
  }

  /** Every entry decodes to less than 2^31 seconds after the cutoff. */
  predicate NearCutoff(log: Log, cutoff: int) {
    forall k :: 0 <= k < |log.data| ==> TimeAt1(log, k) < cutoff + 0x8000_0000 * SEC
  }

  lemma FirstLive1Is(log: Log, cutoff: int)
    ensures FirstLive1(log, cutoff, 0) == FirstAfter(Times1(log), cutoff)
  {
    var j := FirstLive1(log, cutoff, 0);
    FirstAfterIs(Times1(log), cutoff, j);
  }

  lemma Cut1Entry(log: Log, cutoff: int, j: nat, k: nat)
    requires j <= k < |log.data|
    ensures TimeAt1(Cut1(log, cutoff, j), k - j)
         == cutoff + Wrap32(Rest1(log, cutoff, j) + (Total(log, k) - Total(log, j))) * SEC
  {
    SplitSum(log.data, j, k);
    SumOfCut(Rest1(log, cutoff, j), log.data, j, k);
  }

  lemma SurvivorTime1(log: Log, cutoff: int, j: nat, k: nat)
    requires Orderly(log) && NearCutoff(log, cutoff)
    requires j <= k < |log.data| && TimeAt1(log, j) > cutoff
    ensures TimeAt1(Cut1(log, cutoff, j), k - j) == TimeAt1(log, k) - Shift(TimeAt1(log, j), cutoff)
  {
    OrderlyTotals(log, j, k);
    OrderlyTotals(log, k, k);
    Cut1Entry(log, cutoff, j, k);
    Cut1Arithmetic(log.start, cutoff, Total(log, j), Total(log, k), (TimeAt1(log, j) - cutoff) / SEC);
  }

  lemma Cut1Arithmetic(start: int, cutoff: int, tj: int, tk: int, q: int)
    requires q == (start + tj * SEC - cutoff) / SEC && start + tj * SEC > cutoff
    requires tj <= tk && start + tk * SEC < cutoff + 0x8000_0000 * SEC
    ensures Fits32(q) && cutoff + Wrap32(q + tk - tj) * SEC == start + tk * SEC - (start + tj * SEC - cutoff) % SEC
  {
    assert start + tj * SEC - cutoff == q * SEC + (start + tj * SEC - cutoff) % SEC;
  }

  lemma Cut1Times(log: Log, cutoff: int, j: nat)
    requires Orderly(log) && NearCutoff(log, cutoff)
    requires j < |log.data| && TimeAt1(log, j) > cutoff
    ensures Times1(Cut1(log, cutoff, j))
         == ShiftedFirst(Times1(log)[j..], |log.data| - j, Shift(TimeAt1(log, j), cutoff))
  {
    forall i | 0 <= i < |log.data| - j
      ensures Times1(Cut1(log, cutoff, j))[i] == Times1(log)[j..][i] - Shift(TimeAt1(log, j), cutoff)
    {
      SurvivorTime1(log, cutoff, j, j + i);
      assert TimeAt1(Cut1(log, cutoff, j), j + i - j) == Times1(Cut1(log, cutoff, j))[i];
    }
  }

  /** On logs in order, cleaning the first format also keeps the live suffix, all of it moved back. */
  lemma Clean1IsSuffix(log: Log, cutoff: int)
    requires Orderly(log) && NearCutoff(log, cutoff)
    ensures var survivors := SuffixAfter(Times1(log), cutoff);
            Times1(Cleaned1(log, cutoff)) == ShiftedFirst(survivors, |survivors|, FirstShift(survivors, cutoff))
  {
    var j := FirstLive1(log, cutoff, 0);
    FirstLive1Is(log, cutoff);
    if j < |log.data| {
      Cut1Times(log, cutoff, j);
    }
  }

  lemma HeadSteps(k: nat)
    ensures k < MAX_BATCH ==> Head(k) == 0
    ensures k >= MAX_BATCH ==> Head(k) == MAX_BATCH + Head(k - MAX_BATCH)
  {}

  /** How many entries from f on share its chunk. */
  function ChunkRest(data: seq<int32>, f: nat): int
    requires f < |data|
  {
    ChunkLength(data[Head(f)..]) - (f - Head(f))
  }

  lemma ChunkRestAfter(data: seq<int32>, f: nat)
    requires MAX_BATCH <= f < |data|
    ensures ChunkRest(data, f) == ChunkRest(data[MAX_BATCH..], f - MAX_BATCH)
  {
    HeadSteps(f);
    assert data[MAX_BATCH..][Head(f - MAX_BATCH)..] == data[Head(f)..];
  }

  lemma {:induction false} CutLengthOfChunks(start: int, data: seq<int32>, cutoff: int)
    ensures var bs := Chunks(start, data);
            var f := FirstAfter(AllTimes(bs), cutoff);
            |AllTimes(bs)| == |data| && (f < |data| ==> CutLength(bs, cutoff) == ChunkRest(data, f))
    decreases |data|
  {
    ChunksDecode(start, data);
    if data != [] {
      var n := ChunkLength(data);
      var bs := Chunks(start, data);
      var start2 := After(start, data[..n]);
      assert bs[1..] == Chunks(start2, data[n..]);
      FirstAfterInBatches(bs, cutoff);
      CutLengthOfChunks(start2, data[n..], cutoff);
      var f := FirstAfter(AllTimes(bs), cutoff);
      HeadSteps(f);
      if f < n {
        assert data[0..] == data;
      } else if f < |data| {
        ChunkRestAfter(data, f);
      }
    }
  }

  lemma ShiftsEqual(ts: seq<int>, m: nat, d: int)
    ensures ShiftedFirst(ts, m, d) == ShiftedFirst(ts, |ts|, d) <==> d == 0 || m >= |ts|
  {
    if d != 0 && m < |ts| {
      assert ShiftedFirst(ts, m, d)[m] != ShiftedFirst(ts, |ts|, d)[m];
    }
  }

  /** The clean meets the log on whole seconds, or its survivors lie in one run of 2500, or there is none. */
  predicate CleansAlike(log: Log, cutoff: int) {
    var f := FirstAfter(Times1(log), cutoff);
    (log.start - cutoff) % SEC == 0 || f == |log.data| || Head(f) == Head(|log.data| - 1)
  }

  lemma AlikeByShift(log: Log, cutoff: int)
    ensures var survivors, f := SuffixAfter(Times1(log), cutoff), FirstAfter(Times1(log), cutoff);
            CleansAlike(log, cutoff)
              == (FirstShift(survivors, cutoff) == 0 || f == |log.data| || ChunkRest(log.data, f) >= |survivors|)
  {
    var survivors, f := SuffixAfter(Times1(log), cutoff), FirstAfter(Times1(log), cutoff);
    if f < |log.data| {
      assert survivors[0] == TimeAt1(log, f);
      ShiftOfAligned(log.start, Wrap32(Total(log, f)), cutoff);
      OneChunk(log.data, f);
    }
  }

  lemma NearIsWithinHorizon(log: Log, cutoff: int)
    requires NearCutoff(log, cutoff)
    ensures WithinHorizon(Times1(log), cutoff)
  {
    forall i | 0 <= i < |log.data| ensures Times1(log)[i] < cutoff + U32 * SEC {
      assert TimeAt1(log, i) < cutoff + 0x8000_0000 * SEC;
    }
  }

  /** Cleaning commutes with conversion exactly when the clock reads whole seconds from the log's
      start, or the survivors all lie in one run of 2500, or there is none. */
  lemma CleanCommutes(log: Log, cutoff: int)
    requires Orderly(log) && NearCutoff(log, cutoff)
    ensures AllTimes(Cleaned(Chunks(log.start, log.data), cutoff)) == Times1(Cleaned1(log, cutoff))
      <==> CleansAlike(log, cutoff)
  {
    var bs := Chunks(log.start, log.data);
    var survivors := SuffixAfter(Times1(log), cutoff);
    OrderlyTimes(log);
    NearIsWithinHorizon(log, cutoff);
    InOrderInBatches(bs, cutoff);
    InBatchOrderInRange(bs, cutoff);
    CleanIsSuffix(bs, cutoff);
    Clean1IsSuffix(log, cutoff);
    CutLengthOfChunks(log.start, log.data, cutoff);
    ShiftsEqual(survivors, CutLength(bs, cutoff), FirstShift(survivors, cutoff));
    AlikeByShift(log, cutoff);
  }

  lemma ShiftOfAligned(start: int, n: int, cutoff: int)
    ensures Shift(start + n * SEC, cutoff) == 0 <==> (start - cutoff) % SEC == 0
  {
    assert start + n * SEC - cutoff == (start - cutoff) + n * SEC;
  }

  lemma OneChunk(data: seq<int32>, f: nat)
    requires f < |data|
    ensures ChunkRest(data, f) >= |data| - f <==> Head(f) == Head(|data| - 1)
  {}

  lemma {:induction false} LastChunk(start: int, data: seq<int32>)
    requires data != []
    ensures var bs, h := Chunks(start, data), Head(|data| - 1);
            bs != [] && bs[|bs| - 1].start == start + Sum(data[..h + 1]) * SEC
            && |bs[|bs| - 1].data| == |data| - h
    decreases |data|
  {
    var n := ChunkLength(data);
    var bs := Chunks(start, data);
    if n == |data| {
      assert Head(|data| - 1) == 0 && data[..1] == [data[0]];
      SingleSum(data[0]);
      assert bs == [FirstChunk(start, data)];
    } else {
      var start2, rest := After(start, data[..n]), data[n..];
      LastChunk(start2, rest);
      var h := Head(|data| - 1);
      assert Head(|rest| - 1) == h - n;
      PrefixAfter(data, n, h);
      assert bs[|bs| - 1] == Chunks(start2, rest)[|bs| - 2];
    }
  }

  lemma LastTotal1(log: Log, v: int32)
    ensures Total(Log(log.start, log.data + [v]), |log.data|) == Sum(log.data) + v
  {
    var data := log.data + [v];
    assert data[..|log.data| + 1] == data && data[..|log.data|] == log.data;
  }

  lemma AddedTimes1(log: Log, t: int)
    ensures Times1(Added1(log, t)) == Times1(log) + [log.start + Wrap32(TruncSeconds(t - log.start)) * SEC]
  {
    var a := Added1(log, t);
    forall k | 0 <= k < |log.data| ensures Times1(a)[k] == Times1(log)[k] {
      assert a.data[..k + 1] == log.data[..k + 1];
    }
    LastTotal1(log, Delta1(log, t));
    Wrap32Sum(Sum(log.data), TruncSeconds(t - log.start));
  }

  lemma Wrap32Sum(x: int, y: int)
    ensures Wrap32(x + Wrap32(y - x)) == Wrap32(y)
  {
    Wrap32Twice(y - x, x);
  }

  /** An add records the request's distance from the start, cut to whole seconds and taken modulo 2^32
      into 32 signed bits, and leaves the other entries and the start alone. */
  lemma Added1Times(log: Log, t: int) returns (seconds: int)
    ensures Added1(log, t).start == log.start
    ensures Times1(Added1(log, t)) == Times1(log) + [log.start + seconds * 1_000_000_000]
    ensures -0x8000_0000 <= seconds < 0x8000_0000 && (TruncSeconds(t - log.start) - seconds) % 0x1_0000_0000 == 0
  {
    seconds := Wrap32(TruncSeconds(t - log.start));
    AddedTimes1(log, t);
    SignedCongruent(TruncSeconds(t - log.start));
  }

  lemma SignedCongruent(x: int)
    ensures (x - Wrap32(x)) % 0x1_0000_0000 == 0
  {}

  /** Adding commutes with conversion exactly when the request joins a started run of 2500, or comes
      a whole number of seconds after the log's start. */
  lemma AddCommutes(log: Log, t: int)
    requires Orderly(log) && 0 <= t - log.start < 0x8000_0000 * SEC
    requires log.data != [] ==> TimeAt1(log, |log.data| - 1) <= t
    ensures AllTimes(Added(Chunks(log.start, log.data), t)) == Times1(Added1(log, t))
      <==> |log.data| % MAX_BATCH != 0 || (t - log.start) % SEC == 0
  {
    var bs := Chunks(log.start, log.data);
    OrderlyTimes(log);
    AddAppends(bs, t);
    AddedTimes1(log, t);
    AddStamps(log, t);
    var x, y := Stamp(bs, t), log.start + Wrap32(TruncSeconds(t - log.start)) * SEC;
    assert Times1(log) + [x] == Times1(log) + [y] <==> x == y by {
      assert (Times1(log) + [x])[|log.data|] == x && (Times1(log) + [y])[|log.data|] == y;
    }
  }

  lemma AddStamps(log: Log, t: int)
    requires Orderly(log) && 0 <= t - log.start < 0x8000_0000 * SEC
    requires log.data != [] ==> TimeAt1(log, |log.data| - 1) <= t
    ensures Stamp(Chunks(log.start, log.data), t) == log.start + Wrap32(TruncSeconds(t - log.start)) * SEC
      <==> |log.data| % MAX_BATCH != 0 || (t - log.start) % SEC == 0
  {
    FloorOf(log.start, t);
    if log.data != [] {
      StartsAtMultiple(log);
      if |log.data| % MAX_BATCH != 0 {
        JoinsOnGrid(log, t);
      }
    }
  }

  lemma FloorOf(start: int, t: int)
    requires 0 <= t - start < 0x8000_0000 * SEC
    ensures start + Wrap32(TruncSeconds(t - start)) * SEC == t - (t - start) % SEC
  {}

  lemma StartsAtMultiple(log: Log)
    requires log.data != []
    ensures StartsBatch(Chunks(log.start, log.data)) <==> |log.data| % MAX_BATCH == 0
  {
    LastChunk(log.start, log.data);
  }

  lemma ChunkStartBefore(log: Log, t: int)
    requires Orderly(log) && log.data != [] && TimeAt1(log, |log.data| - 1) <= t
    ensures var p := Total(log, Head(|log.data| - 1)); Fits32(p) && log.start + p * SEC <= t
  {
    var n := |log.data| - 1;
    OrderlyTotals(log, Head(n), n);
    OrderlyTotals(log, n, n);
  }

  lemma JoinsOnGrid(log: Log, t: int)
    requires Orderly(log) && 0 <= t - log.start < 0x8000_0000 * SEC
    requires log.data != [] && TimeAt1(log, |log.data| - 1) <= t
    ensures var bs := Chunks(log.start, log.data);
            bs != [] && var start := bs[|bs| - 1].start;
            start + Wrap(TruncSeconds(t - start)) * SEC == log.start + Wrap32(TruncSeconds(t - log.start)) * SEC
  {
    LastChunk(log.start, log.data);
    ChunkStartBefore(log, t);
    JoinedStamp(log.start, Total(log, Head(|log.data| - 1)), t);
  }

  lemma JoinedStamp(start: int, p: int, t: int)
    requires 0 <= t - start < 0x8000_0000 * SEC && Fits32(p) && start + p * SEC <= t
    ensures start + p * SEC + Wrap(TruncSeconds(t - (start + p * SEC))) * SEC
      == start + Wrap32(TruncSeconds(t - start)) * SEC
  {
    assert (t - (start + p * SEC)) / SEC == (t - start) / SEC - p;
  }

  // ----- the record -----

  class RequestLimits {
    var windowSeconds: nat
    var data: seq<int32>
    var start: int
    var threshold: nat

    constructor (windowSeconds: nat, log: Log, threshold: nat)
      ensures this.windowSeconds == windowSeconds && this.threshold == threshold && Held() == log
    {
      this.windowSeconds, this.threshold := windowSeconds, threshold;
      data, start := log.data, log.start;
    }

    function Held(): Log
      reads this
    {
      Log(start, data)
    }

    method AddCounter(counterTime: int)
      modifies this`data
      ensures Held() == Added1(old(Held()), counterTime)
    {
      var value := NextDelta1(Held(), counterTime);
      data := data + [value];
    }

    /** The entries left after dropping those before the first one inside the window. */
    method CleanCounters(now: int) returns (requests: Log)
      ensures requests == Cleaned1(Held(), Cutoff(now, windowSeconds))
    {
      var requestData: seq<int32> := [];
      var newStart := Cutoff(now, windowSeconds);
      var counter: int := 0;
      var i := 0;
      assert data[..0] == [];
      while i < |data|
        invariant i <= |data| && requestData == []
        invariant counter == Wrap32(Sum(data[..i]))
        invariant forall k :: 0 <= k < i ==> TimeAt1(Held(), k) <= newStart
      {
        var tt := start + Wrap32(data[i] + counter) * SEC;
        NextTotal(Held(), i);
        if now - tt < windowSeconds * SEC {
          requestData := [Distance(newStart, tt)];
          if i != |data| - 1 {
            requestData := requestData + data[i + 1..];
          }
          break;
        }
        counter := Wrap32(data[i] + counter);
        i := i + 1;
      }
      FirstLive1From(Held(), newStart, i);
      requests := Log(newStart, requestData);
    }

    /** Converts to batches of at most 2500 entries. */
    method ToV2() returns (r: V2.RequestLimitsV2)
      ensures r.Valid() && fresh(r.Repr) && r.Log == Chunks(start, data)
      ensures r.windowSeconds == windowSeconds && r.threshold == threshold && r.requestsCount == Wrap(|data|)
    {
      r := new V2.RequestLimitsV2(windowSeconds, Wrap(|data|), threshold);
      var from := start;
      var i := 0;
      assert data[0..] == data;
      while i < |data|
        invariant i <= |data| && r.Valid() && fresh(r.Repr)
        invariant r.windowSeconds == windowSeconds && r.threshold == threshold && r.requestsCount == Wrap(|data|)
        invariant Chunks(start, data) == r.Log + Chunks(from, data[i..])
      {
        var nextLen := (if i + MAX_BATCH < |data| then i + MAX_BATCH else |data|) - i;
        var batch, nextStart := ConvertChunk(from, data[i..i + nextLen]);
        ChunksStep(start, data, r.Log, from, i, nextLen);
        r.Extend(batch, FirstChunk(from, data[i..]));
        from := nextStart;
        i := i + nextLen;
      }
      assert data[i..] == [];
    }
  }

  /** Subtracts the deltas held from the distance of t. */
  method NextDelta1(log: Log, t: int) returns (value: int32)
    ensures value == Delta1(log, t)
  {
    var acc: int := Wrap32(TruncSeconds(t - log.start));
    assert log.data[..0] == [];
    for i := 0 to |log.data|
      invariant acc == Wrap32(TruncSeconds(t - log.start) - Sum(log.data[..i]))
    {
      assert log.data[..i + 1][..i] == log.data[..i];
      var el: int := log.data[i];
      Wrap32Twice(TruncSeconds(t - log.start) - Sum(log.data[..i]), -el);
      acc := Wrap32(acc - el);
    }
    assert log.data[..|log.data|] == log.data;
    value := acc;
  }

  lemma AfterNext(from: int, run: seq<int>, q: nat)
    requires q < |run|
    ensures After(from, run[..q + 1]) == After(from, run[..q]) + run[q] * SEC
    ensures After(from, run[..0]) == from
  {
    assert run[..q + 1][..q] == run[..q];
  }

  /** Re-bases one run of deltas to its first entry; also gives the instant of its last entry. */
  method ConvertChunk(from: int, run: seq<int32>) returns (batch: V2.RequestsV2, nextStart: int)
    requires 0 < |run| <= MAX_BATCH
    ensures V2.ShowsOne(batch, FirstChunk(from, run)) && fresh(batch.data.arr)
    ensures nextStart == After(from, run)
  {
    var first := from + run[0] * SEC;
    nextStart := first;
    var arr := new uint32[MAX_BATCH];
    AfterNext(from, run, 0);
    for q := 0 to |run|
      modifies arr
      invariant nextStart == After(from, run[..if q == 0 then 1 else q])
      invariant forall k :: 0 <= k < q ==> arr[k] == if k == 0 then 0 else Wrap(run[k])
    {
      var v: int := if q == 0 then Wrap32(run[0] - run[0]) else run[q];
      nextStart := nextStart + v * SEC;
      arr[q] := Wrap(v);
      AfterNext(from, run, q);
    }
    assert run[..|run|] == run;
    batch := V2.RequestsV2(V2.Slice(arr, 0, |run|), first);
    assert arr[0..|run|] == [0] + Unsigned(run[1..|run|]);
  }

  lemma NextTotal(log: Log, i: nat)
    requires i < |log.data|
    ensures Wrap32(log.data[i] + Wrap32(Sum(log.data[..i]))) == Wrap32(Sum(log.data[..i + 1]))
  {
    Wrap32Twice(Sum(log.data[..i]), log.data[i]);
    assert log.data[..i + 1][..i] == log.data[..i];
  }

  lemma FirstLive1From(log: Log, cutoff: int, j: nat)
    requires j <= |log.data| && (forall k :: 0 <= k < j ==> TimeAt1(log, k) <= cutoff)
    requires j < |log.data| ==> TimeAt1(log, j) > cutoff
    ensures FirstLive1(log, cutoff, 0) == j
  {}

  lemma ChunksStep(start: int, data: seq<int32>, done: seq<Batch>, from: int, i: nat, n: nat)
    requires i < |data| && Chunks(start, data) == done + Chunks(from, data[i..]) && n == ChunkLength(data[i..])
    ensures FirstChunk(from, data[i..i + n]) == FirstChunk(from, data[i..])
    ensures Chunks(start, data)
      == done + [FirstChunk(from, data[i..])] + Chunks(After(from, data[i..i + n]), data[i + n..])
  {
    assert data[i..][..n] == data[i..i + n] && data[i..][n..] == data[i + n..];
    assert data[i..i + n][1..n] == data[i..][1..n];
  }
}
