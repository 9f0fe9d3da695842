/** Runs, from an empty store, after which the cached and the stored limits of an owner disagree. */
module RequestClashes {
  import opened Bytes
  import opened Records
  import opened Keys
  import opened Store
  import opened RequestLog
  import opened RequestLimitsV2
  import opened BatchStore
  import opened RequestLimiter

  // ----- a request and a burst -----

  function Zeros(n: nat): (z: seq<uint32>)
    ensures |z| == n
  {
    seq(n, i requires 0 <= i < n => 0)
  }

  lemma {:induction false} SumZeros(n: nat)
    ensures Sum(Zeros(n)) == 0
  {
    if n > 0 {
      assert Zeros(n)[..n - 1] == Zeros(n - 1);
      SumZeros(n - 1);
    }
  }

  /** The batch of one request at t0 and n at t1. */
  function Burst(t0: int, t1: int, n: nat): Batch {
    Batch(t0, [0] + if n == 0 then [] else [Wrap(TruncSeconds(t1 - t0))] + Zeros(n - 1))
  }

  lemma SumOfBurst(q: uint32, n: nat)
    ensures Sum([0]) == 0 && Sum([0] + ([q] + Zeros(n))) == q
  {
    SumZeros(n);
    SumConcat([q], Zeros(n));
    SumConcat([0], [q] + Zeros(n));
    assert [0][..0] == [] && [q][..0] == [];
    assert Sum([0]) == 0 && Sum([q]) == q;
  }

  lemma BurstNext(t0: int, t1: int, n: nat)
    ensures Joined(Burst(t0, t1, n), t1) == Burst(t0, t1, n + 1)
  {
    var q := Wrap(TruncSeconds(t1 - t0));
    SumOfBurst(q, if n == 0 then 0 else n - 1);
    if n == 0 {
      assert [0] + [q] == [0] + ([q] + Zeros(0));
    } else {
      assert [0] + ([q] + Zeros(n - 1)) + [0] == [0] + ([q] + Zeros(n));
    }
  }

  lemma BurstTimes(t0: int, t1: int, n: nat)
    ensures TimeAt(Burst(t0, t1, n), 0) == t0
    ensures n > 0 ==> TimeAt(Burst(t0, t1, n), 1) == t0 + Wrap(TruncSeconds(t1 - t0)) * SEC
  {
    var b, q := Burst(t0, t1, n), Wrap(TruncSeconds(t1 - t0));
    SumOfBurst(q, 0);
    assert b.data[..1] == [0];
    if n > 0 { assert b.data[..2] == [0] + ([q] + Zeros(0)); }
  }

  // ----- the run -----

  /** Limits are created, then a request comes at t0 and n at t1. */
  function BurstOps(id: Bytes, window: nat, threshold: nat, t0: int, t1: int, n: nat): (ops: seq<Op>)
    ensures |ops| == n + 2
  {
    if n == 0 then [Create(id, window, threshold), Add(id, window, t0)]
    else BurstOps(id, window, threshold, t0, t1, n - 1) + [Add(id, window, t1)]
  }

  /** The owner's limits are cached with the batches bs, and everybody agrees. */
  ghost predicate Holding(s: State, id: Bytes, window: nat, bs: seq<Batch>) {
    && Agree(s) && RequestLimitsKey(id, window) in s.cache
    && s.cache[RequestLimitsKey(id, window)].batches == bs
  }

  lemma FirstAdd(s: State, id: Bytes, window: nat, t0: int, l: Limits)
    requires Agree(s) && Owner(id, window) && Fetched(s, id, window) == Ok(l) && l.batches == []
    ensures Holding(AfterAdd(s, id, window, t0), id, window, [Batch(t0, [0])])
  {
    AddAgrees(s, id, window, t0);
    assert Added([], t0) == [Batch(t0, [0])];
  }

  lemma NextAdd(s: State, id: Bytes, window: nat, b: Batch, t: int)
    requires Holding(s, id, window, [b]) && Owner(id, window) && |b.data| < MAX_BATCH
    ensures Holding(AfterAdd(s, id, window, t), id, window, [Joined(b, t)])
  {
    AddAgrees(s, id, window, t);
    assert Added([b], t) == [Joined(b, t)] by { assert [b][..0] == []; }
  }

  lemma FullAdd(s: State, id: Bytes, window: nat, b: Batch, t: int)
    requires Holding(s, id, window, [b]) && Owner(id, window) && |b.data| == MAX_BATCH && Slot(b.start) != Slot(t)
    ensures Holding(AfterAdd(s, id, window, t), id, window, [b, Batch(t, [0])])
  {
    AddAgrees(s, id, window, t);
    assert Added([b], t) == [b, Batch(t, [0])];
  }

  lemma BurstStarts(id: Bytes, window: nat, threshold: nat, t0: int, t1: int)
    requires Owner(id, window)
    ensures Holding(Run(EMPTY, BurstOps(id, window, threshold, t0, t1, 0)), id, window, [Burst(t0, t1, 0)])
  {
    CreatedIsEmpty(id, window, threshold);
    var s := AfterCreate(EMPTY, id, window, threshold);
    FirstAdd(s, id, window, t0, Limits(window, 0, [], threshold));
    RunAppend(EMPTY, [Create(id, window, threshold)], Add(id, window, t0));
    RunAppend(EMPTY, [], Create(id, window, threshold));
    assert [Create(id, window, threshold)] + [Add(id, window, t0)] == BurstOps(id, window, threshold, t0, t1, 0);
    assert [] + [Create(id, window, threshold)] == [Create(id, window, threshold)];
    assert Burst(t0, t1, 0) == Batch(t0, [0]);
  }

  lemma {:induction false} BurstHolds(id: Bytes, window: nat, threshold: nat, t0: int, t1: int, n: nat)
    requires Owner(id, window) && n < MAX_BATCH
    ensures Holding(Run(EMPTY, BurstOps(id, window, threshold, t0, t1, n)), id, window, [Burst(t0, t1, n)])
  {
    if n == 0 {
      BurstStarts(id, window, threshold, t0, t1);
    } else {
      BurstHolds(id, window, threshold, t0, t1, n - 1);
      var ops := BurstOps(id, window, threshold, t0, t1, n - 1);
      NextAdd(Run(EMPTY, ops), id, window, Burst(t0, t1, n - 1), t1);
      BurstNext(t0, t1, n - 1);
      RunAppend(EMPTY, ops, Add(id, window, t1));
    }
  }

  // ----- what goes wrong -----

  /** 2501 requests in one instant: the second batch overwrites the first one's key. */
  lemma AddClash(id: Bytes, window: nat, threshold: nat, t: int)
    requires Owner(id, window)
    ensures !Agree(Run(EMPTY, BurstOps(id, window, threshold, t, t, MAX_BATCH)))
  {
    var ops := BurstOps(id, window, threshold, t, t, MAX_BATCH - 1);
    BurstHolds(id, window, threshold, t, t, MAX_BATCH - 1);
    RunAppend(EMPTY, ops, Add(id, window, t));
    SameSecondClash(Run(EMPTY, ops), id, window, Burst(t, t, MAX_BATCH - 1), t);
  }

  /** A full batch and a further request in the second it started in. */
  lemma SameSecondClash(s: State, id: Bytes, window: nat, b: Batch, t: int)
    requires Holding(s, id, window, [b]) && Owner(id, window) && |b.data| == MAX_BATCH && Slot(b.start) == Slot(t)
    ensures !Agree(AfterAdd(s, id, window, t))
  {
    assert StartsBatch([b]) && [b][0].data != [];
    AddAgrees(s, id, window, t);
  }

  /** The instant at which t leaves the window. */
  function Leaving(t: int, window: nat): int { t + window * SEC }

  lemma LeavingEdge(t: int, window: nat)
    ensures Cutoff(Leaving(t, window), window) == t
  {}

  /** One request, cleaned exactly a window later: the emptied batch counts as unchanged, because it
      starts where the old one did, and the store keeps the old one. */
  lemma CleanClash(id: Bytes, window: nat, threshold: nat, t: int)
    requires Owner(id, window)
    ensures var now := Leaving(t, window);
            !Agree(Run(EMPTY, [Create(id, window, threshold), Add(id, window, t), Clean(id, window, now)]))
  {
    var ops, now := BurstOps(id, window, threshold, t, t, 0), Leaving(t, window);
    BurstHolds(id, window, threshold, t, t, 0);
    RunAppend(EMPTY, ops, Clean(id, window, now));
    assert ops + [Clean(id, window, now)]
        == [Create(id, window, threshold), Add(id, window, t), Clean(id, window, now)];
    LeavingEdge(t, window);
    OneScanned(Burst(t, t, 0), t);
    CleanAgrees(Run(EMPTY, ops), id, window, now);
  }

  lemma OneScanned(b: Batch, cutoff: int)
    requires b.start == cutoff && b.data != [] && b.data[0] == 0
    ensures !CleanSafe([b], cutoff)
  {
    assert [b][1..] == [] && Scanned([], cutoff) == 0;
  }

  /** A clean whose edge falls in the start second of a kept batch: both are written under one key. */
  lemma KeptClash(s: State, id: Bytes, window: nat, b1: Batch, b2: Batch, now: int)
    requires Holding(s, id, window, [b1, b2]) && Owner(id, window)
    requires HasLive(b1, Cutoff(now, window)) && Slot(b2.start) == Slot(Cutoff(now, window))
    ensures !Agree(AfterClean(s, id, window, now))
  {
    var bs, cutoff := [b1, b2], Cutoff(now, window);
    assert Scanned(bs, cutoff) == 1 && bs[1] == b2;
    CleanAgrees(s, id, window, now);
  }

  /** Tenths of a second after second x. */
  function Tenths(x: nat, tenths: int): int { x * SEC + tenths * 100_000_000 }

  /** A request half a second before second x, 2499 half a second after it, and a further one later in
      that second. */
  function TwoBatchOps(id: Bytes, window: nat, threshold: nat, x: nat): seq<Op> {
    BurstOps(id, window, threshold, Tenths(x, -5), Tenths(x, 5), MAX_BATCH - 1) + [Add(id, window, Tenths(x, 9))]
  }

  lemma TwoBatchesHeld(id: Bytes, window: nat, threshold: nat, x: nat)
    requires Owner(id, window) && 0 < x < 0x1_0000_0000_0000_0000
    ensures Holding(Run(EMPTY, TwoBatchOps(id, window, threshold, x)), id, window,
                    [Burst(Tenths(x, -5), Tenths(x, 5), MAX_BATCH - 1), Batch(Tenths(x, 9), [0])])
  {
    var burst := BurstOps(id, window, threshold, Tenths(x, -5), Tenths(x, 5), MAX_BATCH - 1);
    SlotsOf(x);
    BurstHolds(id, window, threshold, Tenths(x, -5), Tenths(x, 5), MAX_BATCH - 1);
    FullAdd(Run(EMPTY, burst), id, window, Burst(Tenths(x, -5), Tenths(x, 5), MAX_BATCH - 1), Tenths(x, 9));
    RunAppend(EMPTY, burst, Add(id, window, Tenths(x, 9)));
  }

  /** Such a clash is met by a clean whose edge falls between the requests of that second. */
  lemma KeptClashMet(id: Bytes, window: nat, threshold: nat, x: nat)
    requires Owner(id, window) && 0 < x < 0x1_0000_0000_0000_0000
    ensures var now := Leaving(Tenths(x, 2), window);
            !Agree(Run(EMPTY, TwoBatchOps(id, window, threshold, x) + [Clean(id, window, now)]))
  {
    var ops, now := TwoBatchOps(id, window, threshold, x), Leaving(Tenths(x, 2), window);
    TwoBatchesHeld(id, window, threshold, x);
    RunAppend(EMPTY, ops, Clean(id, window, now));
    LeavingEdge(Tenths(x, 2), window);
    SlotsOf(x);
    BurstLives(x);
    KeptClash(Run(EMPTY, ops), id, window, Burst(Tenths(x, -5), Tenths(x, 5), MAX_BATCH - 1),
      Batch(Tenths(x, 9), [0]), now);
  }

  lemma SlotsOf(x: nat)
    requires 0 < x < 0x1_0000_0000_0000_0000
    ensures Slot(Tenths(x, -5)) == x - 1
    ensures Slot(Tenths(x, 9)) == Slot(Tenths(x, 2)) == x
  {}

  lemma BurstLives(x: nat)
    ensures HasLive(Burst(Tenths(x, -5), Tenths(x, 5), MAX_BATCH - 1), Tenths(x, 2))
  {
    BurstTimes(Tenths(x, -5), Tenths(x, 5), MAX_BATCH - 1);
    assert TruncSeconds(Tenths(x, 5) - Tenths(x, -5)) == 1;
    assert TimeAt(Burst(Tenths(x, -5), Tenths(x, 5), MAX_BATCH - 1), 1) > Tenths(x, 2);
  }
}
