/** What the repository's operations do, in the terms a caller sees: the count, threshold and times that
    are fetched afterwards, and the values stored. */
module RequestLaws {
  import opened Bytes
  import opened Records
  import opened Keys
  import opened Store
  import opened RequestLog
  import opened BatchStore
  import opened RequestLimiter
  import opened RequestDrift

  // ----- one operation -----

  /** An add counts one more, modulo 2^32, and leaves window and threshold alone, in what is fetched and
      in what is stored. */
  lemma AddLimits(s: State, id: Bytes, window: nat, t: int)
    requires AgreeOn(s, id, window) && Fetched(s, id, window).Ok?
    ensures var l, after := Fetched(s, id, window).value, Fetched(AfterAdd(s, id, window, t), id, window);
            && after.Ok? && after.value.window == l.window == window && after.value.threshold == l.threshold
            && after.value.count == (l.count as int + 1) % 0x1_0000_0000
            && RequestLimitsKey(id, window) in AfterAdd(s, id, window, t).store
            && AfterAdd(s, id, window, t).store[RequestLimitsKey(id, window)]
               == LimitValue(window, after.value.count, l.threshold)
  {
    FetchAgrees(s, id, window);
    AddWritesBack(s, id, window, t);
  }

  /** And records one time more. */
  lemma AddTimes(s: State, id: Bytes, window: nat, t: int)
    requires Fetched(s, id, window).Ok?
    ensures var l, after := Fetched(s, id, window).value, Fetched(AfterAdd(s, id, window, t), id, window);
            after.Ok? && AllTimes(after.value.batches) == AllTimes(l.batches) + [Stamp(l.batches, t)]
  {
    AddAppends(Fetched(s, id, window).value.batches, t);
  }

  /** Besides the limits it writes one batch, the last one, under its start; all other keys stay. */
  lemma AddWrites(s: State, id: Bytes, window: nat, t: int)
    requires Fetched(s, id, window).Ok?
    ensures var m, n := AfterAdd(s, id, window, t).store, Fetched(AfterAdd(s, id, window, t), id, window);
            && n.Ok? && n.value.batches != []
            && var last := n.value.batches[|n.value.batches| - 1];
               && RequestsKey(id, window, last.start) in m && m[RequestsKey(id, window, last.start)] == BatchValue(last)
               && forall k :: k != RequestLimitsKey(id, window) && k != RequestsKey(id, window, last.start) ==>
                    (k in m <==> k in s.store) && (k in m ==> m[k] == s.store[k])
  {}

  /** Without limits no operation but creating changes anything. */
  lemma MissingLaw(s: State, id: Bytes, window: nat, t: int, threshold: nat)
    requires Fetched(s, id, window).Failed?
    ensures AfterAdd(s, id, window, t) == s && AfterClean(s, id, window, t) == s
    ensures AfterSetThreshold(s, id, window) == s && AfterIncrease(s, id, window, threshold) == s
    ensures AfterFetch(s, id, window) == s
  {}

  /** A clean counts the entries it found and leaves window and threshold alone, in what is fetched and
      in what is stored. */
  lemma CleanLimits(s: State, id: Bytes, window: nat, now: int)
    requires AgreeOn(s, id, window) && Fetched(s, id, window).Ok?
    ensures var l, after := Fetched(s, id, window).value, Fetched(AfterClean(s, id, window, now), id, window);
            && after.Ok? && after.value.window == l.window == window && after.value.threshold == l.threshold
            && after.value.count == |AllTimes(l.batches)| % 0x1_0000_0000
            && RequestLimitsKey(id, window) in AfterClean(s, id, window, now).store
            && AfterClean(s, id, window, now).store[RequestLimitsKey(id, window)]
               == LimitValue(window, after.value.count, l.threshold)
  {
    FetchAgrees(s, id, window);
    CleanTouchesOwn(s, id, window, now);
    EntriesIsLength(Fetched(s, id, window).value.batches);
  }

  /** Of the times ts the first f, none of them after the window's beginning, are dropped, up to the first
      one after it; the others are left, and those less than 2^32 seconds after it move back by less than
      a second. */
  ghost predicate DropsFirst(ts: seq<int>, cs: seq<int>, begin: int, f: nat) {
    && f <= |ts| && |cs| == |ts| - f
    && (forall i :: 0 <= i < f ==> ts[i] <= begin) && (f < |ts| ==> ts[f] > begin)
    && forall i :: 0 <= i < |cs| ==> MovesBack(ts[f..][i], cs[i], begin)
  }

  predicate MovesBack(t: int, c: int, begin: int) {
    begin <= t < begin + 0x1_0000_0000 * 1_000_000_000 ==> t - 1_000_000_000 < c <= t
  }

  lemma SurvivorMoves(t: int, c: int, cutoff: int)
    requires Survives(t, c, cutoff)
    ensures MovesBack(t, c, cutoff)
  {}

  /** The times that a clean leaves. */
  lemma CleanTimes(s: State, id: Bytes, window: nat, now: int) returns (f: nat)
    requires AgreeOn(s, id, window) && Fetched(s, id, window).Ok?
    ensures Fetched(AfterClean(s, id, window, now), id, window).Ok?
    ensures DropsFirst(AllTimes(Fetched(s, id, window).value.batches),
                       AllTimes(Fetched(AfterClean(s, id, window, now), id, window).value.batches),
                       now - window * 1_000_000_000, f)
  {
    var bs := Fetched(s, id, window).value.batches;
    FetchAgrees(s, id, window);
    CleanLog(s, id, window, now);
    assert Cutoff(now, window) == now - window * 1_000_000_000;
    f := CleanedEntries(bs, Cutoff(now, window));
  }

  lemma CleanedEntries(bs: seq<Batch>, cutoff: int) returns (f: nat)
    ensures DropsFirst(AllTimes(bs), AllTimes(Cleaned(bs, cutoff)), cutoff, f)
  {
    var ts, cs := AllTimes(bs), AllTimes(Cleaned(bs, cutoff));
    f := FirstAfter(ts, cutoff);
    CleanNeverDropsLive(bs, cutoff);
    forall i | 0 <= i < |cs| ensures MovesBack(ts[f..][i], cs[i], cutoff) {
      SurvivorMoves(ts[f..][i], cs[i], cutoff);
    }
  }

  /** Setting the threshold takes the count unless that is zero; raising leaves it at the larger one. The
      stored limits show it. */
  lemma ThresholdLaw(s: State, id: Bytes, window: nat, threshold: nat)
    requires AgreeOn(s, id, window) && Fetched(s, id, window).Ok?
    ensures var l := Fetched(s, id, window).value;
            var s2, x := AfterSetThreshold(s, id, window), if l.count == 0 then l.threshold else l.count;
            && Fetched(s2, id, window) == Ok(l.(threshold := x))
            && RequestLimitsKey(id, window) in s2.store
            && s2.store[RequestLimitsKey(id, window)] == LimitValue(window, l.count, x)
    ensures var l := Fetched(s, id, window).value;
            var s2 := AfterIncrease(s, id, window, threshold);
            var x := if l.threshold < threshold then threshold else l.threshold;
            && Fetched(s2, id, window) == Ok(l.(threshold := x))
            && RequestLimitsKey(id, window) in s2.store
            && s2.store[RequestLimitsKey(id, window)] == LimitValue(window, l.count, x)
  {
    FetchAgrees(s, id, window);
  }

  /** Limits just created hold no requests and the given threshold; existing ones stay as they are. */
  lemma CreateLaw(s: State, id: Bytes, window: nat, threshold: nat)
    requires AgreeOn(s, id, window)
    ensures RequestLimitsKey(id, window) in s.store ==> AfterCreate(s, id, window, threshold) == s
    ensures RequestLimitsKey(id, window) !in s.store ==>
      && Fetched(AfterCreate(s, id, window, threshold), id, window) == Ok(Limits(window, 0, [], threshold))
      && AfterCreate(s, id, window, threshold).store
         == s.store[RequestLimitsKey(id, window) := LimitValue(window, 0, threshold)]
  {
    if RequestLimitsKey(id, window) !in s.store {
      var m := AfterCreate(s, id, window, threshold).store;
      KindsDiffer(id, window, id, window, 0);
      UnderUpdate(s.store, RequestsPrefix(id, window), RequestLimitsKey(id, window), LimitValue(window, 0, threshold));
      ScanKeysAre(m, id, window);
      assert ScanKeys(m, id, window) == [];
    }
  }

  /** Reading caches what is read, and changes neither the store nor what anyone fetches. */
  lemma FetchLaw(s: State, id: Bytes, window: nat, id2: Bytes, window2: nat)
    requires Owner(id, window) && Owner(id2, window2)
    ensures AfterFetch(s, id, window).store == s.store
    ensures Fetched(AfterFetch(s, id, window), id2, window2) == Fetched(s, id2, window2)
  {
    if RequestLimitsKey(id, window) == RequestLimitsKey(id2, window2) {
      RequestLimitsKeyInjective(id, window, id2, window2);
    }
  }

  /** After an eviction what the store holds is fetched, and nothing is stored. */
  lemma EvictLaw(s: State, id: Bytes, window: nat)
    requires AgreeOn(s, id, window) && RequestLimitsKey(id, window) in s.store
    ensures AfterEvict(s, RequestLimitsKey(id, window)).store == s.store
    ensures var l := Fetched(AfterEvict(s, RequestLimitsKey(id, window)), id, window);
            && l.Ok? && multiset(AllTimes(l.value.batches)) == BagOf(BatchesOf(s.store, id, window))
            && s.store[RequestLimitsKey(id, window)] == LimitValue(window, l.value.count, l.value.threshold)
  {
    LoadAgrees(s, id, window);
    KeyedBag(id, window, Loaded(s.store, id, window).value.batches);
  }

  // ----- whole runs: who changes a threshold -----

  /** An operation that sets the owner's threshold. */
  predicate SetsThreshold(op: Op, id: Bytes, window: nat) {
    (op.SetThreshold? || op.Increase?) && op.id == id && op.window == window
  }

  lemma StepKeepsThreshold(s: State, op: Op, id: Bytes, window: nat)
    requires Agree(s) && Admissible(s, op) && Owner(id, window) && Fetched(s, id, window).Ok?
    requires !SetsThreshold(op, id, window)
    ensures Fetched(After(s, op), id, window).Ok?
    ensures Fetched(After(s, op), id, window).value.threshold == Fetched(s, id, window).value.threshold
  {
    assert AgreeOn(s, id, window);
    if op.Evict? {
      if op.key == RequestLimitsKey(id, window) && op.key in s.cache { var order := ReloadKeepsBag(s, id, window); }
    } else if op.id != id || op.window != window {
      OtherStep(s, op, id, window);
    } else {
      OwnKeepsThreshold(s, op);
    }
  }

  lemma OwnKeepsThreshold(s: State, op: Op)
    requires !op.Evict? && AgreeOn(s, op.id, op.window) && Fetched(s, op.id, op.window).Ok?
    requires !op.SetThreshold? && !op.Increase?
    ensures Fetched(After(s, op), op.id, op.window).Ok?
    ensures Fetched(After(s, op), op.id, op.window).value.threshold == Fetched(s, op.id, op.window).value.threshold
  {
    match op
    case Add(id, w, t) => AddLimits(s, id, w, t);
    case Clean(id, w, now) => CleanLimits(s, id, w, now);
    case Create(id, w, th) => FetchAgrees(s, id, w);
    case Get(_, _) =>
  }

  /** Over every admissible run, an owner's threshold changes only by setting or raising it: without
      either, the one fetched, and the one stored, is that of the beginning. */
  lemma {:induction false} RunKeepsThreshold(s: State, ops: seq<Op>, id: Bytes, window: nat)
    requires Agree(s) && AdmissibleRun(s, ops) && Owner(id, window) && Fetched(s, id, window).Ok?
    requires forall op :: op in ops && (op.SetThreshold? || op.Increase?) ==> op.id != id || op.window != window
    ensures var n := Run(s, ops);
            && Fetched(n, id, window).Ok?
            && Fetched(n, id, window).value.threshold == Fetched(s, id, window).value.threshold
            && RequestLimitsKey(id, window) in n.store && n.store[RequestLimitsKey(id, window)].LimitValue?
            && n.store[RequestLimitsKey(id, window)].threshold == Fetched(s, id, window).value.threshold
    decreases |ops|
  {
    if ops == [] {
      assert AgreeOn(s, id, window);
      FetchAgrees(s, id, window);
    } else {
      StepAgrees(s, ops[0]);
      StepKeepsThreshold(s, ops[0], id, window);
      RunKeepsThreshold(After(s, ops[0]), ops[1..], id, window);
    }
  }
}
