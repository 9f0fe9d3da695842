/** The request-limit repository as a state of store and cache: what each operation does to both, and
    that they keep representing the same limits over every run, with eviction at any point. */
module RequestLimiter {
  import opened Bytes
  import opened Records
  import opened Keys
  import opened Store
  import opened RequestLog
  import opened BatchStore
  import W = RequestWindow

  datatype Limits = Limits(window: nat, count: uint32, batches: seq<Batch>, threshold: nat)

  datatype State = State(store: Table, cache: map<Bytes, Limits>)

  function Meta(l: Limits): Value { LimitValue(l.window, l.count, l.threshold) }

  // ----- reading -----

  ghost function ScanKeys(m: Table, id: Bytes, window: nat): seq<Bytes> {
    RequestsPrefixHasEnd(id, window);
    RangeKeys(m, RequestsPrefix(id, window), Strinc(RequestsPrefix(id, window)))
  }

  ghost predicate AllBatches(m: Table, ks: seq<Bytes>) {
    forall k :: k in ks ==> k in m && m[k].BatchValue?
  }

  /** The limits as the store alone gives them. */
  ghost function Loaded(m: Table, id: Bytes, window: nat): Result<Limits> {
    var key, ks := RequestLimitsKey(id, window), ScanKeys(m, id, window);
    if key !in m then Failed(LimitsNotFound)
    else if !m[key].LimitValue? || !AllBatches(m, ks) then Failed(BadRecord)
    else Ok(Limits(m[key].window, m[key].count, BatchesAt(m, ks), m[key].threshold))
  }

  ghost function Fetched(s: State, id: Bytes, window: nat): Result<Limits> {
    var key := RequestLimitsKey(id, window);
    if key in s.cache then Ok(s.cache[key]) else Loaded(s.store, id, window)
  }

  ghost function AfterFetch(s: State, id: Bytes, window: nat): State {
    match Fetched(s, id, window)
    case Failed(_) => s
    case Ok(l) => State(s.store, s.cache[RequestLimitsKey(id, window) := l])
  }

  // ----- operations -----

  /** Stores and caches new limits of an owner whose batches did not change. */
  function Put(s: State, id: Bytes, window: nat, l: Limits): State {
    var key := RequestLimitsKey(id, window);
    State(s.store[key := Meta(l)], s.cache[key := l])
  }

  function AddTo(l: Limits, t: int): Limits {
    Limits(l.window, Increment(l.count), Added(l.batches, t), l.threshold)
  }

  ghost function AfterAdd(s: State, id: Bytes, window: nat, t: int): State {
    match Fetched(s, id, window)
    case Failed(_) => s
    case Ok(l) =>
      var n := AddTo(l, t);
      var last := n.batches[|n.batches| - 1];
      var p := Put(s, id, window, n);
      State(p.store[KeyOf(id, window, last) := BatchValue(last)], p.cache)
  }

  /** The count is taken over the batches held before the clean. */
  function CleanOf(l: Limits, now: int): Limits {
    Limits(l.window, EntryCount(l.batches), Cleaned(l.batches, Cutoff(now, l.window)), l.threshold)
  }

  ghost function AfterClean(s: State, id: Bytes, window: nat, now: int): State {
    match Fetched(s, id, window)
    case Failed(_) => s
    case Ok(l) =>
      var p := Put(s, id, window, CleanOf(l, now));
      State(CleanedStore(id, window, p.store, l.batches, Cutoff(now, l.window)), p.cache)
  }

  ghost function AfterSetThreshold(s: State, id: Bytes, window: nat): State {
    match Fetched(s, id, window)
    case Failed(_) => s
    case Ok(l) =>
      if l.count == 0 then AfterFetch(s, id, window)
      else Put(s, id, window, l.(threshold := l.count))
  }

  ghost function AfterIncrease(s: State, id: Bytes, window: nat, threshold: nat): State {
    match Fetched(s, id, window)
    case Failed(_) => s
    case Ok(l) =>
      if l.threshold > threshold then AfterFetch(s, id, window)
      else Put(s, id, window, l.(threshold := threshold))
  }

  function AfterCreate(s: State, id: Bytes, window: nat, threshold: nat): State {
    var key := RequestLimitsKey(id, window);
    if key in s.store then s else s.(store := s.store[key := LimitValue(window, 0, threshold)])
  }

  function AfterEvict(s: State, key: Bytes): State {
    s.(cache := s.cache - {key})
  }

  /** Setting takes the count for threshold unless it is zero; increasing never lowers the threshold and
      leaves it at least the one asked for. Nothing else about the limits changes. */
  lemma ThresholdsAfter(s: State, id: Bytes, window: nat, threshold: nat)
    requires Fetched(s, id, window).Ok?
    ensures var l := Fetched(s, id, window).value;
            && Fetched(AfterSetThreshold(s, id, window), id, window)
               == Ok(l.(threshold := if l.count == 0 then l.threshold else l.count))
            && Fetched(AfterIncrease(s, id, window, threshold), id, window)
               == Ok(l.(threshold := if l.threshold < threshold then threshold else l.threshold))
  {}

  // ----- agreement -----

  function BatchesOf(m: Table, id: Bytes, window: nat): Table {
    Under(m, RequestsPrefix(id, window))
  }

  /** The cached limits of an owner, if any, are those stored, and their batches are represented by
      the owner's batch keys; without stored limits there are no batch keys. */
  ghost predicate AgreeOn(s: State, id: Bytes, window: nat) {
    var key, stored := RequestLimitsKey(id, window), BatchesOf(s.store, id, window);
    && (key in s.cache ==> key in s.store)
    && (key !in s.store ==> stored == map[])
    && (key in s.store ==> s.store[key].LimitValue? && s.store[key].window == window)
    && WellStored(id, window, stored)
    && (key in s.cache ==> Represents(s, id, window, s.cache[key]))
  }

  ghost predicate Represents(s: State, id: Bytes, window: nat, l: Limits) {
    && RequestLimitsKey(id, window) in s.store && s.store[RequestLimitsKey(id, window)] == Meta(l)
    && Keyed(l.batches)
    && BatchesOf(s.store, id, window) == LatestOf(id, window, l.batches)
  }

  ghost predicate Agree(s: State) {
    forall id, window :: Owner(id, window) ==> AgreeOn(s, id, window)
  }

  /** The stores differ at most in the keys of one owner. */
  ghost predicate OnlyOwn(m: Table, m2: Table, id: Bytes, window: nat) {
    forall k :: k != RequestLimitsKey(id, window) && !BatchKey(id, window, k) ==> SameAt(m, m2, k)
  }

  ghost predicate BatchKey(id: Bytes, window: nat, k: Bytes) {
    exists slot: nat :: k == SlotKey(id, window, slot)
  }

  lemma KindsDiffer(id: Bytes, window: nat, id2: Bytes, window2: nat, slot: nat)
    ensures !(RequestsPrefix(id, window) <= RequestLimitsKey(id2, window2))
    ensures RequestLimitsKey(id2, window2) != SlotKey(id, window, slot)
  {
    assert RequestsPrefix(id, window)[1] == 0x1b && RequestLimitsKey(id2, window2)[1] == 0x1a;
    assert SlotKey(id, window, slot)[1] == 0x1b;
  }

  /** What an owner's operation does to the store is out of every other owner's sight. */
  lemma OthersUntouched(m: Table, m2: Table, id: Bytes, window: nat, id2: Bytes, window2: nat)
    requires Owner(id, window) && Owner(id2, window2) && (id != id2 || window != window2)
    requires OnlyOwn(m, m2, id, window)
    ensures SameAt(m, m2, RequestLimitsKey(id2, window2))
    ensures BatchesOf(m, id2, window2) == BatchesOf(m2, id2, window2)
  {
    var key2 := RequestLimitsKey(id2, window2);
    if key2 == RequestLimitsKey(id, window) { RequestLimitsKeyInjective(id, window, id2, window2); }
    if BatchKey(id, window, key2) {
      var slot: nat :| key2 == SlotKey(id, window, slot);
      KindsDiffer(id, window, id2, window2, slot);
    }
    forall k | RequestsPrefix(id2, window2) <= k ensures SameAt(m, m2, k) {
      KindsDiffer(id2, window2, id, window, 0);
      if BatchKey(id, window, k) {
        var slot: nat :| k == SlotKey(id, window, slot);
        BatchPrefixExact(id2, window2, id, window, slot);
      }
    }
    SameUnder(m, m2, RequestsPrefix(id2, window2));
  }

  lemma SameUnder(m: Table, m2: Table, p: Bytes)
    requires forall k :: p <= k ==> SameAt(m, m2, k)
    ensures Under(m, p) == Under(m2, p)
  {
    var a, b := Under(m, p), Under(m2, p);
    forall k ensures SameAt(a, b, k) {
      if p <= k { assert SameAt(m, m2, k); }
    }
    SameEverywhere(a, b);
  }

  // ----- fetching -----

  /** What is read back from the store represents it. */
  lemma LoadAgrees(s: State, id: Bytes, window: nat)
    requires AgreeOn(s, id, window) && RequestLimitsKey(id, window) in s.store
    ensures Loaded(s.store, id, window).Ok? && Represents(s, id, window, Loaded(s.store, id, window).value)
  {
    var ks, stored := ScanKeys(s.store, id, window), BatchesOf(s.store, id, window);
    RequestsPrefixHasEnd(id, window);
    PrefixScanExact(s.store, RequestsPrefix(id, window));
    assert forall k :: k in ks <==> k in stored;
    forall k | k in ks ensures s.store[k].BatchValue? { assert stored[k] == s.store[k]; }
    assert AllBatches(s.store, ks);
    assert BatchesAt(s.store, ks) == BatchesAt(stored, ks);
    LoadRepresents(id, window, stored, ks);
  }

  lemma FetchAgrees(s: State, id: Bytes, window: nat)
    requires AgreeOn(s, id, window)
    ensures RequestLimitsKey(id, window) !in s.store ==> Fetched(s, id, window) == Failed(LimitsNotFound)
    ensures RequestLimitsKey(id, window) in s.store ==>
      Fetched(s, id, window).Ok? && Represents(s, id, window, Fetched(s, id, window).value)
  {
    if RequestLimitsKey(id, window) in s.store && RequestLimitsKey(id, window) !in s.cache {
      LoadAgrees(s, id, window);
    }
  }

  /** Evicting cached limits and reading them back changes neither count, threshold, window nor the
      bag of request times: it gives some of the batches, in another order, and drops only empty ones. */
  lemma ReloadKeepsBag(s: State, id: Bytes, window: nat) returns (order: seq<nat>)
    requires AgreeOn(s, id, window) && RequestLimitsKey(id, window) in s.cache
    ensures var c, r := s.cache[RequestLimitsKey(id, window)], Loaded(s.store, id, window);
            && r.Ok? && r.value.window == c.window && r.value.count == c.count && r.value.threshold == c.threshold
            && multiset(AllTimes(r.value.batches)) == multiset(AllTimes(c.batches))
            && multiset(AllTimes(c.batches)) == BagOf(BatchesOf(s.store, id, window))
            && W.Selection(order, |c.batches|) && r.value.batches == W.Selected(c.batches, order)
  {
    var c := s.cache[RequestLimitsKey(id, window)];
    LoadAgrees(s, id, window);
    KeyedBag(id, window, c.batches);
    KeyedBag(id, window, Loaded(s.store, id, window).value.batches);
    order := LoadSelects(s, id, window);
  }

  lemma LoadSelects(s: State, id: Bytes, window: nat) returns (order: seq<nat>)
    requires AgreeOn(s, id, window) && RequestLimitsKey(id, window) in s.cache
    requires Loaded(s.store, id, window).Ok?
    ensures var c, r := s.cache[RequestLimitsKey(id, window)].batches, Loaded(s.store, id, window).value.batches;
            W.Selection(order, |c|) && r == W.Selected(c, order)
  {
    var c, ks := s.cache[RequestLimitsKey(id, window)].batches, ScanKeys(s.store, id, window);
    var m := BatchesOf(s.store, id, window);
    RequestsPrefixHasEnd(id, window);
    PrefixScanExact(s.store, RequestsPrefix(id, window));
    order := ReloadSelects(id, window, c, ks);
    forall i | 0 <= i < |ks| ensures BatchesAt(s.store, ks)[i] == BatchesAt(m, ks)[i] {
      assert ks[i] in ks;
    }
    assert BatchesAt(s.store, ks) == BatchesAt(m, ks);
  }

  // ----- what each operation does to the owner's batch keys -----

  lemma UnderUpdate(m: Table, p: Bytes, k: Bytes, v: Value)
    ensures Under(m[k := v], p) == if p <= k then Under(m, p)[k := v] else Under(m, p)
  {}

  lemma PutBatches(s: State, id: Bytes, window: nat, l: Limits)
    ensures BatchesOf(Put(s, id, window, l).store, id, window) == BatchesOf(s.store, id, window)
  {
    KindsDiffer(id, window, id, window, 0);
    UnderUpdate(s.store, RequestsPrefix(id, window), RequestLimitsKey(id, window), Meta(l));
  }

  lemma {:induction false} UnderWriteAll(id: Bytes, window: nat, m: Table, bs: seq<Batch>)
    ensures BatchesOf(WriteAll(id, window, m, bs), id, window) == WriteAll(id, window, BatchesOf(m, id, window), bs)
    decreases |bs|
  {
    if bs != [] {
      UnderUpdate(m, RequestsPrefix(id, window), KeyOf(id, window, bs[0]), BatchValue(bs[0]));
      UnderWriteAll(id, window, m[KeyOf(id, window, bs[0]) := BatchValue(bs[0])], bs[1..]);
    }
  }

  lemma UnderClearAll(id: Bytes, window: nat, m: Table, starts: set<int>)
    ensures BatchesOf(ClearAll(id, window, m, starts), id, window)
      == ClearAll(id, window, BatchesOf(m, id, window), starts)
  {}

  lemma UnderCleanedStore(id: Bytes, window: nat, m: Table, bs: seq<Batch>, cutoff: int)
    ensures BatchesOf(CleanedStore(id, window, m, bs, cutoff), id, window)
         == CleanedStore(id, window, BatchesOf(m, id, window), bs, cutoff)
  {
    var (clear, write) := Settle(Starts(bs), Cleaned(bs, cutoff));
    UnderWriteAll(id, window, ClearAll(id, window, m, clear), write);
    UnderClearAll(id, window, m, clear);
  }

  lemma {:induction false} WriteAllOnlyBatches(id: Bytes, window: nat, m: Table, bs: seq<Batch>, k: Bytes)
    requires !BatchKey(id, window, k)
    ensures SameAt(WriteAll(id, window, m, bs), m, k)
    decreases |bs|
  {
    if bs != [] {
      assert KeyOf(id, window, bs[0]) == SlotKey(id, window, Slot(bs[0].start));
      WriteAllOnlyBatches(id, window, m[KeyOf(id, window, bs[0]) := BatchValue(bs[0])], bs[1..], k);
    }
  }

  lemma CleanedStoreOnlyBatches(id: Bytes, window: nat, m: Table, bs: seq<Batch>, cutoff: int, k: Bytes)
    requires !BatchKey(id, window, k)
    ensures SameAt(CleanedStore(id, window, m, bs, cutoff), m, k)
  {
    var (clear, write) := Settle(Starts(bs), Cleaned(bs, cutoff));
    WriteAllOnlyBatches(id, window, ClearAll(id, window, m, clear), write, k);
    forall s | s in clear ensures RequestsKey(id, window, s) != k {
      assert RequestsKey(id, window, s) == SlotKey(id, window, Slot(s));
    }
    ClearedKey(id, window, m, clear, k);
  }

  lemma LimitKeyIsNoBatch(id: Bytes, window: nat)
    ensures !BatchKey(id, window, RequestLimitsKey(id, window))
  {
    forall slot: nat ensures RequestLimitsKey(id, window) != SlotKey(id, window, slot) {
      KindsDiffer(id, window, id, window, slot);
    }
  }

  // ----- preservation -----

  /** An operation that touches only one owner's keys and cache entry keeps everyone else in agreement. */
  lemma OneOwnerDecides(s: State, s2: State, id: Bytes, window: nat)
    requires Agree(s) && Owner(id, window) && OnlyOwn(s.store, s2.store, id, window)
    requires forall k :: k != RequestLimitsKey(id, window) ==>
      (k in s2.cache <==> k in s.cache) && (k in s.cache ==> s2.cache[k] == s.cache[k])
    ensures Agree(s2) <==> AgreeOn(s2, id, window)
  {
    if AgreeOn(s2, id, window) {
      forall id2, window2 | Owner(id2, window2) ensures AgreeOn(s2, id2, window2) {
        if id2 != id || window2 != window {
          OthersUntouched(s.store, s2.store, id, window, id2, window2);
          if RequestLimitsKey(id2, window2) == RequestLimitsKey(id, window) {
            RequestLimitsKeyInjective(id, window, id2, window2);
          }
          assert AgreeOn(s, id2, window2);
        }
      }
    }
  }

  /** After an operation that stores and caches l, the owner agrees exactly when l's batches are keyed
      and represented. */
  lemma PutDecides(s2: State, id: Bytes, window: nat, l: Limits)
    requires RequestLimitsKey(id, window) in s2.store && s2.store[RequestLimitsKey(id, window)] == Meta(l)
    requires RequestLimitsKey(id, window) in s2.cache && s2.cache[RequestLimitsKey(id, window)] == l
    requires l.window == window
    ensures AgreeOn(s2, id, window)
      <==> Keyed(l.batches) && BatchesOf(s2.store, id, window) == LatestOf(id, window, l.batches)
  {
    LatestUnderPrefix(id, window, l.batches);
  }

  lemma WriteBatch(m: Table, id: Bytes, window: nat, b: Batch)
    ensures var m2 := m[KeyOf(id, window, b) := BatchValue(b)];
            BatchesOf(m2, id, window) == BatchesOf(m, id, window)[KeyOf(id, window, b) := BatchValue(b)]
            && SameAt(m2, m, RequestLimitsKey(id, window)) && OnlyOwn(m, m2, id, window)
  {
    UnderUpdate(m, RequestsPrefix(id, window), KeyOf(id, window, b), BatchValue(b));
    KindsDiffer(id, window, id, window, Slot(b.start));
    assert BatchKey(id, window, KeyOf(id, window, b)) by {
      assert KeyOf(id, window, b) == SlotKey(id, window, Slot(b.start));
    }
  }

  lemma AddWritesBack(s: State, id: Bytes, window: nat, t: int)
    requires Fetched(s, id, window).Ok? && Represents(s, id, window, Fetched(s, id, window).value)
    ensures var n, s2 := AddTo(Fetched(s, id, window).value, t), AfterAdd(s, id, window, t);
            RequestLimitsKey(id, window) in s2.store && s2.store[RequestLimitsKey(id, window)] == Meta(n)
            && BatchesOf(s2.store, id, window) == LatestOf(id, window, n.batches)
            && OnlyOwn(s.store, s2.store, id, window)
  {
    var n := AddTo(Fetched(s, id, window).value, t);
    AddRepresents(id, window, Fetched(s, id, window).value.batches, t);
    PutBatches(s, id, window, n);
    WriteBatch(Put(s, id, window, n).store, id, window, n.batches[|n.batches| - 1]);
  }

  /** Adding keeps store and cache in agreement exactly when no other batch has the key of the one it
      starts. */
  lemma AddAgrees(s: State, id: Bytes, window: nat, t: int)
    requires Agree(s) && Owner(id, window) && Fetched(s, id, window).Ok?
    ensures Agree(AfterAdd(s, id, window, t)) <==> AddSafe(Fetched(s, id, window).value.batches, t)
  {
    var l, s2 := Fetched(s, id, window).value, AfterAdd(s, id, window, t);
    assert AgreeOn(s, id, window);
    FetchAgrees(s, id, window);
    AddWritesBack(s, id, window, t);
    AddRepresents(id, window, l.batches, t);
    OneOwnerDecides(s, s2, id, window);
    PutDecides(s2, id, window, AddTo(l, t));
  }

  lemma CleanTouchesOwn(s: State, id: Bytes, window: nat, now: int)
    requires Fetched(s, id, window).Ok?
    ensures var l, s2 := Fetched(s, id, window).value, AfterClean(s, id, window, now);
            RequestLimitsKey(id, window) in s2.store && s2.store[RequestLimitsKey(id, window)] == Meta(CleanOf(l, now))
            && BatchesOf(s2.store, id, window)
               == CleanedStore(id, window, BatchesOf(s.store, id, window), l.batches, Cutoff(now, l.window))
            && OnlyOwn(s.store, s2.store, id, window)
  {
    var l, s2 := Fetched(s, id, window).value, AfterClean(s, id, window, now);
    var n := CleanOf(l, now);
    var p := Put(s, id, window, n);
    var cutoff := Cutoff(now, l.window);
    PutBatches(s, id, window, n);
    UnderCleanedStore(id, window, p.store, l.batches, cutoff);
    LimitKeyIsNoBatch(id, window);
    CleanedStoreOnlyBatches(id, window, p.store, l.batches, cutoff, RequestLimitsKey(id, window));
    forall k | k != RequestLimitsKey(id, window) && !BatchKey(id, window, k) ensures SameAt(s.store, s2.store, k) {
      CleanedStoreOnlyBatches(id, window, p.store, l.batches, cutoff, k);
    }
  }

  /** Cleaning keeps store and cache in agreement exactly when the window's edge meets no batch kept
      whole, nor the start of an only scanned batch with an entry there. */
  lemma CleanAgrees(s: State, id: Bytes, window: nat, now: int)
    requires Agree(s) && Owner(id, window) && Fetched(s, id, window).Ok?
    ensures Agree(AfterClean(s, id, window, now))
      <==> CleanSafe(Fetched(s, id, window).value.batches, Cutoff(now, window))
  {
    var l, s2 := Fetched(s, id, window).value, AfterClean(s, id, window, now);
    assert AgreeOn(s, id, window);
    FetchAgrees(s, id, window);
    CleanTouchesOwn(s, id, window, now);
    CleanRepresents(id, window, l.batches, Cutoff(now, window));
    OneOwnerDecides(s, s2, id, window);
    PutDecides(s2, id, window, CleanOf(l, now));
  }

  /** A safe clean leaves stored limits and batches that represent the cleaned list. */
  lemma CleanWritesLimits(s: State, id: Bytes, window: nat, now: int)
    requires AgreeOn(s, id, window) && Fetched(s, id, window).Ok?
    requires CleanSafe(Fetched(s, id, window).value.batches, Cutoff(now, window))
    ensures var n, s2 := CleanOf(Fetched(s, id, window).value, now), AfterClean(s, id, window, now);
            n.window == window && Keyed(n.batches)
            && RequestLimitsKey(id, window) in s2.store && s2.store[RequestLimitsKey(id, window)] == Meta(n)
            && BatchesOf(s2.store, id, window) == LatestOf(id, window, n.batches)
            && OnlyOwn(s.store, s2.store, id, window)
  {
    FetchAgrees(s, id, window);
    CleanTouchesOwn(s, id, window, now);
    CleanRepresents(id, window, Fetched(s, id, window).value.batches, Cutoff(now, window));
  }

  /** Storing and caching the fetched limits with another threshold keeps the agreement. */
  lemma ThresholdAgrees(s: State, id: Bytes, window: nat, threshold: nat)
    requires Agree(s) && Owner(id, window) && Fetched(s, id, window).Ok?
    ensures Agree(Put(s, id, window, Fetched(s, id, window).value.(threshold := threshold)))
  {
    var n := Fetched(s, id, window).value.(threshold := threshold);
    assert AgreeOn(s, id, window);
    FetchAgrees(s, id, window);
    PutBatches(s, id, window, n);
    OneOwnerDecides(s, Put(s, id, window, n), id, window);
    PutDecides(Put(s, id, window, n), id, window, n);
  }

  lemma FetchKeepsAgreement(s: State, id: Bytes, window: nat)
    requires Agree(s) && Owner(id, window)
    ensures Agree(AfterFetch(s, id, window))
  {
    assert AgreeOn(s, id, window);
    FetchAgrees(s, id, window);
    OneOwnerDecides(s, AfterFetch(s, id, window), id, window);
  }

  lemma CreateAgrees(s: State, id: Bytes, window: nat, threshold: nat)
    requires Agree(s) && Owner(id, window)
    ensures Agree(AfterCreate(s, id, window, threshold))
  {
    var s2 := AfterCreate(s, id, window, threshold);
    assert AgreeOn(s, id, window);
    KindsDiffer(id, window, id, window, 0);
    UnderUpdate(s.store, RequestsPrefix(id, window), RequestLimitsKey(id, window), LimitValue(window, 0, threshold));
    OneOwnerDecides(s, s2, id, window);
  }

  lemma EvictAgrees(s: State, key: Bytes)
    requires Agree(s)
    ensures Agree(AfterEvict(s, key))
  {
    forall id, window | Owner(id, window) ensures AgreeOn(AfterEvict(s, key), id, window) {
      assert AgreeOn(s, id, window);
    }
  }

  // ----- runs -----

  datatype Op =
    | Add(id: Bytes, window: nat, t: int)
    | Clean(id: Bytes, window: nat, now: int)
    | SetThreshold(id: Bytes, window: nat)
    | Increase(id: Bytes, window: nat, threshold: nat)
    | Create(id: Bytes, window: nat, threshold: nat)
    | Get(id: Bytes, window: nat)
    | Evict(key: Bytes)

  ghost function After(s: State, op: Op): State {
    match op
    case Add(id, w, t) => AfterAdd(s, id, w, t)
    case Clean(id, w, now) => AfterClean(s, id, w, now)
    case SetThreshold(id, w) => AfterSetThreshold(s, id, w)
    case Increase(id, w, th) => AfterIncrease(s, id, w, th)
    case Create(id, w, th) => AfterCreate(s, id, w, th)
    case Get(id, w) => AfterFetch(s, id, w)
    case Evict(key) => AfterEvict(s, key)
  }

  /** Operations come from owners; adds and cleans meet no key of another batch. */
  ghost predicate Admissible(s: State, op: Op) {
    (op.Evict? || Owner(op.id, op.window))
    && match op
       case Add(id, w, t) => Fetched(s, id, w).Ok? ==> AddSafe(Fetched(s, id, w).value.batches, t)
       case Clean(id, w, now) => Fetched(s, id, w).Ok? ==> CleanSafe(Fetched(s, id, w).value.batches, Cutoff(now, w))
       case _ => true
  }

  lemma StepAgrees(s: State, op: Op)
    requires Agree(s) && Admissible(s, op)
    ensures Agree(After(s, op))
  {
    if op.Evict? {
      EvictAgrees(s, op.key);
    } else if op.Create? {
      CreateAgrees(s, op.id, op.window, op.threshold);
    } else if Fetched(s, op.id, op.window).Ok? {
      match op {
        case Add(id, w, t) => AddAgrees(s, id, w, t);
        case Clean(id, w, now) => CleanAgrees(s, id, w, now);
        case SetThreshold(id, w) =>
          FetchKeepsAgreement(s, id, w);
          ThresholdAgrees(s, id, w, Fetched(s, id, w).value.count);
        case Increase(id, w, th) =>
          FetchKeepsAgreement(s, id, w);
          ThresholdAgrees(s, id, w, th);
        case Get(id, w) => FetchKeepsAgreement(s, id, w);
      }
    }
  }

  ghost predicate AdmissibleRun(s: State, ops: seq<Op>)
    decreases |ops|
  {
    ops == [] || (Admissible(s, ops[0]) && AdmissibleRun(After(s, ops[0]), ops[1..]))
  }

  ghost function Run(s: State, ops: seq<Op>): State
    decreases |ops|
  {
    if ops == [] then s else Run(After(s, ops[0]), ops[1..])
  }

  /** Over every run, with eviction at any point, cached and stored limits agree. */
  lemma {:induction false} RunAgrees(s: State, ops: seq<Op>)
    requires Agree(s) && AdmissibleRun(s, ops)
    ensures Agree(Run(s, ops))
    decreases |ops|
  {
    if ops != [] {
      StepAgrees(s, ops[0]);
      RunAgrees(After(s, ops[0]), ops[1..]);
    }
  }

  lemma EmptyAgrees()
    ensures Agree(State(map[], map[]))
  {
    forall id, window | Owner(id, window) ensures AgreeOn(State(map[], map[]), id, window) {
      assert BatchesOf(map[], id, window) == map[];
    }
  }

  const EMPTY: State := State(map[], map[])

  /** So they do in every run from an empty store. */
  lemma RunFromEmptyAgrees(ops: seq<Op>)
    requires AdmissibleRun(EMPTY, ops)
    ensures Agree(Run(EMPTY, ops))
  {
    EmptyAgrees();
    RunAgrees(EMPTY, ops);
  }

  /** Limits just created hold no requests. */
  lemma CreatedIsEmpty(id: Bytes, window: nat, threshold: nat)
    requires Owner(id, window)
    ensures var s := AfterCreate(EMPTY, id, window, threshold);
            Agree(s) && Fetched(s, id, window) == Ok(Limits(window, 0, [], threshold))
  {
    EmptyAgrees();
    CreateAgrees(EMPTY, id, window, threshold);
    var s := AfterCreate(EMPTY, id, window, threshold);
    var ks := ScanKeys(s.store, id, window);
    RequestsPrefixHasEnd(id, window);
    PrefixScanExact(s.store, RequestsPrefix(id, window));
    KindsDiffer(id, window, id, window, 0);
    NoneListed(ks);
  }

  lemma NoneListed(ks: seq<Bytes>)
    ensures (forall k :: k !in ks) ==> ks == []
  {
    if ks != [] { assert ks[0] in ks; }
  }

  lemma {:induction false} RunAppend(s: State, ops: seq<Op>, op: Op)
    ensures Run(s, ops + [op]) == After(Run(s, ops), op)
    decreases |ops|
  {
    if ops == [] {
      assert ops + [op] == [op] && [op][1..] == [];
      assert Run(After(s, op), []) == After(s, op);
    } else {
      assert (ops + [op])[1..] == ops[1..] + [op];
      RunAppend(After(s, ops[0]), ops[1..], op);
    }
  }
}
