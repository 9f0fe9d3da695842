/** What the stored request count means, and that thresholds stay positive, over every run. */
module RequestCounts {
  import opened Bytes
  import opened Records
  import opened Keys
  import opened Store
  import opened RequestLog
  import opened BatchStore
  import opened RequestLimiter

  /** How many entries the most recent clean of each owner dropped. */
  type Dropped = map<Bytes, nat>

  function DroppedAt(d: Dropped, key: Bytes): nat { if key in d then d[key] else 0 }

  ghost function DroppedAfter(s: State, d: Dropped, op: Op): Dropped {
    match op
    case Clean(id, w, now) =>
      (match Fetched(s, id, w)
       case Ok(l) => d[RequestLimitsKey(id, w) := ExpiredBy(l.batches, Cutoff(now, l.window))]
       case Failed(_) => d)
    case Create(id, w, _) => if RequestLimitsKey(id, w) in s.store then d else d[RequestLimitsKey(id, w) := 0]
    case _ => d
  }

  /** How many entries a clean drops. */
  function ExpiredBy(bs: seq<Batch>, cutoff: int): (n: nat)
    ensures Entries(bs) == Entries(Cleaned(bs, cutoff)) + n
  {
    CleanNeverDropsLive(bs, cutoff);
    EntriesIsLength(bs);
    EntriesIsLength(Cleaned(bs, cutoff));
    Entries(bs) - Entries(Cleaned(bs, cutoff))
  }

  ghost function HeldSize(m: Table, id: Bytes, window: nat): nat {
    |BagOf(BatchesOf(m, id, window))|
  }

  /** The stored count is the entries now held plus those the most recent clean dropped, modulo 2^32. */
  predicate CountIs(v: Value, held: nat, dropped: nat) {
    v.LimitValue? && v.count == Wrap(held + dropped)
  }

  ghost predicate CountsOn(s: State, d: Dropped, id: Bytes, window: nat) {
    var key := RequestLimitsKey(id, window);
    key in s.store ==> CountIs(s.store[key], HeldSize(s.store, id, window), DroppedAt(d, key))
  }

  ghost predicate Counts(s: State, d: Dropped) {
    forall id, window :: Owner(id, window) ==> CountsOn(s, d, id, window)
  }

  lemma BagSize(m: Table, id: Bytes, window: nat, bs: seq<Batch>)
    requires Keyed(bs) && BatchesOf(m, id, window) == LatestOf(id, window, bs)
    ensures HeldSize(m, id, window) == Entries(bs)
  {
    KeyedBag(id, window, bs);
    EntriesIsLength(bs);
  }

  lemma AddedEntries(bs: seq<Batch>, t: int)
    ensures Entries(Added(bs, t)) == Entries(bs) + 1
  {
    EntriesIsLength(bs);
    EntriesIsLength(Added(bs, t));
    AddAppends(bs, t);
  }

  lemma OtherCountKept(s: State, s2: State, d: Dropped, d2: Dropped, id: Bytes, window: nat, id2: Bytes, window2: nat)
    requires CountsOn(s, d, id2, window2) && Owner(id, window) && Owner(id2, window2)
    requires OnlyOwn(s.store, s2.store, id, window) && (id2 != id || window2 != window)
    requires forall k :: k != RequestLimitsKey(id, window) ==> DroppedAt(d2, k) == DroppedAt(d, k)
    ensures CountsOn(s2, d2, id2, window2)
  {
    OthersUntouched(s.store, s2.store, id, window, id2, window2);
    if RequestLimitsKey(id2, window2) == RequestLimitsKey(id, window) {
      RequestLimitsKeyInjective(id, window, id2, window2);
    }
  }

  lemma OneOwnerCounts(s: State, s2: State, d: Dropped, d2: Dropped, id: Bytes, window: nat)
    requires Counts(s, d) && Owner(id, window) && OnlyOwn(s.store, s2.store, id, window)
    requires forall k :: k != RequestLimitsKey(id, window) ==> DroppedAt(d2, k) == DroppedAt(d, k)
    requires CountsOn(s2, d2, id, window)
    ensures Counts(s2, d2)
  {
    forall id2, window2 | Owner(id2, window2) ensures CountsOn(s2, d2, id2, window2) {
      if id2 != id || window2 != window {
        assert CountsOn(s, d, id2, window2);
        OtherCountKept(s, s2, d, d2, id, window, id2, window2);
      }
    }
  }

  lemma NextCount(v: Value, w: Value, held: nat, held2: nat, dropped: nat)
    requires CountIs(v, held, dropped) && w.LimitValue? && w.count == Increment(v.count) && held2 == held + 1
    ensures CountIs(w, held2, dropped)
  {}

  lemma FoundCount(v: Value, found: nat, held: nat, dropped: nat)
    requires v.LimitValue? && v.count == Wrap(found) && found == held + dropped
    ensures CountIs(v, held, dropped)
  {}

  lemma AddHolds(s: State, id: Bytes, window: nat, t: int)
    requires AgreeOn(s, id, window) && Fetched(s, id, window).Ok?
    requires AddSafe(Fetched(s, id, window).value.batches, t)
    ensures HeldSize(AfterAdd(s, id, window, t).store, id, window) == HeldSize(s.store, id, window) + 1
  {
    var bs := Fetched(s, id, window).value.batches;
    FetchAgrees(s, id, window);
    AddWritesBack(s, id, window, t);
    AddRepresents(id, window, bs, t);
    BagSize(s.store, id, window, bs);
    BagSize(AfterAdd(s, id, window, t).store, id, window, Added(bs, t));
    AddedEntries(bs, t);
  }

  lemma AddIncrements(s: State, id: Bytes, window: nat, t: int)
    requires AgreeOn(s, id, window) && Fetched(s, id, window).Ok?
    ensures var key, s2 := RequestLimitsKey(id, window), AfterAdd(s, id, window, t);
            key in s.store && s.store[key].LimitValue? && key in s2.store && s2.store[key].LimitValue?
            && s2.store[key].count == Increment(s.store[key].count)
            && OnlyOwn(s.store, s2.store, id, window)
  {
    FetchAgrees(s, id, window);
    AddWritesBack(s, id, window, t);
  }

  /** One more entry held, one more counted. */
  ghost predicate OneMore(m: Table, m2: Table, id: Bytes, window: nat) {
    var key := RequestLimitsKey(id, window);
    && key in m && m[key].LimitValue? && key in m2 && m2[key].LimitValue?
    && m2[key].count == Increment(m[key].count)
    && HeldSize(m2, id, window) == HeldSize(m, id, window) + 1
  }

  lemma OneMoreCounts(s: State, s2: State, d: Dropped, id: Bytes, window: nat)
    requires CountsOn(s, d, id, window) && OneMore(s.store, s2.store, id, window)
    ensures CountsOn(s2, d, id, window)
  {
    var key := RequestLimitsKey(id, window);
    NextCount(s.store[key], s2.store[key], HeldSize(s.store, id, window), HeldSize(s2.store, id, window),
      DroppedAt(d, key));
  }

  lemma AddIsOneMore(s: State, id: Bytes, window: nat, t: int)
    requires AgreeOn(s, id, window) && Fetched(s, id, window).Ok?
    requires AddSafe(Fetched(s, id, window).value.batches, t)
    ensures OneMore(s.store, AfterAdd(s, id, window, t).store, id, window)
    ensures OnlyOwn(s.store, AfterAdd(s, id, window, t).store, id, window)
  {
    AddHolds(s, id, window, t);
    AddIncrements(s, id, window, t);
  }

  lemma CleanHolds(s: State, id: Bytes, window: nat, now: int)
    requires AgreeOn(s, id, window) && Fetched(s, id, window).Ok?
    requires CleanSafe(Fetched(s, id, window).value.batches, Cutoff(now, window))
    ensures var bs, s2 := Fetched(s, id, window).value.batches, AfterClean(s, id, window, now);
            HeldSize(s2.store, id, window) == Entries(Cleaned(bs, Cutoff(now, window)))
  {
    FetchAgrees(s, id, window);
    CleanWritesLimits(s, id, window, now);
    BagSize(AfterClean(s, id, window, now).store, id, window,
            Cleaned(Fetched(s, id, window).value.batches, Cutoff(now, window)));
  }

  /** A clean counts the entries it found, whatever it drops. */
  lemma CleanCountsOn(s: State, d: Dropped, id: Bytes, window: nat, now: int)
    requires AgreeOn(s, id, window) && Fetched(s, id, window).Ok?
    requires CleanSafe(Fetched(s, id, window).value.batches, Cutoff(now, window))
    ensures var s2 := AfterClean(s, id, window, now);
            && CountsOn(s2, DroppedAfter(s, d, Clean(id, window, now)), id, window)
            && OnlyOwn(s.store, s2.store, id, window)
  {
    var bs, s2 := Fetched(s, id, window).value.batches, AfterClean(s, id, window, now);
    var cutoff := Cutoff(now, window);
    FetchAgrees(s, id, window);
    CleanWritesLimits(s, id, window, now);
    CleanHolds(s, id, window, now);
    FoundCount(s2.store[RequestLimitsKey(id, window)], Entries(bs), Entries(Cleaned(bs, cutoff)),
      ExpiredBy(bs, cutoff));
  }

  /** The owner's batches and count are the same in both stores, and all other owners' keys. */
  ghost predicate SameHeld(m: Table, m2: Table, id: Bytes, window: nat) {
    var key := RequestLimitsKey(id, window);
    && OnlyOwn(m, m2, id, window)
    && BatchesOf(m2, id, window) == BatchesOf(m, id, window)
    && (key in m2 <==> key in m)
    && (key in m ==> m2[key].LimitValue? && m[key].LimitValue? && m2[key].count == m[key].count)
  }

  lemma PutKeepsHeld(s: State, id: Bytes, window: nat, threshold: nat)
    requires AgreeOn(s, id, window) && Fetched(s, id, window).Ok?
    ensures SameHeld(s.store, Put(s, id, window, Fetched(s, id, window).value.(threshold := threshold)).store,
              id, window)
  {
    FetchAgrees(s, id, window);
    PutBatches(s, id, window, Fetched(s, id, window).value.(threshold := threshold));
  }

  lemma SameHeldCounts(s: State, s2: State, d: Dropped, id: Bytes, window: nat)
    requires CountsOn(s, d, id, window) && SameHeld(s.store, s2.store, id, window)
    ensures CountsOn(s2, d, id, window)
  {}

  lemma PutCounts(s: State, d: Dropped, id: Bytes, window: nat, threshold: nat)
    requires AgreeOn(s, id, window) && Counts(s, d) && Owner(id, window) && Fetched(s, id, window).Ok?
    ensures Counts(Put(s, id, window, Fetched(s, id, window).value.(threshold := threshold)), d)
  {
    var s2 := Put(s, id, window, Fetched(s, id, window).value.(threshold := threshold));
    PutKeepsHeld(s, id, window, threshold);
    assert CountsOn(s, d, id, window);
    SameHeldCounts(s, s2, d, id, window);
    OneOwnerCounts(s, s2, d, d, id, window);
  }

  lemma CreateCounts(s: State, d: Dropped, id: Bytes, window: nat, threshold: nat)
    requires AgreeOn(s, id, window) && Counts(s, d) && Owner(id, window) && RequestLimitsKey(id, window) !in s.store
    ensures Counts(AfterCreate(s, id, window, threshold), DroppedAfter(s, d, Create(id, window, threshold)))
  {
    var s2 := AfterCreate(s, id, window, threshold);
    KindsDiffer(id, window, id, window, 0);
    UnderUpdate(s.store, RequestsPrefix(id, window), RequestLimitsKey(id, window), LimitValue(window, 0, threshold));
    assert BagOf(map[]) == multiset{};
    OneOwnerCounts(s, s2, d, DroppedAfter(s, d, Create(id, window, threshold)), id, window);
  }

  lemma UpdateCounts(s: State, d: Dropped, op: Op)
    requires !op.Evict? && !op.Create? && Owner(op.id, op.window) && Fetched(s, op.id, op.window).Ok?
    requires AgreeOn(s, op.id, op.window) && Counts(s, d) && Admissible(s, op)
    ensures Counts(After(s, op), DroppedAfter(s, d, op))
  {
    assert CountsOn(s, d, op.id, op.window);
    match op {
      case Add(id, w, t) =>
        AddIsOneMore(s, id, w, t);
        OneMoreCounts(s, After(s, op), d, id, w);
        OneOwnerCounts(s, After(s, op), d, d, id, w);
      case Clean(id, w, now) =>
        CleanCountsOn(s, d, id, w, now);
        OneOwnerCounts(s, After(s, op), d, DroppedAfter(s, d, op), id, w);
      case SetThreshold(id, w) =>
        PutCounts(s, d, id, w, Fetched(s, id, w).value.count);
        SameStoreCounts(s, AfterFetch(s, id, w), d);
      case Increase(id, w, th) =>
        PutCounts(s, d, id, w, th);
        SameStoreCounts(s, AfterFetch(s, id, w), d);
      case Get(id, w) => SameStoreCounts(s, AfterFetch(s, id, w), d);
    }
  }

  lemma SameStoreCounts(s: State, s2: State, d: Dropped)
    requires Counts(s, d) && s2.store == s.store
    ensures Counts(s2, d)
  {
    forall id, w | Owner(id, w) ensures CountsOn(s2, d, id, w) { assert CountsOn(s, d, id, w); }
  }

  lemma StepCounts(s: State, d: Dropped, op: Op)
    requires Agree(s) && Counts(s, d) && Admissible(s, op)
    ensures Counts(After(s, op), DroppedAfter(s, d, op))
  {
    if op.Evict? {
      SameStoreCounts(s, After(s, op), d);
    } else {
      assert AgreeOn(s, op.id, op.window);
      if op.Create? {
        if RequestLimitsKey(op.id, op.window) !in s.store {
          CreateCounts(s, d, op.id, op.window, op.threshold);
        }
      } else if Fetched(s, op.id, op.window).Ok? {
        UpdateCounts(s, d, op);
      }
    }
  }

  ghost function RunDropped(s: State, d: Dropped, ops: seq<Op>): Dropped
    decreases |ops|
  {
    if ops == [] then d else RunDropped(After(s, ops[0]), DroppedAfter(s, d, ops[0]), ops[1..])
  }

  /** Over every run the count is the entries held plus those the last clean dropped: it never
      undercounts, and it is exact once a clean drops nothing. */
  lemma {:induction false} RunCounts(s: State, d: Dropped, ops: seq<Op>)
    requires Agree(s) && Counts(s, d) && AdmissibleRun(s, ops)
    ensures Counts(Run(s, ops), RunDropped(s, d, ops))
    decreases |ops|
  {
    if ops != [] {
      StepAgrees(s, ops[0]);
      StepCounts(s, d, ops[0]);
      RunCounts(After(s, ops[0]), DroppedAfter(s, d, ops[0]), ops[1..]);
    }
  }

  /** Below 2^32 the count is never less than the entries held. */
  lemma NeverUndercounts(s: State, d: Dropped, id: Bytes, window: nat)
    requires CountsOn(s, d, id, window) && RequestLimitsKey(id, window) in s.store
    ensures var key, held := RequestLimitsKey(id, window), HeldSize(s.store, id, window);
            held + DroppedAt(d, key) < U32 ==>
              s.store[key].count >= held && (s.store[key].count == held <==> DroppedAt(d, key) == 0)
  {}

  // ----- thresholds -----

  ghost predicate PositiveOn(s: State, id: Bytes, window: nat) {
    var key := RequestLimitsKey(id, window);
    key in s.store ==> s.store[key].LimitValue? && s.store[key].threshold >= 1
  }

  ghost predicate Positive(s: State) {
    forall id, window :: Owner(id, window) ==> PositiveOn(s, id, window)
  }

  /** Thresholds given by the caller are positive. */
  predicate GivesPositive(op: Op) {
    (op.Create? ==> op.threshold >= 1) && (op.Increase? ==> op.threshold >= 1)
  }

  lemma OneOwnerPositive(s: State, s2: State, id: Bytes, window: nat)
    requires Positive(s) && Owner(id, window) && OnlyOwn(s.store, s2.store, id, window) && PositiveOn(s2, id, window)
    ensures Positive(s2)
  {
    forall id2, window2 | Owner(id2, window2) ensures PositiveOn(s2, id2, window2) {
      if id2 != id || window2 != window {
        assert PositiveOn(s, id2, window2);
        OthersUntouched(s.store, s2.store, id, window, id2, window2);
      }
    }
  }

  lemma PutPositive(s: State, id: Bytes, window: nat, l: Limits)
    requires l.threshold >= 1
    ensures PositiveOn(Put(s, id, window, l), id, window) && OnlyOwn(s.store, Put(s, id, window, l).store, id, window)
  {}

  /** The fetched threshold is the stored one. */
  lemma FetchedPositive(s: State, id: Bytes, window: nat)
    requires AgreeOn(s, id, window) && PositiveOn(s, id, window) && Fetched(s, id, window).Ok?
    ensures Fetched(s, id, window).value.threshold >= 1
  {
    FetchAgrees(s, id, window);
  }

  lemma UpdatePositive(s: State, op: Op)
    requires !op.Evict? && !op.Create? && GivesPositive(op) && Fetched(s, op.id, op.window).Ok?
    requires AgreeOn(s, op.id, op.window) && PositiveOn(s, op.id, op.window)
    ensures PositiveOn(After(s, op), op.id, op.window) && OnlyOwn(s.store, After(s, op).store, op.id, op.window)
  {
    FetchedPositive(s, op.id, op.window);
    var l := Fetched(s, op.id, op.window).value;
    match op {
      case Add(id, w, t) =>
        FetchAgrees(s, id, w);
        AddWritesBack(s, id, w, t);
      case Clean(id, w, now) => CleanTouchesOwn(s, id, w, now);
      case SetThreshold(id, w) => if l.count != 0 { PutPositive(s, id, w, l.(threshold := l.count)); }
      case Increase(id, w, th) => PutPositive(s, id, w, l.(threshold := th));
      case Get(_, _) =>
    }
  }

  /** No run takes a stored threshold to zero: it is set only to a positive count or raised. */
  lemma {:induction false} RunPositive(s: State, ops: seq<Op>)
    requires Agree(s) && Positive(s) && AdmissibleRun(s, ops)
    requires forall i :: 0 <= i < |ops| ==> GivesPositive(ops[i])
    ensures Positive(Run(s, ops))
    decreases |ops|
  {
    if ops != [] {
      var op, s2 := ops[0], After(s, ops[0]);
      StepAgrees(s, op);
      if op.Evict? {
        forall id, w | Owner(id, w) ensures PositiveOn(s2, id, w) { assert PositiveOn(s, id, w); }
      } else {
        assert AgreeOn(s, op.id, op.window) && PositiveOn(s, op.id, op.window);
        if !op.Create? && Fetched(s, op.id, op.window).Ok? { UpdatePositive(s, op); }
        OneOwnerPositive(s, s2, op.id, op.window);
      }
      RunPositive(s2, ops[1..]);
    }
  }

  /** From an empty store every run keeps all three: agreement, exact counts and positive thresholds. */
  lemma RunFromEmpty(ops: seq<Op>)
    requires AdmissibleRun(EMPTY, ops) && forall i :: 0 <= i < |ops| ==> GivesPositive(ops[i])
    ensures Agree(Run(EMPTY, ops)) && Positive(Run(EMPTY, ops))
    ensures Counts(Run(EMPTY, ops), RunDropped(EMPTY, map[], ops))
  {
    EmptyAgrees();
    RunFromEmptyAgrees(ops);
    RunCounts(EMPTY, map[], ops);
    RunPositive(EMPTY, ops);
  }
}
