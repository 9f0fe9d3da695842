/** The request-limit repository as it runs: a cache of mutable records beside the store. Every method
    is proved to do to both what the state model says. */
module LimiterRepo {
  import opened Bytes
  import opened Records
  import opened Keys
  import opened Store
  import opened RequestLog
  import opened BatchStore
  import opened RequestLimiter
  import V2 = RequestLimitsV2

  ghost function ViewOf(el: V2.RequestLimitsV2): Limits
    reads el
  {
    Limits(el.windowSeconds, el.requestsCount, el.Log, el.threshold)
  }

  /** Rebuilds a batch from its stored form, on an array of its own. */
  method Unmarshal(b: Batch) returns (r: V2.RequestsV2)
    ensures V2.ShowsOne(r, b) && fresh(r.data.arr)
  {
    var arr := new uint32[|b.data|](i requires 0 <= i < |b.data| => b.data[i]);
    r := V2.RequestsV2(V2.Slice(arr, 0, |b.data|), b.start);
    assert arr[0..|b.data|] == b.data;
  }

  /** The stored form of a batch: its contents now. */
  method Marshal(r: V2.RequestsV2, ghost b: Batch) returns (v: Batch)
    requires V2.ShowsOne(r, b)
    ensures v == b
  {
    v := Batch(r.start, r.data.arr[r.data.off..r.data.off + r.data.len]);
  }

  /** The starts of the batches held. */
  method StartsOf(requests: seq<V2.RequestsV2>, ghost rs: seq<Batch>) returns (starts: set<int>)
    requires V2.Shows(requests, rs)
    ensures starts == Starts(rs)
  {
    starts := {};
    for i := 0 to |requests|
      invariant starts == Starts(rs[..i])
    {
      assert V2.ShowsOne(requests[i], rs[i]) && rs[..i + 1] == rs[..i] + [rs[i]];
      starts := starts + {requests[i].start};
    }
    assert rs[..|requests|] == rs;
  }

  lemma SettleNext(clear: set<int>, rs: seq<Batch>, i: nat, write: seq<Batch>)
    requires i < |rs|
    ensures rs[i].start in clear ==> Settle(clear, rs[i..]) == Settle(clear - {rs[i].start}, rs[i + 1..])
    ensures rs[i].start !in clear ==>
      Settle(clear, rs[i..]).0 == Settle(clear, rs[i + 1..]).0
      && write + Settle(clear, rs[i..]).1 == (write + [rs[i]]) + Settle(clear, rs[i + 1..]).1
  {
    assert rs[i..][0] == rs[i] && rs[i..][1..] == rs[i + 1..];
  }

  /** Drops from the held starts those a cleaned batch still has; collects the stored forms of the
      other cleaned batches. */
  method SettleBatches(held: set<int>, requests: seq<V2.RequestsV2>, ghost rs: seq<Batch>)
    returns (clear: set<int>, insert: seq<Batch>)
    requires V2.Shows(requests, rs)
    ensures clear == Settle(held, rs).0 && insert == Settle(held, rs).1
  {
    clear, insert := held, [];
    assert rs[0..] == rs;
    for i := 0 to |requests|
      invariant Settle(held, rs).0 == Settle(clear, rs[i..]).0
      invariant Settle(held, rs).1 == insert + Settle(clear, rs[i..]).1
    {
      assert V2.ShowsOne(requests[i], rs[i]);
      SettleNext(clear, rs, i, insert);
      if requests[i].start in clear {
        clear := clear - {requests[i].start};
      } else {
        var b := Marshal(requests[i], rs[i]);
        insert := insert + [b];
      }
    }
    assert rs[|requests|..] == [];
  }

  lemma WrapAdds(x: int, y: int)
    ensures Wrap(Wrap(x) + Wrap(y)) == Wrap(x + y)
  {}

  /** Sums the batch lengths in 32 bits. */
  method CountEntries(requests: seq<V2.RequestsV2>, ghost rs: seq<Batch>) returns (count: uint32)
    requires V2.Shows(requests, rs)
    ensures count == EntryCount(rs)
  {
    count := 0;
    for i := 0 to |requests|
      invariant count == Wrap(Entries(rs[..i]))
    {
      assert V2.ShowsOne(requests[i], rs[i]) && rs[..i + 1][..i] == rs[..i];
      WrapAdds(Entries(rs[..i]), requests[i].data.len);
      count := Wrap(count + Wrap(requests[i].data.len));
    }
    assert rs[..|requests|] == rs;
  }

  lemma ClearOneMore(id: Bytes, window: nat, m: Table, done: set<int>, s: int)
    ensures Apply(Clear(RequestsKey(id, window, s)), ClearAll(id, window, m, done))
      == ClearAll(id, window, m, done + {s})
  {}

  lemma EmptyOrNot(s: set<int>)
    ensures s == {} || exists x :: x in s
  {
    if forall x :: x !in s { assert s == {}; }
  }

  method AnyOf(s: set<int>) returns (x: int)
    requires s != {}
    ensures x in s
  {
    EmptyOrNot(s);
    x :| x in s;
  }

  /** Buffers a clear for every start, in whatever order the map is iterated. */
  method ClearKeys(tx: Transaction, id: Bytes, window: nat, clear: set<int>, ghost m: Table)
    modifies tx`calls
    ensures ApplyAll(tx.calls, m) == ClearAll(id, window, ApplyAll(old(tx.calls), m), clear)
  {
    var left := clear;
    ghost var before := ApplyAll(tx.calls, m);
    while left != {}
      invariant left <= clear
      invariant ApplyAll(tx.calls, m) == ClearAll(id, window, before, clear - left)
      decreases left
    {
      var s := AnyOf(left);
      ApplyLast(tx.calls, Clear(RequestsKey(id, window, s)), m);
      ClearOneMore(id, window, before, clear - left, s);
      tx.Clear(RequestsKey(id, window, s));
      assert clear - left + {s} == clear - (left - {s});
      left := left - {s};
    }
  }

  lemma {:induction false} WriteOneMore(id: Bytes, window: nat, m: Table, bs: seq<Batch>, b: Batch)
    ensures WriteAll(id, window, m, bs + [b]) == WriteAll(id, window, m, bs)[KeyOf(id, window, b) := BatchValue(b)]
    decreases |bs|
  {
    if bs == [] {
      assert bs + [b] == [b] && [b][1..] == [];
    } else {
      assert (bs + [b])[1..] == bs[1..] + [b];
      WriteOneMore(id, window, m[KeyOf(id, window, bs[0]) := BatchValue(bs[0])], bs[1..], b);
    }
  }

  /** Buffers a write for every batch. */
  method WriteBatches(tx: Transaction, id: Bytes, window: nat, insert: seq<Batch>, ghost m: Table)
    modifies tx`calls
    ensures ApplyAll(tx.calls, m) == WriteAll(id, window, ApplyAll(old(tx.calls), m), insert)
  {
    ghost var before := ApplyAll(tx.calls, m);
    assert insert[..0] == [];
    for i := 0 to |insert|
      invariant ApplyAll(tx.calls, m) == WriteAll(id, window, before, insert[..i])
    {
      assert insert[..i + 1] == insert[..i] + [insert[i]];
      ApplyLast(tx.calls, Set(KeyOf(id, window, insert[i]), BatchValue(insert[i])), m);
      WriteOneMore(id, window, before, insert[..i], insert[i]);
      tx.Set(KeyOf(id, window, insert[i]), BatchValue(insert[i]));
    }
    assert insert[..|insert|] == insert;
  }

  /** Whether it worked, and if not, why. */
  function Done<T>(r: Result<T>): (d: Result<()>)
    ensures d.Failed? <==> r.Failed?
    ensures r.Failed? ==> d == Failed(r.fault)
  {
    if r.Ok? then Ok(()) else Failed(r.fault)
  }

  /** What a clean of the limits leaves to clear and to write. */
  ghost predicate SettledAs(l: Limits, now: int, clear: set<int>, write: seq<Batch>) {
    var settled := Settle(Starts(l.batches), Cleaned(l.batches, Cutoff(now, l.window)));
    clear == settled.0 && write == settled.1
  }

  lemma SameCount(bs: seq<Batch>, cutoff: int)
    ensures EntryCount(V2.Overwritten(bs, cutoff)) == EntryCount(bs)
  {
    V2.OverwrittenKeepsEntries(bs, cutoff);
  }

  /** Scans a record for a clean: the batches that remain, the starts to clear, the batches to write,
      and the count, taken over the batches held before, which the scan may have overwritten but not
      shortened. */
  method ScanRecord(el: V2.RequestLimitsV2, now: int)
    returns (out: seq<V2.RequestsV2>, ghost cleaned: seq<Batch>, clear: set<int>, insert: seq<Batch>, count: uint32)
    requires el.Valid()
    modifies el`Log, el.Repr - {el}
    ensures el.Valid() && V2.Shows(out, cleaned) && V2.Separate(out) && fresh(V2.Arrays(out) - el.Repr)
    ensures cleaned == Cleaned(old(el.Log), Cutoff(now, el.windowSeconds)) && count == EntryCount(old(el.Log))
    ensures SettledAs(old(ViewOf(el)), now, clear, insert)
  {
    ghost var l := ViewOf(el);
    var held := StartsOf(el.requests, el.Log);
    out, cleaned := el.CleanCounters(now);
    clear, insert := SettleBatches(held, out, cleaned);
    count := CountEntries(el.requests, el.Log);
    SameCount(l.batches, Cutoff(now, l.window));
  }

  /** Cleans a record in place. */
  method CleanRecord(el: V2.RequestLimitsV2, now: int) returns (clear: set<int>, insert: seq<Batch>)
    requires el.Valid()
    modifies el, el.Repr
    ensures el.Valid() && fresh(el.Repr - old(el.Repr))
    ensures ViewOf(el) == CleanOf(old(ViewOf(el)), now)
    ensures SettledAs(old(ViewOf(el)), now, clear, insert)
  {
    var out, count;
    ghost var cleaned;
    out, cleaned, clear, insert, count := ScanRecord(el, now);
    el.Install(out, cleaned, count);
  }

  /** The record cached at k is valid, shows its view, and its objects are k's alone. */
  ghost predicate Keeps(el: V2.RequestLimitsV2, view: Limits, k: Bytes, region: set<object>, owner: map<object, Bytes>)
    requires el in region
    reads region
  {
    && el.Repr <= region && el.Valid() && ViewOf(el) == view
    && forall o :: o in el.Repr ==> o in owner && owner[o] == k
  }

  /** Every cached record shows its view, on objects of its own inside the region. */
  ghost predicate Showing(cache: map<Bytes, V2.RequestLimitsV2>, views: map<Bytes, Limits>,
                          region: set<object>, owner: map<object, Bytes>)
    reads region
  {
    && views.Keys == cache.Keys
    && forall k {:trigger cache[k]} :: k in cache ==> cache[k] in region && Keeps(cache[k], views[k], k, region, owner)
  }

  /** All cached records but the one at key show their views. */
  ghost predicate OthersShowing(cache: map<Bytes, V2.RequestLimitsV2>, views: map<Bytes, Limits>, key: Bytes,
                                region: set<object>, owner: map<object, Bytes>)
    reads region
  {
    && views.Keys + {key} == cache.Keys
    && forall k {:trigger cache[k]} :: k in cache && k != key ==>
         cache[k] in region && Keeps(cache[k], views[k], k, region, owner)
  }

  /** Rows that are all batches, and the batches in them. */
  predicate RowsAre(kvs: seq<(Bytes, Value)>, bs: seq<Batch>) {
    |kvs| == |bs| && forall j :: 0 <= j < |kvs| ==> kvs[j].1 == BatchValue(bs[j])
  }

  lemma RowsNext(kvs: seq<(Bytes, Value)>, i: nat, bs: seq<Batch>)
    requires i < |kvs| && RowsAre(kvs[..i], bs)
    ensures kvs[i].1.BatchValue? ==> RowsAre(kvs[..i + 1], bs + [kvs[i].1.batch])
  {}

  /** Rebuilds the batches of the rows, up to the first row that is none. */
  method Fill(el: V2.RequestLimitsV2, kvs: seq<(Bytes, Value)>) returns (ok: bool)
    requires el.Valid() && el.Log == []
    modifies el
    ensures el.Valid() && fresh(el.Repr - old(el.Repr))
    ensures ViewOf(el) == old(ViewOf(el)).(batches := el.Log)
    ensures ok == forall j :: 0 <= j < |kvs| ==> kvs[j].1.BatchValue?
    ensures ok ==> RowsAre(kvs, el.Log)
  {
    for i := 0 to |kvs|
      invariant el.Valid() && fresh(el.Repr - old(el.Repr))
      invariant ViewOf(el) == old(ViewOf(el)).(batches := el.Log)
      invariant RowsAre(kvs[..i], el.Log)
    {
      RowsNext(kvs, i, el.Log);
      if !kvs[i].1.BatchValue? {
        return false;
      }
      var batch := Unmarshal(kvs[i].1.batch);
      el.Extend(batch, kvs[i].1.batch);
    }
    assert kvs[..|kvs|] == kvs;
    ok := true;
  }

  lemma RowsLoaded(m: Table, ks: seq<Bytes>, bs: seq<Batch>)
    requires forall k :: k in ks ==> k in m
    requires RowsAre(Rows(m, ks), bs)
    ensures AllBatches(m, ks) && bs == BatchesAt(m, ks)
  {
    forall k | k in ks ensures m[k].BatchValue? {
      var j :| 0 <= j < |ks| && ks[j] == k;
      assert Rows(m, ks)[j].1 == m[k];
    }
    forall j | 0 <= j < |ks| ensures BatchesAt(m, ks)[j] == bs[j] {
      assert Rows(m, ks)[j].1 == m[ks[j]];
    }
  }

  lemma RowsBad(m: Table, ks: seq<Bytes>, j: nat)
    requires (forall k :: k in ks ==> k in m) && j < |ks| && !Rows(m, ks)[j].1.BatchValue?
    ensures !AllBatches(m, ks)
  {
    assert ks[j] in ks && Rows(m, ks)[j].1 == m[ks[j]];
  }

  /** Reads the limits and the batches under their prefix into a new record. */
  method LoadRecord(tx: Transaction, id: Bytes, window: nat) returns (r: Result<V2.RequestLimitsV2>)
    ensures Loaded(tx.db.store, id, window).Failed? ==> r == Failed(Loaded(tx.db.store, id, window).fault)
    ensures Loaded(tx.db.store, id, window).Ok? ==>
      r.Ok? && r.value.Valid() && fresh(r.value.Repr) && ViewOf(r.value) == Loaded(tx.db.store, id, window).value
  {
    var key, prefix := RequestLimitsKey(id, window), RequestsPrefix(id, window);
    RequestsPrefixHasEnd(id, window);
    var data := tx.Get(key);
    if data.None? {
      return Failed(LimitsNotFound);
    }
    if !data.value.LimitValue? {
      return Failed(BadRecord);
    }
    var el := new V2.RequestLimitsV2(data.value.window, data.value.count, data.value.threshold);
    var kvs := tx.GetRange(prefix, Strinc(prefix));
    ghost var ks := ScanKeys(tx.db.store, id, window);
    var ok := Fill(el, kvs);
    if !ok {
      ghost var j :| 0 <= j < |kvs| && !kvs[j].1.BatchValue?;
      RowsBad(tx.db.store, ks, j);
      return Failed(BadRecord);
    }
    RowsLoaded(tx.db.store, ks, el.Log);
    r := Ok(el);
  }

  lemma ApplyTwo(c1: Call, c2: Call, m: Table)
    ensures ApplyAll([] + [c1] + [c2], m) == Apply(c2, Apply(c1, m))
  {
    ApplyLast([], c1, m);
    ApplyLast([] + [c1], c2, m);
  }

  /** Writes one value and commits. */
  method SendOne(tx: Transaction, k: Bytes, v: Value)
    requires tx.calls == []
    modifies tx, tx.db
    ensures tx.db.store == old(tx.db.store)[k := v]
  {
    ApplyLast([], Set(k, v), tx.db.store);
    tx.Set(k, v);
    var ok := tx.Commit([]);
  }

  /** Writes two values and commits. */
  method SendTwo(tx: Transaction, k1: Bytes, v1: Value, k2: Bytes, v2: Value)
    requires tx.calls == []
    modifies tx, tx.db
    ensures tx.db.store == old(tx.db.store)[k1 := v1][k2 := v2]
  {
    ApplyTwo(Set(k1, v1), Set(k2, v2), tx.db.store);
    tx.Set(k1, v1);
    tx.Set(k2, v2);
    var ok := tx.Commit([]);
  }

  /** Writes the limits, clears and writes batch keys, and commits. */
  method SendClean(tx: Transaction, id: Bytes, window: nat, limits: Value, clear: set<int>, insert: seq<Batch>)
    requires tx.calls == []
    modifies tx, tx.db
    ensures tx.db.store
         == WriteAll(id, window, ClearAll(id, window, old(tx.db.store)[RequestLimitsKey(id, window) := limits], clear),
              insert)
  {
    ghost var m := tx.db.store;
    ApplyLast([], Set(RequestLimitsKey(id, window), limits), m);
    tx.Set(RequestLimitsKey(id, window), limits);
    ClearKeys(tx, id, window, clear, m);
    WriteBatches(tx, id, window, insert, m);
    var ok := tx.Commit([]);
  }

  /** Giving further objects to another key leaves a record as it was. */
  lemma KeepsWider(el: V2.RequestLimitsV2, view: Limits, k: Bytes, region: set<object>, owner: map<object, Bytes>,
                   key: Bytes, extra: set<object>)
    requires el in region && Keeps(el, view, k, region, owner) && k != key
    requires forall o :: o in extra && o in owner ==> owner[o] == key
    ensures Keeps(el, view, k, region + extra, Owning(owner, extra, key))
  {}

  function Owning(owner: map<object, Bytes>, objects: set<object>, key: Bytes): map<object, Bytes> {
    owner + map o | o in objects :: key
  }

  /** The record at key, new or changed, is taken to show its current contents. */
  lemma Recached(cache: map<Bytes, V2.RequestLimitsV2>, views: map<Bytes, Limits>, key: Bytes,
                 region: set<object>, owner: map<object, Bytes>)
    requires OthersShowing(cache, views, key, region, owner) && cache[key].Valid()
    requires forall o :: o in cache[key].Repr && o in owner ==> owner[o] == key
    ensures Showing(cache, views[key := ViewOf(cache[key])], region + cache[key].Repr,
                    Owning(owner, cache[key].Repr, key))
  {
    var el := cache[key];
    forall k | k in cache && k != key
      ensures Keeps(cache[k], views[k], k, region + el.Repr, Owning(owner, el.Repr, key))
    {
      KeepsWider(cache[k], views[k], k, region, owner, key, el.Repr);
    }
  }

  class LimiterRepo {
    const db: Database
    var cache: map<Bytes, V2.RequestLimitsV2>
    /** The cached limits as values. */
    ghost var views: map<Bytes, Limits>
    /** The objects of the cached records, and the key under which each is cached. */
    ghost var region: set<object>
    ghost var owner: map<object, Bytes>

    ghost predicate Valid()
      reads this, region
    {
      this !in region && db !in region && owner.Keys <= region && Showing(cache, views, region, owner)
    }

    ghost function Abs(): State
      reads this, db
    {
      State(db.store, views)
    }

    constructor (db: Database)
      ensures Valid() && this.db == db && Abs() == State(db.store, map[]) && region == {}
    {
      this.db := db;
      cache, views, region, owner := map[], map[], {}, map[];
    }

    /** Eviction: the cache may drop an entry at any time. */
    method Evict(key: Bytes)
      requires Valid()
      modifies this`cache, this`views
      ensures Valid() && Abs() == AfterEvict(old(Abs()), key)
    {
      cache := cache - {key};
      views := views - {key};
    }

    method CheckIfExist(id: Bytes, window: nat) returns (exist: bool)
      ensures exist == (RequestLimitsKey(id, window) in Abs().store)
    {
      var tx := new Transaction(db);
      var data := tx.Get(RequestLimitsKey(id, window));
      exist := data.Some?;
    }

    /** Creates limits with no requests, unless there are some. */
    method Create(id: Bytes, window: nat, threshold: nat) returns (r: Result<()>)
      requires Valid()
      modifies db
      ensures Valid() && Abs() == AfterCreate(old(Abs()), id, window, threshold)
      ensures r == if RequestLimitsKey(id, window) in old(db.store) then Failed(AlreadyExists) else Ok(())
    {
      var tx := new Transaction(db);
      var key := RequestLimitsKey(id, window);
      var data := tx.Get(key);
      if data.Some? {
        return Failed(AlreadyExists);
      }
      SendOne(tx, key, LimitValue(window, 0, threshold));
      r := Ok(());
    }

    /** Makes the ghost state follow a change of the record cached at key. */
    ghost method Follow(key: Bytes)
      requires this !in region && db !in region && owner.Keys <= region
      requires key in cache && OthersShowing(cache, views, key, region, owner)
      requires cache[key].Valid() && this !in cache[key].Repr && db !in cache[key].Repr
      requires forall o :: o in cache[key].Repr && o in owner ==> owner[o] == key
      modifies this`views, this`region, this`owner
      ensures Valid() && views == old(views)[key := ViewOf(cache[key])] && region == old(region) + cache[key].Repr
    {
      ghost var el := cache[key];
      Recached(cache, views, key, region, owner);
      Adopt(views[key := ViewOf(el)], region + el.Repr, Owning(owner, el.Repr, key));
    }

    ghost method Adopt(v: map<Bytes, Limits>, r: set<object>, o: map<object, Bytes>)
      requires Showing(cache, v, r, o) && this !in r && db !in r && o.Keys <= r
      modifies this`views, this`region, this`owner
      ensures Valid() && views == v && region == r && owner == o
    {
      views, region, owner := v, r, o;
    }

    /** Caches a new record. */
    method Insert(key: Bytes, el: V2.RequestLimitsV2)
      requires Valid() && key !in cache
      requires el.Valid() && el.Repr !! region && this !in el.Repr && db !in el.Repr
      modifies this`cache, this`views, this`region, this`owner
      ensures Valid() && cache == old(cache)[key := el] && views == old(views)[key := ViewOf(el)]
      ensures region == old(region) + el.Repr
    {
      cache := cache[key := el];
      Follow(key);
    }

    /** The limits of an owner: the cached record, or one read from the store and then cached. */
    method GetRateLimit(tx: Transaction, id: Bytes, window: nat) returns (r: Result<V2.RequestLimitsV2>)
      requires Valid() && tx.db == db
      modifies this`cache, this`views, this`region, this`owner
      ensures Valid() && fresh(region - old(region)) && Abs() == AfterFetch(old(Abs()), id, window)
      ensures Fetched(old(Abs()), id, window).Failed? ==> r == Failed(Fetched(old(Abs()), id, window).fault)
      ensures Fetched(old(Abs()), id, window).Ok? ==>
        r.Ok? && RequestLimitsKey(id, window) in cache && cache[RequestLimitsKey(id, window)] == r.value
    {
      var key := RequestLimitsKey(id, window);
      if key in cache {
        assert views[key := views[key]] == views;
        return Ok(cache[key]);
      }
      r := LoadRecord(tx, id, window);
      if r.Ok? {
        Insert(key, r.value);
      }
    }

    /** Opens a transaction and fetches the limits; gives their count and threshold. */
    method Open(id: Bytes, window: nat) returns (r: Result<(uint32, nat)>, tx: Transaction)
      requires Valid()
      modifies this`cache, this`views, this`region, this`owner
      ensures Valid() && fresh(region - old(region)) && fresh(tx) && tx !in region && tx.db == db && tx.calls == []
      ensures r == match Fetched(old(Abs()), id, window)
                   case Ok(l) => Ok((l.count, l.threshold))
                   case Failed(f) => Failed(f)
      ensures r.Failed? ==> views == old(views)
      ensures r.Ok? ==>
        RequestLimitsKey(id, window) in cache
        && views == old(views)[RequestLimitsKey(id, window) := Fetched(old(Abs()), id, window).value]
    {
      tx := new Transaction(db);
      var fetched := GetRateLimit(tx, id, window);
      if fetched.Failed? {
        return Failed(fetched.fault), tx;
      }
      var key := RequestLimitsKey(id, window);
      assert Keeps(cache[key], views[key], key, region, owner);
      r := Ok((fetched.value.requestsCount, fetched.value.threshold));
    }

    /** Records a request in the cached record. */
    method CachedAdd(key: Bytes, t: int)
      requires Valid() && key in cache
      modifies this`views, this`region, this`owner, region
      ensures Valid() && fresh(region - old(region))
      ensures views == old(views)[key := AddTo(old(views)[key], t)]
    {
      var el := cache[key];
      assert Keeps(el, views[key], key, region, owner);
      el.AddCounter(t);
      forall k | k in cache && k != key ensures Keeps(cache[k], views[k], k, region, owner) {
        assert old(Keeps(cache[k], views[k], k, region, owner));
      }
      Follow(key);
    }

    /** Sets the threshold of the cached record. */
    method CachedThreshold(key: Bytes, threshold: nat)
      requires Valid() && key in cache
      modifies this`views, this`region, this`owner, region
      ensures Valid() && fresh(region - old(region))
      ensures views == old(views)[key := old(views)[key].(threshold := threshold)]
    {
      var el := cache[key];
      assert Keeps(el, views[key], key, region, owner);
      el.threshold := threshold;
      forall k | k in cache && k != key ensures Keeps(cache[k], views[k], k, region, owner) {
        assert old(Keeps(cache[k], views[k], k, region, owner));
      }
      Follow(key);
    }

    /** Cleans the cached record; gives the starts to clear and the batches to write. */
    method CachedClean(key: Bytes, now: int) returns (clear: set<int>, insert: seq<Batch>)
      requires Valid() && key in cache
      modifies this`views, this`region, this`owner, region
      ensures Valid() && fresh(region - old(region))
      ensures views == old(views)[key := CleanOf(old(views)[key], now)]
      ensures SettledAs(old(views)[key], now, clear, insert)
    {
      var el := cache[key];
      assert Keeps(el, views[key], key, region, owner);
      clear, insert := CleanRecord(el, now);
      forall k | k in cache && k != key ensures Keeps(cache[k], views[k], k, region, owner) {
        assert old(Keeps(cache[k], views[k], k, region, owner));
      }
      Follow(key);
    }

    /** The stored forms of the cached limits and of their last batch, with its start. */
    method LastWritten(key: Bytes) returns (limits: Value, data: Value, start: int)
      requires Valid() && key in views && views[key].batches != []
      ensures var l := views[key];
              var last := l.batches[|l.batches| - 1];
              limits == Meta(l) && data == BatchValue(last) && start == last.start
    {
      var el := cache[key];
      assert Keeps(el, views[key], key, region, owner);
      var n := |el.requests| - 1;
      assert V2.ShowsOne(el.requests[n], el.Log[n]);
      limits := LimitValue(el.windowSeconds, el.requestsCount, el.threshold);
      var last := Marshal(el.requests[n], el.Log[n]);
      data := BatchValue(last);
      start := el.requests[n].start;
    }

    /** Opens a transaction, fetches the limits and records a request in them. */
    method FetchAndAdd(id: Bytes, window: nat, counterTime: int) returns (r: Result<()>, tx: Transaction)
      requires Valid()
      modifies this`cache, this`views, this`region, this`owner, region
      ensures Valid() && fresh(region - old(region))
      ensures fresh(tx) && tx.db == db && tx.calls == []
      ensures r == Done(Fetched(old(Abs()), id, window))
      ensures r.Failed? ==> views == old(views)
      ensures r.Ok? ==>
        views == old(views)[RequestLimitsKey(id, window) := AddTo(Fetched(old(Abs()), id, window).value, counterTime)]
    {
      var fetched;
      fetched, tx := Open(id, window);
      r := Done(fetched);
      if fetched.Failed? {
        return;
      }
      var key := RequestLimitsKey(id, window);
      ghost var l, known := views[key], region;
      assert fresh(known - old(region));
      CachedAdd(key, counterTime);
      assert fresh(region - known);
      Overwrite(old(views), key, l, AddTo(l, counterTime));
    }

    /** Writes two values; the cached records stay as they are. */
    method WriteTwo(tx: Transaction, k1: Bytes, v1: Value, k2: Bytes, v2: Value)
      requires Valid() && tx.db == db && tx.calls == []
      modifies tx, db
      ensures Valid() && db.store == old(db.store)[k1 := v1][k2 := v2]
    {
      SendTwo(tx, k1, v1, k2, v2);
    }

    /** Writes the cached limits and, after an add, their last batch. */
    method CommitAdd(tx: Transaction, id: Bytes, window: nat)
      requires Valid() && RequestLimitsKey(id, window) in views && tx.db == db && tx.calls == []
      requires views[RequestLimitsKey(id, window)].batches != []
      modifies tx, db
      ensures Valid()
      ensures db.store == WithAdded(old(db.store), id, window, views[RequestLimitsKey(id, window)])
    {
      var limits, data, start := LastWritten(RequestLimitsKey(id, window));
      WriteTwo(tx, RequestLimitsKey(id, window), limits, RequestsKey(id, window, start), data);
    }

    /** Records a request and writes the limits and the last batch. */
    method AddCounter(id: Bytes, window: nat, counterTime: int) returns (r: Result<()>)
      requires Valid()
      modifies this`cache, this`views, this`region, this`owner, region, db
      ensures Valid() && fresh(region - old(region))
      ensures Abs() == AfterAdd(old(Abs()), id, window, counterTime)
      ensures r == Done(Fetched(old(Abs()), id, window))
    {
      var tx;
      r, tx := FetchAndAdd(id, window, counterTime);
      if r.Ok? {
        CommitAdd(tx, id, window);
        AddedState(old(Abs()), id, window, counterTime, db.store, views);
      }
    }

    /** Opens a transaction, fetches the limits and cleans them. */
    method FetchAndClean(id: Bytes, window: nat, now: int)
      returns (r: Result<()>, tx: Transaction, clear: set<int>, insert: seq<Batch>)
      requires Valid()
      modifies this`cache, this`views, this`region, this`owner, region
      ensures Valid() && fresh(region - old(region))
      ensures fresh(tx) && tx.db == db && tx.calls == []
      ensures r == Done(Fetched(old(Abs()), id, window))
      ensures r.Failed? ==> views == old(views)
      ensures r.Ok? ==>
        views == old(views)[RequestLimitsKey(id, window) := CleanOf(Fetched(old(Abs()), id, window).value, now)]
      ensures r.Ok? ==> SettledAs(Fetched(old(Abs()), id, window).value, now, clear, insert)
    {
      var fetched;
      clear, insert := {}, [];
      fetched, tx := Open(id, window);
      r := Done(fetched);
      if fetched.Failed? {
        return;
      }
      var key := RequestLimitsKey(id, window);
      ghost var l, known := views[key], region;
      assert fresh(known - old(region));
      clear, insert := CachedClean(key, now);
      assert fresh(region - known);
      Overwrite(old(views), key, l, CleanOf(l, now));
    }

    /** The stored form of the cached limits. */
    method LimitsWritten(key: Bytes) returns (limits: Value)
      requires Valid() && key in views
      ensures limits == Meta(views[key])
    {
      var el := cache[key];
      assert Keeps(el, views[key], key, region, owner);
      limits := LimitValue(el.windowSeconds, el.requestsCount, el.threshold);
    }

    /** Writes what a clean leaves; the cached records stay as they are. */
    method WriteClean(tx: Transaction, id: Bytes, window: nat, limits: Value, clear: set<int>, insert: seq<Batch>)
      requires Valid() && tx.db == db && tx.calls == []
      modifies tx, db
      ensures Valid() && db.store
        == WriteAll(id, window, ClearAll(id, window, old(db.store)[RequestLimitsKey(id, window) := limits], clear),
             insert)
    {
      SendClean(tx, id, window, limits, clear, insert);
    }

    method CommitClean(tx: Transaction, id: Bytes, window: nat, clear: set<int>, insert: seq<Batch>)
      requires Valid() && RequestLimitsKey(id, window) in views && tx.db == db && tx.calls == []
      modifies tx, db
      ensures Valid()
      ensures db.store == WithCleaned(old(db.store), id, window, views[RequestLimitsKey(id, window)], clear, insert)
    {
      var limits := LimitsWritten(RequestLimitsKey(id, window));
      WriteClean(tx, id, window, limits, clear, insert);
    }

    /** Drops the requests that left the window, from the cached batches and from the store. */
    method CleanCounters(id: Bytes, window: nat, now: int) returns (r: Result<()>)
      requires Valid()
      modifies this`cache, this`views, this`region, this`owner, region, db
      ensures Valid() && fresh(region - old(region))
      ensures Abs() == AfterClean(old(Abs()), id, window, now)
      ensures r == Done(Fetched(old(Abs()), id, window))
    {
      var tx, clear, insert;
      r, tx, clear, insert := FetchAndClean(id, window, now);
      if r.Ok? {
        CommitClean(tx, id, window, clear, insert);
        CleanedState(old(Abs()), id, window, now, db.store, views, clear, insert);
      }
    }

    /** Opens a transaction and fetches the limits; sets their threshold to the count unless it is zero. */
    method FetchAndSettle(id: Bytes, window: nat) returns (r: Result<bool>, tx: Transaction)
      requires Valid()
      modifies this`cache, this`views, this`region, this`owner, region
      ensures Valid() && fresh(region - old(region))
      ensures fresh(tx) && tx.db == db && tx.calls == []
      ensures Done(r) == Done(Fetched(old(Abs()), id, window))
      ensures r.Failed? ==> views == old(views)
      ensures r.Ok? ==> var l := Fetched(old(Abs()), id, window).value;
        r.value == (l.count != 0)
        && views == old(views)[RequestLimitsKey(id, window) := if l.count == 0 then l else l.(threshold := l.count)]
    {
      var fetched;
      fetched, tx := Open(id, window);
      if fetched.Failed? {
        return Failed(fetched.fault), tx;
      }
      var key := RequestLimitsKey(id, window);
      ghost var l, known := views[key], region;
      assert fresh(known - old(region));
      r := Ok(fetched.value.0 != 0);
      if r.value {
        CachedThreshold(key, fetched.value.0);
        assert fresh(region - known);
        Overwrite(old(views), key, l, l.(threshold := l.count));
      }
    }

    /** Opens a transaction and fetches the limits; raises their threshold unless it is above. */
    method FetchAndRaise(id: Bytes, window: nat, threshold: nat) returns (r: Result<bool>, tx: Transaction)
      requires Valid()
      modifies this`cache, this`views, this`region, this`owner, region
      ensures Valid() && fresh(region - old(region))
      ensures fresh(tx) && tx.db == db && tx.calls == []
      ensures Done(r) == Done(Fetched(old(Abs()), id, window))
      ensures r.Failed? ==> views == old(views)
      ensures r.Ok? ==> var l := Fetched(old(Abs()), id, window).value;
        r.value == (l.threshold <= threshold)
        && views == old(views)[RequestLimitsKey(id, window) :=
                      if l.threshold > threshold then l else l.(threshold := threshold)]
    {
      var fetched;
      fetched, tx := Open(id, window);
      if fetched.Failed? {
        return Failed(fetched.fault), tx;
      }
      var key := RequestLimitsKey(id, window);
      ghost var l, known := views[key], region;
      assert fresh(known - old(region));
      r := Ok(fetched.value.1 <= threshold);
      if r.value {
        CachedThreshold(key, threshold);
        assert fresh(region - known);
        Overwrite(old(views), key, l, l.(threshold := threshold));
      }
    }

    method WriteOne(tx: Transaction, k: Bytes, v: Value)
      requires Valid() && tx.db == db && tx.calls == []
      modifies tx, db
      ensures Valid() && db.store == old(db.store)[k := v]
    {
      SendOne(tx, k, v);
    }

    method CommitLimits(tx: Transaction, id: Bytes, window: nat)
      requires Valid() && RequestLimitsKey(id, window) in views && tx.db == db && tx.calls == []
      modifies tx, db
      ensures Valid()
      ensures db.store == old(db.store)[RequestLimitsKey(id, window) := Meta(views[RequestLimitsKey(id, window)])]
    {
      var limits := LimitsWritten(RequestLimitsKey(id, window));
      WriteOne(tx, RequestLimitsKey(id, window), limits);
    }

    /** Takes the current count for threshold, unless there are no requests. */
    method SetThreshold(id: Bytes, window: nat) returns (r: Result<()>)
      requires Valid()
      modifies this`cache, this`views, this`region, this`owner, region, db
      ensures Valid() && fresh(region - old(region))
      ensures Abs() == AfterSetThreshold(old(Abs()), id, window)
      ensures r == Done(Fetched(old(Abs()), id, window))
    {
      var set_, tx;
      set_, tx := FetchAndSettle(id, window);
      r := Done(set_);
      if set_.Ok? && set_.value {
        CommitLimits(tx, id, window);
      }
    }

    /** Raises the threshold to at least the given one. */
    method IncreaseThresholdTo(id: Bytes, window: nat, threshold: nat) returns (r: Result<()>)
      requires Valid()
      modifies this`cache, this`views, this`region, this`owner, region, db
      ensures Valid() && fresh(region - old(region))
      ensures Abs() == AfterIncrease(old(Abs()), id, window, threshold)
      ensures r == Done(Fetched(old(Abs()), id, window))
    {
      var raised, tx;
      raised, tx := FetchAndRaise(id, window, threshold);
      r := Done(raised);
      if raised.Ok? && raised.value {
        CommitLimits(tx, id, window);
      }
    }

    /** The count and threshold of an owner. */
    method GetRequestLimit(id: Bytes, window: nat) returns (r: Result<(uint32, nat)>)
      requires Valid()
      modifies this`cache, this`views, this`region, this`owner
      ensures Valid() && fresh(region - old(region)) && Abs() == AfterFetch(old(Abs()), id, window)
      ensures r == match Fetched(old(Abs()), id, window)
                   case Ok(l) => Ok((l.count, l.threshold))
                   case Failed(f) => Failed(f)
    {
      var tx;
      r, tx := Open(id, window);
    }
  }

  lemma Overwrite<K, V>(m: map<K, V>, k: K, a: V, b: V)
    ensures m[k := a][k := b] == m[k := b]
  {}

  /** The store with the limits of an owner and their last batch written. */
  function WithAdded(m: Table, id: Bytes, window: nat, l: Limits): Table
    requires l.batches != []
  {
    var last := l.batches[|l.batches| - 1];
    m[RequestLimitsKey(id, window) := Meta(l)][KeyOf(id, window, last) := BatchValue(last)]
  }

  lemma AddedState(s: State, id: Bytes, window: nat, t: int, store: Table, views: map<Bytes, Limits>)
    requires Fetched(s, id, window).Ok?
    requires views == s.cache[RequestLimitsKey(id, window) := AddTo(Fetched(s, id, window).value, t)]
    requires store == WithAdded(s.store, id, window, views[RequestLimitsKey(id, window)])
    ensures State(store, views) == AfterAdd(s, id, window, t)
  {}

  function WithCleaned(m: Table, id: Bytes, window: nat, l: Limits, clear: set<int>, insert: seq<Batch>): Table {
    WriteAll(id, window, ClearAll(id, window, m[RequestLimitsKey(id, window) := Meta(l)], clear), insert)
  }

  lemma CleanedState(s: State, id: Bytes, window: nat, now: int, store: Table, views: map<Bytes, Limits>,
                     clear: set<int>, insert: seq<Batch>)
    requires Fetched(s, id, window).Ok?
    requires views == s.cache[RequestLimitsKey(id, window) := CleanOf(Fetched(s, id, window).value, now)]
    requires SettledAs(Fetched(s, id, window).value, now, clear, insert)
    requires store == WithCleaned(s.store, id, window, views[RequestLimitsKey(id, window)], clear, insert)
    ensures State(store, views) == AfterClean(s, id, window, now)
  {}
}
