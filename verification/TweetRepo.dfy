/** The tweet repository as it runs against the database, and the watcher's cleaning of old tweets. */
module TweetRepo {
  import opened Bytes
  import opened Records
  import opened Keys
  import opened Store
  import opened Tweets
  import opened TweetRuns
  import opened TweetQueries
  import opened TweetLaws

  // ----- saving a list -----

  /** Saves one after the other; stops at a stored tweet that cannot be read. */
  function AfterSaves(s: TweetState, ts: seq<Tweet>): (TweetState, Result<()>)
    decreases |ts|
  {
    if ts == [] then (s, Ok(()))
    else if Lookup(s.store, ts[0].id) == Failed(BadRecord) then (s, Failed(BadRecord))
    else AfterSaves(AfterSave(s, ts[0]), ts[1..])
  }

  function Saves(ts: seq<Tweet>): (ops: seq<Op>)
    ensures |ops| == |ts|
  {
    seq(|ts|, i requires 0 <= i < |ts| => Save(ts[i]))
  }

  /** On a table in order no save fails: a list of saves is a serial run of them. */
  lemma {:induction false} SavesRun(s: TweetState, ts: seq<Tweet>, creation: map<Bytes, int>)
    requires Serial(s, creation) && FixedCreation(Saves(ts), creation)
    ensures AfterSaves(s, ts) == (AfterOps(s, Saves(ts)), Ok(()))
    ensures Serial(AfterSaves(s, ts).0, creation)
    decreases |ts|
  {
    if ts != [] {
      var t := ts[0];
      assert Saves(ts)[0] == Save(t) && Saves(ts)[1..] == Saves(ts[1..]);
      if TweetKey(t.id) in s.store { assert Kept(s.store, t.id); }
      OpSerial(s, Save(t), creation);
      SavesRun(AfterSave(s, t), ts[1..], creation);
    }
  }

  lemma SavesNone(s: TweetState)
    ensures AfterSaves(s, []) == (s, Ok(()))
  {}

  /** The last tweet of a list is saved after all others, unless one of them, or the last itself, meets
      a stored value that is no tweet: that one and those behind it are not saved. */
  lemma {:induction false} SavesLast(s: TweetState, ts: seq<Tweet>, t: Tweet)
    ensures var before := AfterSaves(s, ts);
            AfterSaves(s, ts + [t]) ==
              if before.1.Failed? then before
              else if TweetKey(t.id) in before.0.store && !before.0.store[TweetKey(t.id)].TweetValue?
              then (before.0, Failed(BadRecord))
              else (AfterSave(before.0, t), Ok(()))
    decreases |ts|
  {
    if ts == [] {
      assert ts + [t] == [t] && [t][1..] == [];
      SavesNone(AfterSave(s, t));
    } else {
      assert (ts + [t])[1..] == ts[1..] + [t];
      SavesLast(AfterSave(s, ts[0]), ts[1..], t);
    }
  }

  // ----- deleting a list -----

  /** m with the first deletes of ids done. */
  ghost predicate Deleted(m0: Table, m: Table, ids: seq<Bytes>) {
    && Exact(m)
    && (forall id :: Stores(m, id) <==> Stores(m0, id) && id !in ids)
    && (forall id :: Stores(m, id) ==> TweetAt(m, id) == TweetAt(m0, id))
    && SameElsewhere(m0, m)
  }

  /** The two stores agree outside the table and its indexes. */
  ghost predicate SameElsewhere(m0: Table, m: Table) {
    forall k :: Family(k) !in {0x01, 0x12, 0x14} ==> (k in m <==> k in m0) && (k in m ==> m[k] == m0[k])
  }

  lemma DeleteElsewhere(m: Table, t: Tweet)
    ensures SameElsewhere(m, Removed(m, t))
  {}

  lemma ElsewhereAgain(m0: Table, m1: Table, m2: Table)
    requires SameElsewhere(m0, m1) && SameElsewhere(m1, m2)
    ensures SameElsewhere(m0, m2)
  {}

  lemma DeletedNext(m0: Table, s: TweetState, ids: seq<Bytes>, id: Bytes)
    requires Deleted(m0, s.store, ids) && Stores(m0, id) && id !in ids
    ensures Lookup(s.store, id).Ok? && Deleted(m0, AfterDelete(s, id).store, ids + [id])
  {
    var m, n := s.store, AfterDelete(s, id).store;
    assert Stores(m, id);
    DeleteExact(s, id);
    DeleteApplies(m, TweetAt(m, id));
    DeleteElsewhere(m, TweetAt(m, id));
    ElsewhereAgain(m0, m, n);
    forall i ensures Stores(n, i) <==> Stores(m, i) && i != id
             ensures Stores(n, i) ==> TweetAt(n, i) == TweetAt(m, i) {
      DeleteStores(s, id, i);
    }
    DeletedOneMore(m0, m, n, ids, id);
  }

  lemma DeletedOneMore(m0: Table, m: Table, n: Table, ids: seq<Bytes>, id: Bytes)
    requires Deleted(m0, m, ids) && Exact(n) && SameElsewhere(m0, n)
    requires forall i :: Stores(n, i) <==> Stores(m, i) && i != id
    requires forall i :: Stores(n, i) ==> TweetAt(n, i) == TweetAt(m, i)
    ensures Deleted(m0, n, ids + [id])
  {}

  // ----- the repository -----

  class TweetRepo {
    const db: Database
    var tweetsCounter: Option<int32>

    constructor (db: Database)
      ensures this.db == db && tweetsCounter == None
    {
      this.db := db;
      tweetsCounter := None;
    }

    ghost function State(): TweetState
      reads this, db
      requires tweetsCounter.Some?
    {
      TweetState(db.store, tweetsCounter.value)
    }

    /** Reads one tweet. */
    method GetTweet(tr: Transaction, id: Bytes) returns (r: Result<Tweet>)
      ensures r == Lookup(tr.db.store, id)
      ensures r.Ok? ==> TweetKey(id) in tr.db.store && tr.db.store[TweetKey(id)] == TweetValue(r.value)
      ensures r == Failed(TweetsNotFound) <==> TweetKey(id) !in tr.db.store
    {
      var data := tr.Get(TweetKey(id));
      if data.None? {
        return Failed(TweetsNotFound);
      }
      if !data.value.TweetValue? {
        return Failed(BadRecord);
      }
      r := Ok(data.value.tweet);
    }

    /** Buffers the writes of a save. */
    method BufferSave(tr: Transaction, prior: Option<Tweet>, t: Tweet)
      requires tr.calls == []
      modifies tr`calls
      ensures tr.calls == SaveCalls(prior, t)
    {
      tr.Set(TweetKey(t.id), TweetValue(t));
      if prior.Some? {
        tr.Clear(RatingKeyOf(prior.value));
      }
      tr.Set(RatingKeyOf(t), IndexValue(IndexOf(t)));
      tr.Set(CreationKeyOf(t), IdValue(t.id));
    }

    /** Stores one tweet with its index entries, unless the stored one was checked later. */
    method SaveTweet(tweet: Tweet) returns (r: Result<()>)
      requires tweetsCounter.Some?
      modifies this`tweetsCounter, db
      ensures tweetsCounter.Some?
      ensures r == if Lookup(old(db.store), tweet.id) == Failed(BadRecord) then Failed(BadRecord) else Ok(())
      ensures State() == if r.Ok? then AfterSave(old(State()), tweet) else old(State())
    {
      var tr := new Transaction(db);
      var stored := GetTweet(tr, tweet.id);
      if stored == Failed(BadRecord) {
        return Failed(BadRecord);
      }
      if stored.Ok? && stored.value.checkedAt > tweet.checkedAt {
        return Ok(());
      }
      BufferSave(tr, if stored.Ok? then Some(stored.value) else None, tweet);
      var ok := tr.Commit([]);
      if stored.Failed? {
        tweetsCounter := Some(Wrap32(tweetsCounter.value + 1));
      }
      r := Ok(());
    }

    method Save(tweets: seq<Tweet>) returns (r: Result<()>)
      requires tweetsCounter.Some?
      modifies this`tweetsCounter, db
      ensures tweetsCounter.Some? && (State(), r) == AfterSaves(old(State()), tweets)
    {
      assert tweets[0..] == tweets;
      for i := 0 to |tweets|
        invariant tweetsCounter.Some? && AfterSaves(old(State()), tweets) == AfterSaves(State(), tweets[i..])
      {
        assert tweets[i..][0] == tweets[i] && tweets[i..][1..] == tweets[i + 1..];
        r := SaveTweet(tweets[i]);
        if r.Failed? {
          return;
        }
      }
      r := Ok(());
    }

    method DeleteTweet(id: Bytes) returns (r: Result<()>)
      requires tweetsCounter.Some?
      modifies this`tweetsCounter, db
      ensures tweetsCounter.Some? && State() == AfterDelete(old(State()), id)
      ensures match Lookup(old(db.store), id)
              case Ok(_) => r == Ok(())
              case Failed(f) => r == Failed(f)
    {
      var tr := new Transaction(db);
      var data := GetTweet(tr, id);
      if data.Failed? {
        return Failed(data.fault);
      }
      BufferDelete(tr, id, data.value);
      var ok := tr.Commit([]);
      tweetsCounter := Some(Wrap32(tweetsCounter.value - 1));
      r := Ok(());
    }

    /** Buffers the writes of a delete. */
    method BufferDelete(tr: Transaction, id: Bytes, t: Tweet)
      requires tr.calls == []
      modifies tr`calls
      ensures tr.calls == DeleteCalls(id, t)
    {
      tr.Clear(TweetKey(id));
      tr.Clear(RatingKeyOf(t));
      tr.Clear(CreationKeyOf(t));
    }

    /** The entries of the positive ratings with their keys, in key order. */
    method GetTweetPositiveIndexes() returns (keys: seq<Bytes>, xs: seq<TweetIndex>)
      ensures Entries(PositiveRows(db.store), keys, xs)
    {
      var tr := new Transaction(db);
      var rows := tr.GetRange(POSITIVE_BEGIN, POSITIVE_END);
      keys, xs := ParseEntries(rows);
    }

    /** Picks the tweet to update next: the oldest one predicted to reach the top, or else the one with
        the best prediction. An entry whose tweet is gone is cleared. */
    method GetOldestTopReachableTweet(now: int, top: real) returns (r: Result<(Tweet, nat)>)
      modifies db
      ensures Exact(old(db.store)) ==> db.store == old(db.store) && Answers(db.store, now, top, r)
      ensures Exact(old(db.store)) ==> Asked(old(db.store), now, top, r)
      ensures db.store == old(db.store) || DanglingCleared(old(db.store), db.store, r)
    {
      var keys, xs := GetTweetPositiveIndexes();
      var result, fallback, pretop := Choose(xs, now, top);
      ChosenAnswers(db.store, keys, xs, now, top, result, fallback, pretop);
      if result.Some? {
        EntryAt(db.store, keys, xs, result.value);
        r := FetchReachable(keys[result.value], xs[result.value].id, pretop);
      } else if fallback.Some? {
        r := Fetch(xs[fallback.value].id, 0);
      } else {
        r := Failed(TweetsNotFound);
      }
      if old(Exact(db.store)) { AnswersAsked(db.store, now, top, r); }
    }

    method Fetch(id: Bytes, count: nat) returns (r: Result<(Tweet, nat)>)
      ensures r == Counted(Lookup(db.store, id), count)
    {
      var tr := new Transaction(db);
      var found := GetTweet(tr, id);
      r := if found.Ok? then Ok((found.value, count)) else Failed(found.fault);
    }

    /** Reads the tweet an entry names; clears the entry if there is none. */
    method FetchReachable(key: Bytes, id: Bytes, count: nat) returns (r: Result<(Tweet, nat)>)
      modifies db
      ensures r == Counted(Lookup(old(db.store), id), count)
      ensures db.store == if TweetKey(id) in old(db.store) then old(db.store) else old(db.store) - {key}
    {
      r := Fetch(id, count);
      if r == Failed(TweetsNotFound) {
        var tr := new Transaction(db);
        tr.Clear(key);
        assert tr.calls == [] + [Clear(key)];
        ApplyLast([], Clear(key), db.store);
        var ok := tr.Commit([]);
      }
    }

    /** The ids in the creation entries before the second of `after`. */
    method GetTweetsOlderThen(after: int) returns (ids: seq<Bytes>)
      requires CreationIds(db.store)
      ensures Exact(db.store) && AllSortRight(db.store, after) ==> ListsOld(db.store, after, ids)
    {
      var tr := new Transaction(db);
      var rows := tr.GetRange(CREATION_INDEX, CreationBound(after));
      assert rows == OldRows(db.store, after);
      OldRowIds(db.store, after);
      ids := ParseIds(rows);
      OldRowsListed(db.store, after, ids);
    }

    /** Clears the entry at key when its tweet is gone. */
    method CheckTweetOrClear(key: Bytes, id: Bytes)
      modifies db
      ensures db.store == Checked(old(db.store), key, id)
      ensures db.store == if TweetKey(id) in old(db.store) then old(db.store) else old(db.store) - {key}
    {
      var tr := new Transaction(db);
      var data := tr.Get(TweetKey(id));
      if data.None? {
        tr.Clear(key);
      }
      CheckApplies(db.store, key, id);
      var ok := tr.Commit([]);
    }

    /** The number of stored tweets: the counter while it is positive, else a fresh count. */
    method Count() returns (n: uint32)
      modifies this`tweetsCounter
      ensures tweetsCounter.Some?
      ensures old(tweetsCounter).None? || CounterFits(old(State())) ==>
        n == Wrap(|TableKeys(db.store)|) && CounterFits(State())
    {
      if tweetsCounter.Some? && tweetsCounter.value > 0 {
        return Wrap(tweetsCounter.value);
      }
      var tr := new Transaction(db);
      TweetPrefixHasEnd();
      var rows := tr.GetRange(TWEET, Strinc(TWEET));
      TableScan(db.store);
      tweetsCounter := Some(Wrap32(|rows|));
      n := Wrap(|rows|);
    }
  }

  /** Deletes the tweets that have become too old. */
  class Cleaner {
    const repo: TweetRepo
    const tooOld: nat

    constructor (repo: TweetRepo, tooOld: nat)
      ensures this.repo == repo && this.tooOld == tooOld
    {
      this.repo := repo;
      this.tooOld := tooOld;
    }

    /** Deletes the tweets of the scan one after the other, up to the first that cannot be read. With
        exact indexes and creation seconds that sort right against the cutoff's, it never fails, removes
        exactly the tweets of earlier seconds and keeps the indexes exact. */
    method DeleteOlder(after: int) returns (r: Result<()>)
      requires repo.tweetsCounter.Some? && CreationIds(repo.db.store)
      modifies repo`tweetsCounter, repo.db
      ensures repo.tweetsCounter.Some?
      ensures old(TableInOrder(repo, after)) ==>
        r == Ok(()) && CleanedOf(old(repo.db.store), repo.db.store, after) && CounterFits(repo.State())
    {
      ghost var m, good := repo.db.store, TableInOrder(repo, after);
      var ids := repo.GetTweetsOlderThen(after);
      assert ids[..0] == [];
      for i := 0 to |ids|
        invariant repo.tweetsCounter.Some?
        invariant good ==> CounterFits(repo.State()) && Deleted(m, repo.db.store, ids[..i])
      {
        assert ids[..i + 1] == ids[..i] + [ids[i]];
        if good {
          assert TooOld(m, ids[i], after);
          DeletedNext(m, repo.State(), ids[..i], ids[i]);
          DeleteCounts(repo.State(), ids[i]);
        }
        r := repo.DeleteTweet(ids[i]);
        if r.Failed? {
          return;
        }
      }
      assert ids[..|ids|] == ids;
      r := Ok(());
    }

    /** Deletes what is older than tooOld. With exact indexes, and all instants in the seconds that print
        with ten digits, the tweets at most tooOld old stay and those a second older are gone. */
    method CleanTooOldTweets(now: int) returns (r: Result<()>)
      requires repo.tweetsCounter.Some? && CreationIds(repo.db.store)
      modifies repo`tweetsCounter, repo.db
      ensures repo.tweetsCounter.Some?
      ensures old(TableInOrder(repo, Before(now, tooOld))) ==>
        r == Ok(()) && CleanedOf(old(repo.db.store), repo.db.store, Before(now, tooOld)) && CounterFits(repo.State())
      ensures old(Exact(repo.db.store) && CounterFits(repo.State()) && Recent(repo.db.store)) ==>
        1_000_000_000_000_000_000 <= now - tooOld < 10_000_000_000_000_000_000 ==>
          r == Ok(()) && OlderGone(old(repo.db.store), repo.db.store, now, tooOld)
    {
      ghost var m, good := repo.db.store, TableInOrder(repo, Before(now, tooOld));
      if Recent(m) && 1_000_000_000_000_000_000 <= now - tooOld < 10_000_000_000_000_000_000 {
        RecentSorts(m, now - tooOld);
      }
      r := DeleteOlder(Before(now, tooOld));
      if good { CleanedGone(m, repo.db.store, now, tooOld); }
    }
  }

  /** n is m without the tweets more than a second older than tooOld, with all that are not older, and
      without any other change to a tweet. */
  ghost predicate OlderGone(m: Table, n: Table, now: int, tooOld: int) {
    && (forall u :: Holds(m, u) && now - u.created <= tooOld ==> Holds(n, u))
    && (forall u :: Holds(m, u) && now - u.created >= tooOld + 1_000_000_000 ==> TweetKey(u.id) !in n)
    && (forall u :: Holds(n, u) ==> Holds(m, u))
  }

  lemma CleanedGone(m: Table, n: Table, now: int, tooOld: int)
    requires CleanedOf(m, n, Before(now, tooOld))
    ensures OlderGone(m, n, now, tooOld)
  {
    forall u | Holds(m, u)
      ensures now - u.created <= tooOld ==> Holds(n, u)
      ensures now - u.created >= tooOld + 1_000_000_000 ==> TweetKey(u.id) !in n
    {
      OldSeconds(u.created, now - tooOld);
      HoldsStores(m, u);
      if TweetKey(u.id) in n { assert Kept(n, u.id); }
    }
    forall u | Holds(n, u) ensures Holds(m, u) { assert Stores(n, u.id); }
  }

  /** The table is in order and its creation seconds sort right against the cutoff's. */
  ghost predicate TableInOrder(repo: TweetRepo, cutoff: int)
    reads repo, repo.db
    requires repo.tweetsCounter.Some?
  {
    Exact(repo.db.store) && CounterFits(repo.State()) && AllSortRight(repo.db.store, cutoff)
  }

  function Before(now: int, age: int): int { now - age }

  /** n is m without the tweets of seconds before the cutoff's, and its indexes are exact. */
  ghost predicate CleanedOf(m: Table, n: Table, cutoff: int) {
    && Exact(n)
    && (forall id :: Stores(n, id) <==> Stores(m, id) && !TooOld(m, id, cutoff))
    && (forall id :: Stores(n, id) ==> TweetAt(n, id) == TweetAt(m, id))
    && SameElsewhere(m, n)
  }

  // ----- reading the rating entries -----

  ghost function PositiveRows(m: Table): (rows: seq<(Bytes, Value)>)
    ensures |rows| == |PositiveKeys(m)|
    ensures forall i :: 0 <= i < |rows| ==>
      PositiveKeys(m)[i] in m && rows[i] == (PositiveKeys(m)[i], m[PositiveKeys(m)[i]])
  {
    assert forall i :: 0 <= i < |PositiveKeys(m)| ==> PositiveKeys(m)[i] in PositiveKeys(m);
    Rows(m, PositiveKeys(m))
  }

  /** keys and xs are the rows up to the first that is no rating entry. */
  ghost predicate Entries(rows: seq<(Bytes, Value)>, keys: seq<Bytes>, xs: seq<TweetIndex>) {
    && |xs| == |keys| <= |rows|
    && (forall i :: 0 <= i < |xs| ==> rows[i] == (keys[i], IndexValue(xs[i])))
    && (|xs| < |rows| ==> !rows[|xs|].1.IndexValue?)
  }

  method ParseEntries(rows: seq<(Bytes, Value)>) returns (keys: seq<Bytes>, xs: seq<TweetIndex>)
    ensures Entries(rows, keys, xs)
  {
    keys, xs := [], [];
    for i := 0 to |rows|
      invariant |xs| == |keys| == i
      invariant forall j :: 0 <= j < i ==> rows[j] == (keys[j], IndexValue(xs[j]))
    {
      if !rows[i].1.IndexValue? {
        return;
      }
      keys, xs := keys + [rows[i].0], xs + [rows[i].1.index];
    }
  }

  lemma EntryAt(m: Table, keys: seq<Bytes>, xs: seq<TweetIndex>, i: nat)
    requires Entries(PositiveRows(m), keys, xs) && i < |xs|
    ensures keys[i] in m && InPositiveRange(keys[i]) && m[keys[i]] == IndexValue(xs[i])
  {
    assert PositiveRows(m)[i] == (keys[i], IndexValue(xs[i]));
    assert PositiveKeys(m)[i] in PositiveKeys(m);
  }

  function Counted(r: Result<Tweet>, count: nat): Result<(Tweet, nat)> {
    if r.Ok? then Ok((r.value, count)) else Failed(r.fault)
  }

  /** With exact indexes what was chosen from the entries, once fetched, answers the query. */
  lemma ChosenAnswers(m: Table, keys: seq<Bytes>, xs: seq<TweetIndex>, now: int, top: real,
                      result: Option<nat>, fallback: Option<nat>, pretop: nat)
    requires Entries(PositiveRows(m), keys, xs)
    requires Oldest(xs, now, top, |xs|, result) && Largest(xs, now, |xs|, fallback)
    requires pretop == Tally(Hits(xs, now, top))
    ensures Exact(m) && result.Some? ==>
      TweetKey(xs[result.value].id) in m && Answers(m, now, top, Counted(Lookup(m, xs[result.value].id), pretop))
    ensures Exact(m) && result.None? && fallback.Some? ==>
      Answers(m, now, top, Counted(Lookup(m, xs[fallback.value].id), 0))
    ensures Exact(m) && result.None? && fallback.None? ==> Answers(m, now, top, Failed(TweetsNotFound))
  {
    if Exact(m) {
      EntriesList(m, keys, xs);
      if result.Some? {
        OldestAnswers(m, keys, xs, now, top, result.value);
      } else if fallback.Some? {
        LargestAnswers(m, keys, xs, now, top, fallback.value);
      } else {
        NothingAnswers(m, keys, xs, now, top);
      }
    }
  }

  /** With exact indexes every row is an entry and the entries list the candidates. */
  lemma EntriesList(m: Table, keys: seq<Bytes>, xs: seq<TweetIndex>)
    requires Exact(m) && Entries(PositiveRows(m), keys, xs)
    ensures Lists(m, keys, xs)
  {
    var rows, ks := PositiveRows(m), PositiveKeys(m);
    if |xs| < |rows| {
      assert ks[|xs|] in ks;
      PositiveKeyOfCandidate(m, ks[|xs|]);
    }
    forall i | 0 <= i < |xs| ensures ks[i] == keys[i] && m[ks[i]] == IndexValue(xs[i]) {
      assert rows[i] == (keys[i], IndexValue(xs[i]));
    }
    assert keys == ks;
    ScanLists(m, xs);
  }

  /** One rating entry was cleared, and its tweet was not stored. */
  ghost predicate DanglingCleared(m: Table, n: Table, r: Result<(Tweet, nat)>) {
    && r == Failed(TweetsNotFound)
    && exists k :: k in m && InPositiveRange(k) && m[k].IndexValue? && TweetKey(m[k].index.id) !in m && n == m - {k}
  }

  // ----- reading the creation entries -----

  /** The creation entries hold ids. */
  ghost predicate CreationIds(m: Table) {
    forall k :: k in m && Family(k) == 0x14 ==> m[k].IdValue?
  }

  ghost function OldRows(m: Table, after: int): (rows: seq<(Bytes, Value)>)
    ensures |rows| == |OldKeys(m, after)|
    ensures forall i :: 0 <= i < |rows| ==>
      OldKeys(m, after)[i] in m && rows[i] == (OldKeys(m, after)[i], m[OldKeys(m, after)[i]])
  {
    assert forall i :: 0 <= i < |OldKeys(m, after)| ==> OldKeys(m, after)[i] in OldKeys(m, after);
    Rows(m, OldKeys(m, after))
  }

  lemma OldRowIds(m: Table, after: int)
    requires CreationIds(m)
    ensures forall i :: 0 <= i < |OldRows(m, after)| ==> OldRows(m, after)[i].1.IdValue?
  {
    forall i | 0 <= i < |OldRows(m, after)| ensures OldRows(m, after)[i].1.IdValue? {
      var k := OldKeys(m, after)[i];
      assert k in OldKeys(m, after);
      OldFamily(k, after);
    }
  }

  method ParseIds(rows: seq<(Bytes, Value)>) returns (ids: seq<Bytes>)
    requires forall i :: 0 <= i < |rows| ==> rows[i].1.IdValue?
    ensures |ids| == |rows| && forall i :: 0 <= i < |ids| ==> rows[i].1 == IdValue(ids[i])
  {
    ids := [];
    for i := 0 to |rows|
      invariant |ids| == i && forall j :: 0 <= j < i ==> rows[j].1 == IdValue(ids[j])
    {
      ids := ids + [rows[i].1.id];
    }
  }

  lemma OldRowsListed(m: Table, after: int, ids: seq<Bytes>)
    requires |ids| == |OldRows(m, after)| && forall i :: 0 <= i < |ids| ==> OldRows(m, after)[i].1 == IdValue(ids[i])
    ensures Exact(m) && AllSortRight(m, after) ==> ListsOld(m, after, ids)
  {
    if Exact(m) && AllSortRight(m, after) { OldScanExact(m, after, ids); }
  }

  // ----- counting the table -----

  lemma TweetPrefixHasEnd()
    ensures exists i :: 0 <= i < |TWEET| && TWEET[i] != 255
  {
    assert TWEET[0] == 0;
  }

  lemma TableScan(m: Table)
    requires exists i :: 0 <= i < |TWEET| && TWEET[i] != 255
    ensures |RangeKeys(m, TWEET, Strinc(TWEET))| == |TableKeys(m)|
  {
    forall k | k in m ensures LexLessOrEqual(TWEET, k) && LexLess(k, Strinc(TWEET)) <==> Family(k) == 0x01 {
      PrefixRangeExact(TWEET, k);
    }
    assert KeysInRange(m, TWEET, Strinc(TWEET)) == TableKeys(m);
    assert RangeKeys(m, TWEET, Strinc(TWEET)) == Sorted(KeysInRange(m, TWEET, Strinc(TWEET)));
  }
}
