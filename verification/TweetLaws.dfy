/** What saving, deleting, cleaning and querying do, in terms of the stored tweets themselves: their
    ratings, instants and keys. */
module TweetLaws {
  import opened Bytes
  import opened Records
  import opened Keys
  import opened Store
  import opened Tweets
  import opened TweetRuns
  import opened TweetQueries

  /** The tweet u is in the table. */
  predicate Holds(m: Table, u: Tweet) {
    TweetKey(u.id) in m && m[TweetKey(u.id)] == TweetValue(u)
  }

  lemma HoldsStores(m: Table, u: Tweet)
    ensures Holds(m, u) <==> Stores(m, u.id) && TweetAt(m, u.id) == u
  {}

  // ----- saving and deleting -----

  predicate SameUnder(m: Table, n: Table, k: Bytes) {
    (k in n <==> k in m) && (k in m ==> n[k] == m[k])
  }

  /** A save of a tweet that is stored and was checked later changes nothing. */
  lemma SkippedLaw(s: TweetState, t: Tweet, stored: Tweet)
    requires Holds(s.store, stored) && stored.id == t.id && stored.checkedAt > t.checkedAt
    ensures AfterSave(s, t) == s
  {}

  /** What a save writes. */
  ghost predicate Written(n: Table, t: Tweet) {
    && TweetKey(t.id) in n && n[TweetKey(t.id)] == TweetValue(t)
    && RatingKey(t.rating, t.id) in n
    && n[RatingKey(t.rating, t.id)] == IndexValue(TweetIndex(t.id, t.rating, t.created, t.checkedAt))
    && CreationKey(t.created, t.id) in n && n[CreationKey(t.created, t.id)] == IdValue(t.id)
  }

  lemma ResavedWrites(m: Table, prior: Option<Tweet>, t: Tweet)
    ensures Written(Resaved(m, prior, t), t)
  {}

  lemma ResavedKeeps(m: Table, prior: Option<Tweet>, t: Tweet, k: Bytes)
    requires k !in {TweetKey(t.id), RatingKey(t.rating, t.id), CreationKey(t.created, t.id)}
    ensures if prior.Some? && k == RatingKey(prior.value.rating, prior.value.id) then k !in Resaved(m, prior, t)
            else SameUnder(m, Resaved(m, prior, t), k)
  {}

  /** Any other save of a stored tweet writes it and its two entries, clears the rating entry it had, if
      its rating prints otherwise now, and changes nothing else. */
  lemma SavedAgainLaw(s: TweetState, t: Tweet, stored: Tweet)
    requires Holds(s.store, stored) && stored.id == t.id && stored.checkedAt <= t.checkedAt
    ensures Written(AfterSave(s, t).store, t)
    ensures forall k :: k !in {TweetKey(t.id), RatingKey(t.rating, t.id), CreationKey(t.created, t.id)} ==>
              if k == RatingKey(stored.rating, t.id) then k !in AfterSave(s, t).store
              else SameUnder(s.store, AfterSave(s, t).store, k)
  {
    SentSaveIs(s.store, t);
    ResavedWrites(s.store, Some(stored), t);
    forall k | k !in {TweetKey(t.id), RatingKey(t.rating, t.id), CreationKey(t.created, t.id)}
      ensures if k == RatingKey(stored.rating, t.id) then k !in AfterSave(s, t).store
              else SameUnder(s.store, AfterSave(s, t).store, k)
    {
      ResavedKeeps(s.store, Some(stored), t, k);
    }
  }

  /** A save of a new tweet writes it and its two entries, and changes nothing else. */
  lemma SavedNewLaw(s: TweetState, t: Tweet)
    requires TweetKey(t.id) !in s.store
    ensures Written(AfterSave(s, t).store, t)
    ensures forall k :: k !in {TweetKey(t.id), RatingKey(t.rating, t.id), CreationKey(t.created, t.id)} ==>
              SameUnder(s.store, AfterSave(s, t).store, k)
  {
    SentSaveIs(s.store, t);
    ResavedWrites(s.store, None, t);
    forall k | k !in {TweetKey(t.id), RatingKey(t.rating, t.id), CreationKey(t.created, t.id)}
      ensures SameUnder(s.store, AfterSave(s, t).store, k)
    {
      ResavedKeeps(s.store, None, t, k);
    }
  }

  lemma CounterSteps(c: int32)
    ensures (Wrap32(c + 1) - c - 1) % 0x1_0000_0000 == 0 && (Wrap32(c - 1) - c + 1) % 0x1_0000_0000 == 0
  {}

  /** The counter grows by one, in 32 bits, exactly for a tweet that was not stored. */
  lemma SavedCount(s: TweetState, t: Tweet)
    ensures TweetKey(t.id) !in s.store ==> (AfterSave(s, t).counter - s.counter - 1) % 0x1_0000_0000 == 0
    ensures TweetKey(t.id) in s.store ==> AfterSave(s, t).counter == s.counter
  {
    CounterSteps(s.counter);
  }

  /** A delete removes the tweet and the entries under its rating and creation second, and counts one
      less; without the tweet it changes nothing. */
  lemma DeletedLaw(s: TweetState, u: Tweet)
    requires Holds(s.store, u)
    ensures AfterDelete(s, u.id).store
         == s.store - {TweetKey(u.id), RatingKey(u.rating, u.id), CreationKey(u.created, u.id)}
    ensures (AfterDelete(s, u.id).counter - s.counter + 1) % 0x1_0000_0000 == 0
    ensures forall id :: TweetKey(id) !in s.store ==> AfterDelete(s, id) == s
  {
    DeleteApplies(s.store, u);
    CounterSteps(s.counter);
  }

  /** The keys of the ids. */
  function KeysOf(ids: set<Bytes>): set<Bytes> { set id | id in ids :: TweetKey(id) }

  lemma {:induction false} KeysCount(ids: set<Bytes>)
    ensures |KeysOf(ids)| == |ids|
    decreases |ids|
  {
    if id :| id in ids {
      var rest := ids - {id};
      KeysCount(rest);
      forall i | i in rest ensures TweetKey(i) != TweetKey(id) { TweetKeyInjective(i, id); }
      assert KeysOf(ids) == KeysOf(rest) + {TweetKey(id)};
    }
  }

  /** The counter fits when, in 32 bits, it is the number of ids with a tweet. */
  lemma CounterMeans(s: TweetState, ids: set<Bytes>)
    requires forall id :: id in ids <==> TweetKey(id) in s.store
    ensures CounterFits(s) <==> (s.counter - |ids|) % 0x1_0000_0000 == 0
    ensures |TableKeys(s.store)| == |ids|
  {
    forall k | k in TableKeys(s.store) ensures k in KeysOf(ids) {
      assert TweetKey(k[2..]) == k;
    }
    assert TableKeys(s.store) == KeysOf(ids);
    KeysCount(ids);
    Congruent(s.counter, |ids|);
  }

  lemma Congruent(c: int32, n: nat)
    ensures c == Wrap32(n) <==> (c - n) % 0x1_0000_0000 == 0
  {}

  // ----- predicting -----

  lemma ScaledDown(rating: real, d: real)
    ensures rating * (d / 1_000_000_000.0) * 1_000_000_000.0 == rating * d
  {
    var q := d / 1_000_000_000.0;
    assert d == q * 1_000_000_000.0;
    Regrouped(rating, q, 1_000_000_000.0);
  }

  lemma Regrouped(a: real, b: real, c: real)
    ensures a * b * c == a * (b * c)
  {}

  /** The rating grown over the nanoseconds from the tweet's creation till now. */
  function Grown(t: Tweet, now: int): real { t.rating * (now - t.created) as real }

  lemma PredictedIs(t: Tweet, now: int)
    ensures PredictedOf(IndexOf(t), now) * 1_000_000_000.0 == Grown(t, now)
  {
    ScaledDown(t.rating, (now - t.created) as real);
  }

  lemma ListedMeans(t: Tweet)
    ensures Listed(t) <==> t.rating > 0.000005
  {
    PositiveRangeExact(t.rating, t.id);
    PositiveRangeWhen(t.rating, t.id);
  }

  /** A tweet of the table reaches the top exactly if its rating prints above zero and, times the
      nanoseconds since its creation, is at least the top times those of a second. */
  lemma ReachingMeans(m: Table, u: Tweet, now: int, top: real)
    requires Holds(m, u)
    ensures Reaching(m, u.id, now, top)
      <==> u.rating > 0.000005 && u.rating * (now - u.created) as real >= top * 1_000_000_000.0
  {
    ListedMeans(u);
    PredictedIs(u, now);
  }

  /** A tweet created s seconds ago reaches the top exactly if its rating, per second, times s does. */
  lemma ReachingAfterSeconds(m: Table, u: Tweet, now: int, s: nat, top: real)
    requires Holds(m, u) && u.created == now - s * 1_000_000_000
    ensures Reaching(m, u.id, now, top) <==> u.rating > 0.000005 && u.rating * s as real >= top
  {
    ReachingMeans(m, u, now, top);
    assert (now - u.created) as real == s as real * 1_000_000_000.0;
    Regrouped(u.rating, s as real, 1_000_000_000.0);
  }

  // ----- what the query answers -----

  /** A tweet of the table that prints above zero and reaches the top. */
  predicate Reaches(m: Table, u: Tweet, now: int, top: real) {
    Holds(m, u) && u.rating > 0.000005 && Grown(u, now) >= top * 1_000_000_000.0
  }

  lemma ReachesIs(m: Table, u: Tweet, now: int, top: real)
    requires Holds(m, u)
    ensures Reaches(m, u, now, top) <==> Reaching(m, u.id, now, top)
  {
    ReachingMeans(m, u, now, top);
  }

  lemma InReachingKeys(m: Table, now: int, top: real, id: Bytes)
    ensures Reaching(m, id, now, top) <==> TweetKey(id) in ReachingKeys(m, now, top)
  {
    assert TweetKey(id)[2..] == id;
  }

  lemma SomeReaching(m: Table, now: int, top: real, t: Tweet, n: nat)
    requires Answers(m, now, top, Ok((t, n))) && n > 0
    ensures Reaching(m, t.id, now, top) && TweetAt(m, t.id) == t
    ensures forall id :: Reaching(m, id, now, top) ==>
      var u := TweetAt(m, id); t.created < u.created || (t.created == u.created && KeyFirst(t, u))
  {
    var k :| k in ReachingKeys(m, now, top);
    assert Reaching(m, k[2..], now, top);
    forall id | Reaching(m, id, now, top)
      ensures var u := TweetAt(m, id); t.created < u.created || (t.created == u.created && KeyFirst(t, u))
    {
      assert OlderFirst(t, TweetAt(m, id));
    }
  }

  ghost predicate OldestReaching(m: Table, now: int, top: real, t: Tweet) {
    Reaches(m, t, now, top) && forall u :: Reaches(m, u, now, top) ==>
      t.created < u.created || (t.created == u.created && KeyFirst(t, u))
  }

  /** The rating key of t does not come after that of u. */
  predicate KeyFirst(t: Tweet, u: Tweet) {
    LexLessOrEqual(RatingKey(t.rating, t.id), RatingKey(u.rating, u.id))
  }

  ghost predicate NoneReaches(m: Table, now: int, top: real) {
    forall u :: Holds(m, u) && u.rating > 0.000005 ==> Grown(u, now) < top * 1_000_000_000.0
  }

  ghost predicate GrownMost(m: Table, now: int, t: Tweet) {
    && Holds(m, t) && t.rating > 0.000005 && Grown(t, now) > 0.1
    && forall u :: Holds(m, u) && u.rating > 0.000005 ==>
         Grown(u, now) < Grown(t, now) || (Grown(u, now) == Grown(t, now) && KeyFirst(t, u))
  }

  ghost predicate NoneGrown(m: Table, now: int) {
    forall u :: Holds(m, u) && u.rating > 0.000005 ==> Grown(u, now) <= 0.1
  }

  /** The oldest tweet that reaches the top; or, if none does, the one that has grown most, if by more than
      0.1 in nanoseconds; or none. */
  ghost predicate Asked(m: Table, now: int, top: real, r: Result<(Tweet, nat)>) {
    match r
    case Ok((t, n)) =>
      if n > 0 then OldestReaching(m, now, top, t) else NoneReaches(m, now, top) && GrownMost(m, now, t)
    case Failed(f) => f == TweetsNotFound && NoneReaches(m, now, top) && NoneGrown(m, now)
  }

  /** An answer with a positive count is a tweet of the table that reaches the top, the oldest one. */
  lemma AnswersOldest(m: Table, now: int, top: real, t: Tweet, n: nat)
    requires Answers(m, now, top, Ok((t, n))) && n > 0
    ensures OldestReaching(m, now, top, t)
  {
    SomeReaching(m, now, top, t, n);
    ReachesIs(m, t, now, top);
    forall u | Reaches(m, u, now, top)
      ensures t.created < u.created || (t.created == u.created && KeyFirst(t, u))
    {
      ReachesIs(m, u, now, top);
    }
  }

  /** One with count zero is a tweet that grows fastest till now, by more than 0.1 in nanoseconds, and no
      tweet reaches the top. */
  lemma AnswersLargest(m: Table, now: int, top: real, t: Tweet)
    requires Answers(m, now, top, Ok((t, 0)))
    ensures NoneReaches(m, now, top) && GrownMost(m, now, t)
  {
    NoneReach(m, now, top, t);
    HoldsStores(m, t);
    ListedMeans(t);
    PredictedIs(t, now);
    forall u | Holds(m, u) && u.rating > 0.000005
      ensures Grown(u, now) < Grown(t, now) || (Grown(u, now) == Grown(t, now) && KeyFirst(t, u))
      ensures Grown(u, now) < top * 1_000_000_000.0
    {
      ReachingMeans(m, u, now, top);
      ListedMeans(u);
      PredictedIs(u, now);
      assert Candidate(m, u.id) && !Reaching(m, u.id, now, top);
      assert LargerFirst(t, TweetAt(m, u.id), now);
    }
  }

  lemma NoneReach(m: Table, now: int, top: real, t: Tweet)
    requires Answers(m, now, top, Ok((t, 0)))
    ensures forall id :: !Reaching(m, id, now, top)
  {
    forall id ensures !Reaching(m, id, now, top) {
      InReachingKeys(m, now, top, id);
    }
  }

  /** No answer means that no tweet has grown by more than 0.1 in nanoseconds, nor reaches the top. */
  lemma AnswersNone(m: Table, now: int, top: real, f: Fault)
    requires Answers(m, now, top, Failed(f))
    ensures f == TweetsNotFound
    ensures NoneReaches(m, now, top) && NoneGrown(m, now)
  {
    forall u | Holds(m, u) && u.rating > 0.000005
      ensures Grown(u, now) <= 0.1 && Grown(u, now) < top * 1_000_000_000.0
    {
      ReachingMeans(m, u, now, top);
      ListedMeans(u);
      PredictedIs(u, now);
      assert Candidate(m, u.id) && !Reaching(m, u.id, now, top);
    }
  }

  lemma AnswersAsked(m: Table, now: int, top: real, r: Result<(Tweet, nat)>)
    requires Answers(m, now, top, r)
    ensures Asked(m, now, top, r)
  {
    match r
    case Ok((t, n)) => if n > 0 { AnswersOldest(m, now, top, t, n); } else { AnswersLargest(m, now, top, t); }
    case Failed(f) => AnswersNone(m, now, top, f);
  }

  /** The count of an answer is the number of tweets that reach the top. */
  lemma AnswersCount(m: Table, now: int, top: real, t: Tweet, n: nat, ids: set<Bytes>)
    requires Answers(m, now, top, Ok((t, n)))
    requires forall id :: id in ids <==>
      exists u :: Reaches(m, u, now, top) && u.id == id
    ensures n == |ids|
  {
    forall id ensures id in ids <==> Reaching(m, id, now, top) { InReaching(m, now, top, ids, id); }
    forall k | k in ReachingKeys(m, now, top) ensures k in KeysOf(ids) {
      assert TweetKey(k[2..]) == k;
    }
    forall id | id in ids ensures TweetKey(id) in ReachingKeys(m, now, top) {
      InReachingKeys(m, now, top, id);
    }
    assert ReachingKeys(m, now, top) == KeysOf(ids);
    KeysCount(ids);
  }

  lemma InReaching(m: Table, now: int, top: real, ids: set<Bytes>, id: Bytes)
    requires id in ids <==>
      exists u :: Reaches(m, u, now, top) && u.id == id
    ensures id in ids <==> Reaching(m, id, now, top)
  {
    if u :| Reaches(m, u, now, top) && u.id == id {
      ReachesIs(m, u, now, top);
    }
    if Reaching(m, id, now, top) {
      ReachesIs(m, TweetAt(m, id), now, top);
    }
  }

  // ----- old tweets -----

  /** All tweets were created in the seconds from 2001-09-09 up to 2286-11-20, which print with ten digits. */
  ghost predicate Recent(m: Table) {
    forall u :: Holds(m, u) ==> 1_000_000_000_000_000_000 <= u.created < 10_000_000_000_000_000_000
  }

  lemma RecentSorts(m: Table, after: int)
    requires Recent(m) && 1_000_000_000_000_000_000 <= after < 10_000_000_000_000_000_000
    ensures AllSortRight(m, after)
  {
    TenDigits(after);
    forall id | Stores(m, id) ensures SortsRight(TweetAt(m, id).created, after) {
      assert Holds(m, TweetAt(m, id));
      TenDigits(TweetAt(m, id).created);
      OneWidth(TweetAt(m, id).created, after, 10);
    }
  }

  lemma OldSeconds(created: int, after: int)
    ensures created >= after ==> UnixSecond(created) >= UnixSecond(after)
    ensures created + 1_000_000_000 <= after ==> UnixSecond(created) < UnixSecond(after)
  {}

  /** A scan up to an instant lists the tweets created a second or more before it, none created after it,
      and each id once. */
  lemma OldListed(m: Table, after: int, ids: seq<Bytes>, u: Tweet)
    requires ListsOld(m, after, ids) && Holds(m, u)
    ensures u.created + 1_000_000_000 <= after ==> u.id in ids
    ensures u.created >= after ==> u.id !in ids
    ensures forall i, j :: 0 <= i < j < |ids| ==> ids[i] != ids[j]
  {
    OldSeconds(u.created, after);
    HoldsStores(m, u);
  }
}
