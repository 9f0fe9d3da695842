/** The tweet table and its two secondary indexes: what a save and a delete buffer, and when what they
    buffer keeps the indexes right. */
module Tweets {
  import opened Bytes
  import opened Records
  import opened Keys
  import opened Store

  function IndexOf(t: Tweet): TweetIndex { TweetIndex(t.id, t.rating, t.created, t.checkedAt) }

  function RatingKeyOf(t: Tweet): (k: Bytes)
    ensures Family(k) == 0x12
  {
    RatingKey(t.rating, t.id)
  }

  function CreationKeyOf(t: Tweet): (k: Bytes)
    ensures Family(k) == 0x14
  {
    CreationKey(t.created, t.id)
  }

  // ----- what the transactions buffer -----

  /** The writes of a save that read `prior`. */
  function SaveCalls(prior: Option<Tweet>, t: Tweet): seq<Call> {
    [Set(TweetKey(t.id), TweetValue(t))]
    + (if prior.Some? then [Clear(RatingKeyOf(prior.value))] else [])
    + [Set(RatingKeyOf(t), IndexValue(IndexOf(t)))]
    + [Set(CreationKeyOf(t), IdValue(t.id))]
  }

  /** The writes of a delete of id that read t. */
  function DeleteCalls(id: Bytes, t: Tweet): seq<Call> {
    [Clear(TweetKey(id))] + [Clear(RatingKeyOf(t))] + [Clear(CreationKeyOf(t))]
  }

  /** The table after the writes of a save. */
  function Resaved(m: Table, prior: Option<Tweet>, t: Tweet): Table {
    var stored := m[TweetKey(t.id) := TweetValue(t)];
    var cleared := if prior.Some? then stored - {RatingKeyOf(prior.value)} else stored;
    cleared[RatingKeyOf(t) := IndexValue(IndexOf(t))][CreationKeyOf(t) := IdValue(t.id)]
  }

  /** The table after the writes of a delete. */
  function Removed(m: Table, t: Tweet): Table {
    m - {TweetKey(t.id)} - {RatingKeyOf(t)} - {CreationKeyOf(t)}
  }

  lemma SaveApplies(m: Table, prior: Option<Tweet>, t: Tweet)
    ensures ApplyAll(SaveCalls(prior, t), m) == Resaved(m, prior, t)
  {
    var set1 := [Set(TweetKey(t.id), TweetValue(t))];
    var clear1 := if prior.Some? then [Clear(RatingKeyOf(prior.value))] else [];
    var set2 := Set(RatingKeyOf(t), IndexValue(IndexOf(t)));
    assert [] + set1 == set1;
    ApplyLast([], set1[0], m);
    if prior.Some? { ApplyLast(set1, clear1[0], m); } else { assert set1 + clear1 == set1; }
    ApplyLast(set1 + clear1, set2, m);
    ApplyLast(set1 + clear1 + [set2], Set(CreationKeyOf(t), IdValue(t.id)), m);
  }

  lemma DeleteApplies(m: Table, t: Tweet)
    ensures ApplyAll(DeleteCalls(t.id, t), m) == Removed(m, t)
  {
    var c1, c2, c3 := Clear(TweetKey(t.id)), Clear(RatingKeyOf(t)), Clear(CreationKeyOf(t));
    assert [] + [c1] == [c1];
    ApplyLast([], c1, m);
    ApplyLast([c1], c2, m);
    ApplyLast([c1] + [c2], c3, m);
  }

  // ----- every stored tweet has its entries -----

  predicate HasEntries(m: Table, t: Tweet) {
    && RatingKeyOf(t) in m && m[RatingKeyOf(t)] == IndexValue(IndexOf(t))
    && CreationKeyOf(t) in m && m[CreationKeyOf(t)] == IdValue(t.id)
  }

  predicate Stores(m: Table, id: Bytes) {
    TweetKey(id) in m && m[TweetKey(id)].TweetValue? && m[TweetKey(id)].tweet.id == id
  }

  function TweetAt(m: Table, id: Bytes): (t: Tweet)
    requires Stores(m, id)
    ensures t.id == id
  {
    m[TweetKey(id)].tweet
  }

  lemma ResavedAt(m: Table, prior: Option<Tweet>, t: Tweet, id: Bytes)
    ensures Stores(Resaved(m, prior, t), id) <==> id == t.id || Stores(m, id)
    ensures Stores(Resaved(m, prior, t), id) ==>
      TweetAt(Resaved(m, prior, t), id) == if id == t.id then t else TweetAt(m, id)
  {
    TweetKeyInjective(id, t.id);
  }

  lemma RemovedAt(m: Table, t: Tweet, id: Bytes)
    ensures Stores(Removed(m, t), id) <==> id != t.id && Stores(m, id)
    ensures Stores(Removed(m, t), id) ==> TweetAt(Removed(m, t), id) == TweetAt(m, id)
  {
    TweetKeyInjective(id, t.id);
  }

  /** Which rating keys a save leaves. */
  lemma ResavedRatingKeys(m: Table, prior: Option<Tweet>, t: Tweet, k: Bytes)
    requires Family(k) == 0x12
    ensures k in Resaved(m, prior, t)
      <==> k == RatingKeyOf(t) || (k in m && (prior.Some? ==> k != RatingKeyOf(prior.value)))
    ensures k == RatingKeyOf(t) ==> Resaved(m, prior, t)[k] == IndexValue(IndexOf(t))
    ensures k in Resaved(m, prior, t) && k != RatingKeyOf(t) ==> Resaved(m, prior, t)[k] == m[k]
  {}

  /** The tweet stored under id has its two entries. */
  predicate Kept(m: Table, id: Bytes) {
    Stores(m, id) && HasEntries(m, TweetAt(m, id))
  }

  /** Every stored tweet has the rating entry of its current rating and its creation entry. */
  ghost predicate Covered(m: Table) {
    forall id :: TweetKey(id) in m ==> Kept(m, id)
  }

  /** No other stored tweet has the creation key of t. */
  ghost predicate NoClash(m: Table, t: Tweet) {
    forall id :: Stores(m, id) && id != t.id ==> CreationKeyOf(TweetAt(m, id)) != CreationKeyOf(t)
  }

  lemma OtherKeys(t: Tweet, u: Tweet)
    requires t.id != u.id
    ensures TweetKey(t.id) != TweetKey(u.id) && RatingKeyOf(t) != RatingKeyOf(u)
  {
    TweetKeyInjective(t.id, u.id);
    RatingKeyInjective(t.rating, t.id, u.rating, u.id);
  }

  /** A save leaves another tweet its entries unless it takes the creation entry. */
  lemma ResavedOther(m: Table, prior: Option<Tweet>, t: Tweet, u: Tweet)
    requires HasEntries(m, u) && u.id != t.id && (prior.Some? ==> prior.value.id == t.id)
    ensures HasEntries(Resaved(m, prior, t), u) <==> CreationKeyOf(u) != CreationKeyOf(t)
  {
    OtherKeys(u, t);
    if prior.Some? { OtherKeys(u, prior.value); }
  }

  lemma RemovedOther(m: Table, t: Tweet, u: Tweet)
    requires HasEntries(m, u) && u.id != t.id
    ensures HasEntries(Removed(m, t), u) <==> CreationKeyOf(u) != CreationKeyOf(t)
  {
    OtherKeys(u, t);
  }

  lemma ResavedKey(m: Table, prior: Option<Tweet>, t: Tweet, id: Bytes)
    ensures TweetKey(id) in Resaved(m, prior, t) <==> id == t.id || TweetKey(id) in m
  {
    TweetKeyInjective(id, t.id);
  }

  lemma ResavedOwn(m: Table, prior: Option<Tweet>, t: Tweet)
    ensures HasEntries(Resaved(m, prior, t), t)
  {}

  lemma ResavedKept(m: Table, prior: Option<Tweet>, t: Tweet, id: Bytes)
    requires Covered(m) && (prior.Some? ==> prior.value.id == t.id)
    requires TweetKey(id) in m || id == t.id
    ensures Kept(Resaved(m, prior, t), id) <==> id == t.id || CreationKeyOf(TweetAt(m, id)) != CreationKeyOf(t)
  {
    ResavedAt(m, prior, t, id);
    if id == t.id {
      ResavedOwn(m, prior, t);
    } else {
      ResavedOther(m, prior, t, TweetAt(m, id));
    }
  }

  lemma RemovedKept(m: Table, t: Tweet, id: Bytes)
    requires Covered(m) && TweetKey(id) in m && id != t.id
    ensures Kept(Removed(m, t), id) <==> CreationKeyOf(TweetAt(m, id)) != CreationKeyOf(t)
  {
    RemovedAt(m, t, id);
    RemovedOther(m, t, TweetAt(m, id));
  }

  /** Covered after a change is every stored tweet kept. */
  lemma CoveredIff(m: Table, n: Table, t: Tweet, added: bool)
    requires Covered(m)
    requires forall id :: TweetKey(id) in n <==> (if id == t.id then added else TweetKey(id) in m)
    requires added ==> Kept(n, t.id)
    requires forall id :: TweetKey(id) in m && id != t.id ==>
      (Kept(n, id) <==> CreationKeyOf(TweetAt(m, id)) != CreationKeyOf(t))
    ensures Covered(n) <==> NoClash(m, t)
  {
    if NoClash(m, t) {
      forall id | TweetKey(id) in n ensures Kept(n, id) {
        if id != t.id { assert Stores(m, id); }
      }
    } else {
      var id :| Stores(m, id) && id != t.id && CreationKeyOf(TweetAt(m, id)) == CreationKeyOf(t);
      assert TweetKey(id) in n && !Kept(n, id);
    }
  }

  /** The writes of a save, whatever tweet of that id it read and whenever it is applied, keep every
      stored tweet's entries exactly when they overwrite no other tweet's creation entry. */
  lemma ResavedCovers(m: Table, prior: Option<Tweet>, t: Tweet)
    requires Covered(m) && (prior.Some? ==> prior.value.id == t.id)
    ensures Covered(Resaved(m, prior, t)) <==> NoClash(m, t)
  {
    forall id ensures TweetKey(id) in Resaved(m, prior, t) <==> (if id == t.id then true else TweetKey(id) in m) {
      ResavedKey(m, prior, t, id);
    }
    forall id | TweetKey(id) in m || id == t.id
      ensures Kept(Resaved(m, prior, t), id) <==> id == t.id || CreationKeyOf(TweetAt(m, id)) != CreationKeyOf(t)
    {
      ResavedKept(m, prior, t, id);
    }
    CoveredIff(m, Resaved(m, prior, t), t, true);
  }

  /** Likewise for the writes of a delete. */
  lemma RemovedCovers(m: Table, t: Tweet)
    requires Covered(m)
    ensures Covered(Removed(m, t)) <==> NoClash(m, t)
  {
    forall id ensures TweetKey(id) in Removed(m, t) <==> (if id == t.id then false else TweetKey(id) in m) {
      TweetKeyInjective(id, t.id);
    }
    forall id | TweetKey(id) in m && id != t.id
      ensures Kept(Removed(m, t), id) <==> CreationKeyOf(TweetAt(m, id)) != CreationKeyOf(t)
    {
      RemovedKept(m, t, id);
    }
    CoveredIff(m, Removed(m, t), t, false);
  }

  // ----- the indexes match the table exactly -----

  /** A key of the rating index that belongs to a stored tweet. */
  predicate RatingEntry(m: Table, k: Bytes)
    requires k in m
  {
    m[k].IndexValue? && Stores(m, m[k].index.id) && k == RatingKeyOf(TweetAt(m, m[k].index.id))
  }

  predicate CreationEntry(m: Table, k: Bytes)
    requires k in m
  {
    m[k].IdValue? && Stores(m, m[k].id) && k == CreationKeyOf(TweetAt(m, m[k].id))
  }

  /** No rating entry, or no creation entry, is left that belongs to no stored tweet. */
  ghost predicate RatingsExact(m: Table) {
    forall k :: k in m && Family(k) == 0x12 ==> RatingEntry(m, k)
  }

  ghost predicate CreationsExact(m: Table) {
    forall k :: k in m && Family(k) == 0x14 ==> CreationEntry(m, k)
  }

  /** Every stored tweet has its entries and there are no others. */
  ghost predicate Exact(m: Table) {
    Covered(m) && RatingsExact(m) && CreationsExact(m)
  }

  /** Exact indexes leave no room for a clash with a stored tweet. */
  lemma ExactNoClash(m: Table, id: Bytes)
    requires Covered(m) && Stores(m, id)
    ensures NoClash(m, TweetAt(m, id))
  {
    var t := TweetAt(m, id);
    forall other | Stores(m, other) && other != id ensures CreationKeyOf(TweetAt(m, other)) != CreationKeyOf(t) {
      assert HasEntries(m, t) && HasEntries(m, TweetAt(m, other));
    }
  }

  predicate SamePrint(t: Tweet, u: Tweet) { PrintRating(t.rating) == PrintRating(u.rating) }

  predicate SameSecond(t: Tweet, u: Tweet) { UnixSecond(t.created) == UnixSecond(u.created) }

  lemma SameKeys(t: Tweet, u: Tweet)
    requires t.id == u.id
    ensures RatingKeyOf(t) == RatingKeyOf(u) <==> SamePrint(t, u)
    ensures CreationKeyOf(t) == CreationKeyOf(u) <==> SameSecond(t, u)
  {
    RatingKeyInjective(t.rating, t.id, u.rating, u.id);
    CreationKeySameId(t.created, u.created, t.id);
  }

  // ----- saves sent at any time -----

  /** The writes replace the entries of the tweet stored now: it has the creation second of the new one,
      and its rating prints like the new one's or like that of the tweet the save read. */
  predicate ReplacesStored(m: Table, prior: Option<Tweet>, t: Tweet) {
    Stores(m, t.id) ==>
      && SameSecond(TweetAt(m, t.id), t)
      && (SamePrint(TweetAt(m, t.id), t) || (prior.Some? && SamePrint(prior.value, TweetAt(m, t.id))))
  }

  lemma ResavedRatingEntry(m: Table, prior: Option<Tweet>, t: Tweet, k: Bytes)
    requires (prior.Some? ==> prior.value.id == t.id) && ReplacesStored(m, prior, t)
    requires k in m && Family(k) == 0x12 && RatingEntry(m, k)
    requires k in Resaved(m, prior, t) && k != RatingKeyOf(t)
    ensures RatingEntry(Resaved(m, prior, t), k)
  {
    ResavedAt(m, prior, t, m[k].index.id);
    ResavedRatingKeys(m, prior, t, k);
    if m[k].index.id == t.id {
      SameKeys(TweetAt(m, t.id), t);
      if prior.Some? { SameKeys(prior.value, TweetAt(m, t.id)); }
    }
  }

  lemma ResavedCreationEntry(m: Table, prior: Option<Tweet>, t: Tweet, k: Bytes)
    requires ReplacesStored(m, prior, t) && k in m && Family(k) == 0x14 && CreationEntry(m, k)
    requires k in Resaved(m, prior, t) && k != CreationKeyOf(t)
    ensures CreationEntry(Resaved(m, prior, t), k)
  {
    ResavedAt(m, prior, t, m[k].id);
    if m[k].id == t.id { SameKeys(TweetAt(m, t.id), t); }
  }

  lemma ResavedEntries(m: Table, prior: Option<Tweet>, t: Tweet)
    requires Exact(m) && (prior.Some? ==> prior.value.id == t.id) && ReplacesStored(m, prior, t)
    ensures RatingsExact(Resaved(m, prior, t)) && CreationsExact(Resaved(m, prior, t))
  {
    var n := Resaved(m, prior, t);
    ResavedAt(m, prior, t, t.id);
    forall k | k in n && Family(k) == 0x12 ensures RatingEntry(n, k) {
      if k != RatingKeyOf(t) { ResavedRatingEntry(m, prior, t, k); }
    }
    forall k | k in n && Family(k) == 0x14 ensures CreationEntry(n, k) {
      if k != CreationKeyOf(t) { ResavedCreationEntry(m, prior, t, k); }
    }
  }

  /** Otherwise an entry of the tweet stored before is left. */
  lemma ResavedLeaves(m: Table, prior: Option<Tweet>, t: Tweet)
    requires Exact(m) && (prior.Some? ==> prior.value.id == t.id) && !ReplacesStored(m, prior, t)
    ensures !Exact(Resaved(m, prior, t))
  {
    var was, n := TweetAt(m, t.id), Resaved(m, prior, t);
    assert Kept(m, t.id);
    ResavedAt(m, prior, t, t.id);
    SameKeys(was, t);
    if SameSecond(was, t) {
      if prior.Some? { SameKeys(prior.value, was); }
      assert n[RatingKeyOf(was)] == IndexValue(IndexOf(was));
      assert !RatingEntry(n, RatingKeyOf(was));
    } else {
      assert n[CreationKeyOf(was)] == IdValue(t.id);
      assert !CreationEntry(n, CreationKeyOf(was));
    }
  }

  /** The writes of a save, whatever tweet of that id it read and whenever it is applied, keep exact
      indexes exact exactly when they overwrite no other tweet's creation entry and replace the entries
      of the tweet of that id stored now, if any. */
  lemma ResavedExact(m: Table, prior: Option<Tweet>, t: Tweet)
    requires Exact(m) && (prior.Some? ==> prior.value.id == t.id)
    ensures Exact(Resaved(m, prior, t)) <==> NoClash(m, t) && ReplacesStored(m, prior, t)
  {
    ResavedCovers(m, prior, t);
    if ReplacesStored(m, prior, t) {
      ResavedEntries(m, prior, t);
    } else {
      ResavedLeaves(m, prior, t);
    }
  }

  /** Storing a new tweet keeps the indexes exact unless it takes another's creation entry. */
  lemma AddedExact(m: Table, t: Tweet)
    requires Exact(m) && TweetKey(t.id) !in m
    ensures Exact(Resaved(m, None, t)) <==> NoClash(m, t)
  {
    ResavedExact(m, None, t);
  }

  /** Storing a tweet again keeps the indexes exact exactly when its creation second is the same: the
      old creation entry is never cleared. */
  lemma ReplacedExact(m: Table, t: Tweet)
    requires Exact(m) && Stores(m, t.id)
    ensures Exact(Resaved(m, Some(TweetAt(m, t.id)), t))
      <==> UnixSecond(TweetAt(m, t.id).created) == UnixSecond(t.created)
  {
    var was := TweetAt(m, t.id);
    ResavedExact(m, Some(was), t);
    SameKeys(was, t);
    ExactNoClash(m, t.id);
  }

  // ----- deletes sent at any time -----

  /** The entries that a delete clears are those of the tweet stored now. */
  predicate ClearsStored(m: Table, t: Tweet) {
    Stores(m, t.id) ==> SamePrint(TweetAt(m, t.id), t) && SameSecond(TweetAt(m, t.id), t)
  }

  lemma RemovedRatingEntry(m: Table, t: Tweet, k: Bytes)
    requires ClearsStored(m, t) && k in m && RatingEntry(m, k) && k in Removed(m, t)
    ensures RatingEntry(Removed(m, t), k)
  {
    RemovedAt(m, t, m[k].index.id);
    if m[k].index.id == t.id { SameKeys(TweetAt(m, t.id), t); }
  }

  lemma RemovedCreationEntry(m: Table, t: Tweet, k: Bytes)
    requires ClearsStored(m, t) && k in m && CreationEntry(m, k) && k in Removed(m, t)
    ensures CreationEntry(Removed(m, t), k)
  {
    RemovedAt(m, t, m[k].id);
  }

  lemma RemovedEntries(m: Table, t: Tweet)
    requires Exact(m) && ClearsStored(m, t)
    ensures RatingsExact(Removed(m, t)) && CreationsExact(Removed(m, t))
  {
    var n := Removed(m, t);
    forall k | k in n && Family(k) == 0x12 ensures RatingEntry(n, k) {
      RemovedRatingEntry(m, t, k);
    }
    forall k | k in n && Family(k) == 0x14 ensures CreationEntry(n, k) {
      RemovedCreationEntry(m, t, k);
    }
  }

  lemma RemovedLeaves(m: Table, t: Tweet)
    requires Exact(m) && !ClearsStored(m, t)
    ensures !Exact(Removed(m, t))
  {
    var was, n := TweetAt(m, t.id), Removed(m, t);
    assert Kept(m, t.id);
    RemovedAt(m, t, t.id);
    SameKeys(was, t);
    if SamePrint(was, t) {
      assert n[CreationKeyOf(was)] == IdValue(t.id);
      assert !CreationEntry(n, CreationKeyOf(was));
    } else {
      assert n[RatingKeyOf(was)] == IndexValue(IndexOf(was));
      assert !RatingEntry(n, RatingKeyOf(was));
    }
  }

  /** The writes of a delete that read t, whenever they are applied, keep exact indexes exact exactly
      when they clear no other tweet's creation entry and those of the tweet of that id stored now. */
  lemma RemovedExactWhen(m: Table, t: Tweet)
    requires Exact(m)
    ensures Exact(Removed(m, t)) <==> NoClash(m, t) && ClearsStored(m, t)
  {
    RemovedCovers(m, t);
    if ClearsStored(m, t) {
      RemovedEntries(m, t);
    } else {
      RemovedLeaves(m, t);
    }
  }

  /** Deleting the stored tweet keeps the indexes exact. */
  lemma RemovedExact(m: Table, id: Bytes)
    requires Exact(m) && Stores(m, id)
    ensures Exact(Removed(m, TweetAt(m, id)))
  {
    ExactNoClash(m, id);
    RemovedExactWhen(m, TweetAt(m, id));
  }
}
