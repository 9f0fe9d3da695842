/** Runs over the tweet table: any interleaving of begun transactions and their (repeated, late) sends,
    and serial runs where each operation is sent once before the next begins. */
module TweetRuns {
  import opened Bytes
  import opened Records
  import opened Keys
  import opened Store
  import opened Tweets

  function Lookup(m: Table, id: Bytes): Result<Tweet> {
    if TweetKey(id) !in m then Failed(TweetsNotFound)
    else if !m[TweetKey(id)].TweetValue? then Failed(BadRecord)
    else Ok(m[TweetKey(id)].tweet)
  }

  // ----- interleavings -----

  /** A transaction that has read and buffered its writes. */
  datatype Tx = SaveTx(prior: Option<Tweet>, tweet: Tweet) | DeleteTx(id: Bytes, tweet: Tweet)

  function Calls(tx: Tx): seq<Call> {
    match tx
    case SaveTx(prior, t) => SaveCalls(prior, t)
    case DeleteTx(id, t) => DeleteCalls(id, t)
  }

  /** Begin reads and buffers; Send applies the buffer of any transaction begun so far, for the first
      time or again, without reading anew. */
  datatype Step = BeginSave(tweet: Tweet) | BeginDelete(id: Bytes) | Send(i: nat)

  datatype World = World(store: Table, begun: seq<Tx>)

  /** What a save buffers, if it does not stop first: at a broken record, or at a stored tweet checked
      later than its own. */
  function Begun(m: Table, t: Tweet): Option<Tx> {
    match Lookup(m, t.id)
    case Failed(TweetsNotFound) => Some(SaveTx(None, t))
    case Failed(_) => None
    case Ok(prior) => if prior.checkedAt > t.checkedAt then None else Some(SaveTx(Some(prior), t))
  }

  function Next(w: World, s: Step): World {
    match s
    case BeginSave(t) =>
      var tx := Begun(w.store, t);
      if tx.Some? then World(w.store, w.begun + [tx.value]) else w
    case BeginDelete(id) =>
      var t := Lookup(w.store, id);
      if t.Ok? then World(w.store, w.begun + [DeleteTx(id, t.value)]) else w
    case Send(i) => if i < |w.begun| then World(ApplyAll(Calls(w.begun[i]), w.store), w.begun) else w
  }

  function Run(w: World, steps: seq<Step>): World
    decreases |steps|
  {
    if steps == [] then w else Run(Next(w, steps[0]), steps[1..])
  }

  /** No printed second is a proper prefix of another. */
  ghost predicate PrefixFree(seconds: set<int>) {
    forall x, y :: x in seconds && y in seconds ==> !(PrintInt(x) < PrintInt(y))
  }

  predicate InSeconds(t: Tweet, seconds: set<int>) { UnixSecond(t.created) in seconds }

  /** All stored tweets were created in the seconds. */
  ghost predicate SecondsIn(m: Table, seconds: set<int>) {
    forall id :: Stores(m, id) ==> InSeconds(TweetAt(m, id), seconds)
  }

  predicate TxFits(tx: Tx, seconds: set<int>) {
    && InSeconds(tx.tweet, seconds)
    && (tx.SaveTx? && tx.prior.Some? ==> tx.prior.value.id == tx.tweet.id)
    && (tx.DeleteTx? ==> tx.tweet.id == tx.id)
  }

  ghost predicate Sound(w: World, seconds: set<int>) {
    && PrefixFree(seconds) && Covered(w.store) && SecondsIn(w.store, seconds)
    && forall tx :: tx in w.begun ==> TxFits(tx, seconds)
  }

  lemma SecondsNoClash(m: Table, t: Tweet, seconds: set<int>)
    requires PrefixFree(seconds) && SecondsIn(m, seconds) && InSeconds(t, seconds)
    ensures NoClash(m, t)
  {
    forall id | Stores(m, id) && id != t.id ensures CreationKeyOf(TweetAt(m, id)) != CreationKeyOf(t) {
      CreationKeyInjective(TweetAt(m, id).created, id, t.created, t.id);
    }
  }

  lemma SendSaveSound(m: Table, prior: Option<Tweet>, t: Tweet, seconds: set<int>)
    requires PrefixFree(seconds) && Covered(m) && SecondsIn(m, seconds) && TxFits(SaveTx(prior, t), seconds)
    ensures var n := ApplyAll(SaveCalls(prior, t), m); Covered(n) && SecondsIn(n, seconds)
  {
    var n := Resaved(m, prior, t);
    SaveApplies(m, prior, t);
    SecondsNoClash(m, t, seconds);
    ResavedCovers(m, prior, t);
    forall id | Stores(n, id) ensures InSeconds(TweetAt(n, id), seconds) {
      TweetKeyInjective(id, t.id);
      if id != t.id { assert Stores(m, id); }
    }
  }

  lemma SendDeleteSound(m: Table, t: Tweet, seconds: set<int>)
    requires PrefixFree(seconds) && Covered(m) && SecondsIn(m, seconds) && InSeconds(t, seconds)
    ensures var n := ApplyAll(DeleteCalls(t.id, t), m); Covered(n) && SecondsIn(n, seconds)
  {
    var n := Removed(m, t);
    DeleteApplies(m, t);
    SecondsNoClash(m, t, seconds);
    RemovedCovers(m, t);
    forall id | Stores(n, id) ensures InSeconds(TweetAt(n, id), seconds) {
      assert Stores(m, id);
    }
  }

  lemma BeginSaveFits(m: Table, t: Tweet, seconds: set<int>)
    requires Covered(m) && InSeconds(t, seconds) && Begun(m, t).Some?
    ensures TxFits(Begun(m, t).value, seconds)
  {
    if TweetKey(t.id) in m { assert Kept(m, t.id); }
  }

  lemma BeginDeleteFits(m: Table, id: Bytes, seconds: set<int>)
    requires Covered(m) && SecondsIn(m, seconds) && Lookup(m, id).Ok?
    ensures TxFits(DeleteTx(id, Lookup(m, id).value), seconds)
  {
    assert Kept(m, id) && TweetAt(m, id) == Lookup(m, id).value;
  }

  lemma SendSound(m: Table, tx: Tx, seconds: set<int>)
    requires PrefixFree(seconds) && Covered(m) && SecondsIn(m, seconds) && TxFits(tx, seconds)
    ensures Covered(ApplyAll(Calls(tx), m)) && SecondsIn(ApplyAll(Calls(tx), m), seconds)
  {
    match tx
    case SaveTx(prior, t) => SendSaveSound(m, prior, t, seconds);
    case DeleteTx(id, t) => SendDeleteSound(m, t, seconds);
  }

  lemma NextSound(w: World, s: Step, seconds: set<int>)
    requires Sound(w, seconds) && (s.BeginSave? ==> InSeconds(s.tweet, seconds))
    ensures Sound(Next(w, s), seconds)
  {
    match s
    case BeginSave(t) => if Begun(w.store, t).Some? { BeginSaveFits(w.store, t, seconds); }
    case BeginDelete(id) => if Lookup(w.store, id).Ok? { BeginDeleteFits(w.store, id, seconds); }
    case Send(i) => if i < |w.begun| { SendSound(w.store, w.begun[i], seconds); }
  }

  lemma {:induction false} RunSound(w: World, steps: seq<Step>, seconds: set<int>)
    requires Sound(w, seconds)
    requires forall s :: s in steps && s.BeginSave? ==> InSeconds(s.tweet, seconds)
    ensures Sound(Run(w, steps), seconds)
    decreases |steps|
  {
    if steps != [] {
      NextSound(w, steps[0], seconds);
      RunSound(Next(w, steps[0]), steps[1..], seconds);
    }
  }

  /** However saves and deletes interleave and are replayed, every stored tweet has the rating entry of
      its current rating and its creation entry, if the creation seconds saved print apart. */
  lemma RunCovers(steps: seq<Step>)
    requires forall s1, s2 :: s1 in steps && s2 in steps && s1.BeginSave? && s2.BeginSave? ==>
      Apart(s1.tweet.created, s2.tweet.created)
    ensures Covered(Run(World(map[], []), steps).store)
  {
    var seconds := set s | s in steps && s.BeginSave? :: UnixSecond(s.tweet.created);
    RunSound(World(map[], []), steps, seconds);
  }

  /** Two tweets that clash are enough to break it. */
  lemma ClashUncovers(t: Tweet, u: Tweet)
    requires t.id != u.id && CreationKeyOf(t) == CreationKeyOf(u)
    ensures !Covered(Run(World(map[], []), [BeginSave(t), Send(0), BeginSave(u), Send(1)]).store)
  {
    var m1 := Resaved(map[], None, t);
    var m2 := Resaved(m1, None, u);
    TweetKeyInjective(t.id, u.id);
    ResavedAt(map[], None, t, t.id);
    ResavedAt(m1, None, u, t.id);
    var w0, w1 := World(map[], []), World(map[], [] + [SaveTx(None, t)]);
    var w2, w3 := World(m1, w1.begun), World(m1, w1.begun + [SaveTx(None, u)]);
    var w4 := World(m2, w3.begun);
    NextBegin(w0, t, SaveTx(None, t));
    NextSend(w1, 0);
    ResavedKey(map[], None, t, u.id);
    NextBegin(w2, u, SaveTx(None, u));
    NextSend(w3, 1);
    FourSteps(w0, w1, w2, w3, w4, BeginSave(t), Send(0), BeginSave(u), Send(1));
    assert Stores(m2, t.id) && !HasEntries(m2, TweetAt(m2, t.id));
  }

  // ----- exact indexes in interleavings -----

  /** Sent now, a transaction replaces or clears the entries of the tweet stored now, and no other's. */
  ghost predicate SendSafe(m: Table, tx: Tx) {
    && NoClash(m, tx.tweet)
    && if tx.SaveTx? then ReplacesStored(m, tx.prior, tx.tweet) else ClearsStored(m, tx.tweet)
  }

  predicate TxOfOneId(tx: Tx) {
    if tx.SaveTx? then tx.prior.Some? ==> tx.prior.value.id == tx.tweet.id else tx.tweet.id == tx.id
  }

  /** However late and however often, a send keeps exact indexes exact exactly when it is safe. */
  lemma SendExact(m: Table, tx: Tx)
    requires Exact(m) && TxOfOneId(tx)
    ensures Exact(ApplyAll(Calls(tx), m)) <==> SendSafe(m, tx)
  {
    match tx
    case SaveTx(prior, t) =>
      SaveApplies(m, prior, t);
      ResavedExact(m, prior, t);
    case DeleteTx(id, t) =>
      DeleteApplies(m, t);
      RemovedExactWhen(m, t);
  }

  ghost predicate OneIds(w: World) { forall tx :: tx in w.begun ==> TxOfOneId(tx) }

  ghost predicate StepSafe(w: World, s: Step) {
    s.Send? && s.i < |w.begun| ==> SendSafe(w.store, w.begun[s.i])
  }

  /** Every send of the run is safe when it comes. */
  ghost predicate RunSafe(w: World, steps: seq<Step>)
    decreases |steps|
  {
    steps == [] || (StepSafe(w, steps[0]) && RunSafe(Next(w, steps[0]), steps[1..]))
  }

  /** The indexes are exact after every step of the run. */
  ghost predicate ExactThroughout(w: World, steps: seq<Step>)
    decreases |steps|
  {
    Exact(w.store) && (steps == [] || ExactThroughout(Next(w, steps[0]), steps[1..]))
  }

  lemma NextOneIds(w: World, s: Step)
    requires Covered(w.store) && OneIds(w)
    ensures OneIds(Next(w, s))
  {
    if s.BeginSave? && TweetKey(s.tweet.id) in w.store { assert Kept(w.store, s.tweet.id); }
    if s.BeginDelete? && TweetKey(s.id) in w.store { assert Kept(w.store, s.id); }
  }

  lemma NextExact(w: World, s: Step)
    requires Exact(w.store) && OneIds(w)
    ensures Exact(Next(w, s).store) <==> StepSafe(w, s)
  {
    if s.Send? && s.i < |w.begun| { SendExact(w.store, w.begun[s.i]); }
  }

  /** In every interleaving of saves and deletes with late and repeated sends, the indexes match the
      table exactly all the time exactly when every send is safe when it comes. */
  lemma {:induction false} RunExactWhen(w: World, steps: seq<Step>)
    requires Exact(w.store) && OneIds(w)
    ensures ExactThroughout(w, steps) <==> RunSafe(w, steps)
    decreases |steps|
  {
    if steps != [] {
      var n := Next(w, steps[0]);
      NextExact(w, steps[0]);
      if StepSafe(w, steps[0]) {
        NextOneIds(w, steps[0]);
        RunExactWhen(n, steps[1..]);
      } else {
        assert !ExactThroughout(n, steps[1..]);
      }
    }
  }

  /** An unsafe send: of two saves that read the same tweet, sent one after the other, the first one's
      rating entry is left exactly when it prints like neither of the other two. */
  lemma LostClear(m: Table, t2: Tweet, t3: Tweet)
    requires t2.id == t3.id && Stores(m, t2.id)
    requires TweetAt(m, t2.id).checkedAt <= t2.checkedAt && TweetAt(m, t2.id).checkedAt <= t3.checkedAt
    ensures var n := Run(World(m, []), [BeginSave(t2), BeginSave(t3), Send(0), Send(1)]).store;
            var left := RatingKeyOf(t2) in n && !RatingEntry(n, RatingKeyOf(t2));
            && Stores(n, t2.id) && TweetAt(n, t2.id) == t3
            && (left <==> PrintRating(t2.rating) !in {PrintRating(TweetAt(m, t2.id).rating), PrintRating(t3.rating)})
  {
    var t1 := TweetAt(m, t2.id);
    LostClearRun(m, t1, t2, t3);
    LostClearEntry(m, t1, t2, t3);
  }

  lemma LostClearEntry(m: Table, t1: Tweet, t2: Tweet, t3: Tweet)
    requires t1.id == t2.id == t3.id
    ensures var n := Resaved(Resaved(m, Some(t1), t2), Some(t1), t3);
            var left := RatingKeyOf(t2) in n && !RatingEntry(n, RatingKeyOf(t2));
            && Stores(n, t2.id) && TweetAt(n, t2.id) == t3
            && (left <==> PrintRating(t2.rating) !in {PrintRating(t1.rating), PrintRating(t3.rating)})
  {
    var m2, k := Resaved(m, Some(t1), t2), RatingKeyOf(t2);
    ResavedAt(m2, Some(t1), t3, t1.id);
    ResavedRatingKeys(m, Some(t1), t2, k);
    ResavedRatingKeys(m2, Some(t1), t3, k);
    RatingKeyInjective(t2.rating, t2.id, t1.rating, t1.id);
    RatingKeyInjective(t2.rating, t2.id, t3.rating, t3.id);
  }

  lemma LostClearRun(m: Table, t1: Tweet, t2: Tweet, t3: Tweet)
    requires Begun(m, t2) == Some(SaveTx(Some(t1), t2)) && Begun(m, t3) == Some(SaveTx(Some(t1), t3))
    ensures Run(World(m, []), [BeginSave(t2), BeginSave(t3), Send(0), Send(1)]).store
         == Resaved(Resaved(m, Some(t1), t2), Some(t1), t3)
  {
    var tx2, tx3 := SaveTx(Some(t1), t2), SaveTx(Some(t1), t3);
    var m2 := Resaved(m, Some(t1), t2);
    var m3 := Resaved(m2, Some(t1), t3);
    var w0, w1, w2 := World(m, []), World(m, [] + [tx2]), World(m, [] + [tx2] + [tx3]);
    var w3, w4 := World(m2, w2.begun), World(m3, w2.begun);
    NextBegin(w0, t2, tx2);
    NextBegin(w1, t3, tx3);
    NextSend(w2, 0);
    NextSend(w3, 1);
    FourSteps(w0, w1, w2, w3, w4, BeginSave(t2), BeginSave(t3), Send(0), Send(1));
  }

  lemma FourSteps(w0: World, w1: World, w2: World, w3: World, w4: World, s0: Step, s1: Step, s2: Step, s3: Step)
    requires Next(w0, s0) == w1 && Next(w1, s1) == w2 && Next(w2, s2) == w3 && Next(w3, s3) == w4
    ensures Run(w0, [s0, s1, s2, s3]) == w4
  {
    RunAlong([w0, w1, w2, w3, w4], [s0, s1, s2, s3]);
  }

  /** A run is its chain of worlds. */
  lemma {:induction false} RunAlong(ws: seq<World>, steps: seq<Step>)
    requires |ws| == |steps| + 1 && forall i :: 0 <= i < |steps| ==> Next(ws[i], steps[i]) == ws[i + 1]
    ensures Run(ws[0], steps) == ws[|steps|]
    decreases |steps|
  {
    if steps != [] { RunAlong(ws[1..], steps[1..]); }
  }

  lemma NextBegin(w: World, t: Tweet, tx: Tx)
    requires Begun(w.store, t) == Some(tx)
    ensures Next(w, BeginSave(t)) == World(w.store, w.begun + [tx])
  {}

  lemma NextSend(w: World, i: nat)
    requires i < |w.begun| && w.begun[i].SaveTx?
    ensures Next(w, Send(i)) == World(Resaved(w.store, w.begun[i].prior, w.begun[i].tweet), w.begun)
  {
    SaveApplies(w.store, w.begun[i].prior, w.begun[i].tweet);
  }

  /** A delete that is sent, and sent again after the tweet was saved anew. */
  function StaleDelete(u: Tweet): seq<Step> {
    [BeginDelete(u.id), Send(0), BeginSave(u), Send(1), Send(0)]
  }

  /** If the new rating prints otherwise its entry is left, without its tweet. */
  lemma StaleDeleteLeaves(m: Table, u: Tweet)
    requires Stores(m, u.id) && !SamePrint(TweetAt(m, u.id), u)
    ensures !Exact(Run(World(m, []), StaleDelete(u)).store)
  {
    var t := TweetAt(m, u.id);
    var m2 := Removed(m, t);
    TweetKeyInjective(u.id, t.id);
    StaleDeleteRun(m, t, u, m2, Resaved(m2, None, u));
    StaleEntry(Resaved(m2, None, u), t, u);
  }

  lemma StaleEntry(m: Table, t: Tweet, u: Tweet)
    requires t.id == u.id && HasEntries(m, u) && !SamePrint(t, u)
    ensures !Exact(Removed(m, t))
  {
    var n := Removed(m, t);
    SameKeys(t, u);
    RemovedAt(m, t, u.id);
    assert n[RatingKeyOf(u)] == IndexValue(IndexOf(u));
    assert !RatingEntry(n, RatingKeyOf(u));
  }

  lemma StaleDeleteRun(m: Table, t: Tweet, u: Tweet, m2: Table, m3: Table)
    requires t.id == u.id && Lookup(m, u.id) == Ok(t) && TweetKey(u.id) !in m2
    requires m2 == Removed(m, t) && m3 == Resaved(m2, None, u)
    ensures Run(World(m, []), StaleDelete(u)).store == Removed(m3, t)
  {
    var d, s := DeleteTx(t.id, t), SaveTx(None, u);
    var b1 := [] + [d];
    var b2 := b1 + [s];
    assert b1[0] == d && b2[0] == d && b2[1] == s && |b1| == 1 && |b2| == 2;
    var w0, w1, w2, w3, w4 := World(m, []), World(m, b1), World(m2, b1), World(m2, b2), World(m3, b2);
    NextBeginDelete(w0, t);
    NextSendDelete(w1, 0);
    NextBegin(w2, u, s);
    NextSend(w3, 1);
    NextSendDelete(w4, 0);
    FiveSteps(w0, w1, w2, w3, w4, World(Removed(m3, t), b2), StaleDelete(u));
  }

  lemma FiveSteps(w0: World, w1: World, w2: World, w3: World, w4: World, w5: World, s: seq<Step>)
    requires |s| == 5 && Next(w0, s[0]) == w1 && Next(w1, s[1]) == w2 && Next(w2, s[2]) == w3
    requires Next(w3, s[3]) == w4 && Next(w4, s[4]) == w5
    ensures Run(w0, s) == w5
  {
    RunAlong([w0, w1, w2, w3, w4, w5], s);
  }

  lemma NextBeginDelete(w: World, t: Tweet)
    requires Lookup(w.store, t.id) == Ok(t)
    ensures Next(w, BeginDelete(t.id)) == World(w.store, w.begun + [DeleteTx(t.id, t)])
  {}

  lemma NextSendDelete(w: World, i: nat)
    requires i < |w.begun| && w.begun[i].DeleteTx? && w.begun[i].id == w.begun[i].tweet.id
    ensures Next(w, Send(i)) == World(Removed(w.store, w.begun[i].tweet), w.begun)
  {
    DeleteApplies(w.store, w.begun[i].tweet);
  }

  // ----- checking one index entry -----

  /** The writes of a check of the entry at k for tweet id. */
  function CheckCalls(m: Table, k: Bytes, id: Bytes): seq<Call> {
    if TweetKey(id) in m then [] else [Clear(k)]
  }

  function Checked(m: Table, k: Bytes, id: Bytes): Table {
    if TweetKey(id) in m then m else m - {k}
  }

  lemma CheckApplies(m: Table, k: Bytes, id: Bytes)
    ensures ApplyAll(CheckCalls(m, k, id), m) == Checked(m, k, id)
  {
    if TweetKey(id) !in m {
      assert [] + [Clear(k)] == [Clear(k)];
      ApplyLast([], Clear(k), m);
    }
  }

  /** Sent at once, a check of an entry that names the tweet keeps all stored tweets' entries. */
  lemma CheckCovers(m: Table, k: Bytes, id: Bytes)
    requires Covered(m) && k in m
    requires (m[k].IndexValue? && m[k].index.id == id) || m[k] == IdValue(id)
    ensures Covered(Checked(m, k, id))
    ensures TweetKey(id) in m || k !in Checked(m, k, id)
  {
    var n := Checked(m, k, id);
    forall i | TweetKey(i) in n ensures Stores(n, i) && HasEntries(n, TweetAt(n, i)) {
      assert Stores(m, i) && HasEntries(m, TweetAt(m, i));
    }
  }

  /** A clear of an index key keeps all stored tweets' entries exactly when no stored tweet owns it. */
  lemma ClearCovers(m: Table, k: Bytes)
    requires Covered(m) && Family(k) != 0x01
    ensures Covered(m - {k}) <==> forall id :: Stores(m, id) ==> !Owns(TweetAt(m, id), k)
  {
    var n := m - {k};
    forall id ensures TweetKey(id) in n <==> TweetKey(id) in m
              ensures TweetKey(id) in m ==> (Kept(n, id) <==> !Owns(TweetAt(m, id), k)) {
      if TweetKey(id) in m { assert Kept(m, id); }
    }
    if Covered(n) {
      forall id | Stores(m, id) ensures !Owns(TweetAt(m, id), k) { assert Kept(n, id); }
    }
    if forall id :: Stores(m, id) ==> !Owns(TweetAt(m, id), k) {
      forall id | TweetKey(id) in n ensures Kept(n, id) { assert Kept(m, id); }
    }
  }

  predicate Owns(t: Tweet, k: Bytes) { k == RatingKeyOf(t) || k == CreationKeyOf(t) }

  /** A check of a rating entry that cleared it, sent late, is harmless exactly when the tweet is still
      not stored, or is stored with a rating that prints otherwise. */
  lemma LateRatingCheck(m: Table, rating: real, id: Bytes)
    requires Covered(m)
    ensures Covered(ApplyAll([Clear(RatingKey(rating, id))], m))
      <==> TweetKey(id) !in m || PrintRating(TweetAt(m, id).rating) != PrintRating(rating)
  {
    var k := RatingKey(rating, id);
    SingleClear(m, k);
    ClearCovers(m, k);
    forall i | Stores(m, i)
      ensures Owns(TweetAt(m, i), k) <==> i == id && PrintRating(TweetAt(m, i).rating) == PrintRating(rating)
    {
      RatingKeyInjective(TweetAt(m, i).rating, i, rating, id);
    }
    if TweetKey(id) in m { assert Kept(m, id); }
  }

  /** A check of a creation entry likewise, exactly when no other tweet's creation key is cleared and
      the tweet is not stored or was created in another second. */
  lemma LateCreationCheck(m: Table, t: Tweet)
    requires Covered(m)
    ensures Covered(ApplyAll([Clear(CreationKeyOf(t))], m))
      <==> NoClash(m, t) && (TweetKey(t.id) !in m || UnixSecond(TweetAt(m, t.id).created) != UnixSecond(t.created))
  {
    var k := CreationKeyOf(t);
    SingleClear(m, k);
    ClearCovers(m, k);
    if TweetKey(t.id) in m {
      assert Kept(m, t.id);
      CreationKeySameId(TweetAt(m, t.id).created, t.created, t.id);
    }
  }

  lemma SingleClear(m: Table, k: Bytes)
    ensures ApplyAll([Clear(k)], m) == m - {k}
  {
    assert [] + [Clear(k)] == [Clear(k)];
    ApplyLast([], Clear(k), m);
  }

  /** Replayed after a save of that tweet it removes the entry the save has written. */
  lemma LateCheckUncovers(m: Table, t: Tweet)
    requires TweetKey(t.id) !in m
    ensures !Covered(ApplyAll(CheckCalls(m, RatingKeyOf(t), t.id), ApplyAll(SaveCalls(None, t), m)))
  {
    var n := Resaved(m, None, t);
    SaveApplies(m, None, t);
    assert [] + [Clear(RatingKeyOf(t))] == [Clear(RatingKeyOf(t))];
    ApplyLast([], Clear(RatingKeyOf(t)), n);
    var r := n - {RatingKeyOf(t)};
    assert Stores(r, t.id) && TweetAt(r, t.id) == t;
  }

  // ----- serial runs -----

  datatype TweetState = TweetState(store: Table, counter: int32)

  /** The table after a save sent once. */
  function SentSave(m: Table, t: Tweet): Table {
    match Begun(m, t)
    case None => m
    case Some(tx) => ApplyAll(Calls(tx), m)
  }

  /** A save counts a tweet when it found none. */
  function AfterSave(s: TweetState, t: Tweet): TweetState {
    TweetState(SentSave(s.store, t),
               if Lookup(s.store, t.id) == Failed(TweetsNotFound) then Wrap32(s.counter + 1) else s.counter)
  }

  lemma SentSaveIs(m: Table, t: Tweet)
    ensures Begun(m, t).None? ==> SentSave(m, t) == m
    ensures Begun(m, t).Some? ==> SentSave(m, t) == Resaved(m, Begun(m, t).value.prior, t)
  {
    var tx := Begun(m, t);
    if tx.Some? { SaveApplies(m, tx.value.prior, t); }
  }

  function AfterDelete(s: TweetState, id: Bytes): TweetState {
    match Lookup(s.store, id)
    case Failed(_) => s
    case Ok(t) => TweetState(ApplyAll(DeleteCalls(id, t), s.store), Wrap32(s.counter - 1))
  }

  datatype Op = Save(tweet: Tweet) | Delete(id: Bytes)

  function AfterOp(s: TweetState, op: Op): TweetState {
    match op
    case Save(t) => AfterSave(s, t)
    case Delete(id) => AfterDelete(s, id)
  }

  function AfterOps(s: TweetState, ops: seq<Op>): TweetState
    decreases |ops|
  {
    if ops == [] then s else AfterOps(AfterOp(s, ops[0]), ops[1..])
  }

  /** A save that stops because the stored tweet was checked later. */
  predicate Skips(m: Table, t: Tweet) {
    Stores(m, t.id) && TweetAt(m, t.id).checkedAt > t.checkedAt
  }

  /** A save that is skipped, or replaces a tweet of the same creation second, or stores a new tweet
      under a creation key no other has. */
  ghost predicate SaveSafe(m: Table, t: Tweet) {
    || Skips(m, t)
    || (if Stores(m, t.id) then UnixSecond(TweetAt(m, t.id).created) == UnixSecond(t.created) else NoClash(m, t))
  }

  /** A serial save keeps exact indexes exactly when it is safe. */
  lemma SaveExact(m: Table, t: Tweet)
    requires Exact(m)
    ensures Exact(SentSave(m, t)) <==> SaveSafe(m, t)
  {
    if TweetKey(t.id) in m {
      SaveStoredExact(m, t);
    } else {
      SaveNewExact(m, t);
    }
  }

  lemma SaveNewExact(m: Table, t: Tweet)
    requires Exact(m) && TweetKey(t.id) !in m
    ensures Exact(SentSave(m, t)) <==> SaveSafe(m, t)
  {
    SentSaveIs(m, t);
    AddedExact(m, t);
  }

  lemma SaveStoredExact(m: Table, t: Tweet)
    requires Exact(m) && TweetKey(t.id) in m
    ensures Exact(SentSave(m, t)) <==> SaveSafe(m, t)
  {
    assert Kept(m, t.id);
    SentSaveIs(m, t);
    if !Skips(m, t) { ReplacedExact(m, t); }
  }

  /** A tweet saved again under another creation second leaves its first creation entry behind. */
  lemma MovedTweetLeavesEntry(t: Tweet, u: Tweet)
    requires t.id == u.id && t.checkedAt <= u.checkedAt && UnixSecond(t.created) != UnixSecond(u.created)
    ensures Exact(SentSave(map[], t)) && !Exact(SentSave(SentSave(map[], t), u))
  {
    SaveExact(map[], t);
    SaveStores(map[], t, t.id);
    SaveExact(SentSave(map[], t), u);
  }

  /** A serial delete keeps exact indexes. */
  lemma DeleteExact(s: TweetState, id: Bytes)
    requires Exact(s.store)
    ensures Exact(AfterDelete(s, id).store)
    ensures !Stores(AfterDelete(s, id).store, id)
  {
    if TweetKey(id) in s.store {
      assert Stores(s.store, id);
      DeleteApplies(s.store, TweetAt(s.store, id));
      RemovedExact(s.store, id);
    }
  }

  // ----- the counter -----

  function TableKeys(m: Table): set<Bytes> { set k | k in m && Family(k) == 0x01 }

  predicate CounterFits(s: TweetState) { s.counter == Wrap32(|TableKeys(s.store)|) }

  lemma Wrap32Step(n: int)
    ensures Wrap32(Wrap32(n) + 1) == Wrap32(n + 1) && Wrap32(Wrap32(n) - 1) == Wrap32(n - 1)
  {}

  lemma TableKeysResaved(m: Table, prior: Option<Tweet>, t: Tweet)
    ensures TableKeys(Resaved(m, prior, t)) == TableKeys(m) + {TweetKey(t.id)}
  {}

  lemma TableKeysRemoved(m: Table, t: Tweet)
    ensures TableKeys(Removed(m, t)) == TableKeys(m) - {TweetKey(t.id)}
  {}

  lemma SaveCounts(s: TweetState, t: Tweet)
    requires Covered(s.store) && CounterFits(s)
    ensures CounterFits(AfterSave(s, t))
  {
    SentSaveIs(s.store, t);
    var tx := Begun(s.store, t);
    if tx.Some? {
      TableKeysResaved(s.store, tx.value.prior, t);
      TableGrows(s, t);
    }
  }

  lemma TableGrows(s: TweetState, t: Tweet)
    requires CounterFits(s)
    ensures TweetKey(t.id) in s.store ==> TableKeys(s.store) + {TweetKey(t.id)} == TableKeys(s.store)
    ensures TweetKey(t.id) !in s.store ==> Wrap32(s.counter + 1) == Wrap32(|TableKeys(s.store) + {TweetKey(t.id)}|)
  {
    Wrap32Step(|TableKeys(s.store)|);
  }

  lemma TableShrinks(s: TweetState, id: Bytes)
    requires CounterFits(s) && TweetKey(id) in s.store
    ensures Wrap32(s.counter - 1) == Wrap32(|TableKeys(s.store) - {TweetKey(id)}|)
  {
    Wrap32Step(|TableKeys(s.store)|);
    assert TweetKey(id) in TableKeys(s.store);
  }

  lemma DeleteCounts(s: TweetState, id: Bytes)
    requires Covered(s.store) && CounterFits(s)
    ensures CounterFits(AfterDelete(s, id))
  {
    if TweetKey(id) in s.store {
      assert Stores(s.store, id);
      DeleteApplies(s.store, TweetAt(s.store, id));
      TableKeysRemoved(s.store, TweetAt(s.store, id));
      TableShrinks(s, id);
    }
  }

  lemma OpCounts(s: TweetState, op: Op)
    requires Covered(s.store) && CounterFits(s)
    ensures CounterFits(AfterOp(s, op))
  {
    match op
    case Save(t) => SaveCounts(s, t);
    case Delete(id) => DeleteCounts(s, id);
  }

  // ----- the run theorem -----

  /** Every save in the run gives the tweet the creation second fixed for its id. */
  ghost predicate FixedCreation(ops: seq<Op>, creation: map<Bytes, int>) {
    forall op :: op in ops && op.Save? ==>
         op.tweet.id in creation && UnixSecond(op.tweet.created) == UnixSecond(creation[op.tweet.id])
  }

  ghost predicate Follows(m: Table, creation: map<Bytes, int>) {
    forall id :: Stores(m, id) ==> id in creation && UnixSecond(TweetAt(m, id).created) == UnixSecond(creation[id])
  }

  /** The seconds print apart. */
  ghost predicate CreationApart(creation: map<Bytes, int>) {
    forall id1, id2 :: id1 in creation && id2 in creation ==> Apart(creation[id1], creation[id2])
  }

  ghost predicate Serial(s: TweetState, creation: map<Bytes, int>) {
    CreationApart(creation) && Exact(s.store) && CounterFits(s) && Follows(s.store, creation)
  }

  lemma FollowsNoClash(m: Table, t: Tweet, creation: map<Bytes, int>)
    requires CreationApart(creation) && Follows(m, creation)
    requires t.id in creation && UnixSecond(t.created) == UnixSecond(creation[t.id])
    ensures NoClash(m, t)
  {
    forall id | Stores(m, id) && id != t.id ensures CreationKeyOf(TweetAt(m, id)) != CreationKeyOf(t) {
      assert Apart(creation[id], creation[t.id]);
      CreationKeyInjective(TweetAt(m, id).created, id, t.created, t.id);
    }
  }

  /** A save stores its tweet unless the stored one was checked later, and no other tweet changes. */
  lemma SaveStores(m: Table, t: Tweet, id: Bytes)
    requires Covered(m)
    ensures Stores(SentSave(m, t), id) <==> id == t.id || Stores(m, id)
    ensures Stores(SentSave(m, t), id) ==>
      TweetAt(SentSave(m, t), id) == if id == t.id && !Skips(m, t) then t else TweetAt(m, id)
  {
    SentSaveIs(m, t);
    if TweetKey(t.id) in m { assert Kept(m, t.id); }
    var tx := Begun(m, t);
    if tx.Some? { ResavedAt(m, tx.value.prior, t, id); }
  }

  /** A delete removes its tweet and no other. */
  lemma DeleteStores(s: TweetState, i: Bytes, id: Bytes)
    requires Covered(s.store)
    ensures Stores(AfterDelete(s, i).store, id) <==> Stores(s.store, id) && id != i
    ensures Stores(AfterDelete(s, i).store, id) ==> TweetAt(AfterDelete(s, i).store, id) == TweetAt(s.store, id)
  {
    if TweetKey(i) in s.store {
      assert Stores(s.store, i);
      DeleteApplies(s.store, TweetAt(s.store, i));
      RemovedAt(s.store, TweetAt(s.store, i), id);
    }
  }

  lemma SaveFollows(m: Table, t: Tweet, creation: map<Bytes, int>)
    requires Covered(m) && Follows(m, creation)
    requires t.id in creation && UnixSecond(t.created) == UnixSecond(creation[t.id])
    ensures Follows(SentSave(m, t), creation)
  {
    forall id | Stores(SentSave(m, t), id)
      ensures id in creation && UnixSecond(TweetAt(SentSave(m, t), id).created) == UnixSecond(creation[id])
    {
      SaveStores(m, t, id);
    }
  }

  lemma DeleteFollows(s: TweetState, i: Bytes, creation: map<Bytes, int>)
    requires Covered(s.store) && Follows(s.store, creation)
    ensures Follows(AfterDelete(s, i).store, creation)
  {
    forall id | Stores(AfterDelete(s, i).store, id)
      ensures Stores(s.store, id) && TweetAt(AfterDelete(s, i).store, id) == TweetAt(s.store, id)
    {
      DeleteStores(s, i, id);
    }
  }

  lemma OpSerial(s: TweetState, op: Op, creation: map<Bytes, int>)
    requires Serial(s, creation) && FixedCreation([op], creation)
    ensures Serial(AfterOp(s, op), creation)
  {
    assert op in [op];
    OpCounts(s, op);
    match op
    case Save(t) =>
      SaveExact(s.store, t);
      FollowsNoClash(s.store, t, creation);
      SaveFollows(s.store, t, creation);
    case Delete(id) =>
      DeleteExact(s, id);
      DeleteFollows(s, id, creation);
  }

  /** In a serial run with one creation second per tweet, the indexes match the table exactly and the
      counter counts the table, after every operation. */
  lemma {:induction false} SerialRun(s: TweetState, ops: seq<Op>, creation: map<Bytes, int>)
    requires Serial(s, creation) && FixedCreation(ops, creation)
    ensures Serial(AfterOps(s, ops), creation)
    decreases |ops|
  {
    if ops != [] {
      OpSerial(s, ops[0], creation);
      SerialRun(AfterOp(s, ops[0]), ops[1..], creation);
    }
  }

  lemma EmptySerial(creation: map<Bytes, int>)
    requires CreationApart(creation)
    ensures Serial(TweetState(map[], 0), creation)
  {}

  /** So they do in every run from an empty store. */
  lemma SerialRunFromEmpty(ops: seq<Op>, creation: map<Bytes, int>)
    requires CreationApart(creation) && FixedCreation(ops, creation)
    ensures Exact(AfterOps(TweetState(map[], 0), ops).store) && CounterFits(AfterOps(TweetState(map[], 0), ops))
  {
    EmptySerial(creation);
    SerialRun(TweetState(map[], 0), ops, creation);
  }

  /** One serial operation never takes a stored check time back. */
  lemma OpChecked(s: TweetState, op: Op, id: Bytes)
    requires Covered(s.store) && Stores(s.store, id) && op != Delete(id)
    ensures Stores(AfterOp(s, op).store, id)
    ensures TweetAt(AfterOp(s, op).store, id).checkedAt >= TweetAt(s.store, id).checkedAt
  {
    match op
    case Save(t) =>
      SaveStores(s.store, t, id);
    case Delete(i) => DeleteStores(s, i, id);
  }

  /** As long as a tweet is not deleted it stays stored and its check time does not go back. */
  lemma {:induction false} CheckedNeverGoesBack(s: TweetState, ops: seq<Op>, creation: map<Bytes, int>, id: Bytes)
    requires Serial(s, creation) && FixedCreation(ops, creation)
    requires Stores(s.store, id) && Delete(id) !in ops
    ensures Stores(AfterOps(s, ops).store, id)
    ensures TweetAt(AfterOps(s, ops).store, id).checkedAt >= TweetAt(s.store, id).checkedAt
    decreases |ops|
  {
    if ops != [] {
      OpSerial(s, ops[0], creation);
      OpChecked(s, ops[0], id);
      CheckedNeverGoesBack(AfterOp(s, ops[0]), ops[1..], creation, id);
    }
  }
}
