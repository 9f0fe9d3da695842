/** The queries over the tweet indexes: what a scan of the printed keys picks, and that with exact
    indexes it is what the table itself would answer. */
module TweetQueries {
  import opened Bytes
  import opened Records
  import opened Keys
  import opened Store
  import opened Tweets
  import opened TweetRuns

  /** Predictions at or below this are not worth an update. */
  const WORTHLESS: real := 0.0000000001

  /** The rating expected by now at the current growth speed. */
  function Predicted(rating: real, created: int, now: int): real {
    rating * ((now - created) as real / 1_000_000_000.0)
  }

  function PredictedOf(x: TweetIndex, now: int): real { Predicted(x.rating, x.created, now) }

  predicate Reachable(x: TweetIndex, now: int, top: real) { PredictedOf(x, now) >= top }

  // ----- picking from a list of entries -----

  /** Which entries are reachable. */
  function Hits(xs: seq<TweetIndex>, now: int, top: real): (hits: seq<bool>)
    ensures |hits| == |xs|
  {
    seq(|xs|, i requires 0 <= i < |xs| => Reachable(xs[i], now, top))
  }

  function Tally(hits: seq<bool>): nat {
    if hits == [] then 0 else Tally(hits[..|hits| - 1]) + if hits[|hits| - 1] then 1 else 0
  }

  /** r is the first of the oldest reachable entries among the first n. */
  ghost predicate Oldest(xs: seq<TweetIndex>, now: int, top: real, n: nat, r: Option<nat>)
    requires n <= |xs|
  {
    match r
    case None => forall j :: 0 <= j < n ==> !Reachable(xs[j], now, top)
    case Some(i) =>
      && i < n && Reachable(xs[i], now, top)
      && forall j :: 0 <= j < n && Reachable(xs[j], now, top) ==>
           xs[i].created < xs[j].created || (xs[i].created == xs[j].created && i <= j)
  }

  /** f is the first of the entries with the largest prediction among the first n, if any is worth it. */
  ghost predicate Largest(xs: seq<TweetIndex>, now: int, n: nat, f: Option<nat>)
    requires n <= |xs|
  {
    match f
    case None => forall j :: 0 <= j < n ==> PredictedOf(xs[j], now) <= WORTHLESS
    case Some(i) =>
      && i < n && PredictedOf(xs[i], now) > WORTHLESS
      && forall j :: 0 <= j < n ==>
           || PredictedOf(xs[j], now) < PredictedOf(xs[i], now)
           || (PredictedOf(xs[j], now) == PredictedOf(xs[i], now) && i <= j)
  }

  function Best(xs: seq<TweetIndex>, now: int, f: Option<nat>): real
    requires f.Some? ==> f.value < |xs|
  {
    if f.None? then WORTHLESS else PredictedOf(xs[f.value], now)
  }

  /** One pass over the entries: the oldest reachable one, the best prediction, the number reachable. */
  method Choose(xs: seq<TweetIndex>, now: int, top: real)
    returns (result: Option<nat>, fallback: Option<nat>, pretop: nat)
    ensures Oldest(xs, now, top, |xs|, result)
    ensures Largest(xs, now, |xs|, fallback)
    ensures pretop == Tally(Hits(xs, now, top))
  {
    result, fallback, pretop := None, None, 0;
    var best := WORTHLESS;
    for i := 0 to |xs|
      invariant Oldest(xs, now, top, i, result)
      invariant Largest(xs, now, i, fallback) && best == Best(xs, now, fallback)
      invariant pretop == Tally(Hits(xs, now, top)[..i])
    {
      var predicted := PredictedOf(xs[i], now);
      LargestNext(xs, now, i, fallback);
      OldestNext(xs, now, top, i, result);
      if predicted > best {
        best := predicted;
        fallback := Some(i);
      }
      TallyNext(Hits(xs, now, top), i);
      if predicted < top {
        continue;
      }
      pretop := pretop + 1;
      if result.None? || xs[result.value].created > xs[i].created {
        result := Some(i);
      }
    }
    assert Hits(xs, now, top)[..|xs|] == Hits(xs, now, top);
  }

  lemma LargestNext(xs: seq<TweetIndex>, now: int, i: nat, f: Option<nat>)
    requires i < |xs| && Largest(xs, now, i, f)
    ensures Largest(xs, now, i + 1, if PredictedOf(xs[i], now) > Best(xs, now, f) then Some(i) else f)
  {}

  lemma OldestNext(xs: seq<TweetIndex>, now: int, top: real, i: nat, r: Option<nat>)
    requires i < |xs| && Oldest(xs, now, top, i, r)
    ensures Oldest(xs, now, top, i + 1,
                   if Reachable(xs[i], now, top) && (r.None? || xs[r.value].created > xs[i].created)
                   then Some(i) else r)
  {}

  lemma TallyNext(hits: seq<bool>, i: nat)
    requires i < |hits|
    ensures Tally(hits[..i + 1]) == Tally(hits[..i]) + if hits[i] then 1 else 0
  {
    assert hits[..i + 1][..i] == hits[..i];
  }

  // ----- the same query on the table -----

  /** Tweets whose rating prints as 0.00001 or more: the ones the scan is meant to list. */
  predicate Listed(t: Tweet) { t.rating >= 0.0 && Hundredthousandths(t.rating) >= 1 }

  predicate Candidate(m: Table, id: Bytes) { Stores(m, id) && Listed(TweetAt(m, id)) }

  /** A candidate predicted to reach the top. */
  predicate Reaching(m: Table, id: Bytes, now: int, top: real) {
    Candidate(m, id) && Reachable(IndexOf(TweetAt(m, id)), now, top)
  }

  /** Of two tweets the one asked for first: the older, then the one with the smaller index key. */
  predicate OlderFirst(t: Tweet, u: Tweet) {
    t.created < u.created || (t.created == u.created && LexLessOrEqual(RatingKeyOf(t), RatingKeyOf(u)))
  }

  /** Of two tweets the one with the larger prediction, then the one with the smaller index key. */
  predicate LargerFirst(t: Tweet, u: Tweet, now: int) {
    var p, q := PredictedOf(IndexOf(t), now), PredictedOf(IndexOf(u), now);
    q < p || (q == p && LexLessOrEqual(RatingKeyOf(t), RatingKeyOf(u)))
  }

  function ReachingKeys(m: Table, now: int, top: real): set<Bytes> {
    set k | k in m && Family(k) == 0x01 && Reaching(m, k[2..], now, top)
  }

  /** What the query should answer, read off the table alone. */
  ghost predicate Answers(m: Table, now: int, top: real, r: Result<(Tweet, nat)>) {
    var none := forall id :: !Reaching(m, id, now, top);
    match r
    case Ok((t, n)) =>
      && Candidate(m, t.id) && t == TweetAt(m, t.id)
      && n == |ReachingKeys(m, now, top)|
      && (if none then
            && PredictedOf(IndexOf(t), now) > WORTHLESS
            && forall id :: Candidate(m, id) ==> LargerFirst(t, TweetAt(m, id), now)
          else
            && Reaching(m, t.id, now, top)
            && forall id :: Reaching(m, id, now, top) ==> OlderFirst(t, TweetAt(m, id)))
    case Failed(f) =>
      && f == TweetsNotFound && none
      && forall id :: Candidate(m, id) ==> PredictedOf(IndexOf(TweetAt(m, id)), now) <= WORTHLESS
  }

  // ----- the positive scan lists exactly the candidates -----

  lemma SecondByteFrom(p: Bytes, k: Bytes)
    requires |p| >= 2 && k != [] && k[0] == p[0] && LexLessOrEqual(p, k)
    ensures |k| >= 2 && p[1] <= k[1]
  {
    if p != k {
      assert LexLess(p[1..], k[1..]) && p[1..][0] == p[1];
      assert k[1..] != [] && k[1..][0] == k[1];
    }
  }

  lemma SecondByteBefore(k: Bytes, q: Bytes)
    requires |q| == 2 && |k| >= 2 && k[0] == q[0] && LexLess(k, q)
    ensures k[1] < q[1]
  {
    assert LexLess(k[1..], q[1..]) && q[1..][0] == q[1] && k[1..][0] == k[1] && q[1..][1..] == [];
    assert !LexLess(k[1..][1..], []);
  }

  lemma PositiveFamily(k: Bytes)
    requires InPositiveRange(k)
    ensures Family(k) == 0x12
  {
    assert POSITIVE_BEGIN[0] == 0 && POSITIVE_BEGIN[1] == 0x12;
    SecondByteFrom(POSITIVE_BEGIN, k);
    SecondByteBefore(k, POSITIVE_END);
  }

  ghost function PositiveKeys(m: Table): (ks: seq<Bytes>)
    ensures forall k :: k in ks <==> k in m && InPositiveRange(k)
    ensures StrictlySorted(ks)
  {
    RangeKeys(m, POSITIVE_BEGIN, POSITIVE_END)
  }

  lemma PositiveKeyOfCandidate(m: Table, k: Bytes)
    requires Exact(m) && k in m && InPositiveRange(k)
    ensures m[k].IndexValue? && Candidate(m, m[k].index.id)
    ensures var t := TweetAt(m, m[k].index.id); k == RatingKeyOf(t) && m[k].index == IndexOf(t)
  {
    PositiveFamily(k);
    assert RatingEntry(m, k);
    var t := TweetAt(m, m[k].index.id);
    PositiveRangeExact(t.rating, t.id);
    assert Kept(m, t.id);
  }

  lemma CandidateListed(m: Table, id: Bytes)
    requires Exact(m) && Candidate(m, id)
    ensures RatingKeyOf(TweetAt(m, id)) in PositiveKeys(m)
    ensures m[RatingKeyOf(TweetAt(m, id))] == IndexValue(IndexOf(TweetAt(m, id)))
  {
    assert Kept(m, id);
    PositiveRangeExact(TweetAt(m, id).rating, id);
  }

  /** The entries xs list the candidates of the table, in key order. */
  ghost predicate Lists(m: Table, ks: seq<Bytes>, xs: seq<TweetIndex>) {
    && |ks| == |xs| && StrictlySorted(ks)
    && (forall i :: 0 <= i < |xs| ==>
          && Candidate(m, xs[i].id) && xs[i] == IndexOf(TweetAt(m, xs[i].id))
          && ks[i] == RatingKeyOf(TweetAt(m, xs[i].id)))
    && (forall id :: Candidate(m, id) ==> RatingKeyOf(TweetAt(m, id)) in ks)
  }

  lemma ScanLists(m: Table, xs: seq<TweetIndex>)
    requires Exact(m) && |xs| == |PositiveKeys(m)|
    requires forall i :: 0 <= i < |xs| ==> PositiveKeys(m)[i] in m && m[PositiveKeys(m)[i]] == IndexValue(xs[i])
    ensures Lists(m, PositiveKeys(m), xs)
  {
    var ks := PositiveKeys(m);
    forall i | 0 <= i < |xs|
      ensures Candidate(m, xs[i].id) && xs[i] == IndexOf(TweetAt(m, xs[i].id))
      ensures ks[i] == RatingKeyOf(TweetAt(m, xs[i].id))
    {
      assert ks[i] in ks;
      PositiveKeyOfCandidate(m, ks[i]);
    }
    forall id | Candidate(m, id) ensures RatingKeyOf(TweetAt(m, id)) in ks {
      CandidateListed(m, id);
    }
  }

  lemma PlaceOf(m: Table, ks: seq<Bytes>, xs: seq<TweetIndex>, id: Bytes) returns (i: nat)
    requires Lists(m, ks, xs) && Candidate(m, id)
    ensures i < |xs| && xs[i].id == id && xs[i] == IndexOf(TweetAt(m, id)) && ks[i] == RatingKeyOf(TweetAt(m, id))
  {
    var t := TweetAt(m, id);
    var j :| 0 <= j < |ks| && ks[j] == RatingKeyOf(t);
    i := j;
    var u := TweetAt(m, xs[i].id);
    RatingKeyInjective(t.rating, t.id, u.rating, u.id);
  }

  lemma KeyOrder(ks: seq<Bytes>, i: nat, j: nat)
    requires StrictlySorted(ks) && i < |ks| && j < |ks| && i <= j
    ensures LexLessOrEqual(ks[i], ks[j])
  {}

  /** The keys at the places that hit. */
  function HitKeys(hits: seq<bool>, keys: seq<Bytes>): set<Bytes>
    requires |hits| == |keys|
  {
    if hits == [] then {}
    else
      var n := |hits| - 1;
      HitKeys(hits[..n], keys[..n]) + if hits[n] then {keys[n]} else {}
  }

  lemma {:induction false} InHitKeys(hits: seq<bool>, keys: seq<Bytes>, k: Bytes)
    requires |hits| == |keys|
    ensures k in HitKeys(hits, keys) <==> exists i :: 0 <= i < |hits| && hits[i] && keys[i] == k
  {
    if hits != [] {
      var n := |hits| - 1;
      InHitKeys(hits[..n], keys[..n], k);
      if i :| 0 <= i < |hits| && hits[i] && keys[i] == k && i < n {
        assert hits[..n][i] && keys[..n][i] == k;
      }
    }
  }

  lemma {:induction false} HitKeysCount(hits: seq<bool>, keys: seq<Bytes>)
    requires |hits| == |keys| && forall i, j :: 0 <= i < j < |keys| ==> keys[i] != keys[j]
    ensures |HitKeys(hits, keys)| == Tally(hits)
  {
    if hits != [] {
      var n := |hits| - 1;
      HitKeysCount(hits[..n], keys[..n]);
      InHitKeys(hits[..n], keys[..n], keys[n]);
    }
  }

  function TweetKeysOf(xs: seq<TweetIndex>): (keys: seq<Bytes>)
    ensures |keys| == |xs|
  {
    seq(|xs|, i requires 0 <= i < |xs| => TweetKey(xs[i].id))
  }

  lemma DistinctKeys(m: Table, ks: seq<Bytes>, xs: seq<TweetIndex>, i: nat, j: nat)
    requires Lists(m, ks, xs) && i < j < |xs|
    ensures TweetKeysOf(xs)[i] != TweetKeysOf(xs)[j]
  {
    if xs[i].id == xs[j].id {
      assert LexLess(ks[i], ks[j]);
      LexIrreflexive(ks[i]);
    }
    TweetKeyInjective(xs[i].id, xs[j].id);
  }

  lemma HitReaches(m: Table, ks: seq<Bytes>, xs: seq<TweetIndex>, now: int, top: real, i: nat)
    requires Lists(m, ks, xs) && i < |xs|
    ensures Hits(xs, now, top)[i] <==> Reaching(m, xs[i].id, now, top)
    ensures Hits(xs, now, top)[i] ==> TweetKeysOf(xs)[i] in ReachingKeys(m, now, top)
  {
    var k := TweetKey(xs[i].id);
    assert k[2..] == xs[i].id;
  }

  lemma ReachingHit(m: Table, ks: seq<Bytes>, xs: seq<TweetIndex>, now: int, top: real, k: Bytes) returns (i: nat)
    requires Lists(m, ks, xs) && k in ReachingKeys(m, now, top)
    ensures i < |xs| && Hits(xs, now, top)[i] && TweetKeysOf(xs)[i] == k
  {
    i := PlaceOf(m, ks, xs, k[2..]);
    HitReaches(m, ks, xs, now, top, i);
    assert TweetKey(k[2..]) == k;
  }

  lemma ReachingCount(m: Table, ks: seq<Bytes>, xs: seq<TweetIndex>, now: int, top: real)
    requires Lists(m, ks, xs)
    ensures |ReachingKeys(m, now, top)| == Tally(Hits(xs, now, top))
  {
    var hits, keys, reaching := Hits(xs, now, top), TweetKeysOf(xs), ReachingKeys(m, now, top);
    forall i, j | 0 <= i < j < |keys| ensures keys[i] != keys[j] {
      DistinctKeys(m, ks, xs, i, j);
    }
    HitKeysCount(hits, keys);
    forall i | 0 <= i < |hits| && hits[i] ensures keys[i] in reaching {
      HitReaches(m, ks, xs, now, top, i);
    }
    forall k | k in reaching ensures exists i :: 0 <= i < |hits| && hits[i] && keys[i] == k {
      var i := ReachingHit(m, ks, xs, now, top, k);
    }
    SameKeys(hits, keys, reaching);
  }

  lemma SameKeys(hits: seq<bool>, keys: seq<Bytes>, reaching: set<Bytes>)
    requires |hits| == |keys|
    requires forall i :: 0 <= i < |hits| && hits[i] ==> keys[i] in reaching
    requires forall k :: k in reaching ==> exists i :: 0 <= i < |hits| && hits[i] && keys[i] == k
    ensures HitKeys(hits, keys) == reaching
  {
    forall k ensures k in HitKeys(hits, keys) <==> k in reaching {
      InHitKeys(hits, keys, k);
    }
  }

  /** The oldest reachable entry is the oldest candidate predicted to reach the top. */
  lemma OldestAnswers(m: Table, ks: seq<Bytes>, xs: seq<TweetIndex>, now: int, top: real, i: nat)
    requires Lists(m, ks, xs) && Oldest(xs, now, top, |xs|, Some(i))
    ensures Stores(m, xs[i].id)
    ensures Answers(m, now, top, Ok((TweetAt(m, xs[i].id), Tally(Hits(xs, now, top)))))
  {
    ReachingCount(m, ks, xs, now, top);
    var t := TweetAt(m, xs[i].id);
    assert Reaching(m, t.id, now, top);
    forall id | Reaching(m, id, now, top) ensures OlderFirst(t, TweetAt(m, id)) {
      var j := PlaceOf(m, ks, xs, id);
      if i <= j { KeyOrder(ks, i, j); }
    }
  }

  lemma NoneReaching(m: Table, ks: seq<Bytes>, xs: seq<TweetIndex>, now: int, top: real)
    requires Lists(m, ks, xs) && Oldest(xs, now, top, |xs|, None)
    ensures forall id :: !Reaching(m, id, now, top)
    ensures |ReachingKeys(m, now, top)| == 0
  {
    forall id ensures !Reaching(m, id, now, top) {
      if Candidate(m, id) { var j := PlaceOf(m, ks, xs, id); }
    }
    assert ReachingKeys(m, now, top) == {};
  }

  /** With nothing reachable the answer is the best prediction, with count zero. */
  lemma LargestAnswers(m: Table, ks: seq<Bytes>, xs: seq<TweetIndex>, now: int, top: real, i: nat)
    requires Lists(m, ks, xs) && Oldest(xs, now, top, |xs|, None) && Largest(xs, now, |xs|, Some(i))
    ensures Stores(m, xs[i].id)
    ensures Answers(m, now, top, Ok((TweetAt(m, xs[i].id), 0)))
  {
    NoneReaching(m, ks, xs, now, top);
    var t := TweetAt(m, xs[i].id);
    forall id | Candidate(m, id) ensures LargerFirst(t, TweetAt(m, id), now) {
      var j := PlaceOf(m, ks, xs, id);
      if i <= j { KeyOrder(ks, i, j); }
    }
  }

  lemma NothingAnswers(m: Table, ks: seq<Bytes>, xs: seq<TweetIndex>, now: int, top: real)
    requires Lists(m, ks, xs) && Oldest(xs, now, top, |xs|, None) && Largest(xs, now, |xs|, None)
    ensures Answers(m, now, top, Failed(TweetsNotFound))
  {
    NoneReaching(m, ks, xs, now, top);
    forall id | Candidate(m, id) ensures PredictedOf(IndexOf(TweetAt(m, id)), now) <= WORTHLESS {
      var j := PlaceOf(m, ks, xs, id);
    }
  }

  /** The table determines the answer. */
  lemma AnswerUnique(m: Table, now: int, top: real, r1: Result<(Tweet, nat)>, r2: Result<(Tweet, nat)>)
    requires Answers(m, now, top, r1) && Answers(m, now, top, r2)
    ensures r1 == r2
  {
    if r1.Ok? && r2.Ok? {
      var t1, t2 := r1.value.0, r2.value.0;
      RatingKeyInjective(t1.rating, t1.id, t2.rating, t2.id);
      if LexLess(RatingKeyOf(t1), RatingKeyOf(t2)) && LexLess(RatingKeyOf(t2), RatingKeyOf(t1)) {
        LexTransitive(RatingKeyOf(t1), RatingKeyOf(t2), RatingKeyOf(t1));
        LexIrreflexive(RatingKeyOf(t1));
      }
    }
  }

  // ----- the scan of old tweets -----

  ghost function OldKeys(m: Table, after: int): (ks: seq<Bytes>)
    ensures forall k :: k in ks <==>
      k in m && InOldRange(k, after)
    ensures StrictlySorted(ks)
  {
    RangeKeys(m, CREATION_INDEX, CreationBound(after))
  }

  lemma OldFamily(k: Bytes, after: int)
    requires InOldRange(k, after)
    ensures Family(k) == 0x14
  {
    var b := CreationBound(after);
    assert b[0] == 0 && b[1] == 0x14 && CREATION_INDEX[0] == 0 && CREATION_INDEX[1] == 0x14;
    assert k != [] && k[0] == 0;
    SecondByteFrom(CREATION_INDEX, k);
    SecondByteUpTo(k, b);
  }

  lemma SecondByteUpTo(k: Bytes, q: Bytes)
    requires |q| >= 2 && |k| >= 2 && k[0] == q[0] && LexLess(k, q)
    ensures k[1] <= q[1]
  {
    assert LexLess(k[1..], q[1..]) && q[1..][0] == q[1] && k[1..][0] == k[1];
  }

  /** All stored creation seconds sort right against the cutoff's. */
  ghost predicate AllSortRight(m: Table, after: int) {
    forall id :: Stores(m, id) ==> SortsRight(TweetAt(m, id).created, after)
  }

  predicate TooOld(m: Table, id: Bytes, after: int) {
    Stores(m, id) && UnixSecond(TweetAt(m, id).created) < UnixSecond(after)
  }

  /** ids are the tweets created in an earlier second, each once. */
  ghost predicate ListsOld(m: Table, after: int, ids: seq<Bytes>) {
    && (forall id :: id in ids <==> TooOld(m, id, after))
    && (forall i, j :: 0 <= i < j < |ids| ==> ids[i] != ids[j])
  }

  lemma OldKeyOfTweet(m: Table, k: Bytes, after: int)
    requires Exact(m) && AllSortRight(m, after)
    requires k in m && InOldRange(k, after)
    ensures m[k].IdValue? && TooOld(m, m[k].id, after) && k == CreationKeyOf(TweetAt(m, m[k].id))
  {
    OldFamily(k, after);
    assert CreationEntry(m, k);
    var t := TweetAt(m, m[k].id);
    CreationRangeExact(t.created, t.id, after);
  }

  lemma TooOldListed(m: Table, id: Bytes, after: int)
    requires Exact(m) && AllSortRight(m, after) && TooOld(m, id, after)
    ensures CreationKeyOf(TweetAt(m, id)) in OldKeys(m, after)
    ensures m[CreationKeyOf(TweetAt(m, id))] == IdValue(id)
  {
    assert Kept(m, id);
    CreationRangeExact(TweetAt(m, id).created, id, after);
  }

  /** With exact indexes and creation seconds that sort right against the cutoff's, the scan lists
      exactly the tweets of earlier seconds. */
  lemma OldScanExact(m: Table, after: int, ids: seq<Bytes>)
    requires Exact(m) && AllSortRight(m, after)
    requires |ids| == |OldKeys(m, after)|
    requires forall i :: 0 <= i < |ids| ==> OldKeys(m, after)[i] in m && m[OldKeys(m, after)[i]] == IdValue(ids[i])
    ensures ListsOld(m, after, ids)
  {
    var ks := OldKeys(m, after);
    forall i | 0 <= i < |ids| ensures TooOld(m, ids[i], after) && ks[i] == CreationKeyOf(TweetAt(m, ids[i])) {
      assert ks[i] in ks;
      OldKeyOfTweet(m, ks[i], after);
    }
    forall id | TooOld(m, id, after) ensures id in ids {
      TooOldListed(m, id, after);
      var i :| 0 <= i < |ks| && ks[i] == CreationKeyOf(TweetAt(m, id));
      assert ids[i] in ids;
    }
    forall i, j | 0 <= i < j < |ids| ensures ids[i] != ids[j] {
      assert LexLess(ks[i], ks[j]);
      LexIrreflexive(ks[i]);
    }
  }
}
