/** The key-value database, and the transaction that buffers its writes until Commit. */
module Store {
  import opened Bytes
  import opened Records

  datatype Call =
    | Set(key: Bytes, value: Value)
    | Clear(key: Bytes)
    | ClearPrefix(prefix: Bytes)

  function Apply(c: Call, m: Table): Table {
    match c
    case Set(k, v) => m[k := v]
    case Clear(k) => m - {k}
    case ClearPrefix(p) => map k | k in m && !(p <= k) :: m[k]
  }

  function ApplyAll(calls: seq<Call>, m: Table): Table
    decreases |calls|
  {
    if calls == [] then m else Apply(calls[|calls| - 1], ApplyAll(calls[..|calls| - 1], m))
  }

  lemma ApplyLast(calls: seq<Call>, c: Call, m: Table)
    ensures ApplyAll(calls + [c], m) == Apply(c, ApplyAll(calls, m))
  {
    assert (calls + [c])[..|calls|] == calls;
  }

  predicate Touches(c: Call, k: Bytes) {
    match c
    case Set(key, _) => key == k
    case Clear(key) => key == k
    case ClearPrefix(p) => p <= k
  }

  predicate TouchedBy(calls: seq<Call>, k: Bytes) {
    exists i :: 0 <= i < |calls| && Touches(calls[i], k)
  }

  /** What a list of writes leaves under key k depends on its last write of k alone. */
  lemma {:induction false} LastTouchDecides(calls: seq<Call>, m: Table, i: nat, k: Bytes)
    requires i < |calls| && Touches(calls[i], k)
    requires forall j :: i < j < |calls| ==> !Touches(calls[j], k)
    ensures calls[i].Set? ==> k in ApplyAll(calls, m) && ApplyAll(calls, m)[k] == calls[i].value
    ensures !calls[i].Set? ==> k !in ApplyAll(calls, m)
    decreases |calls|
  {
    var n := |calls| - 1;
    if i < n {
      assert !Touches(calls[n], k);
      LastTouchDecides(calls[..n], m, i, k);
    }
  }

  lemma {:induction false} UntouchedKeyKept(calls: seq<Call>, m: Table, k: Bytes)
    requires !TouchedBy(calls, k)
    ensures k in ApplyAll(calls, m) <==> k in m
    ensures k in m ==> ApplyAll(calls, m)[k] == m[k]
    decreases |calls|
  {
    if calls != [] {
      var n := |calls| - 1;
      assert !Touches(calls[n], k);
      assert !TouchedBy(calls[..n], k);
      UntouchedKeyKept(calls[..n], m, k);
    }
  }

  lemma {:induction false} LastTouch(calls: seq<Call>, k: Bytes) returns (i: nat)
    requires TouchedBy(calls, k)
    ensures i < |calls| && Touches(calls[i], k)
    ensures forall j :: i < j < |calls| ==> !Touches(calls[j], k)
    decreases |calls|
  {
    var n := |calls| - 1;
    if Touches(calls[n], k) {
      i := n;
    } else {
      var w :| 0 <= w < |calls| && Touches(calls[w], k);
      assert Touches(calls[..n][w], k);
      i := LastTouch(calls[..n], k);
      assert calls[..n][i] == calls[i];
      forall j | i < j < |calls| ensures !Touches(calls[j], k) {
        if j < n { assert calls[..n][j] == calls[j]; }
      }
    }
  }

  /** Two stores that agree wherever the writes do not touch end up equal. */
  lemma SameOutsideTouched(calls: seq<Call>, m1: Table, m2: Table)
    requires forall k :: !TouchedBy(calls, k) ==> (k in m1 <==> k in m2) && (k in m1 ==> m1[k] == m2[k])
    ensures ApplyAll(calls, m1) == ApplyAll(calls, m2)
  {
    var a, b := ApplyAll(calls, m1), ApplyAll(calls, m2);
    forall k ensures (k in a <==> k in b) && (k in a ==> a[k] == b[k]) {
      if TouchedBy(calls, k) {
        var i := LastTouch(calls, k);
        LastTouchDecides(calls, m1, i, k);
        LastTouchDecides(calls, m2, i, k);
      } else {
        UntouchedKeyKept(calls, m1, k);
        UntouchedKeyKept(calls, m2, k);
      }
    }
  }

  /** Replaying buffered writes a second time changes nothing. */
  lemma ReplayIsIdempotent(calls: seq<Call>, m: Table)
    ensures ApplyAll(calls, ApplyAll(calls, m)) == ApplyAll(calls, m)
  {
    forall k | !TouchedBy(calls, k)
      ensures k in ApplyAll(calls, m) <==> k in m
      ensures k in m ==> ApplyAll(calls, m)[k] == m[k]
    {
      UntouchedKeyKept(calls, m, k);
    }
    SameOutsideTouched(calls, ApplyAll(calls, m), m);
  }

  // ----- ranges -----

  function KeysInRange(m: Table, begin: Bytes, end: Bytes): set<Bytes> {
    set k | k in m && LexLessOrEqual(begin, k) && LexLess(k, end)
  }

  /** The keys of a half-open range in store order. */
  ghost function RangeKeys(m: Table, begin: Bytes, end: Bytes): (ks: seq<Bytes>)
    ensures forall k :: k in ks <==> k in m && LexLessOrEqual(begin, k) && LexLess(k, end)
    ensures StrictlySorted(ks)
  {
    Sorted(KeysInRange(m, begin, end))
  }

  /** Clearing a prefix clears the keys from the prefix up to its increment, and no others. */
  lemma ClearPrefixIsRange(m: Table, p: Bytes, k: Bytes)
    requires exists i :: 0 <= i < |p| && p[i] != 255
    ensures k in Apply(ClearPrefix(p), m) <==> k in m && !(LexLessOrEqual(p, k) && LexLess(k, Strinc(p)))
    ensures k in Apply(ClearPrefix(p), m) ==> Apply(ClearPrefix(p), m)[k] == m[k]
  {
    PrefixRangeExact(p, k);
  }

  /** A scan of a prefix range returns the keys with that prefix, in store order. */
  lemma PrefixScanExact(m: Table, p: Bytes)
    requires exists i :: 0 <= i < |p| && p[i] != 255
    ensures forall k :: k in RangeKeys(m, p, Strinc(p)) <==> k in m && p <= k
  {
    forall k ensures k in RangeKeys(m, p, Strinc(p)) <==> k in m && p <= k {
      PrefixRangeExact(p, k);
    }
  }

  ghost function Rows(m: Table, ks: seq<Bytes>): (rows: seq<(Bytes, Value)>)
    requires forall k :: k in ks ==> k in m
    ensures |rows| == |ks|
    ensures forall i :: 0 <= i < |ks| ==> rows[i] == (ks[i], m[ks[i]])
  {
    seq(|ks|, i requires 0 <= i < |ks| => assert ks[i] in ks; (ks[i], m[ks[i]]))
  }

  // ----- transactions -----

  /** How one commit attempt ends: acknowledged; applied but the reply lost;
      refused with a retryable error; refused for good. */
  datatype Outcome = Committed | ReplyLost | Conflict | Fatal

  /** One round of the commit loop, with the state of the caller's context after it. */
  datatype Attempt = Attempt(outcome: Outcome, cancelled: bool)

  /** Whether Commit reports success. After the listed attempts the next one is acknowledged. */
  predicate Succeeds(env: seq<Attempt>) {
    env == [] || env[0].outcome.Committed?
    || (!env[0].outcome.Fatal? && !env[0].cancelled && Succeeds(env[1..]))
  }

  /** Whether some attempt that Commit makes reaches the database. */
  predicate Reaches(env: seq<Attempt>) {
    env == [] || env[0].outcome.Committed? || env[0].outcome.ReplyLost?
    || (env[0].outcome.Conflict? && !env[0].cancelled && Reaches(env[1..]))
  }

  /** Commit succeeds exactly when all the listed attempts are refused or lose their reply and none is
      cancelled, or one is acknowledged and all before it are such. */
  lemma {:induction false} SucceedsWhen(env: seq<Attempt>)
    ensures Succeeds(env) <==>
      || (forall i :: 0 <= i < |env| ==> !env[i].cancelled && (env[i].outcome.Conflict? || env[i].outcome.ReplyLost?))
      || (exists k :: 0 <= k < |env| && env[k].outcome.Committed?
            && forall i :: 0 <= i < k ==> !env[i].cancelled && (env[i].outcome.Conflict? || env[i].outcome.ReplyLost?))
  {
    if env != [] {
      var rest := env[1..];
      SucceedsWhen(rest);
      assert forall i :: 0 <= i < |rest| ==> rest[i] == env[i + 1];
      if env[0].outcome.Conflict? || env[0].outcome.ReplyLost? {
        if k :|
          && 0 <= k < |rest| && rest[k].outcome.Committed?
          && forall i :: 0 <= i < k ==> !rest[i].cancelled && (rest[i].outcome.Conflict? || rest[i].outcome.ReplyLost?)
        {
          assert env[k + 1].outcome.Committed?;
        }
        if k :|
          && 0 <= k < |env| && env[k].outcome.Committed?
          && forall i :: 0 <= i < k ==> !env[i].cancelled && (env[i].outcome.Conflict? || env[i].outcome.ReplyLost?)
        {
          assert rest[k - 1].outcome.Committed?;
        }
      }
    }
  }

  /** The writes reach the database exactly when all the listed attempts are refused and none is
      cancelled, or one reaches it and all before it are such. */
  lemma {:induction false} ReachesWhen(env: seq<Attempt>)
    ensures Reaches(env) <==>
      || (forall i :: 0 <= i < |env| ==> !env[i].cancelled && env[i].outcome.Conflict?)
      || (exists k :: 0 <= k < |env| && (env[k].outcome.Committed? || env[k].outcome.ReplyLost?)
            && forall i :: 0 <= i < k ==> !env[i].cancelled && env[i].outcome.Conflict?)
  {
    if env != [] {
      var rest := env[1..];
      ReachesWhen(rest);
      assert forall i :: 0 <= i < |rest| ==> rest[i] == env[i + 1];
      if env[0].outcome.Conflict? {
        if k :|
          && 0 <= k < |rest| && (rest[k].outcome.Committed? || rest[k].outcome.ReplyLost?)
          && forall i :: 0 <= i < k ==> !rest[i].cancelled && rest[i].outcome.Conflict?
        {
          assert env[k + 1].outcome.Committed? || env[k + 1].outcome.ReplyLost?;
        }
        if k :|
          && 0 <= k < |env| && (env[k].outcome.Committed? || env[k].outcome.ReplyLost?)
          && forall i :: 0 <= i < k ==> !env[i].cancelled && env[i].outcome.Conflict?
        {
          assert rest[k - 1].outcome.Committed? || rest[k - 1].outcome.ReplyLost?;
        }
      }
    }
  }

  class Database {
    var store: Table

    constructor ()
      ensures store == map[]
    {
      store := map[];
    }
  }

  class Transaction {
    const db: Database
    var calls: seq<Call>

    constructor (db: Database)
      ensures this.db == db && calls == []
    {
      this.db := db;
      calls := [];
    }

    method Get(key: Bytes) returns (r: Option<Value>)
      ensures r == if key in db.store then Some(db.store[key]) else None
    {
      if key in db.store { r := Some(db.store[key]); } else { r := None; }
    }

    method Set(key: Bytes, value: Value)
      modifies this`calls
      ensures calls == old(calls) + [Call.Set(key, value)]
    {
      calls := calls + [Call.Set(key, value)];
    }

    method Clear(key: Bytes)
      modifies this`calls
      ensures calls == old(calls) + [Call.Clear(key)]
    {
      calls := calls + [Call.Clear(key)];
    }

    method ClearRange(prefix: Bytes)
      requires exists i :: 0 <= i < |prefix| && prefix[i] != 255
      modifies this`calls
      ensures calls == old(calls) + [ClearPrefix(prefix)]
    {
      calls := calls + [ClearPrefix(prefix)];
    }

    /** The key-value pairs of a range in key order. */
    method GetRange(begin: Bytes, end: Bytes) returns (kvs: seq<(Bytes, Value)>)
      ensures kvs == Rows(db.store, RangeKeys(db.store, begin, end))
    {
      var ks := SortedKeys(KeysInRange(db.store, begin, end));
      kvs := [];
      assert ks == RangeKeys(db.store, begin, end);
      for i := 0 to |ks|
        invariant |kvs| == i && forall j :: 0 <= j < i ==> ks[j] in db.store && kvs[j] == (ks[j], db.store[ks[j]])
      {
        assert ks[i] in ks;
        kvs := kvs + [(ks[i], db.store[ks[i]])];
      }
    }

    /** Sends the buffered writes until the database acknowledges them or gives up. */
    method Commit(env: seq<Attempt>) returns (ok: bool)
      modifies db
      ensures ok == Succeeds(env)
      ensures db.store == if Reaches(env) then ApplyAll(calls, old(db.store)) else old(db.store)
    {
      ghost var before := db.store;
      var rest := env;
      ghost var reached := false;
      while true
        invariant db.store == if reached then ApplyAll(calls, before) else before
        invariant Succeeds(rest) == Succeeds(env)
        invariant Reaches(env) == (reached || Reaches(rest))
        decreases |rest|
      {
        ReplayIsIdempotent(calls, before);
        var attempt := if rest == [] then Attempt(Committed, false) else rest[0];
        if attempt.outcome.Committed? || attempt.outcome.ReplyLost? {
          SendAll();
          reached := true;
        }
        if attempt.cancelled || attempt.outcome.Committed? {
          return attempt.outcome.Committed?;
        }
        if attempt.outcome.Fatal? {
          return false;
        }
        rest := rest[1..];
      }
    }

    /** Runs the buffered calls one after the other. */
    method SendAll()
      modifies db
      ensures db.store == ApplyAll(calls, old(db.store))
    {
      var i := 0;
      assert calls[..0] == [];
      while i < |calls|
        invariant 0 <= i <= |calls|
        invariant db.store == ApplyAll(calls[..i], old(db.store))
      {
        assert calls[..i + 1][..i] == calls[..i];
        db.store := Apply(calls[i], db.store);
        i := i + 1;
      }
      assert calls[..i] == calls;
    }
  }
}
