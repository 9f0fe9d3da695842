/** The drift bound for the repository: what an owner's operations, everyone else's and evictions do to
    the owner's log is a run of the log itself, with reloads that reorder its batches. */
module RequestDrift {
  import opened Bytes
  import opened Records
  import opened Keys
  import opened Store
  import opened RequestLog
  import opened BatchStore
  import opened RequestLimiter
  import W = RequestWindow

  /** The batches that a fetch gives. */
  ghost function Log(s: State, id: Bytes, window: nat): seq<Batch> {
    if Fetched(s, id, window).Ok? then Fetched(s, id, window).value.batches else []
  }

  /** What an operation does to the owner's log, if it is the owner's and touches it. */
  function OwnOp(op: Op, id: Bytes, window: nat): (r: seq<W.Op>)
    ensures |r| <= 1
  {
    match op
    case Add(i, w, t) => if i == id && w == window then [W.Request(t)] else []
    case Clean(i, w, now) => if i == id && w == window then [W.Clean(Cutoff(now, w))] else []
    case _ => []
  }

  function OwnOps(ops: seq<Op>, id: Bytes, window: nat): seq<W.Op> {
    if ops == [] then [] else OwnOp(ops[0], id, window) + OwnOps(ops[1..], id, window)
  }

  function NoReloads(wops: seq<W.Op>): seq<W.Op> {
    if wops == [] then []
    else (if wops[0].Reload? then [] else [wops[0]]) + NoReloads(wops[1..])
  }

  // ----- other owners' operations -----

  lemma ScanKeysAre(m: Table, id: Bytes, window: nat)
    ensures ScanKeys(m, id, window) == Sorted(BatchesOf(m, id, window).Keys)
  {
    var p := RequestsPrefix(id, window);
    RequestsPrefixHasEnd(id, window);
    forall k ensures k in KeysInRange(m, p, Strinc(p)) <==> k in BatchesOf(m, id, window).Keys {
      PrefixRangeExact(p, k);
    }
    assert KeysInRange(m, p, Strinc(p)) == BatchesOf(m, id, window).Keys;
  }

  lemma SameScan(m: Table, m2: Table, id: Bytes, window: nat)
    requires BatchesOf(m, id, window) == BatchesOf(m2, id, window)
    ensures ScanKeys(m, id, window) == ScanKeys(m2, id, window)
    ensures forall k :: k in ScanKeys(m, id, window) ==> k in m && k in m2 && m[k] == m2[k]
  {
    var stored := BatchesOf(m, id, window);
    ScanKeysAre(m, id, window);
    ScanKeysAre(m2, id, window);
    forall k | k in ScanKeys(m, id, window) ensures k in m && k in m2 && m[k] == m2[k] {
      assert k in stored && m[k] == stored[k] && m2[k] == stored[k];
    }
  }

  lemma SameBatchesAt(m: Table, m2: Table, ks: seq<Bytes>)
    requires AllBatches(m, ks) && forall k :: k in ks ==> k in m2 && m[k] == m2[k]
    ensures BatchesAt(m, ks) == BatchesAt(m2, ks)
  {
    forall i | 0 <= i < |ks| ensures BatchesAt(m, ks)[i] == BatchesAt(m2, ks)[i] {
      assert ks[i] in ks;
    }
  }

  /** What is loaded depends on the owner's keys only. */
  lemma SameLoaded(m: Table, m2: Table, id: Bytes, window: nat)
    requires SameAt(m, m2, RequestLimitsKey(id, window)) && BatchesOf(m, id, window) == BatchesOf(m2, id, window)
    ensures Loaded(m, id, window) == Loaded(m2, id, window)
  {
    var ks := ScanKeys(m, id, window);
    SameScan(m, m2, id, window);
    if AllBatches(m, ks) { SameBatchesAt(m, m2, ks); }
  }

  lemma AddOnlyOwn(s: State, id: Bytes, window: nat, t: int)
    requires AgreeOn(s, id, window)
    ensures OnlyOwn(s.store, AfterAdd(s, id, window, t).store, id, window)
  {
    FetchAgrees(s, id, window);
    if Fetched(s, id, window).Ok? { AddWritesBack(s, id, window, t); }
  }

  lemma CleanOnlyOwn(s: State, id: Bytes, window: nat, now: int)
    ensures OnlyOwn(s.store, AfterClean(s, id, window, now).store, id, window)
  {
    if Fetched(s, id, window).Ok? { CleanTouchesOwn(s, id, window, now); }
  }

  lemma LimitsOnlyOwn(s: State, op: Op)
    requires !op.Evict? && !op.Add? && !op.Clean?
    ensures OnlyOwn(s.store, After(s, op).store, op.id, op.window)
  {}

  lemma StepOnlyOwn(s: State, op: Op)
    requires Agree(s) && Admissible(s, op) && !op.Evict?
    ensures OnlyOwn(s.store, After(s, op).store, op.id, op.window)
  {
    match op
    case Add(id, w, t) =>
      assert AgreeOn(s, id, w);
      AddOnlyOwn(s, id, w, t);
    case Clean(id, w, now) => CleanOnlyOwn(s, id, w, now);
    case _ => LimitsOnlyOwn(s, op);
  }

  predicate SameCached(s: State, s2: State, k: Bytes) {
    (k in s.cache <==> k in s2.cache) && (k in s.cache ==> s2.cache[k] == s.cache[k])
  }

  lemma StepCachesOwn(s: State, op: Op, k: Bytes)
    requires !op.Evict? && k != RequestLimitsKey(op.id, op.window)
    ensures SameCached(s, After(s, op), k)
  {}

  /** Another owner's operation does not change what is fetched. */
  lemma OtherStep(s: State, op: Op, id: Bytes, window: nat)
    requires Agree(s) && Admissible(s, op) && !op.Evict?
    requires Owner(id, window) && (op.id != id || op.window != window)
    ensures Fetched(After(s, op), id, window) == Fetched(s, id, window)
  {
    var key := RequestLimitsKey(id, window);
    if key == RequestLimitsKey(op.id, op.window) { RequestLimitsKeyInjective(id, window, op.id, op.window); }
    StepOnlyOwn(s, op);
    StepCachesOwn(s, op, key);
    OthersUntouched(s.store, After(s, op).store, op.id, op.window, id, window);
    SameLoaded(s.store, After(s, op).store, id, window);
  }

  // ----- the owner's operations and evictions -----

  lemma AddLog(s: State, id: Bytes, window: nat, t: int)
    requires Fetched(s, id, window).Ok?
    ensures Fetched(AfterAdd(s, id, window, t), id, window).Ok?
    ensures Log(AfterAdd(s, id, window, t), id, window) == Added(Log(s, id, window), t)
  {}

  lemma CleanLog(s: State, id: Bytes, window: nat, now: int)
    requires AgreeOn(s, id, window) && Fetched(s, id, window).Ok?
    ensures Fetched(AfterClean(s, id, window, now), id, window).Ok?
    ensures Log(AfterClean(s, id, window, now), id, window) == Cleaned(Log(s, id, window), Cutoff(now, window))
  {
    FetchAgrees(s, id, window);
  }

  lemma LimitsLog(s: State, op: Op)
    requires !op.Evict? && !op.Add? && !op.Clean?
    requires AgreeOn(s, op.id, op.window) && Fetched(s, op.id, op.window).Ok?
    ensures Fetched(After(s, op), op.id, op.window).Ok?
    ensures Log(After(s, op), op.id, op.window) == Log(s, op.id, op.window)
  {
    FetchAgrees(s, op.id, op.window);
  }

  /** The owner's operation does to the log what OwnOp says. */
  lemma OwnStep(s: State, op: Op)
    requires Agree(s) && Admissible(s, op) && !op.Evict? && Fetched(s, op.id, op.window).Ok?
    ensures Fetched(After(s, op), op.id, op.window).Ok?
    ensures Log(After(s, op), op.id, op.window)
      == W.LogAfter(Log(s, op.id, op.window), OwnOp(op, op.id, op.window))
  {
    assert AgreeOn(s, op.id, op.window);
    OneOp(Log(s, op.id, op.window), OwnOp(op, op.id, op.window));
    match op
    case Add(id, w, t) => AddLog(s, id, w, t);
    case Clean(id, w, now) => CleanLog(s, id, w, now);
    case _ => LimitsLog(s, op);
  }

  lemma OneOp(bs: seq<Batch>, wops: seq<W.Op>)
    requires |wops| <= 1
    ensures W.LogAfter(bs, wops) == if wops == [] then bs else W.Step(bs, wops[0])
    ensures W.TimelyRun(bs, wops) <==> wops == [] || W.Timely(bs, wops[0])
  {
    if wops != [] {
      assert wops[1..] == [];
      assert W.LogAfter(W.Step(bs, wops[0]), []) == W.Step(bs, wops[0]);
      assert W.TimelyRun(W.Step(bs, wops[0]), []);
    }
  }

  /** An eviction reloads the owner's log, if it is the owner's and there is something to evict. */
  lemma EvictStep(s: State, key: Bytes, id: Bytes, window: nat) returns (wops: seq<W.Op>)
    requires Agree(s) && Owner(id, window) && Fetched(s, id, window).Ok?
    ensures Fetched(AfterEvict(s, key), id, window).Ok?
    ensures Log(AfterEvict(s, key), id, window) == W.LogAfter(Log(s, id, window), wops)
    ensures NoReloads(wops) == [] && W.TimelyRun(Log(s, id, window), wops)
  {
    assert AgreeOn(s, id, window);
    wops := [];
    if key == RequestLimitsKey(id, window) && key in s.cache {
      var order := ReloadKeepsBag(s, id, window);
      wops := [W.Reload(order)];
      OneOp(Log(s, id, window), wops);
      assert wops[1..] == [];
    }
  }

  // ----- runs -----

  /** The owner's requests and cleans are timely for the log they meet. */
  ghost predicate TimelyFor(s: State, op: Op, id: Bytes, window: nat) {
    OwnOp(op, id, window) != [] ==> W.Timely(Log(s, id, window), OwnOp(op, id, window)[0])
  }

  ghost predicate TimelyOps(s: State, ops: seq<Op>, id: Bytes, window: nat)
    decreases |ops|
  {
    ops == [] || (TimelyFor(s, ops[0], id, window) && TimelyOps(After(s, ops[0]), ops[1..], id, window))
  }

  lemma StepFollows(s: State, op: Op, id: Bytes, window: nat) returns (wops: seq<W.Op>)
    requires Agree(s) && Admissible(s, op) && Owner(id, window) && Fetched(s, id, window).Ok?
    ensures Fetched(After(s, op), id, window).Ok?
    ensures Log(After(s, op), id, window) == W.LogAfter(Log(s, id, window), wops)
    ensures NoReloads(wops) == OwnOp(op, id, window)
    ensures TimelyFor(s, op, id, window) ==> W.TimelyRun(Log(s, id, window), wops)
  {
    if op.Evict? {
      wops := EvictStep(s, op.key, id, window);
    } else {
      wops := OwnOp(op, id, window);
      OneOp(Log(s, id, window), wops);
      if wops != [] { assert wops[1..] == []; }
      if op.id == id && op.window == window {
        OwnStep(s, op);
      } else {
        OtherStep(s, op, id, window);
      }
    }
  }

  lemma {:induction false} LogConcat(bs: seq<Batch>, a: seq<W.Op>, b: seq<W.Op>)
    ensures W.LogAfter(bs, a + b) == W.LogAfter(W.LogAfter(bs, a), b)
    decreases |a|
  {
    if a == [] {
      assert a + b == b;
    } else {
      assert (a + b)[1..] == a[1..] + b;
      LogConcat(W.Step(bs, a[0]), a[1..], b);
    }
  }

  lemma {:induction false} TimelyConcat(bs: seq<Batch>, a: seq<W.Op>, b: seq<W.Op>)
    ensures W.TimelyRun(bs, a + b) <==> W.TimelyRun(bs, a) && W.TimelyRun(W.LogAfter(bs, a), b)
    decreases |a|
  {
    if a == [] {
      assert a + b == b;
    } else {
      assert (a + b)[1..] == a[1..] + b;
      TimelyConcat(W.Step(bs, a[0]), a[1..], b);
    }
  }

  lemma {:induction false} NoReloadsConcat(a: seq<W.Op>, b: seq<W.Op>)
    ensures NoReloads(a + b) == NoReloads(a) + NoReloads(b)
    decreases |a|
  {
    if a == [] {
      assert a + b == b;
    } else {
      assert (a + b)[1..] == a[1..] + b;
      NoReloadsConcat(a[1..], b);
    }
  }

  /** Over every admissible run of the repository, an owner's log goes through the owner's own requests
      and cleans, in order, with reloads in between; if those are timely, so is the log's run. */
  lemma {:induction false} RunFollows(s: State, ops: seq<Op>, id: Bytes, window: nat) returns (wops: seq<W.Op>)
    requires Agree(s) && AdmissibleRun(s, ops) && Owner(id, window) && Fetched(s, id, window).Ok?
    ensures Fetched(Run(s, ops), id, window).Ok?
    ensures Log(Run(s, ops), id, window) == W.LogAfter(Log(s, id, window), wops)
    ensures NoReloads(wops) == OwnOps(ops, id, window)
    ensures TimelyOps(s, ops, id, window) ==> W.TimelyRun(Log(s, id, window), wops)
    decreases |ops|
  {
    wops := [];
    if ops != [] {
      StepAgrees(s, ops[0]);
      var first := StepFollows(s, ops[0], id, window);
      var rest := RunFollows(After(s, ops[0]), ops[1..], id, window);
      LogConcat(Log(s, id, window), first, rest);
      TimelyConcat(Log(s, id, window), first, rest);
      NoReloadsConcat(first, rest);
      wops := first + rest;
    }
  }

  /** So the drift bound holds of the repository: after every admissible and timely run, what is fetched
      for the owner is what the marked entries say, each within a second for every clean it survived. */
  lemma RunDrifts(s: State, ops: seq<Op>, id: Bytes, window: nat, hs: seq<W.Held>)
    returns (wops: seq<W.Op>, held: seq<W.Held>)
    requires Agree(s) && AdmissibleRun(s, ops) && Owner(id, window) && Fetched(s, id, window).Ok?
    requires W.Faithful(hs) && W.Batches(hs) == Log(s, id, window) && TimelyOps(s, ops, id, window)
    ensures NoReloads(wops) == OwnOps(ops, id, window) && W.TimelyRun(W.Batches(hs), wops)
    ensures held == W.RunFrom(hs, wops) && W.Faithful(held)
    ensures Fetched(Run(s, ops), id, window).Ok? && Log(Run(s, ops), id, window) == W.Batches(held)
  {
    wops := RunFollows(s, ops, id, window);
    W.DriftBound(hs, wops);
    held := W.RunFrom(hs, wops);
  }

  /** In particular from an empty store on, once the owner's limits have been created. */
  lemma CreatedDrifts(id: Bytes, window: nat, threshold: nat, ops: seq<Op>)
    returns (wops: seq<W.Op>, held: seq<W.Held>)
    requires Owner(id, window)
    requires var s := After(EMPTY, Create(id, window, threshold));
             AdmissibleRun(s, ops) && TimelyOps(s, ops, id, window)
    ensures var s := After(EMPTY, Create(id, window, threshold));
            && NoReloads(wops) == OwnOps(ops, id, window) && W.TimelyRun([], wops)
            && held == W.RunFrom([], wops) && W.Faithful(held)
            && Fetched(Run(s, ops), id, window).Ok? && Log(Run(s, ops), id, window) == W.Batches(held)
  {
    var s := After(EMPTY, Create(id, window, threshold));
    CreatedIsEmpty(id, window, threshold);
    wops, held := RunDrifts(s, ops, id, window, []);
  }
}
