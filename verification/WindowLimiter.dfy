/** One account's limiter over one window: how hot it reads, and the steps that move its fire level and
    its stored threshold. */
module WindowLimiter {
  import opened Bytes
  import opened Records
  import opened Keys
  import opened RequestLimiter
  import opened RequestCounts
  import opened RequestDrift
  import opened RequestLaws
  import L = LimiterRepo

  /** The count and threshold of a window, or why they cannot be read. */
  type Reading = Result<(uint32, nat)>

  ghost function Read(s: State, id: Bytes, window: nat): (r: Reading)
    ensures Fetched(s, id, window).Ok? ==>
      r == Ok((Fetched(s, id, window).value.count, Fetched(s, id, window).value.threshold))
    ensures Fetched(s, id, window).Failed? ==> r == Failed(Fetched(s, id, window).fault)
  {
    match Fetched(s, id, window)
    case Ok(l) => Ok((l.count, l.threshold))
    case Failed(f) => Failed(f)
  }

  /** How full the window is, up to 2; a zero threshold counts as infinitely full. */
  function Fullness(count: uint32, threshold: nat): (t: real)
    ensures 0.0 < t <= 2.0
  {
    if threshold == 0 then 2.0
    else
      var t := (count as real + 0.1) / threshold as real;
      QuotientPositive(count as real + 0.1, threshold as real);
      if t < 2.0 then t else 2.0
  }

  lemma QuotientPositive(x: real, y: real)
    requires x > 0.0 && y > 0.0
    ensures x / y > 0.0
  {}

  lemma QuotientAtLeastOne(x: real, y: real)
    requires y > 0.0
    ensures x / y >= 1.0 <==> x >= y
  {}

  /** The temperature: fullness plus fire; zero when the window cannot be read. */
  function Heat(reading: Reading, fire: nat): (t: real)
    ensures reading.Ok? ==> fire as real < t <= 2.0 + fire as real
    ensures reading.Failed? ==> t == 0.0
  {
    match reading
    case Failed(_) => 0.0
    case Ok((count, threshold)) => Fullness(count, threshold) + fire as real
  }

  lemma QuotientTimes(x: real, y: real)
    requires y > 0.0
    ensures x / y * y == x
    ensures x / y < 2.0 <==> x < 2.0 * y
  {}

  /** Above its fire level a window's temperature is its count and a tenth over its threshold, and at most
      2; a window without threshold reads 2. */
  lemma HeatMeans(count: uint32, threshold: nat, fire: nat)
    ensures var full := Heat(Ok((count, threshold)), fire) - fire as real;
            && (full == 2.0 <==> count as real + 0.1 >= 2.0 * threshold as real)
            && (full != 2.0 ==> full * threshold as real == count as real + 0.1)
  {
    if threshold > 0 { QuotientTimes(count as real + 0.1, threshold as real); }
  }

  /** A window whose count has reached its threshold, and no other, reads 1 or more. */
  lemma FullReadsOne(count: uint32, threshold: nat)
    requires threshold > 0
    ensures Fullness(count, threshold) >= 1.0 <==> threshold <= count
  {
    QuotientAtLeastOne(count as real + 0.1, threshold as real);
  }

  /** A fifth of the window's seconds, shared among as many requests as the threshold. */
  function Pace(duration: nat, threshold: nat): nat
    requires threshold > 0
  {
    Quotient(duration / 5, threshold)
  }

  function Quotient(n: nat, d: nat): nat
    requires d > 0
  {
    n / d
  }

  /** Seconds to wait between requests: none while the window is below its threshold. */
  function Recommended(reading: Reading, duration: nat): Result<nat> {
    match reading
    case Failed(f) => Failed(f)
    case Ok((count, threshold)) =>
      if threshold == 0 || threshold > count then Ok(0) else Ok(Pace(duration, threshold))
  }

  /** A delay is recommended exactly by a full window with a threshold of at most a fifth of its
      seconds; it is the longest at which as many requests as the threshold fit into that fifth. */
  lemma RecommendedMeans(count: uint32, threshold: nat, duration: nat)
    ensures Recommended(Ok((count, threshold)), duration) != Ok(0)
      <==> 0 < threshold <= count && threshold <= duration / 5
    ensures threshold > 0 ==>
      var d := Recommended(Ok((count, threshold)), duration).value;
      d * threshold <= duration / 5 && (d > 0 ==> duration / 5 < (d + 1) * threshold)
    ensures forall f :: Recommended(Failed(f), duration) == Failed(f)
  {
    if 0 < threshold <= count { DivisionBounds(duration / 5, threshold); }
  }

  lemma DivisionBounds(n: nat, d: nat)
    requires d > 0
    ensures n / d * d <= n < (n / d + 1) * d
    ensures n / d > 0 <==> d <= n
  {
    if d > n { assert n / d == 0; }
  }

  /** The share of the next larger window's threshold, in 64 bits. */
  function Share(duration: nat, resetDuration: nat, threshold: nat): nat
    requires resetDuration > 0
  {
    (duration * threshold) % 0x1_0000_0000_0000_0000 / resetDuration
  }

  /** As long as 64 bits suffice, the share is the exact proportion rounded down. */
  lemma ShareIsProportion(duration: nat, resetDuration: nat, threshold: nat)
    requires resetDuration > 0 && duration * threshold < 0x1_0000_0000_0000_0000
    ensures var share := Share(duration, resetDuration, threshold);
            share * resetDuration <= duration * threshold < (share + 1) * resetDuration
  {
    DivisionBounds(duration * threshold, resetDuration);
  }

  /** Beyond 64 bits it is the proportion of what is left of the product. */
  lemma ShareMeans(duration: nat, resetDuration: nat, threshold: nat)
    requires resetDuration > 0
    ensures var share := Share(duration, resetDuration, threshold);
            var left := (duration * threshold) % 0x1_0000_0000_0000_0000;
            share * resetDuration <= left < (share + 1) * resetDuration
  {
    DivisionBounds((duration * threshold) % 0x1_0000_0000_0000_0000, resetDuration);
  }

  // ----- what the steps do to the repository -----

  /** Elapsed time in nanoseconds exceeds the window. */
  predicate Aged(now: int, startTime: int, duration: nat) { now - startTime > duration * SEC }

  ghost function AfterTry(s: State, id: Bytes, window: nat, aged: bool): State {
    if aged && Fetched(s, id, window).Failed? then s
    else AfterFetch(if aged then AfterSetThreshold(s, id, window) else s, id, window)
  }

  function ThresholdOf(reading: Reading): nat {
    if reading.Ok? then reading.value.1 else 0
  }

  ghost function AfterReset(s: State, id: Bytes, window: nat, from: nat, resetDuration: nat): State
    requires resetDuration > 0
  {
    var read := AfterFetch(s, id, from);
    var threshold := Share(window, resetDuration, ThresholdOf(Read(s, id, from)));
    if threshold == 0 then read else AfterIncrease(read, id, window, threshold)
  }

  /** Once more than the window has passed since the start, raising the fire sets the threshold to the
      count unless that is zero; before, it changes no limits. */
  lemma TryFetched(s: State, id: Bytes, window: nat, now: int, startTime: int)
    ensures var s2 := AfterTry(s, id, window, Aged(now, startTime, window));
            Fetched(s2, id, window) ==
              match Fetched(s, id, window)
              case Failed(f) => Failed(f)
              case Ok(l) =>
                Ok(if now - startTime > window * 1_000_000_000 && l.count != 0 then l.(threshold := l.count) else l)
  {}

  /** The stored limits show it. */
  lemma TryStored(s: State, id: Bytes, window: nat, now: int, startTime: int)
    requires AgreeOn(s, id, window) && Fetched(s, id, window).Ok?
    ensures var l, m := Fetched(s, id, window).value, AfterTry(s, id, window, Aged(now, startTime, window)).store;
            && RequestLimitsKey(id, window) in m
            && m[RequestLimitsKey(id, window)] ==
                 LimitValue(window, l.count,
                   if now - startTime > window * 1_000_000_000 && l.count != 0 then l.count else l.threshold)
  {
    FetchAgrees(s, id, window);
  }

  /** And nobody else's limits change. */
  lemma TryOthers(s: State, id: Bytes, window: nat, aged: bool, id2: Bytes, window2: nat)
    requires Agree(s) && Owner(id, window) && Owner(id2, window2) && (id != id2 || window != window2)
    ensures Fetched(AfterTry(s, id, window, aged), id2, window2) == Fetched(s, id2, window2)
  {
    OtherStep(s, SetThreshold(id, window), id2, window2);
    FetchLaw(s, id, window, id2, window2);
    FetchLaw(AfterSetThreshold(s, id, window), id, window, id2, window2);
  }

  lemma ReadAgrees(s: State, id: Bytes, window: nat, from: nat)
    requires Agree(s) && Owner(id, window) && Owner(id, from)
    ensures AgreeOn(AfterFetch(s, id, from), id, window)
    ensures Fetched(AfterFetch(s, id, from), id, window) == Fetched(s, id, window)
  {
    FetchLaw(s, id, from, id, window);
    FetchKeepsAgreement(s, id, from);
  }

  lemma ResetTo(s: State, id: Bytes, window: nat, from: nat, resetDuration: nat, share: nat)
    requires Agree(s) && Owner(id, window) && Owner(id, from) && resetDuration > 0 && Fetched(s, id, window).Ok?
    requires share == Share(window, resetDuration, ThresholdOf(Read(s, id, from)))
    ensures var l, s2 := Fetched(s, id, window).value, AfterReset(s, id, window, from, resetDuration);
            var x := if l.threshold < share then share else l.threshold;
            && Fetched(s2, id, window) == Ok(l.(threshold := x))
            && RequestLimitsKey(id, window) in s2.store
            && s2.store[RequestLimitsKey(id, window)] == LimitValue(window, l.count, x)
  {
    ReadAgrees(s, id, window, from);
    FetchAgrees(AfterFetch(s, id, from), id, window);
    ThresholdLaw(AfterFetch(s, id, from), id, window, share);
  }

  /** A reset leaves the threshold at the share of the larger window's, or where it was if that is more. */
  lemma ResetLaw(s: State, id: Bytes, window: nat, from: nat, resetDuration: nat) returns (share: nat)
    requires Agree(s) && Owner(id, window) && Owner(id, from) && resetDuration > 0 && Fetched(s, id, window).Ok?
    ensures var larger := if Fetched(s, id, from).Ok? then Fetched(s, id, from).value.threshold else 0;
            var left := (window * larger) % 0x1_0000_0000_0000_0000;
            share * resetDuration <= left < (share + 1) * resetDuration
    ensures var l, s2 := Fetched(s, id, window).value, AfterReset(s, id, window, from, resetDuration);
            var x := if l.threshold < share then share else l.threshold;
            && Fetched(s2, id, window) == Ok(l.(threshold := x))
            && RequestLimitsKey(id, window) in s2.store
            && s2.store[RequestLimitsKey(id, window)] == LimitValue(window, l.count, x)
  {
    var larger := if Fetched(s, id, from).Ok? then Fetched(s, id, from).value.threshold else 0;
    assert larger == ThresholdOf(Read(s, id, from));
    share := Share(window, resetDuration, larger);
    ShareMeans(window, resetDuration, larger);
    ResetTo(s, id, window, from, resetDuration, share);
  }

  /** Starting creates limits without requests, whose threshold is the window's seconds over the delay. */
  lemma StartLaw(s: State, id: Bytes, window: nat, delay: nat) returns (threshold: nat)
    requires AgreeOn(s, id, window) && RequestLimitsKey(id, window) !in s.store && delay > 0
    ensures threshold * delay <= window < (threshold + 1) * delay
    ensures Fetched(AfterCreate(s, id, window, window / delay), id, window) == Ok(Limits(window, 0, [], threshold))
  {
    threshold := window / delay;
    DivisionBounds(window, delay);
    CreateLaw(s, id, window, threshold);
  }

  /** What a limiter does to a stored threshold never takes it to zero. */
  lemma StepsKeepPositive(s: State, id: Bytes, window: nat, from: nat, aged: bool)
    requires Agree(s) && Positive(s) && Owner(id, window) && Owner(id, from)
    ensures Positive(AfterTry(s, id, window, aged))
    ensures Positive(AfterReset(s, id, window, from, from))
    ensures Positive(AfterCreate(s, id, window, window / 15))
  {
    RunTwo(s, SetThreshold(id, window), Get(id, window));
    OnePositive(s, Get(id, window));
    OnePositive(s, Get(id, from));
    OnePositive(s, Create(id, window, window / 15));
    var threshold := Share(window, from, ThresholdOf(Read(s, id, from)));
    if threshold != 0 { RunTwo(s, Get(id, from), Increase(id, window, threshold)); }
  }

  lemma RunTwo(s: State, op1: Op, op2: Op)
    requires Agree(s) && Positive(s) && Plain(op1) && Plain(op2)
    ensures Positive(After(After(s, op1), op2)) && Agree(After(After(s, op1), op2))
  {
    OnePositive(s, op1);
    OnePositive(After(s, op1), op2);
  }

  /** An operation of an owner that touches no batches and gives a positive threshold. */
  predicate Plain(op: Op) {
    !op.Add? && !op.Clean? && !op.Evict? && Owner(op.id, op.window) && GivesPositive(op)
  }

  lemma OnePositive(s: State, op: Op)
    requires Agree(s) && Positive(s) && Plain(op)
    ensures Positive(After(s, op)) && Agree(After(s, op))
  {
    assert Admissible(s, op);
    assert AdmissibleRun(After(s, op), []);
    assert [op][1..] == [] && Run(After(s, op), []) == After(s, op);
    assert AdmissibleRun(s, [op]) && Run(s, [op]) == After(s, op);
    RunPositive(s, [op]);
    StepAgrees(s, op);
  }

  class Limiter {
    const id: Bytes
    const duration: nat
    const resetDuration: nat
    const repo: L.LimiterRepo
    var fire: nat
    var resetLimiter: Limiter?
    var count: seq<int>

    constructor (duration: nat, resetDuration: nat, id: Bytes, repo: L.LimiterRepo)
      ensures this.duration == duration && this.resetDuration == resetDuration && this.id == id && this.repo == repo
      ensures fire == 0 && resetLimiter == null && count == []
    {
      this.duration, this.resetDuration, this.id, this.repo := duration, resetDuration, id, repo;
      fire, resetLimiter, count := 0, null, [];
    }

    ghost predicate Valid()
      reads this, repo, repo.region
    {
      repo.Valid() && this !in repo.region
    }

    method Threshold() returns (t: nat)
      requires repo.Valid()
      modifies repo`cache, repo`views, repo`region, repo`owner
      ensures repo.Valid() && fresh(repo.region - old(repo.region))
      ensures repo.Abs() == AfterFetch(old(repo.Abs()), id, duration)
      ensures t == ThresholdOf(Read(old(repo.Abs()), id, duration))
      ensures t == if Fetched(old(repo.Abs()), id, duration).Ok?
                   then Fetched(old(repo.Abs()), id, duration).value.threshold else 0
    {
      var rl := repo.GetRequestLimit(id, duration);
      t := if rl.Ok? then rl.value.1 else 0;
    }

    method Temp() returns (t: real)
      requires repo.Valid()
      modifies repo`cache, repo`views, repo`region, repo`owner
      ensures repo.Valid() && fresh(repo.region - old(repo.region))
      ensures repo.Abs() == AfterFetch(old(repo.Abs()), id, duration)
      ensures t == Heat(Read(old(repo.Abs()), id, duration), fire)
    {
      var rl := repo.GetRequestLimit(id, duration);
      if rl.Failed? {
        return 0.0;
      }
      t := Fullness(rl.value.0, rl.value.1);
      if fire > 0 {
        t := t + fire as real;
      }
    }

    /** Raises the fire level; once the window has passed since the start, the threshold is set to the
        present count first. */
    method TrySetThreshold(now: int, startTime: int) returns (r: Result<()>)
      requires Valid()
      modifies this`fire, repo`cache, repo`views, repo`region, repo`owner, repo.region, repo.db
      ensures Valid() && fresh(repo.region - old(repo.region))
      ensures repo.Abs() == AfterTry(old(repo.Abs()), id, duration, Aged(now, startTime, duration))
      ensures r.Failed? <==>
        now - startTime > duration * 1_000_000_000 && Fetched(old(repo.Abs()), id, duration).Failed?
      ensures fire == if r.Ok? then old(fire) + 1 else old(fire)
    {
      r := SettleThreshold(Aged(now, startTime, duration));
      if r.Ok? {
        ghost var known := repo.region;
        var rl := repo.GetRequestLimit(id, duration);
        assert fresh(repo.region - known);
        fire := fire + 1;
      }
    }

    /** Sets the threshold to the present count if the window has passed. */
    method SettleThreshold(aged: bool) returns (r: Result<()>)
      requires Valid()
      modifies repo`cache, repo`views, repo`region, repo`owner, repo.region, repo.db
      ensures Valid() && fresh(repo.region - old(repo.region))
      ensures repo.Abs() == if aged then AfterSetThreshold(old(repo.Abs()), id, duration) else old(repo.Abs())
      ensures r.Failed? <==> aged && Fetched(old(repo.Abs()), id, duration).Failed?
    {
      r := Ok(());
      if aged {
        r := repo.SetThreshold(id, duration);
      }
    }

    method RecommendedDelay() returns (r: Result<nat>)
      requires repo.Valid()
      modifies repo`cache, repo`views, repo`region, repo`owner
      ensures repo.Valid() && fresh(repo.region - old(repo.region))
      ensures repo.Abs() == AfterFetch(old(repo.Abs()), id, duration)
      ensures r == Recommended(Read(old(repo.Abs()), id, duration), duration)
    {
      var rl := repo.GetRequestLimit(id, duration);
      if rl.Failed? {
        return Failed(rl.fault);
      }
      if rl.value.1 == 0 || !(rl.value.1 <= rl.value.0) {
        return Ok(0);
      }
      r := Ok(Pace(duration, rl.value.1));
    }

    /** Creates the stored limits of the window unless there are some. */
    method Start(delay: nat) returns (r: Result<()>)
      requires repo.Valid() && delay > 0
      modifies repo.db
      ensures repo.Valid() && r == Ok(())
      ensures repo.Abs() == AfterCreate(old(repo.Abs()), id, duration, duration / delay)
    {
      var exist := repo.CheckIfExist(id, duration);
      if exist {
        return Ok(());
      }
      r := repo.Create(id, duration, duration / delay);
    }

    method Inc(now: int)
      modifies this`count
      ensures count == old(count) + [now]
    {
      count := count + [now];
    }

    // ----- the branches of the loop -----

    /** Records the oldest queued request; a request that fails to be recorded stays queued. */
    method TakeCount() returns (done: bool)
      requires Valid() && count != []
      modifies this`count, repo`cache, repo`views, repo`region, repo`owner, repo.region, repo.db
      ensures Valid() && fresh(repo.region - old(repo.region))
      ensures done <==> Fetched(old(repo.Abs()), id, duration).Ok?
      ensures count == if done then old(count)[1..] else old(count)
      ensures repo.Abs() == AfterAdd(old(repo.Abs()), id, duration, old(count)[0])
    {
      var r := repo.AddCounter(id, duration, count[0]);
      done := r.Ok?;
      if done {
        count := count[1..];
      }
    }

    method PutOutFire()
      modifies this`fire
      ensures fire == if old(fire) > 0 then old(fire) - 1 else 0
    {
      if fire > 0 {
        fire := fire - 1;
      }
    }

    method Clean(now: int)
      requires Valid()
      modifies repo`cache, repo`views, repo`region, repo`owner, repo.region, repo.db
      ensures Valid() && fresh(repo.region - old(repo.region))
      ensures repo.Abs() == AfterClean(old(repo.Abs()), id, duration, now)
    {
      var r := repo.CleanCounters(id, duration, now);
    }

    /** Raises the threshold to its share of the next larger window's. */
    method Reset() returns (r: Result<()>)
      requires Valid() && resetDuration > 0
      requires resetLimiter != null ==> resetLimiter.repo == repo && resetLimiter.id == id
      modifies repo`cache, repo`views, repo`region, repo`owner, repo.region, repo.db
      ensures Valid() && fresh(repo.region - old(repo.region))
      ensures r.Failed? ==> resetLimiter != null && Fetched(old(repo.Abs()), id, duration).Failed?
      ensures repo.Abs() == if resetLimiter == null then old(repo.Abs())
                            else AfterReset(old(repo.Abs()), id, duration, resetLimiter.duration, resetDuration)
    {
      if resetLimiter == null {
        return Ok(());
      }
      var from := resetLimiter.Threshold();
      var threshold := Share(duration, resetDuration, from);
      if threshold == 0 {
        return Ok(());
      }
      r := repo.IncreaseThresholdTo(id, duration, threshold);
    }
  }
}
