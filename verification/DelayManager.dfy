/** The delay manager of one account: a chain of window limiters, the fire levels it raises when the
    service refuses requests, and the delay it keeps between requests. */
module DelayManager {
  import opened Bytes
  import opened Records
  import opened Keys
  import opened RequestLimiter
  import opened RequestDrift
  import opened RequestLaws
  import opened WindowLimiter
  import L = LimiterRepo

  // ----- which limiter takes the fire -----

  /** From level 3 up, the first level some temperature is below, and the first limiter below it. */
  ghost predicate Settles(temps: seq<real>, level: nat, i: nat) {
    && level >= 3 && i < |temps| && temps[i] < level as real
    && (forall j :: 0 <= j < i ==> temps[j] >= level as real)
    && (level > 3 ==> forall j :: 0 <= j < |temps| ==> temps[j] >= (level - 1) as real)
  }

  /** Each temperature is its fire level plus a fullness in (0, 2]. */
  ghost predicate Warm(temps: seq<real>, fires: seq<nat>) {
    |temps| == |fires| && forall j :: 0 <= j < |fires| ==> fires[j] as real < temps[j] <= fires[j] as real + 2.0
  }

  /** No fire level is more than 3 above another. */
  ghost predicate Even(fires: seq<nat>) {
    forall i, j :: 0 <= i < |fires| && 0 <= j < |fires| ==> fires[i] <= fires[j] + 3
  }

  lemma SettlesOnce(temps: seq<real>, level: nat, i: nat, level2: nat, i2: nat)
    requires Settles(temps, level, i) && Settles(temps, level2, i2)
    ensures level == level2 && i == i2
  {
    SettlesNotLater(temps, level, i, level2, i2);
    SettlesNotLater(temps, level2, i2, level, i);
  }

  lemma SettlesNotLater(temps: seq<real>, level: nat, i: nat, level2: nat, i2: nat)
    requires Settles(temps, level, i) && Settles(temps, level2, i2)
    ensures level2 <= level
  {
    assert level2 > 3 ==> temps[i] >= (level2 - 1) as real;
  }

  /** Every level below this one has failed. */
  ghost predicate ReachedLevel(temps: seq<real>, level: nat) {
    level >= 3 && (level > 3 ==> forall j :: 0 <= j < |temps| ==> temps[j] >= (level - 1) as real)
  }

  lemma {:induction false} FirstBelow(temps: seq<real>, level: nat, i: nat) returns (first: nat)
    requires i < |temps| && temps[i] < level as real
    ensures first <= i && temps[first] < level as real
    ensures forall j :: 0 <= j < first ==> temps[j] >= level as real
  {
    if j :| 0 <= j < i && temps[j] < level as real {
      first := FirstBelow(temps, level, j);
    } else {
      first := i;
    }
  }

  lemma AboveFloor(t: real, level: nat)
    requires t >= level as real
    ensures t.Floor >= level
  {}

  /** The search through the levels ends. */
  lemma {:induction false} SettlesSomewhere(temps: seq<real>, level: nat) returns (settled: nat, i: nat)
    requires temps != [] && ReachedLevel(temps, level)
    ensures Settles(temps, settled, i)
    decreases temps[0].Floor + 1 - level
  {
    if j :| 0 <= j < |temps| && temps[j] < level as real {
      settled := level;
      i := FirstBelow(temps, level, j);
    } else {
      AboveFloor(temps[0], level);
      settled, i := SettlesSomewhere(temps, level + 1);
    }
  }

  ghost predicate TakesFire(temps: seq<real>, i: nat) {
    exists level: nat :: Settles(temps, level, i)
  }

  lemma SomeTakesFire(temps: seq<real>)
    requires temps != []
    ensures exists i: nat :: TakesFire(temps, i)
  {
    var level, i := SettlesSomewhere(temps, 3);
    assert TakesFire(temps, i);
  }

  /** The limiter a refusal is charged to. */
  ghost function Charged(temps: seq<real>): (i: nat)
    requires temps != []
    ensures i < |temps| && TakesFire(temps, i)
  {
    SomeTakesFire(temps);
    var i: nat :| TakesFire(temps, i);
    i
  }

  lemma ChargedIs(temps: seq<real>, level: nat, i: nat)
    requires Settles(temps, level, i)
    ensures Charged(temps) == i
  {
    var level2: nat :| Settles(temps, level2, Charged(temps));
    SettlesOnce(temps, level, i, level2, Charged(temps));
  }

  lemma BelowLevel(fire: nat, temp: real, level: nat)
    requires fire as real < temp < level as real
    ensures fire < level
  {}

  lemma AtLevel(fire: nat, temp: real, level: nat)
    requires temp <= fire as real + 2.0 && temp >= level as real
    ensures fire + 2 >= level
  {}

  /** One refusal keeps the fire levels even, whatever the windows' fullness is at that time. */
  lemma RefusalKeepsEven(temps: seq<real>, fires: seq<nat>)
    requires Warm(temps, fires) && Even(fires) && fires != []
    ensures Even(fires[Charged(temps) := fires[Charged(temps)] + 1])
  {
    var i := Charged(temps);
    var level: nat :| Settles(temps, level, i);
    BelowLevel(fires[i], temps[i], level);
    forall j | 0 <= j < |fires| ensures fires[i] + 1 <= fires[j] + 3 {
      if level > 3 { AtLevel(fires[j], temps[j], level - 1); }
    }
  }

  // ----- runs of refusals -----

  function Heats(readings: seq<Reading>, fires: seq<nat>): (temps: seq<real>)
    requires |readings| == |fires|
    ensures |temps| == |fires|
  {
    seq(|fires|, i requires 0 <= i < |fires| => Heat(readings[i], fires[i]))
  }

  /** Readings of n windows at each of a run of refusals. */
  predicate Chain(events: seq<seq<Reading>>, n: nat) {
    forall e :: e in events ==> |e| == n
  }

  ghost function AfterRefusal(fires: seq<nat>, readings: seq<Reading>): (after: seq<nat>)
    requires |readings| == |fires| && fires != []
    ensures |after| == |fires|
  {
    Raised(fires, Charged(Heats(readings, fires)))
  }

  /** From level 3 up, the limiter charged is the first one whose temperature is below the level, at the
      first level that any is below. */
  lemma ChargedMeans(readings: seq<Reading>, fires: seq<nat>) returns (level: nat)
    requires |readings| == |fires| && fires != []
    ensures var i := Charged(Heats(readings, fires));
            && level >= 3 && i < |fires| && Heat(readings[i], fires[i]) < level as real
            && (forall j :: 0 <= j < i ==> Heat(readings[j], fires[j]) >= level as real)
            && (level > 3 ==> forall j :: 0 <= j < |fires| ==> Heat(readings[j], fires[j]) >= (level - 1) as real)
  {
    var temps := Heats(readings, fires);
    level :| Settles(temps, level, Charged(temps));
    assert forall j :: 0 <= j < |fires| ==> temps[j] == Heat(readings[j], fires[j]);
  }

  /** A refusal raises the fire level of the limiter charged by one, and no other. */
  lemma RefusalRaises(fires: seq<nat>, readings: seq<Reading>, i: nat)
    requires |readings| == |fires| && i < |fires|
    ensures AfterRefusal(fires, readings)[i] == fires[i] + if i == Charged(Heats(readings, fires)) then 1 else 0
  {}

  /** The fire levels after a run of refusals with nothing cooling down in between; the windows are
      read anew each time. */
  ghost function AfterRefusals(fires: seq<nat>, events: seq<seq<Reading>>): (after: seq<nat>)
    requires fires != [] && Chain(events, |fires|)
    ensures |after| == |fires|
    decreases |events|
  {
    if events == [] then fires
    else
      assert events[0] in events && forall e :: e in events[1..] ==> e in events;
      AfterRefusals(AfterRefusal(fires, events[0]), events[1..])
  }

  predicate AllRead(readings: seq<Reading>) {
    forall r :: r in readings ==> r.Ok?
  }

  lemma ReadIsWarm(readings: seq<Reading>, fires: seq<nat>)
    requires |readings| == |fires| && AllRead(readings)
    ensures Warm(Heats(readings, fires), fires)
  {
    forall j | 0 <= j < |fires| ensures fires[j] as real < Heats(readings, fires)[j] <= fires[j] as real + 2.0 {
      assert readings[j] in readings;
    }
  }

  /** As long as the windows can be read, no run of refusals drives two limiters' fire levels more
      than 3 apart. */
  lemma {:induction false} RefusalsStayEven(fires: seq<nat>, events: seq<seq<Reading>>)
    requires fires != [] && Chain(events, |fires|) && Even(fires)
    requires forall e :: e in events ==> AllRead(e)
    ensures Even(AfterRefusals(fires, events))
    decreases |events|
  {
    if events != [] {
      assert events[0] in events && forall e :: e in events[1..] ==> e in events;
      ReadIsWarm(events[0], fires);
      RefusalKeepsEven(Heats(events[0], fires), fires);
      RefusalsStayEven(AfterRefusal(fires, events[0]), events[1..]);
    }
  }

  /** The first window that cannot be read, or the number of windows. */
  function FirstUnread(readings: seq<Reading>): (p: nat)
    ensures p <= |readings|
    ensures forall j :: 0 <= j < p ==> readings[j].Ok?
    ensures p < |readings| ==> readings[p].Failed?
  {
    if readings == [] || readings[0].Failed? then 0 else 1 + FirstUnread(readings[1..])
  }

  /** A window that cannot be read shows no fire: the first such window takes the refusal exactly when
      all windows before it read at least 3. */
  lemma UnreadCharged(readings: seq<Reading>, fires: seq<nat>)
    requires |readings| == |fires| && FirstUnread(readings) < |readings|
    ensures var p, temps := FirstUnread(readings), Heats(readings, fires);
            Charged(temps) == p <==> forall j :: 0 <= j < p ==> temps[j] >= 3.0
  {
    var p, temps := FirstUnread(readings), Heats(readings, fires);
    assert temps[p] == 0.0;
    var first := FirstBelow(temps, 3, p);
    ChargedIs(temps, 3, first);
  }

  lemma UnreadTakes(readings: seq<Reading>, fires: seq<nat>)
    requires |readings| == |fires| && FirstUnread(readings) < |readings|
    requires forall j :: 0 <= j < FirstUnread(readings) ==> fires[j] >= 3
    ensures AfterRefusal(fires, readings) == Raised(fires, FirstUnread(readings))
  {
    UnreadCharged(readings, fires);
  }

  lemma RaisedMore(fires: seq<nat>, p: nat, n: nat)
    requires p < |fires|
    ensures Raised(fires, p)[p := Raised(fires, p)[p] + n] == fires[p := fires[p] + (n + 1)]
  {}

  /** So over a run: with the windows before it at fire level 3 or more it takes every refusal, without
      bound. */
  lemma {:induction false} UnreadTakesAll(fires: seq<nat>, events: seq<seq<Reading>>, p: nat)
    requires Chain(events, |fires|) && p < |fires| && forall j :: 0 <= j < p ==> fires[j] >= 3
    requires forall e :: e in events ==> FirstUnread(e) == p
    ensures AfterRefusals(fires, events) == fires[p := fires[p] + |events|]
    decreases |events|
  {
    if events != [] {
      var e, rest := events[0], events[1..];
      assert e in events && forall x :: x in rest ==> x in events;
      UnreadTakes(e, fires);
      UnreadTakesAll(Raised(fires, p), rest, p);
      RaisedMore(fires, p, |rest|);
    }
  }

  /** Fire levels of which one refusal makes an uneven set, unless all windows can be read. */
  function Uneven(readings: seq<Reading>): (fires: seq<nat>)
    ensures |fires| == |readings|
  {
    seq(|readings|, i requires 0 <= i < |readings| => if i == FirstUnread(readings) then 6 else 3)
  }

  /** A refusal keeps all even fire levels even exactly when all windows can be read, or there is only one. */
  lemma EvenKeptWhen(readings: seq<Reading>)
    requires readings != []
    ensures (forall fires: seq<nat> :: |fires| == |readings| && Even(fires) ==> Even(AfterRefusal(fires, readings)))
      <==> |readings| == 1 || AllRead(readings)
  {
    if |readings| == 1 || AllRead(readings) {
      forall fires: seq<nat> | |fires| == |readings| && Even(fires) ensures Even(AfterRefusal(fires, readings)) {
        if AllRead(readings) {
          ReadIsWarm(readings, fires);
          RefusalKeepsEven(Heats(readings, fires), fires);
        }
      }
    } else {
      BecomesUneven(readings);
    }
  }

  lemma BecomesUneven(readings: seq<Reading>)
    requires |readings| > 1 && !AllRead(readings)
    ensures Even(Uneven(readings)) && !Even(AfterRefusal(Uneven(readings), readings))
  {
    var fires, p := Uneven(readings), FirstUnread(readings);
    UnreadSomewhere(readings);
    UnreadCharged(readings, fires);
    var after, q := AfterRefusal(fires, readings), if p == 0 then 1 else 0;
    assert after[p] == 7 && after[q] == 3;
  }

  lemma UnreadSomewhere(readings: seq<Reading>)
    requires !AllRead(readings)
    ensures FirstUnread(readings) < |readings|
  {
    var r :| r in readings && !r.Ok?;
    var i :| 0 <= i < |readings| && readings[i] == r;
  }

  /** Two windows with little in them: below fire level 3 the first takes the refusal. */
  lemma FirstAgain(fire: nat, r: Reading, rest: seq<seq<Reading>>)
    requires r.Ok? && Fullness(r.value.0, r.value.1) < 1.0 && fire <= 2 && Chain(rest, 2)
    ensures Chain([[r, r]] + rest, 2)
    ensures AfterRefusals([fire, 0], [[r, r]] + rest) == AfterRefusals([fire + 1, 0], rest)
  {
    var e := [r, r];
    ChargedIs(Heats(e, [fire, 0]), 3, 0);
    assert AfterRefusal([fire, 0], e) == [fire + 1, 0];
    assert ([e] + rest)[0] == e && ([e] + rest)[1..] == rest;
  }

  /** The bound of 3 is met: three refusals on two windows with little in them. */
  lemma ThreeApart(r: Reading)
    requires r.Ok? && Fullness(r.value.0, r.value.1) < 1.0
    ensures AfterRefusals([0, 0], [[r, r]] + ([[r, r]] + ([[r, r]] + []))) == [3, 0]
  {
    FirstAgain(2, r, []);
    FirstAgain(1, r, [[r, r]] + []);
    FirstAgain(0, r, [[r, r]] + ([[r, r]] + []));
  }

  // ----- the delay -----

  function Decreased(delay: int): int {
    if delay <= 1 then delay else if delay < 6 then delay - 1 else delay / 2
  }

  function Scaled(rec: nat, factor: nat): nat { rec * factor }

  /** A recommendation that ends the pass: unreadable, or asking for another delay. */
  predicate Stops(delay: int, rec: Result<nat>, factor: nat) {
    rec.Failed? || (rec.value > 0 && Scaled(rec.value, factor) != delay)
  }

  predicate NoStop(delay: int, recs: seq<Result<nat>>, factor: nat, n: nat)
    requires n <= |recs|
  {
    forall i :: 0 <= i < n ==> !Stops(delay, recs[i], factor)
  }

  predicate NoDelay(rec: Result<nat>) { rec.Ok? && rec.value == 0 }

  /** None of the first n limiters recommends a delay. */
  predicate Idle(recs: seq<Result<nat>>, n: nat)
    requires n <= |recs|
  {
    forall i :: 0 <= i < n ==> NoDelay(recs[i])
  }

  /** What a recommendation that ends the pass leaves. */
  ghost predicate EndsWith(delay: int, rec: Result<nat>, factor: nat, r: Result<()>, next: int) {
    if rec.Failed? then r == Failed(rec.fault) && next == delay
    else r == Ok(()) && next == Scaled(rec.value, factor)
  }

  /** What a pass over the recommendations ends with: the k-th one ends it, or none does. */
  ghost predicate Recalculation(delay: int, recs: seq<Result<nat>>, factor: nat, k: nat, r: Result<()>, next: int) {
    && k <= |recs| && NoStop(delay, recs, factor, k)
    && (if k == |recs| then
          r == Ok(()) && next == if Idle(recs, k) then Decreased(delay) else delay
        else
          Stops(delay, recs[k], factor) && EndsWith(delay, recs[k], factor, r, next))
  }

  /** Up to the k-th, every recommendation is none or asks for the present delay. The k-th decides: an
      error changes nothing, any other delay is taken. Without such a one the delay stays, unless none is
      recommended at all: then it is halved from 6 up, and lowered by one down to 1. */
  lemma RecalculationMeans(delay: int, recs: seq<Result<nat>>, factor: nat, k: nat, r: Result<()>, next: int)
    requires Recalculation(delay, recs, factor, k, r, next)
    ensures k <= |recs|
    ensures forall i :: 0 <= i < k ==> recs[i].Ok? && (recs[i].value == 0 || recs[i].value * factor == delay)
    ensures k < |recs| ==>
              if recs[k].Failed? then r == Failed(recs[k].fault) && next == delay
              else recs[k].value > 0 && recs[k].value * factor != delay && r == Ok(()) && next == recs[k].value * factor
    ensures k == |recs| ==>
              && r == Ok(())
              && if exists i :: 0 <= i < |recs| && recs[i].value != 0 then next == delay
                 else if delay <= 1 then next == delay
                 else if delay <= 5 then next == delay - 1
                 else 2 * next <= delay <= 2 * next + 1
  {
    forall i | 0 <= i < k ensures recs[i].Ok? && (recs[i].value == 0 || recs[i].value * factor == delay) {
      assert !Stops(delay, recs[i], factor);
    }
    if k == |recs| {
      if i :| 0 <= i < |recs| && recs[i].value != 0 { assert !NoDelay(recs[i]); }
    }
  }

  /** The recommendations determine the outcome. */
  lemma RecalculationUnique(delay: int, recs: seq<Result<nat>>, factor: nat,
                            k1: nat, r1: Result<()>, next1: int, k2: nat, r2: Result<()>, next2: int)
    requires Recalculation(delay, recs, factor, k1, r1, next1) && Recalculation(delay, recs, factor, k2, r2, next2)
    ensures k1 == k2 && r1 == r2 && next1 == next2
  {
    StopsNotLater(delay, recs, factor, k1, r1, next1, k2, r2, next2);
    StopsNotLater(delay, recs, factor, k2, r2, next2, k1, r1, next1);
  }

  lemma StopsNotLater(delay: int, recs: seq<Result<nat>>, factor: nat,
                      k1: nat, r1: Result<()>, next1: int, k2: nat, r2: Result<()>, next2: int)
    requires Recalculation(delay, recs, factor, k1, r1, next1) && Recalculation(delay, recs, factor, k2, r2, next2)
    ensures k2 <= k1
  {
    assert k1 < |recs| ==> Stops(delay, recs[k1], factor);
  }

  lemma PassNext(delay: int, recs: seq<Result<nat>>, factor: nat, i: nat)
    requires i < |recs| && NoStop(delay, recs, factor, i)
    ensures Stops(delay, recs[i], factor) ==>
      forall r, next :: Recalculation(delay, recs, factor, i, r, next) <==> EndsWith(delay, recs[i], factor, r, next)
    ensures !Stops(delay, recs[i], factor) ==> NoStop(delay, recs, factor, i + 1)
    ensures Idle(recs, i + 1) == (Idle(recs, i) && NoDelay(recs[i]))
  {}

  lemma AtLeastFactor(rec: nat, factor: nat)
    requires rec > 0 && factor > 0
    ensures Scaled(rec, factor) >= 1
  {}

  /** The delay never falls below 1. */
  lemma DelayStaysPositive(delay: int, recs: seq<Result<nat>>, factor: nat, k: nat, r: Result<()>, next: int)
    requires delay >= 1 && factor > 0 && Recalculation(delay, recs, factor, k, r, next)
    ensures next >= 1
  {
    if k < |recs| && recs[k].Ok? && recs[k].value > 0 { AtLeastFactor(recs[k].value, factor); }
  }

  lemma IdleNeverStops(delay: int, recs: seq<Result<nat>>, factor: nat)
    requires Idle(recs, |recs|)
    ensures NoStop(delay, recs, factor, |recs|)
  {}

  /** When all windows can be read, the delay becomes one that is recommended if any is, and decreases
      if none is. */
  lemma FollowsRecommendations(delay: int, recs: seq<Result<nat>>, factor: nat, k: nat, r: Result<()>, next: int)
    requires Recalculation(delay, recs, factor, k, r, next) && forall i :: 0 <= i < |recs| ==> recs[i].Ok?
    ensures r == Ok(())
    ensures if Idle(recs, |recs|) then next == Decreased(delay)
            else exists i :: 0 <= i < |recs| && recs[i].value > 0 && next == Scaled(recs[i].value, factor)
  {
    if Idle(recs, |recs|) {
      IdleNeverStops(delay, recs, factor);
    } else if k == |recs| {
      var i :| 0 <= i < |recs| && !NoDelay(recs[i]);
      assert !Stops(delay, recs[i], factor);
      assert recs[i].value > 0 && next == Scaled(recs[i].value, factor);
    } else {
      assert recs[k].value > 0;
    }
  }

  function Pow2(k: nat): nat { if k == 0 then 1 else 2 * Pow2(k - 1) }

  /** The delay after n passes without a recommendation. */
  function Idled(delay: int, n: nat): int {
    if n == 0 then delay else Idled(Decreased(delay), n - 1)
  }

  lemma {:induction false} IdleStaysAtOne(n: nat)
    ensures Idled(1, n) == 1
  {
    if n > 0 { IdleStaysAtOne(n - 1); }
  }

  /** Without recommendations the delay reaches 1 within k + 4 passes and stays there. */
  lemma {:induction false} IdleReachesOne(delay: int, k: nat, n: nat)
    requires 1 <= delay < 6 * Pow2(k) && n >= k + 4
    ensures Idled(delay, n) == 1
    decreases n
  {
    if delay == 1 {
      IdleStaysAtOne(n);
    } else if delay < 6 {
      LastPasses(delay, n);
    } else {
      IdleReachesOne(delay / 2, k - 1, n - 1);
    }
  }

  lemma {:induction false} LastPasses(delay: int, n: nat)
    requires 1 <= delay < 6 && n >= delay - 1
    ensures Idled(delay, n) == 1
  {
    if delay == 1 { IdleStaysAtOne(n); } else { LastPasses(delay - 1, n - 1); }
  }

  /** The bound is met: from the largest delay for k, one pass fewer does not do. */
  lemma {:induction false} IdleBoundTight(k: nat)
    ensures Idled(6 * Pow2(k) - 1, k + 3) == 2
  {
    if k == 0 {
      assert Idled(5, 3) == Idled(4, 2) == Idled(3, 1) == Idled(2, 0);
    } else {
      Pow2Positive(k - 1);
      assert Decreased(6 * Pow2(k) - 1) == 6 * Pow2(k - 1) - 1;
      IdleBoundTight(k - 1);
    }
  }

  lemma {:induction false} Pow2Positive(k: nat)
    ensures Pow2(k) >= 1
  {
    if k > 0 { Pow2Positive(k - 1); }
  }

  // ----- reading all windows -----

  /** The state after all the windows have been read. */
  ghost function FetchAll(s: State, ws: seq<(Bytes, nat)>): State
    decreases |ws|
  {
    if ws == [] then s
    else
      var n := |ws| - 1;
      AfterFetch(FetchAll(s, ws[..n]), ws[n].0, ws[n].1)
  }

  lemma FetchOneMore(s: State, ws: seq<(Bytes, nat)>, i: nat)
    requires i < |ws|
    ensures FetchAll(s, ws[..i + 1]) == AfterFetch(FetchAll(s, ws[..i]), ws[i].0, ws[i].1)
  {
    assert ws[..i + 1][..i] == ws[..i];
  }

  lemma SameKeySameLoad(m: Table, id: Bytes, window: nat, id2: Bytes, window2: nat)
    requires RequestLimitsKey(id, window) == RequestLimitsKey(id2, window2)
    ensures Loaded(m, id, window) == Loaded(m, id2, window2)
  {
    assert RequestLimitsKey(id, window)[2..] == id + WindowBytes(window);
    assert RequestLimitsKey(id2, window2)[2..] == id2 + WindowBytes(window2);
    assert RequestsPrefix(id, window) == REQUESTS + (id + WindowBytes(window));
    assert RequestsPrefix(id2, window2) == REQUESTS + (id2 + WindowBytes(window2));
  }

  /** Fetching caches what is read and changes no reading. */
  lemma FetchKeepsReadings(s: State, id: Bytes, window: nat, id2: Bytes, window2: nat)
    ensures Fetched(AfterFetch(s, id, window), id2, window2) == Fetched(s, id2, window2)
  {
    if RequestLimitsKey(id, window) == RequestLimitsKey(id2, window2) {
      SameKeySameLoad(s.store, id, window, id2, window2);
    }
  }

  lemma {:induction false} FetchAllKeepsReadings(s: State, ws: seq<(Bytes, nat)>, id: Bytes, window: nat)
    ensures Fetched(FetchAll(s, ws), id, window) == Fetched(s, id, window)
    decreases |ws|
  {
    if ws != [] {
      var n := |ws| - 1;
      FetchKeepsReadings(FetchAll(s, ws[..n]), ws[n].0, ws[n].1, id, window);
      FetchAllKeepsReadings(s, ws[..n], id, window);
    }
  }

  /** Reading windows keeps everybody in agreement. */
  lemma {:induction false} FetchAllAgrees(s: State, ws: seq<(Bytes, nat)>)
    requires Agree(s) && forall w :: w in ws ==> Owner(w.0, w.1)
    ensures Agree(FetchAll(s, ws)) && FetchAll(s, ws).store == s.store
    decreases |ws|
  {
    if ws != [] {
      var n := |ws| - 1;
      assert ws[n] in ws && forall w :: w in ws[..n] ==> w in ws;
      FetchAllAgrees(s, ws[..n]);
      FetchKeepsAgreement(FetchAll(s, ws[..n]), ws[n].0, ws[n].1);
    }
  }

  predicate Caches(s: State, key: Bytes, l: Limits) { key in s.cache && s.cache[key] == l }

  lemma FetchKeepsCached(s: State, id: Bytes, window: nat, key: Bytes, l: Limits)
    requires Caches(s, key, l)
    ensures Caches(AfterFetch(s, id, window), key, l)
  {}

  lemma FetchCaches(s: State, id: Bytes, window: nat, l: Limits)
    requires Fetched(s, id, window) == Ok(l)
    ensures Caches(AfterFetch(s, id, window), RequestLimitsKey(id, window), l)
  {}

  /** A window whose reading is cached, or that is read next, is cached afterwards. */
  lemma CachedNext(prior: State, w: (Bytes, nat), next: (Bytes, nat), l: Limits)
    requires Caches(prior, RequestLimitsKey(w.0, w.1), l) || (w == next && Fetched(prior, w.0, w.1) == Ok(l))
    ensures Caches(AfterFetch(prior, next.0, next.1), RequestLimitsKey(w.0, w.1), l)
  {
    if Caches(prior, RequestLimitsKey(w.0, w.1), l) {
      FetchKeepsCached(prior, next.0, next.1, RequestLimitsKey(w.0, w.1), l);
    } else {
      FetchCaches(prior, w.0, w.1, l);
    }
  }

  lemma InFront(ws: seq<(Bytes, nat)>, w: (Bytes, nat))
    requires w in ws
    ensures w in ws[..|ws| - 1] || w == ws[|ws| - 1]
  {}

  lemma {:induction false} FetchedIsCached(s: State, ws: seq<(Bytes, nat)>, w: (Bytes, nat), l: Limits)
    requires w in ws && Fetched(s, w.0, w.1) == Ok(l)
    ensures Caches(FetchAll(s, ws), RequestLimitsKey(w.0, w.1), l)
    decreases |ws|
  {
    var front, last := ws[..|ws| - 1], ws[|ws| - 1];
    InFront(ws, w);
    if w in front {
      FetchedIsCached(s, front, w, l);
    } else {
      FetchAllKeepsReadings(s, front, w.0, w.1);
    }
    CachedNext(FetchAll(s, front), w, last, l);
  }

  lemma FetchCached(s: State, id: Bytes, window: nat, l: Limits)
    requires Caches(s, RequestLimitsKey(id, window), l)
    ensures AfterFetch(s, id, window) == s
  {}

  lemma FetchFails(s: State, id: Bytes, window: nat)
    requires Fetched(s, id, window).Failed?
    ensures AfterFetch(s, id, window) == s
  {}

  /** Reading a window again changes nothing. */
  lemma FetchAgain(s: State, ws: seq<(Bytes, nat)>, i: nat)
    requires i < |ws|
    ensures AfterFetch(FetchAll(s, ws), ws[i].0, ws[i].1) == FetchAll(s, ws)
  {
    var fetched := Fetched(s, ws[i].0, ws[i].1);
    if fetched.Ok? {
      FetchedIsCached(s, ws, ws[i], fetched.value);
      FetchCached(FetchAll(s, ws), ws[i].0, ws[i].1, fetched.value);
    } else {
      FetchAllKeepsReadings(s, ws, ws[i].0, ws[i].1);
      FetchFails(FetchAll(s, ws), ws[i].0, ws[i].1);
    }
  }

  // ----- the manager -----

  class DelayManager {
    const repo: L.LimiterRepo
    const windowLimiters: seq<Limiter>
    const startTime: int
    var delay: int
    /** The delay last given to the scraper. */
    var scraperDelay: int
    /** Recalculations asked for and not yet made. */
    var forced: nat

    constructor (windowLimiters: seq<Limiter>, minimalDelay: int, now: int, repo: L.LimiterRepo)
      ensures this.windowLimiters == windowLimiters && this.repo == repo && startTime == now
      ensures delay == minimalDelay && forced == 0
    {
      this.windowLimiters, this.repo, startTime := windowLimiters, repo, now;
      delay, forced := minimalDelay, 0;
    }

    /** The limiters are distinct and share the repository. */
    ghost predicate Chained() {
      && (forall l :: l in windowLimiters ==> l.repo == repo)
      && (forall i, j :: 0 <= i < j < |windowLimiters| ==> windowLimiters[i] != windowLimiters[j])
    }

    /** They are not among the cached records. */
    ghost predicate Valid()
      reads this, repo, repo.region
    {
      Chained() && repo.Valid() && this !in repo.region && forall l :: l in windowLimiters ==> l !in repo.region
    }

    ghost function Windows(): (ws: seq<(Bytes, nat)>)
      ensures |ws| == |windowLimiters|
    {
      seq(|windowLimiters|, i requires 0 <= i < |windowLimiters| => (windowLimiters[i].id, windowLimiters[i].duration))
    }

    ghost function Fires(): (fires: seq<nat>)
      reads windowLimiters
      ensures |fires| == |windowLimiters|
    {
      seq(|windowLimiters|, i requires 0 <= i < |windowLimiters| reads windowLimiters => windowLimiters[i].fire)
    }

    ghost function Readings(s: State): (rs: seq<Reading>)
      ensures |rs| == |windowLimiters|
    {
      seq(|windowLimiters|, i requires 0 <= i < |windowLimiters| =>
        Read(s, windowLimiters[i].id, windowLimiters[i].duration))
    }

    /** Reads the temperature of one limiter of the chain. */
    method ReadTemp(i: nat, ghost s: State) returns (temp: real)
      requires Chained() && repo.Valid() && i < |windowLimiters|
      requires Read(repo.Abs(), windowLimiters[i].id, windowLimiters[i].duration) == Readings(s)[i]
      modifies repo`cache, repo`views, repo`region, repo`owner
      ensures repo.Valid() && fresh(repo.region - old(repo.region))
      ensures repo.Abs() == AfterFetch(old(repo.Abs()), Windows()[i].0, Windows()[i].1)
      ensures Fires() == old(Fires()) && temp == Heats(Readings(s), Fires())[i]
    {
      assert windowLimiters[i] in windowLimiters;
      temp := windowLimiters[i].Temp();
    }

    /** Reads the next temperature in a pass over the chain. */
    method ReadNextTemp(i: nat, ghost s: State, ghost temps: seq<real>) returns (temp: real)
      requires Chained() && repo.Valid() && i < |windowLimiters| && repo.Abs() == FetchAll(s, Windows()[..i])
      requires temps == Heats(Readings(s), Fires())
      modifies repo`cache, repo`views, repo`region, repo`owner
      ensures repo.Valid() && fresh(repo.region - old(repo.region)) && repo.Abs() == FetchAll(s, Windows()[..i + 1])
      ensures Fires() == old(Fires()) && temp == temps[i]
    {
      FetchAllKeepsReadings(s, Windows()[..i], Windows()[i].0, Windows()[i].1);
      FetchOneMore(s, Windows(), i);
      temp := ReadTemp(i, s);
    }

    /** Reads a temperature once all windows have been read. */
    method ReadTempAgain(i: nat, ghost s: State, ghost temps: seq<real>) returns (temp: real)
      requires Chained() && repo.Valid() && i < |windowLimiters| && repo.Abs() == FetchAll(s, Windows())
      requires temps == Heats(Readings(s), Fires())
      modifies repo`cache, repo`views, repo`region, repo`owner
      ensures repo.Valid() && fresh(repo.region - old(repo.region)) && repo.Abs() == old(repo.Abs())
      ensures Fires() == old(Fires()) && temp == temps[i]
    {
      FetchAllKeepsReadings(s, Windows(), Windows()[i].0, Windows()[i].1);
      FetchAgain(s, Windows(), i);
      temp := ReadTemp(i, s);
    }

    /** The highest temperature of the chain. */
    method CurrentTemp() returns (temp: real)
      requires Chained() && repo.Valid()
      modifies repo`cache, repo`views, repo`region, repo`owner
      ensures repo.Valid() && fresh(repo.region - old(repo.region))
      ensures repo.Abs() == FetchAll(old(repo.Abs()), Windows())
      ensures Highest(Heats(Readings(old(repo.Abs())), Fires()), |windowLimiters|, temp)
    {
      temp := 0.0;
      ghost var s, fires := repo.Abs(), Fires();
      ghost var temps := Heats(Readings(s), fires);
      for i := 0 to |windowLimiters|
        invariant repo.Valid() && fresh(repo.region - old(repo.region))
        invariant repo.Abs() == FetchAll(s, Windows()[..i])
        invariant fires == Fires() && Highest(temps, i, temp)
      {
        ghost var known := repo.region;
        temp := Hotter(i, temp, s, temps);
        assert fresh(repo.region - known);
      }
      assert Windows()[..|windowLimiters|] == Windows();
    }

    /** The larger of a temperature and the next limiter's. */
    method Hotter(i: nat, temp: real, ghost s: State, ghost temps: seq<real>) returns (hotter: real)
      requires Chained() && repo.Valid() && i < |windowLimiters| && repo.Abs() == FetchAll(s, Windows()[..i])
      requires temps == Heats(Readings(s), Fires()) && Highest(temps, i, temp)
      modifies repo`cache, repo`views, repo`region, repo`owner
      ensures repo.Valid() && fresh(repo.region - old(repo.region)) && repo.Abs() == FetchAll(s, Windows()[..i + 1])
      ensures Fires() == old(Fires()) && Highest(temps, i + 1, hotter)
    {
      var tr := ReadNextTemp(i, s, temps);
      HighestNext(temps, i, temp);
      hotter := if tr > temp then tr else temp;
    }

    /** Looks for the first limiter below the level. All windows have been read before. */
    method ScanLevel(level: nat, ghost s: State, ghost temps: seq<real>) returns (found: bool, i: nat)
      requires Chained() && repo.Valid() && repo.Abs() == FetchAll(s, Windows())
      requires temps == Heats(Readings(s), Fires())
      modifies repo`cache, repo`views, repo`region, repo`owner
      ensures repo.Valid() && fresh(repo.region - old(repo.region)) && repo.Abs() == old(repo.Abs())
      ensures Fires() == old(Fires()) && FirstUnder(temps, level, found, i)
    {
      ghost var fires := Fires();
      found, i := false, 0;
      while i < |windowLimiters|
        invariant i <= |windowLimiters| && repo.Valid() && fresh(repo.region - old(repo.region))
        invariant repo.Abs() == old(repo.Abs()) && fires == Fires()
        invariant NoneUnder(temps, level, i)
      {
        ghost var known := repo.region;
        var temp := ReadTempAgain(i, s, temps);
        assert fresh(repo.region - known);
        NoneUnderNext(temps, level, i);
        if temp < level as real {
          return true, i;
        }
        i := i + 1;
      }
    }

    /** Searches level after level for a limiter to charge. */
    method FindCharged(ghost s: State, ghost temps: seq<real>) returns (i: nat)
      requires Chained() && repo.Valid() && repo.Abs() == FetchAll(s, Windows()) && windowLimiters != []
      requires temps == Heats(Readings(s), Fires())
      modifies repo`cache, repo`views, repo`region, repo`owner
      ensures repo.Valid() && fresh(repo.region - old(repo.region)) && repo.Abs() == old(repo.Abs())
      ensures Fires() == old(Fires()) && i == Charged(temps)
    {
      var level, found := 3, false;
      ghost var fires := Fires();
      i := 0;
      while !found
        invariant repo.Valid() && fresh(repo.region - old(repo.region)) && repo.Abs() == old(repo.Abs())
        invariant fires == Fires() && (if found then i == Charged(temps) else ReachedLevel(temps, level))
        decreases !found, temps[0].Floor + 1 - level
      {
        ghost var known := repo.region;
        found, i := ScanLevel(level, s, temps);
        assert fresh(repo.region - known);
        LevelDone(temps, level, found, i);
        level := level + 1;
      }
    }

    /** Raises the fire level of one limiter. */
    method Charge(i: nat, now: int) returns (r: Result<()>)
      requires Chained() && repo.Valid() && i < |windowLimiters|
      requires forall l :: l in windowLimiters ==> l !in repo.region
      modifies windowLimiters`fire, repo`cache, repo`views, repo`region, repo`owner, repo.region, repo.db
      ensures repo.Valid() && fresh(repo.region - old(repo.region))
      ensures repo.Abs() == AfterCharge(old(repo.Abs()), Windows()[i], now, startTime)
      ensures r.Failed? <==> ChargeFails(old(repo.Abs()), Windows()[i], now, startTime)
      ensures Fires() == if r.Ok? then Raised(old(Fires()), i) else old(Fires())
    {
      assert windowLimiters[i] in windowLimiters;
      r := windowLimiters[i].TrySetThreshold(now, startTime);
      assert forall j :: 0 <= j < |windowLimiters| && j != i ==> windowLimiters[j].fire == old(windowLimiters[j].fire);
    }

    /** Finds the limiter to charge and raises its fire level. */
    method RaiseFire(now: int) returns (r: Result<()>)
      requires Valid() && windowLimiters != []
      modifies windowLimiters`fire, repo`cache, repo`views, repo`region, repo`owner, repo.region, repo.db
      ensures Valid() && fresh(repo.region - old(repo.region))
      ensures Fires() == if r.Ok? then AfterRefusal(old(Fires()), Readings(old(repo.Abs()))) else old(Fires())
      ensures (repo.Abs(), r.Failed?) == ChargeResult(old(repo.Abs()), old(Fires()), now)
    {
      ghost var s, start := repo.Abs(), repo.region;
      var temp := CurrentTemp();
      ghost var known := repo.region;
      assert fresh(known - start);
      var i := FindCharged(s, Heats(Readings(s), Fires()));
      assert fresh(repo.region - known);
      known := repo.region;
      r := Charge(i, now);
      assert fresh(repo.region - known);
    }

    /** The repository after a refusal, and whether the threshold could not be set. */
    ghost function ChargeResult(s: State, fires: seq<nat>, now: int): (State, bool)
      requires windowLimiters != [] && |fires| == |windowLimiters|
    {
      var w := Windows()[Charged(Heats(Readings(s), fires))];
      var read := FetchAll(s, Windows());
      (AfterCharge(read, w, now, startTime), ChargeFails(read, w, now, startTime))
    }

    /** What is read and recommended for the i-th limiter: the count and threshold fetched, and for a full
        window whose threshold is at most a fifth of its seconds the longest delay at which as many
        requests as the threshold fit into that fifth. */
    lemma ReadingMeans(s: State, i: nat)
      requires i < |windowLimiters|
      ensures var l, reading := windowLimiters[i], Readings(s)[i];
              reading == match Fetched(s, l.id, l.duration)
                         case Ok(limits) => Ok((limits.count, limits.threshold))
                         case Failed(f) => Failed(f)
      ensures var l, rec := windowLimiters[i], Recommendations(s)[i];
              match Fetched(s, l.id, l.duration)
              case Failed(f) => rec == Failed(f)
              case Ok(limits) =>
                && rec.Ok?
                && (rec.value > 0 <==> 0 < limits.threshold <= limits.count && limits.threshold <= l.duration / 5)
                && (rec.value > 0 ==>
                      rec.value * limits.threshold <= l.duration / 5 < (rec.value + 1) * limits.threshold)
    {
      var l := windowLimiters[i];
      if Fetched(s, l.id, l.duration).Ok? {
        var limits := Fetched(s, l.id, l.duration).value;
        RecommendedMeans(limits.count, limits.threshold, l.duration);
      }
    }

    /** What a refusal does to the limits of the window charged: once more than the window has passed since
        the start its threshold becomes its count, unless that is zero. */
    lemma ChargedLimits(s: State, fires: seq<nat>, now: int)
      requires windowLimiters != [] && |fires| == |windowLimiters|
      ensures var l := windowLimiters[Charged(Heats(Readings(s), fires))];
              var late := now - startTime > l.duration * 1_000_000_000;
              && (ChargeResult(s, fires, now).1 <==> late && Fetched(s, l.id, l.duration).Failed?)
              && Fetched(ChargeResult(s, fires, now).0, l.id, l.duration) ==
                   match Fetched(s, l.id, l.duration)
                   case Failed(f) => Failed(f)
                   case Ok(limits) =>
                     Ok(if late && limits.count != 0 then limits.(threshold := limits.count) else limits)
    {
      var l := windowLimiters[Charged(Heats(Readings(s), fires))];
      FetchAllKeepsReadings(s, Windows(), l.id, l.duration);
      TryFetched(FetchAll(s, Windows()), l.id, l.duration, now, startTime);
    }

    /** The stored limits show it. */
    lemma ChargedStored(s: State, fires: seq<nat>, now: int)
      requires windowLimiters != [] && |fires| == |windowLimiters| && Agree(s)
      requires forall l :: l in windowLimiters ==> Owner(l.id, l.duration)
      requires var l := windowLimiters[Charged(Heats(Readings(s), fires))]; Fetched(s, l.id, l.duration).Ok?
      ensures var l, m := windowLimiters[Charged(Heats(Readings(s), fires))], ChargeResult(s, fires, now).0.store;
              var limits := Fetched(s, l.id, l.duration).value;
              var late := now - startTime > l.duration * 1_000_000_000;
              && RequestLimitsKey(l.id, l.duration) in m
              && m[RequestLimitsKey(l.id, l.duration)] ==
                   LimitValue(l.duration, limits.count,
                     if late && limits.count != 0 then limits.count else limits.threshold)
    {
      var l := windowLimiters[Charged(Heats(Readings(s), fires))];
      assert l in windowLimiters;
      WindowsOwned();
      FetchAllAgrees(s, Windows());
      FetchAllKeepsReadings(s, Windows(), l.id, l.duration);
      assert AgreeOn(FetchAll(s, Windows()), l.id, l.duration);
      TryStored(FetchAll(s, Windows()), l.id, l.duration, now, startTime);
    }

    lemma WindowsOwned()
      requires forall l :: l in windowLimiters ==> Owner(l.id, l.duration)
      ensures forall w :: w in Windows() ==> Owner(w.0, w.1)
    {
      forall w | w in Windows() ensures Owner(w.0, w.1) {
        var i :| 0 <= i < |Windows()| && Windows()[i] == w;
        assert windowLimiters[i] in windowLimiters;
      }
    }

    /** The limits of all others stay as they are. */
    lemma OthersNotCharged(s: State, fires: seq<nat>, now: int, id: Bytes, window: nat)
      requires windowLimiters != [] && |fires| == |windowLimiters| && Agree(s) && Owner(id, window)
      requires forall l :: l in windowLimiters ==> Owner(l.id, l.duration)
      requires var l := windowLimiters[Charged(Heats(Readings(s), fires))]; id != l.id || window != l.duration
      ensures Fetched(ChargeResult(s, fires, now).0, id, window) == Fetched(s, id, window)
    {
      var l := windowLimiters[Charged(Heats(Readings(s), fires))];
      WindowsOwned();
      FetchAllAgrees(s, Windows());
      FetchAllKeepsReadings(s, Windows(), id, window);
      assert l in windowLimiters;
      TryOthers(FetchAll(s, Windows()), l.id, l.duration, Aged(now, startTime, l.duration), id, window);
    }

    /** The service refused a request: one limiter takes fire, the request is counted in every window
        and the delay is to be recalculated. Nothing but that limiter changes its fire level. */
    method TooManyRequests(now: int) returns (r: Result<()>)
      requires Valid() && windowLimiters != []
      modifies this`forced, windowLimiters`fire, windowLimiters`count
      modifies repo`cache, repo`views, repo`region, repo`owner, repo.region, repo.db
      ensures Valid() && fresh(repo.region - old(repo.region))
      ensures Fires() == if r.Ok? then AfterRefusal(old(Fires()), Readings(old(repo.Abs()))) else old(Fires())
      ensures (repo.Abs(), r.Failed?) == ChargeResult(old(repo.Abs()), old(Fires()), now)
      ensures forall l :: l in windowLimiters ==> l.count == if r.Ok? then old(l.count) + [now] else old(l.count)
      ensures forced == if r.Ok? then old(forced) + 2 else old(forced)
    {
      r := RaiseFire(now);
      if r.Ok? {
        CountRefused(now);
      }
    }

    method CountRefused(now: int)
      requires Valid()
      modifies this`forced, windowLimiters`count
      ensures Valid() && repo.Abs() == old(repo.Abs()) && Fires() == old(Fires())
      ensures forall l :: l in windowLimiters ==> l.count == old(l.count) + [now]
      ensures forced == old(forced) + 2
    {
      AfterRequest(now);
      forced := forced + 1;
    }

    /** A request was made: every window counts it. */
    method AfterRequest(now: int)
      requires Chained()
      modifies this`forced, windowLimiters`count
      ensures forall l :: l in windowLimiters ==> l.count == old(l.count) + [now]
      ensures forced == old(forced) + 1
    {
      for i := 0 to |windowLimiters|
        invariant forall j :: 0 <= j < i ==> windowLimiters[j].count == old(windowLimiters[j].count) + [now]
        invariant forall j :: i <= j < |windowLimiters| ==> windowLimiters[j].count == old(windowLimiters[j].count)
        invariant forced == old(forced)
      {
        windowLimiters[i].Inc(now);
      }
      forced := forced + 1;
    }

    ghost function Recommendations(s: State): (recs: seq<Result<nat>>)
      ensures |recs| == |windowLimiters|
    {
      seq(|windowLimiters|, i requires 0 <= i < |windowLimiters| =>
        Recommended(Readings(s)[i], windowLimiters[i].duration))
    }

    /** Reads one recommendation and judges whether it ends the pass. */
    method Weigh(i: nat, factor: nat, idle: bool, ghost s: State, ghost recs: seq<Result<nat>>)
      returns (stop: bool, r: Result<()>, next: int, still: bool)
      requires Chained() && repo.Valid() && i < |windowLimiters| && repo.Abs() == FetchAll(s, Windows()[..i])
      requires recs == Recommendations(s) && NoStop(delay, recs, factor, i) && idle == Idle(recs, i)
      modifies repo`cache, repo`views, repo`region, repo`owner
      ensures repo.Valid() && fresh(repo.region - old(repo.region)) && repo.Abs() == FetchAll(s, Windows()[..i + 1])
      ensures stop ==> Recalculation(delay, recs, factor, i, r, next)
      ensures !stop ==> NoStop(delay, recs, factor, i + 1) && still == Idle(recs, i + 1)
    {
      var rec := ReadNextDelay(i, s, recs);
      PassNext(delay, recs, factor, i);
      stop, r, next, still := true, Ok(()), delay, idle;
      if rec.Failed? {
        r := Failed(rec.fault);
        return;
      }
      var recommended := Scaled(rec.value, factor);
      if rec.value > 0 {
        still := false;
      }
      if rec.value > 0 && recommended != delay {
        next := recommended;
        return;
      }
      stop := false;
    }

    /** Works out the next delay from the recommendations; the k-th ends the pass, if any. */
    method NextDelay(factor: nat) returns (r: Result<()>, next: int, ghost k: nat)
      requires Chained() && repo.Valid()
      modifies repo`cache, repo`views, repo`region, repo`owner
      ensures repo.Valid() && fresh(repo.region - old(repo.region))
      ensures Recalculation(delay, Recommendations(old(repo.Abs())), factor, k, r, next)
      ensures repo.Abs() == FetchAll(old(repo.Abs()), Windows()[..ReadUpTo(k)])
    {
      ghost var s := repo.Abs();
      ghost var recs := Recommendations(s);
      var idle, stop := true, false;
      var i := 0;
      while i < |windowLimiters|
        invariant i <= |windowLimiters| && repo.Valid() && fresh(repo.region - old(repo.region))
        invariant repo.Abs() == FetchAll(s, Windows()[..i])
        invariant NoStop(delay, recs, factor, i) && idle == Idle(recs, i)
      {
        ghost var known := repo.region;
        stop, r, next, idle := Weigh(i, factor, idle, s, recs);
        assert fresh(repo.region - known);
        if stop {
          return r, next, i;
        }
        i := i + 1;
      }
      next := delay;
      if idle && delay > 1 {
        next := if delay < 6 then delay - 1 else delay / 2;
      }
      r, k := Ok(()), i;
    }

    /** How many windows a pass that ends at the k-th has read. */
    ghost function ReadUpTo(k: nat): (n: nat)
      ensures n <= |windowLimiters|
    {
      if k < |windowLimiters| then k + 1 else |windowLimiters|
    }

    /** Adapts the delay to the recommendations and hands it to the scraper. */
    method Recalculate(factor: nat) returns (r: Result<()>, ghost k: nat)
      requires Valid()
      modifies this`delay, this`scraperDelay, repo`cache, repo`views, repo`region, repo`owner
      ensures Valid() && fresh(repo.region - old(repo.region))
      ensures Recalculation(old(delay), Recommendations(old(repo.Abs())), factor, k, r, delay)
      ensures scraperDelay == if r.Ok? then delay else old(scraperDelay)
      ensures repo.Abs() == FetchAll(old(repo.Abs()), Windows()[..ReadUpTo(k)])
    {
      var next;
      r, next, k := NextDelay(factor);
      Adopt(next, r.Ok?);
    }

    method Adopt(next: int, hand: bool)
      requires Valid()
      modifies this`delay, this`scraperDelay
      ensures Valid() && repo.Abs() == old(repo.Abs())
      ensures delay == next && scraperDelay == if hand then next else old(scraperDelay)
    {
      delay := next;
      if hand {
        scraperDelay := next;
      }
    }

    /** Reads the recommendation of one limiter of the chain. */
    method ReadDelay(i: nat, ghost s: State) returns (rec: Result<nat>)
      requires Chained() && repo.Valid() && i < |windowLimiters|
      requires Read(repo.Abs(), windowLimiters[i].id, windowLimiters[i].duration) == Readings(s)[i]
      modifies repo`cache, repo`views, repo`region, repo`owner
      ensures repo.Valid() && fresh(repo.region - old(repo.region))
      ensures repo.Abs() == AfterFetch(old(repo.Abs()), Windows()[i].0, Windows()[i].1)
      ensures rec == Recommendations(s)[i]
    {
      assert windowLimiters[i] in windowLimiters;
      rec := windowLimiters[i].RecommendedDelay();
    }

    method ReadNextDelay(i: nat, ghost s: State, ghost recs: seq<Result<nat>>) returns (rec: Result<nat>)
      requires Chained() && repo.Valid() && i < |windowLimiters| && repo.Abs() == FetchAll(s, Windows()[..i])
      requires recs == Recommendations(s)
      modifies repo`cache, repo`views, repo`region, repo`owner
      ensures repo.Valid() && fresh(repo.region - old(repo.region)) && repo.Abs() == FetchAll(s, Windows()[..i + 1])
      ensures rec == recs[i]
    {
      FetchAllKeepsReadings(s, Windows()[..i], Windows()[i].0, Windows()[i].1);
      FetchOneMore(s, Windows(), i);
      rec := ReadDelay(i, s);
    }
  }

  /** None of the first n temperatures is below the level. */
  ghost predicate NoneUnder(temps: seq<real>, level: nat, n: nat)
    requires n <= |temps|
  {
    forall j :: 0 <= j < n ==> temps[j] >= level as real
  }

  lemma NoneUnderNext(temps: seq<real>, level: nat, i: nat)
    requires i < |temps| && NoneUnder(temps, level, i)
    ensures temps[i] < level as real ==> FirstUnder(temps, level, true, i)
    ensures temps[i] >= level as real ==> NoneUnder(temps, level, i + 1)
  {}

  /** Whether and where the first temperature below the level is. */
  ghost predicate FirstUnder(temps: seq<real>, level: nat, found: bool, i: nat) {
    if found then i < |temps| && temps[i] < level as real && NoneUnder(temps, level, i)
    else NoneUnder(temps, level, |temps|)
  }

  lemma LevelDone(temps: seq<real>, level: nat, found: bool, i: nat)
    requires temps != [] && ReachedLevel(temps, level) && FirstUnder(temps, level, found, i)
    ensures found ==> i == Charged(temps)
    ensures !found ==> ReachedLevel(temps, level + 1) && level <= temps[0].Floor
  {
    if found { ChargedIs(temps, level, i); } else { AboveFloor(temps[0], level); }
  }

  ghost function AfterCharge(s: State, w: (Bytes, nat), now: int, startTime: int): State {
    AfterTry(s, w.0, w.1, Aged(now, startTime, w.1))
  }

  ghost predicate ChargeFails(s: State, w: (Bytes, nat), now: int, startTime: int) {
    Aged(now, startTime, w.1) && Fetched(s, w.0, w.1).Failed?
  }

  function Raised(fires: seq<nat>, i: nat): seq<nat>
    requires i < |fires|
  {
    fires[i := fires[i] + 1]
  }

  lemma HighestNext(temps: seq<real>, i: nat, t: real)
    requires i < |temps| && Highest(temps, i, t)
    ensures Highest(temps, i + 1, if temps[i] > t then temps[i] else t)
  {}

  /** t is the largest of the first n temperatures and zero. */
  ghost predicate Highest(temps: seq<real>, n: nat, t: real)
    requires n <= |temps|
  {
    && t >= 0.0 && (t == 0.0 || exists j :: 0 <= j < n && temps[j] == t)
    && forall j :: 0 <= j < n ==> temps[j] <= t
  }

  /** The temperature of a chain is that of its hottest limiter, or zero if that is more. */
  lemma HottestIs(readings: seq<Reading>, fires: seq<nat>, t: real)
    requires |readings| == |fires| && Highest(Heats(readings, fires), |fires|, t)
    ensures t >= 0.0 && forall i :: 0 <= i < |fires| ==> Heat(readings[i], fires[i]) <= t
    ensures t == 0.0 || exists i :: 0 <= i < |fires| && Heat(readings[i], fires[i]) == t
  {
    assert forall i :: 0 <= i < |fires| ==> Heats(readings, fires)[i] == Heat(readings[i], fires[i]);
  }

  /** The temperature of a chain is zero exactly when none of its windows can be read. */
  lemma ZeroWhenUnread(readings: seq<Reading>, fires: seq<nat>, t: real)
    requires |readings| == |fires| && Highest(Heats(readings, fires), |fires|, t)
    ensures t == 0.0 <==> forall r :: r in readings ==> r.Failed?
  {
    var temps := Heats(readings, fires);
    if r :| r in readings && r.Ok? {
      var i :| 0 <= i < |readings| && readings[i] == r;
      assert temps[i] > 0.0;
    } else {
      forall j | 0 <= j < |fires| ensures temps[j] == 0.0 {
        assert readings[j] in readings;
      }
    }
  }
}
