/** The pool that hands out finders: a temperature of zero marks a finder as taken. */
module FinderPool {
  import opened WindowLimiter
  import D = DelayManager

  // ----- choosing a finder -----

  /** A finder that is taken, or too hot to use. */
  predicate SkipFinder(d: real) { d == 0.0 || d > 4.0 }

  /** The readings seen by a call: finders marked as taken are not read. */
  function Refreshed(temps: seq<real>, readings: seq<real>): (r: seq<real>)
    requires |readings| == |temps|
    ensures |r| == |temps|
  {
    seq(|temps|, i requires 0 <= i < |temps| => if temps[i] != 0.0 then readings[i] else 0.0)
  }

  /** The first of the coolest usable finders among the first n. */
  ghost predicate Coolest(temps: seq<real>, n: nat, choice: int)
    requires n <= |temps|
  {
    if choice < 0 then forall i :: 0 <= i < n ==> SkipFinder(temps[i])
    else
      && choice < n && !SkipFinder(temps[choice])
      && forall i :: 0 <= i < n && !SkipFinder(temps[i]) ==>
           temps[choice] < temps[i] || (temps[choice] == temps[i] && choice <= i)
  }

  predicate NoneNegative(temps: seq<real>) { forall i :: 0 <= i < |temps| ==> temps[i] >= 0.0 }

  /** One pass keeping the minimum so far; zero stands for none yet. */
  method ChooseFinder(temps: seq<real>) returns (minimal: real, index: nat)
    requires NoneNegative(temps)
    ensures minimal == 0.0 ==> index == 0 && Coolest(temps, |temps|, -1)
    ensures minimal != 0.0 ==> Coolest(temps, |temps|, index) && minimal == temps[index]
  {
    minimal, index := 0.0, 0;
    for i := 0 to |temps|
      invariant minimal == 0.0 ==> index == 0 && Coolest(temps, i, -1)
      invariant minimal != 0.0 ==> Coolest(temps, i, index) && minimal == temps[index]
    {
      if SkipFinder(temps[i]) {
        continue;
      }
      if temps[i] < minimal || minimal == 0.0 {
        minimal, index := temps[i], i;
      }
    }
  }

  lemma CoolestUnique(temps: seq<real>, a: int, b: int)
    requires Coolest(temps, |temps|, a) && Coolest(temps, |temps|, b)
    ensures a == b || (a < 0 && b < 0)
  {}

  lemma {:induction false} CoolestExists(temps: seq<real>, n: nat) returns (choice: int)
    requires n <= |temps|
    ensures Coolest(temps, n, choice) && choice >= -1
  {
    if n == 0 {
      choice := -1;
    } else {
      choice := CoolestExists(temps, n - 1);
      if !SkipFinder(temps[n - 1]) && (choice < 0 || temps[n - 1] < temps[choice]) {
        choice := n - 1;
      }
    }
  }

  lemma SomeCoolest(temps: seq<real>)
    ensures exists c: int :: c >= -1 && Coolest(temps, |temps|, c)
  {
    var c := CoolestExists(temps, |temps|);
  }

  /** The finder a call gets, or -1. */
  ghost function Choice(temps: seq<real>): (choice: int)
    ensures choice >= -1 && Coolest(temps, |temps|, choice)
  {
    SomeCoolest(temps);
    var c: int :| c >= -1 && Coolest(temps, |temps|, c);
    c
  }

  // ----- runs -----

  /** The temperatures, and which call holds which finder. */
  datatype PoolState = PoolState(temps: seq<real>, holders: map<nat, nat>)

  const EMPTY: PoolState := PoolState([], map[])

  datatype Event =
    | Acquire(who: nat, readings: seq<real>)
    | Release(who: nat, reading: real)
    | Append(reading: real)

  ghost predicate Possible(p: PoolState, e: Event) {
    match e
    case Acquire(who, readings) => who !in p.holders && |readings| == |p.temps| && NoneNegative(readings)
    case Release(who, reading) => who in p.holders && reading >= 0.0
    case Append(reading) => reading >= 0.0
  }

  ghost function Next(p: PoolState, e: Event): PoolState
    requires Sound(p) && Possible(p, e)
  {
    match e
    case Acquire(who, readings) =>
      var r := Refreshed(p.temps, readings);
      var c := Choice(r);
      if c < 0 then PoolState(r, p.holders) else PoolState(r[c := 0.0], p.holders[who := c])
    case Release(who, reading) =>
      PoolState(p.temps[p.holders[who] := reading], p.holders - {who})
    case Append(reading) => PoolState(p.temps + [reading], p.holders)
  }

  predicate Held(p: PoolState, i: nat) { exists who :: who in p.holders && p.holders[who] == i }

  predicate Marked(p: PoolState, i: nat) { i < |p.temps| && p.temps[i] == 0.0 }

  /** No finder has two holders, held finders are marked, temperatures are not negative. */
  ghost predicate Sound(p: PoolState) {
    && NoneNegative(p.temps)
    && (forall a, b :: a in p.holders && b in p.holders && a != b ==> p.holders[a] != p.holders[b])
    && (forall who :: who in p.holders ==> Marked(p, p.holders[who]))
  }

  lemma HeldIsMarked(p: PoolState, i: nat)
    requires Sound(p)
    ensures Held(p, i) ==> Marked(p, i)
  {}

  lemma AcquireSound(p: PoolState, who: nat, readings: seq<real>)
    requires Sound(p) && Possible(p, Acquire(who, readings))
    ensures Sound(Next(p, Acquire(who, readings)))
  {
    var r := Refreshed(p.temps, readings);
    forall w | w in p.holders ensures r[p.holders[w]] == 0.0 {
      assert Marked(p, p.holders[w]);
    }
  }

  lemma ReleaseSound(p: PoolState, who: nat, reading: real)
    requires Sound(p) && Possible(p, Release(who, reading))
    ensures Sound(Next(p, Release(who, reading)))
  {
    assert Marked(p, p.holders[who]);
    forall w | w in p.holders && w != who ensures Marked(Next(p, Release(who, reading)), p.holders[w]) {
      assert Marked(p, p.holders[w]);
    }
  }

  lemma NextSound(p: PoolState, e: Event)
    requires Sound(p) && Possible(p, e)
    ensures Sound(Next(p, e))
  {
    match e
    case Acquire(who, readings) => AcquireSound(p, who, readings);
    case Release(who, reading) => ReleaseSound(p, who, reading);
    case Append(reading) =>
      forall w | w in p.holders ensures Marked(Next(p, e), p.holders[w]) {
        assert Marked(p, p.holders[w]);
      }
  }

  /** A call gets a finder exactly when one that is not taken reads at most 4 and not zero, and then it
      gets a coolest one, which nobody holds. */
  lemma AcquireGets(p: PoolState, who: nat, readings: seq<real>)
    requires Sound(p) && Possible(p, Acquire(who, readings))
    ensures var n := Next(p, Acquire(who, readings));
            && (who in n.holders <==>
                  exists i :: 0 <= i < |p.temps| && !Marked(p, i) && 0.0 < readings[i] <= 4.0)
            && (who in n.holders ==>
                  var c := n.holders[who];
                  !Held(p, c) && !Marked(p, c)
                  && forall i :: 0 <= i < |p.temps| && !Marked(p, i) && readings[i] > 0.0 ==>
                       readings[c] <= readings[i])
  {
    var r := Refreshed(p.temps, readings);
    var c := Choice(r);
    if c < 0 {
      forall i | 0 <= i < |p.temps| && !Marked(p, i) ensures !(0.0 < readings[i] <= 4.0) {
        assert SkipFinder(r[i]);
      }
    } else {
      assert r[c] == readings[c] && !Marked(p, c);
      HeldIsMarked(p, c);
      forall i | 0 <= i < |p.temps| && !Marked(p, i) && readings[i] > 0.0 ensures readings[c] <= readings[i] {
        assert r[i] == readings[i];
      }
    }
  }

  /** An acquiring call reads all finders that are not taken; the one it gets, if any, is the first of the
      coolest and is taken then. Nobody else's finder changes. */
  lemma AcquireSets(p: PoolState, who: nat, readings: seq<real>, i: nat)
    requires Sound(p) && Possible(p, Acquire(who, readings)) && i < |p.temps|
    ensures var n := Next(p, Acquire(who, readings));
            && |n.temps| == |p.temps|
            && n.temps[i] == (if p.temps[i] == 0.0 || (who in n.holders && n.holders[who] == i) then 0.0
                              else readings[i])
            && (who in n.holders && p.temps[i] != 0.0 && readings[i] != 0.0 && i < n.holders[who] ==>
                  readings[n.holders[who]] < readings[i])
            && n.holders - {who} == p.holders
  {
    var r := Refreshed(p.temps, readings);
    var c := Choice(r);
    if c >= 0 { assert p.holders[who := c] - {who} == p.holders; } else { assert p.holders - {who} == p.holders; }
  }

  /** A released finder gets its reading and nobody holds it; an added one comes last. */
  lemma ReleaseSets(p: PoolState, who: nat, reading: real)
    requires Sound(p) && Possible(p, Release(who, reading))
    ensures var n := Next(p, Release(who, reading));
            n.holders == p.holders - {who} && n.temps == p.temps[p.holders[who] := reading]
    ensures Possible(p, Append(reading)) && Next(p, Append(reading)) == PoolState(p.temps + [reading], p.holders)
  {}

  /** Marked without being held: a finder no call can get any more. */
  predicate Lost(p: PoolState, i: nat) { Marked(p, i) && !Held(p, i) }

  /** Whether i becomes lost in the event: it is read as zero. */
  predicate ReadZero(p: PoolState, e: Event, i: nat) {
    match e
    case Acquire(_, readings) => i < |p.temps| && i < |readings| && p.temps[i] != 0.0 && readings[i] == 0.0
    case Release(who, reading) => who in p.holders && p.holders[who] == i && reading == 0.0
    case Append(reading) => i == |p.temps| && reading == 0.0
  }

  lemma AcquireLoses(p: PoolState, who: nat, readings: seq<real>, i: nat)
    requires Sound(p) && Possible(p, Acquire(who, readings))
    ensures Lost(Next(p, Acquire(who, readings)), i) <==> Lost(p, i) || ReadZero(p, Acquire(who, readings), i)
  {
    var r := Refreshed(p.temps, readings);
    var c, n := Choice(r), Next(p, Acquire(who, readings));
    if c >= 0 {
      assert n.holders[who] == c;
      assert Held(n, i) <==> Held(p, i) || i == c by {
        if Held(p, i) {
          var w :| w in p.holders && p.holders[w] == i;
          assert n.holders[w] == i;
        }
      }
    }
    HeldIsMarked(p, i);
  }

  lemma ReleaseLoses(p: PoolState, who: nat, reading: real, i: nat)
    requires Sound(p) && Possible(p, Release(who, reading))
    ensures Lost(Next(p, Release(who, reading)), i) <==> Lost(p, i) || ReadZero(p, Release(who, reading), i)
  {
    var n, c := Next(p, Release(who, reading)), p.holders[who];
    assert Marked(p, c);
    if Held(p, i) && i != c {
      var w :| w in p.holders && p.holders[w] == i;
      assert w in n.holders && n.holders[w] == i;
    }
    assert Held(p, c);
  }

  lemma AppendLoses(p: PoolState, reading: real, i: nat)
    requires Sound(p) && Possible(p, Append(reading))
    ensures Lost(Next(p, Append(reading)), i) <==> Lost(p, i) || ReadZero(p, Append(reading), i)
  {
    HeldIsMarked(p, i);
  }

  /** A finder is lost exactly when it was lost before or is now read as zero. */
  lemma NextLoses(p: PoolState, e: Event, i: nat)
    requires Sound(p) && Possible(p, e)
    ensures Lost(Next(p, e), i) <==> Lost(p, i) || ReadZero(p, e, i)
  {
    match e
    case Acquire(who, readings) => AcquireLoses(p, who, readings, i);
    case Release(who, reading) => ReleaseLoses(p, who, reading, i);
    case Append(reading) => AppendLoses(p, reading, i);
  }

  ghost predicate PossibleRun(p: PoolState, es: seq<Event>)
    requires Sound(p)
    decreases |es|
  {
    es == [] || (Possible(p, es[0]) && (NextSound(p, es[0]); PossibleRun(Next(p, es[0]), es[1..])))
  }

  ghost function Run(p: PoolState, es: seq<Event>): PoolState
    requires Sound(p) && PossibleRun(p, es)
    decreases |es|
  {
    if es == [] then p else (NextSound(p, es[0]); Run(Next(p, es[0]), es[1..]))
  }

  /** Whether i is read as zero somewhere in the run. */
  ghost predicate EverReadZero(p: PoolState, es: seq<Event>, i: nat)
    requires Sound(p) && PossibleRun(p, es)
    decreases |es|
  {
    es != [] && (ReadZero(p, es[0], i) || (NextSound(p, es[0]); EverReadZero(Next(p, es[0]), es[1..], i)))
  }

  /** Over every run of acquiring, releasing and adding finders no finder has two holders, and a finder
      is marked exactly when it is held, or was lost at the start or to a reading of zero since. */
  lemma {:induction false} RunMarksHeld(p: PoolState, es: seq<Event>, i: nat)
    requires Sound(p) && PossibleRun(p, es)
    ensures Sound(Run(p, es))
    ensures Marked(Run(p, es), i) <==> Held(Run(p, es), i) || Lost(p, i) || EverReadZero(p, es, i)
    decreases |es|
  {
    if es == [] {
      HeldIsMarked(p, i);
    } else {
      NextSound(p, es[0]);
      NextLoses(p, es[0], i);
      RunMarksHeld(Next(p, es[0]), es[1..], i);
    }
  }

  // ----- readings of accounts with a readable window -----

  /** A temperature of a chain of windows of which some can be read. */
  ghost predicate Readable(t: real) {
    exists readings: seq<Reading>, fires: seq<nat> ::
      && |readings| == |fires| && D.Highest(D.Heats(readings, fires), |fires|, t)
      && exists r :: r in readings && r.Ok?
  }

  lemma ReadablePositive(t: real)
    requires Readable(t)
    ensures t > 0.0
  {
    var readings: seq<Reading>, fires: seq<nat> :|
      && |readings| == |fires| && D.Highest(D.Heats(readings, fires), |fires|, t)
      && exists r :: r in readings && r.Ok?;
    D.ZeroWhenUnread(readings, fires, t);
  }

  /** Every finder read in the event belongs to an account with a readable window. */
  ghost predicate ReadableEvent(p: PoolState, e: Event)
    requires Possible(p, e)
  {
    match e
    case Acquire(_, readings) => forall i :: 0 <= i < |readings| && p.temps[i] != 0.0 ==> Readable(readings[i])
    case Release(_, reading) => Readable(reading)
    case Append(reading) => Readable(reading)
  }

  ghost predicate ReadableRun(p: PoolState, es: seq<Event>)
    requires Sound(p) && PossibleRun(p, es)
    decreases |es|
  {
    es == [] || (ReadableEvent(p, es[0]) && (NextSound(p, es[0]); ReadableRun(Next(p, es[0]), es[1..])))
  }

  lemma ReadableNotZero(p: PoolState, e: Event, i: nat)
    requires Possible(p, e) && ReadableEvent(p, e)
    ensures !ReadZero(p, e, i)
  {
    match e
    case Acquire(_, readings) =>
      if i < |readings| && p.temps[i] != 0.0 { ReadablePositive(readings[i]); }
    case Release(_, reading) => ReadablePositive(reading);
    case Append(reading) => ReadablePositive(reading);
  }

  lemma {:induction false} NeverReadZero(p: PoolState, es: seq<Event>, i: nat)
    requires Sound(p) && PossibleRun(p, es) && ReadableRun(p, es)
    ensures !EverReadZero(p, es, i)
    decreases |es|
  {
    if es != [] {
      ReadableNotZero(p, es[0], i);
      NextSound(p, es[0]);
      NeverReadZero(Next(p, es[0]), es[1..], i);
    }
  }

  /** From the empty pool, while every account keeps a readable window, exactly the held finders are
      marked: none is lost. */
  lemma ReadableLosesNone(es: seq<Event>, i: nat)
    requires PossibleRun(EMPTY, es) && ReadableRun(EMPTY, es)
    ensures Marked(Run(EMPTY, es), i) <==> Held(Run(EMPTY, es), i)
  {
    RunMarksHeld(EMPTY, es, i);
    NeverReadZero(EMPTY, es, i);
  }

  // ----- the pool -----

  class Pool {
    var finderDelays: seq<int>
    var finderTemp: seq<real>
    /** Which call holds which finder. */
    ghost var holders: map<nat, nat>

    constructor ()
      ensures State() == EMPTY && Sound(State()) && finderDelays == []
    {
      finderDelays, finderTemp, holders := [], [], map[];
    }

    ghost function State(): PoolState
      reads this
    {
      PoolState(finderTemp, holders)
    }

    ghost predicate Valid()
      reads this
    {
      Sound(State()) && |finderDelays| == |finderTemp|
    }

    /** Reads all finders that are not taken. */
    method Refresh(delays: seq<int>, readings: seq<real>)
      requires |finderDelays| == |finderTemp| == |readings| == |delays|
      modifies this`finderDelays, this`finderTemp
      ensures finderTemp == Refreshed(old(finderTemp), readings)
      ensures |finderDelays| == |finderTemp|
      ensures forall i :: 0 <= i < |delays| ==>
        finderDelays[i] == if old(finderTemp[i]) != 0.0 then delays[i] else old(finderDelays[i])
    {
      for i := 0 to |finderTemp|
        invariant |finderDelays| == |finderTemp| == |readings|
        invariant forall j :: 0 <= j < i ==> finderTemp[j] == Refreshed(old(finderTemp), readings)[j]
        invariant forall j :: i <= j < |readings| ==> finderTemp[j] == old(finderTemp[j])
        invariant forall j :: 0 <= j < |delays| ==>
          finderDelays[j] == if j < i && old(finderTemp[j]) != 0.0 then delays[j] else old(finderDelays[j])
      {
        if finderTemp[i] != 0.0 {
          finderDelays := finderDelays[i := delays[i]];
          finderTemp := finderTemp[i := readings[i]];
        }
      }
    }

    /** Takes the coolest finder that is not taken and not too hot. */
    method GetFinderIndex(delays: seq<int>, readings: seq<real>, ghost who: nat) returns (index: nat, ok: bool)
      requires Valid() && Possible(State(), Acquire(who, readings)) && |delays| == |readings|
      modifies this
      ensures Valid() && State() == Next(old(State()), Acquire(who, readings))
      ensures ok <==> who in holders
      ensures ok ==> holders[who] == index && finderDelays[index] == 0
      ensures |finderDelays| == |delays| && forall i :: 0 <= i < |delays| && !(ok && i == index) ==>
        finderDelays[i] == if old(finderTemp[i]) != 0.0 then delays[i] else old(finderDelays[i])
    {
      AcquireSound(State(), who, readings);
      Refresh(delays, readings);
      var minimal;
      minimal, index := ChooseFinder(finderTemp);
      CoolestUnique(finderTemp, Choice(finderTemp), if minimal == 0.0 then -1 else index);
      if minimal != 0.0 {
        finderDelays := finderDelays[index := 0];
        finderTemp := finderTemp[index := 0.0];
        holders := holders[who := index];
      }
      ok := minimal != 0.0;
    }

    /** Gives a finder back with its present readings. */
    method ReleaseFinder(i: nat, delay: int, reading: real, ghost who: nat)
      requires Valid() && Possible(State(), Release(who, reading)) && holders[who] == i
      modifies this
      ensures Valid() && State() == Next(old(State()), Release(who, reading))
      ensures finderDelays == old(finderDelays)[i := delay]
    {
      ReleaseSound(State(), who, reading);
      assert Marked(State(), holders[who]);
      finderDelays := finderDelays[i := delay];
      finderTemp := finderTemp[i := reading];
      holders := holders - {who};
    }

    /** Adds the finder of a new account. */
    method AppendFinder(delay: int, reading: real)
      requires Valid() && reading >= 0.0
      modifies this
      ensures Valid() && State() == Next(old(State()), Append(reading))
      ensures finderDelays == old(finderDelays) + [delay]
    {
      NextSound(State(), Append(reading));
      finderDelays := finderDelays + [delay];
      finderTemp := finderTemp + [reading];
    }

    /** More than nine tenths of the finders are taken or too hot. */
    method IsHot() returns (hot: bool)
      ensures var out := set i: nat | 0 <= i < |finderTemp| && (finderTemp[i] == 0.0 || finderTemp[i] > 4.0);
              hot <==> 10 * |out| > 9 * |finderTemp|
    {
      var hotCounter := 0;
      for i := 0 to |finderTemp|
        invariant hotCounter == |Skipped(finderTemp, i)|
      {
        SkippedNext(finderTemp, i);
        if SkipFinder(finderTemp[i]) {
          hotCounter := hotCounter + 1;
        }
      }
      assert Skipped(finderTemp, |finderTemp|)
        == set i: nat | 0 <= i < |finderTemp| && (finderTemp[i] == 0.0 || finderTemp[i] > 4.0);
      hot := hotCounter > |finderTemp| * 9 / 10;
    }
  }

  /** The finders among the first n that cannot be taken. */
  function Skipped(temps: seq<real>, n: nat): set<nat>
    requires n <= |temps|
  {
    set i | 0 <= i < n && SkipFinder(temps[i])
  }

  lemma SkippedNext(temps: seq<real>, i: nat)
    requires i < |temps|
    ensures |Skipped(temps, i + 1)| == |Skipped(temps, i)| + if SkipFinder(temps[i]) then 1 else 0
  {
    var a, b := Skipped(temps, i), Skipped(temps, i + 1);
    if SkipFinder(temps[i]) { assert b == a + {i} && i !in a; } else { assert b == a; }
  }
}
