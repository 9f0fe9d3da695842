/** Logs of the first format, built by its own adds, on which the conversion changes times or does not
    commute with adding and cleaning. */
module FormatClashes {
  import opened Records
  import opened Keys
  import opened RequestLog
  import opened RequestLimitsV1

  /** The instant a whole number of seconds after t. */
  function Later(t: int, seconds: int): int { t + seconds * SEC }

  /** Half a second after t, and before it. */
  function HalfAfter(t: int): int { t + 500_000_000 }

  function HalfBefore(t: int): int { t - 500_000_000 }

  function TwoAdds(start: int, a: int, b: int): Log {
    Added1(Added1(Log(start, []), Later(start, a)), Later(start, b))
  }

  lemma TwoAddsData(start: int, a: int, b: int)
    requires 0 <= b < a < 0x8000_0000
    ensures TwoAdds(start, a, b) == Log(start, [a, b - a])
    ensures Total(Log(start, [a, b - a]), 0) == a && Total(Log(start, [a, b - a]), 1) == b
  {
    var d: seq<int32> := [a];
    assert TruncSeconds(Later(start, a) - start) == a && TruncSeconds(Later(start, b) - start) == b;
    assert [] + d == d && d[..0] == [] && Sum(d) == a;
    assert d + [b - a] == [a, b - a];
    var log := Log(start, [a, b - a]);
    assert log.data[..1] == d && log.data[..2] == log.data && log.data[..2][..1] == d;
  }

  /** Two requests recorded late first: converted, the earlier one is thrown 2^32 seconds ahead. */
  lemma EarlierEntryLost(start: int, a: int, b: int)
    requires 0 <= b < a < 0x8000_0000
    ensures var log := TwoAdds(start, a, b); AllTimes(Chunks(log.start, log.data)) != Times1(log)
  {
    var log := TwoAdds(start, a, b);
    TwoAddsData(start, a, b);
    assert Head(1) == 0 && TimeAt1(log, 1) < TimeAt1(log, 0);
    assert !KeepsTime(log, 1);
    ConversionPreservesTimes(log);
  }

  /** The first request of a log, half a second after its start: the first format rounds it down, the
      second starts a batch at it. */
  lemma FirstAddDiffers(start: int)
    ensures var log := Log(start, []);
            AllTimes(Added(Chunks(log.start, log.data), HalfAfter(start))) != Times1(Added1(log, HalfAfter(start)))
  {
    AddCommutes(Log(start, []), HalfAfter(start));
    assert (HalfAfter(start) - start) % SEC != 0;
  }

  function NoDeltas(n: nat): (z: seq<int32>)
    ensures |z| == n
  {
    seq(n, i requires 0 <= i < n => 0)
  }

  lemma {:induction false} SumNoDeltas(n: nat)
    ensures Sum(NoDeltas(n)) == 0
  {
    if n > 0 {
      assert NoDeltas(n)[..n - 1] == NoDeltas(n - 1);
      SumNoDeltas(n - 1);
    }
  }

  /** The log of n requests made at its start. */
  function SameInstant(start: int, n: nat): (log: Log)
    ensures |log.data| == n && log.start == start
  {
    if n == 0 then Log(start, []) else Added1(SameInstant(start, n - 1), start)
  }

  lemma {:induction false} SameInstantData(start: int, n: nat)
    ensures SameInstant(start, n) == Log(start, NoDeltas(n))
  {
    if n > 0 {
      SameInstantData(start, n - 1);
      SumNoDeltas(n - 1);
      assert NoDeltas(n - 1) + [0] == NoDeltas(n);
    }
  }

  lemma SameInstantTimes(start: int, n: nat, k: nat)
    requires k < n
    ensures TimeAt1(SameInstant(start, n), k) == start
  {
    SameInstantData(start, n);
    assert NoDeltas(n)[..k + 1] == NoDeltas(k + 1);
    SumNoDeltas(k + 1);
  }

  /** More requests in one instant than a batch holds, cleaned while all are live at an edge half a
      second before: the first format moves all of them back, the second only the first 2500. */
  lemma CleanDiffers(start: int, n: nat)
    requires n > MAX_BATCH
    ensures var log, cutoff := SameInstant(start, n), HalfBefore(start);
            AllTimes(Cleaned(Chunks(log.start, log.data), cutoff)) != Times1(Cleaned1(log, cutoff))
  {
    var log, cutoff := SameInstant(start, n), HalfBefore(start);
    SameInstantData(start, n);
    SumNoDeltas(n);
    AllAtStart(start, n);
    NotAlike(log, cutoff);
    CleanCommutes(log, cutoff);
  }

  lemma AllAtStart(start: int, n: nat)
    ensures forall k :: 0 <= k < n ==> Times1(SameInstant(start, n))[k] == start
    ensures NearCutoff(SameInstant(start, n), HalfBefore(start))
  {
    forall k | 0 <= k < n ensures TimeAt1(SameInstant(start, n), k) == start {
      SameInstantTimes(start, n, k);
    }
  }

  lemma NotAlike(log: Log, cutoff: int)
    requires |log.data| > MAX_BATCH && Times1(log)[0] > cutoff && (log.start - cutoff) % SEC != 0
    ensures !CleansAlike(log, cutoff)
  {
    assert FirstAfter(Times1(log), cutoff) == 0;
    assert Head(0) == 0 && Head(|log.data| - 1) >= MAX_BATCH;
  }
}
