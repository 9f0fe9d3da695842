/** How a cached list of batches and the batch keys in the store represent the same requests, and
    exactly when adding and cleaning keep it so. */
module BatchStore {
  import opened Bytes
  import opened Records
  import opened Keys
  import opened Store
  import opened RequestLog
  import W = RequestWindow
  import opened RequestLimitsV2

  function KeyOf(id: Bytes, window: nat, b: Batch): Bytes {
    RequestsKey(id, window, b.start)
  }

  /** The part of the store a prefix scan sees. */
  function Under(m: Table, prefix: Bytes): Table {
    map k | k in m && prefix <= k :: m[k]
  }

  /** What the store holds after the batches are written in order. */
  function LatestOf(id: Bytes, window: nat, bs: seq<Batch>): Table {
    if bs == [] then map[]
    else
      var last := bs[|bs| - 1];
      LatestOf(id, window, bs[..|bs| - 1])[KeyOf(id, window, last) := BatchValue(last)]
  }

  /** A batch that shares its key with a later one is empty and starts at the same instant. */
  predicate Keyed(bs: seq<Batch>) {
    forall i, j :: 0 <= i < j < |bs| && Slot(bs[i].start) == Slot(bs[j].start)
      ==> bs[i].start == bs[j].start && bs[i].data == []
  }

  lemma SameKey(id: Bytes, window: nat, a: int, b: int)
    ensures RequestsKey(id, window, a) == RequestsKey(id, window, b) <==> Slot(a) == Slot(b)
  {
    var n := |RequestsPrefix(id, window)|;
    assert RequestsKey(id, window, a)[n..] == LittleEndian(Slot(a), 8);
    assert RequestsKey(id, window, b)[n..] == LittleEndian(Slot(b), 8);
    if RequestsKey(id, window, a) == RequestsKey(id, window, b) {
      Pow256Of8();
      LittleEndianInjective(Slot(a), Slot(b), 8);
    }
  }

  /** The batches in the list with key k, last one first to be found. */
  predicate LastAt(id: Bytes, window: nat, bs: seq<Batch>, k: Bytes, q: nat) {
    q < |bs| && KeyOf(id, window, bs[q]) == k && forall i :: q < i < |bs| ==> KeyOf(id, window, bs[i]) != k
  }

  predicate NoneAt(id: Bytes, window: nat, bs: seq<Batch>, k: Bytes) {
    forall i :: 0 <= i < |bs| ==> KeyOf(id, window, bs[i]) != k
  }

  lemma {:induction false} FindLast(id: Bytes, window: nat, bs: seq<Batch>, k: Bytes) returns (q: nat)
    requires !NoneAt(id, window, bs, k)
    ensures LastAt(id, window, bs, k, q)
  {
    q := |bs| - 1;
    if KeyOf(id, window, bs[q]) != k {
      var i :| 0 <= i < |bs| && KeyOf(id, window, bs[i]) == k;
      assert bs[..q][i] == bs[i];
      q := FindLast(id, window, bs[..q], k);
      assert forall i :: 0 <= i < |bs| - 1 ==> bs[..|bs| - 1][i] == bs[i];
    }
  }

  /** The list's last batch with a key is what its written form holds there. */
  lemma {:induction false} LatestAt(id: Bytes, window: nat, bs: seq<Batch>, k: Bytes, q: nat)
    requires LastAt(id, window, bs, k, q)
    ensures k in LatestOf(id, window, bs) && LatestOf(id, window, bs)[k] == BatchValue(bs[q])
    decreases |bs|
  {
    var n := |bs| - 1;
    if q < n {
      assert KeyOf(id, window, bs[n]) != k;
      LatestAt(id, window, bs[..n], k, q);
    }
  }

  lemma {:induction false} LatestNone(id: Bytes, window: nat, bs: seq<Batch>, k: Bytes)
    requires NoneAt(id, window, bs, k)
    ensures k !in LatestOf(id, window, bs)
    decreases |bs|
  {
    if bs != [] {
      assert KeyOf(id, window, bs[|bs| - 1]) != k;
      LatestNone(id, window, bs[..|bs| - 1], k);
    }
  }

  lemma {:induction false} LatestUnderPrefix(id: Bytes, window: nat, bs: seq<Batch>)
    ensures forall k :: k in LatestOf(id, window, bs) ==> RequestsPrefix(id, window) <= k
    ensures WellStored(id, window, LatestOf(id, window, bs))
    decreases |bs|
  {
    if bs != [] { LatestUnderPrefix(id, window, bs[..|bs| - 1]); }
  }

  /** Every stored batch sits at the key of its own start. */
  predicate WellStored(id: Bytes, window: nat, m: Table) {
    forall k :: k in m ==> m[k].BatchValue? && k == KeyOf(id, window, m[k].batch)
  }

  // ----- the bag of times -----

  function TimesOf(v: Value): seq<int> {
    if v.BatchValue? then Times(v.batch) else []
  }

  /** The times in all the batches of a table. */
  ghost function BagOf(m: Table): multiset<int>
    decreases |m|
  {
    if m == map[] then multiset{}
    else
      var k :| k in m;
      multiset(TimesOf(m[k])) + BagOf(m - {k})
  }

  lemma {:induction false} BagSplit(m: Table, k: Bytes)
    requires k in m
    ensures BagOf(m) == multiset(TimesOf(m[k])) + BagOf(m - {k})
    decreases |m|
  {
    var c :| c in m && BagOf(m) == multiset(TimesOf(m[c])) + BagOf(m - {c});
    if c != k {
      BagSplit(m - {c}, k);
      BagSplit(m - {k}, c);
      assert m - {c} - {k} == m - {k} - {c};
      Exchange(multiset(TimesOf(m[c])), multiset(TimesOf(m[k])), BagOf(m - {c} - {k}));
    }
  }

  lemma Exchange(a: multiset<int>, b: multiset<int>, c: multiset<int>)
    ensures a + (b + c) == b + (a + c)
  {}

  lemma BagOfRest(m: Table, k: Bytes)
    requires k in m ==> TimesOf(m[k]) == []
    ensures BagOf(m - {k}) == BagOf(m)
  {
    if k in m {
      BagSplit(m, k);
    } else {
      assert m - {k} == m;
    }
  }

  /** Writing a batch where there is none, or an empty one, adds its times to the bag. */
  lemma BagWrite(m: Table, k: Bytes, v: Value)
    requires k in m ==> TimesOf(m[k]) == []
    ensures BagOf(m[k := v]) == multiset(TimesOf(v)) + BagOf(m)
  {
    BagOfRest(m, k);
    BagSplit(m[k := v], k);
    assert m[k := v] - {k} == m - {k};
  }

  /** A keyed list and its written form hold the same bag of times. */
  lemma {:induction false} KeyedBag(id: Bytes, window: nat, bs: seq<Batch>)
    requires Keyed(bs)
    ensures multiset(AllTimes(bs)) == BagOf(LatestOf(id, window, bs))
    decreases |bs|
  {
    if bs != [] {
      var last := bs[|bs| - 1];
      KeyedBag(id, window, bs[..|bs| - 1]);
      AllTimesLast(bs);
      OverwrittenIsEmpty(id, window, bs);
      BagWrite(LatestOf(id, window, bs[..|bs| - 1]), KeyOf(id, window, last), BatchValue(last));
    }
  }

  lemma OverwrittenIsEmpty(id: Bytes, window: nat, bs: seq<Batch>)
    requires Keyed(bs) && bs != []
    ensures var m, k := LatestOf(id, window, bs[..|bs| - 1]), KeyOf(id, window, bs[|bs| - 1]);
            k in m ==> TimesOf(m[k]) == []
  {
    var init, k := bs[..|bs| - 1], KeyOf(id, window, bs[|bs| - 1]);
    if NoneAt(id, window, init, k) {
      LatestNone(id, window, init, k);
    } else {
      var q := FindLast(id, window, init, k);
      LatestAt(id, window, init, k, q);
      SameKey(id, window, bs[q].start, bs[|bs| - 1].start);
    }
  }

  // ----- loading -----

  ghost function BatchesAt(m: Table, ks: seq<Bytes>): (bs: seq<Batch>)
    requires forall k :: k in ks ==> k in m && m[k].BatchValue?
    ensures |bs| == |ks|
  {
    seq(|ks|, i requires 0 <= i < |ks| => assert ks[i] in ks; m[ks[i]].batch)
  }

  /** The batches read back from the store, in key order: one per key, representing the same store. */
  lemma LoadRepresents(id: Bytes, window: nat, m: Table, ks: seq<Bytes>)
    requires WellStored(id, window, m) && StrictlySorted(ks) && forall k :: k in ks <==> k in m
    ensures Keyed(BatchesAt(m, ks)) && LatestOf(id, window, BatchesAt(m, ks)) == m
  {
    var bs := BatchesAt(m, ks);
    forall i | 0 <= i < |bs| ensures KeyOf(id, window, bs[i]) == ks[i] { assert ks[i] in ks; }
    forall i, j | 0 <= i < j < |bs| ensures Slot(bs[i].start) != Slot(bs[j].start) {
      LexIrreflexive(ks[i]);
      SameKey(id, window, bs[i].start, bs[j].start);
    }
    var l := LatestOf(id, window, bs);
    forall k ensures (k in l <==> k in m) && (k in m ==> l[k] == m[k]) {
      if k in m {
        var q :| 0 <= q < |ks| && ks[q] == k;
        forall i | q < i < |bs| ensures KeyOf(id, window, bs[i]) != k { LexIrreflexive(k); }
        LatestAt(id, window, bs, k, q);
      } else {
        assert forall i :: 0 <= i < |bs| ==> ks[i] in ks;
        LatestNone(id, window, bs, k);
      }
    }
  }

  /** Reading back the written form gives some of the batches, each at most once, in another order. */
  lemma ReloadSelects(id: Bytes, window: nat, bs: seq<Batch>, ks: seq<Bytes>) returns (order: seq<nat>)
    requires StrictlySorted(ks) && forall k :: k in ks <==> k in LatestOf(id, window, bs)
    ensures W.Selection(order, |bs|) && |order| == |ks|
    ensures WellStored(id, window, LatestOf(id, window, bs))
    ensures BatchesAt(LatestOf(id, window, bs), ks) == W.Selected(bs, order)
  {
    var m := LatestOf(id, window, bs);
    LatestUnderPrefix(id, window, bs);
    order := [];
    while |order| < |ks|
      invariant |order| <= |ks|
      invariant forall i :: 0 <= i < |order| ==> LastAt(id, window, bs, ks[i], order[i])
    {
      var k := ks[|order|];
      assert k in ks;
      if NoneAt(id, window, bs, k) { LatestNone(id, window, bs, k); }
      var q := FindLast(id, window, bs, k);
      order := order + [q];
    }
    forall i, j | 0 <= i < j < |order| ensures order[i] != order[j] {
      LexIrreflexive(ks[i]);
    }
    forall i | 0 <= i < |ks| ensures BatchesAt(m, ks)[i] == bs[order[i]] {
      LatestAt(id, window, bs, ks[i], order[i]);
    }
  }

  // ----- adding -----

  /** The new request starts no batch, or no non-empty batch and no other instant shares its key. */
  predicate AddSafe(bs: seq<Batch>, t: int) {
    StartsBatch(bs) ==>
      forall i :: 0 <= i < |bs| && Slot(bs[i].start) == Slot(t) ==> bs[i].start == t && bs[i].data == []
  }

  lemma StartKeyed(bs: seq<Batch>, t: int)
    requires Keyed(bs) && StartsBatch(bs)
    ensures Keyed(bs + [Batch(t, [0])]) <==> AddSafe(bs, t)
  {
    var cs := bs + [Batch(t, [0])];
    if Keyed(cs) {
      forall i | 0 <= i < |bs| && Slot(bs[i].start) == Slot(t) ensures bs[i].start == t && bs[i].data == [] {
        assert cs[i] == bs[i] && cs[|bs|].start == t;
      }
    }
  }

  lemma JoinKeyed(bs: seq<Batch>, b: Batch)
    requires Keyed(bs) && bs != [] && b.start == bs[|bs| - 1].start
    ensures Keyed(bs[..|bs| - 1] + [b])
  {
    var cs := bs[..|bs| - 1] + [b];
    assert forall i :: 0 <= i < |bs| ==> cs[i].start == bs[i].start;
    assert forall i :: 0 <= i < |bs| - 1 ==> cs[i].data == bs[i].data;
  }

  /** Adding writes the last batch back, and the list stays keyed exactly when the add is safe. */
  lemma AddRepresents(id: Bytes, window: nat, bs: seq<Batch>, t: int)
    requires Keyed(bs)
    ensures var cs := Added(bs, t);
            var last := cs[|cs| - 1];
            LatestOf(id, window, cs) == LatestOf(id, window, bs)[KeyOf(id, window, last) := BatchValue(last)]
    ensures Keyed(Added(bs, t)) <==> AddSafe(bs, t)
  {
    var cs, n := Added(bs, t), |bs|;
    if StartsBatch(bs) {
      assert cs[..n] == bs;
      StartKeyed(bs, t);
    } else {
      assert cs[..n - 1] == bs[..n - 1];
      JoinKeyed(bs, Joined(bs[n - 1], t));
    }
  }

  // ----- cleaning -----

  /** Compares the cleaned batches with the starts held before: those whose start was held count as
      unchanged; what remains is the starts to clear and the batches to write. */
  function Settle(held: set<int>, rs: seq<Batch>): (set<int>, seq<Batch>)
    decreases |rs|
  {
    if rs == [] then (held, [])
    else if rs[0].start in held then Settle(held - {rs[0].start}, rs[1..])
    else
      var (clear, write) := Settle(held, rs[1..]);
      (clear, [rs[0]] + write)
  }

  /** The i-th cleaned batch counts as unchanged. */
  predicate Matched(held: set<int>, rs: seq<Batch>, i: nat)
    requires i < |rs|
  {
    rs[i].start in held && forall h :: 0 <= h < i ==> rs[h].start != rs[i].start
  }

  function WriteAll(id: Bytes, window: nat, m: Table, bs: seq<Batch>): Table
    decreases |bs|
  {
    if bs == [] then m else WriteAll(id, window, m[KeyOf(id, window, bs[0]) := BatchValue(bs[0])], bs[1..])
  }

  function ClearAll(id: Bytes, window: nat, m: Table, starts: set<int>): Table {
    m - set s | s in starts :: RequestsKey(id, window, s)
  }

  /** The starts left to clear are the held ones that no cleaned batch has. */
  lemma {:induction false} SettleClears(held: set<int>, rs: seq<Batch>)
    ensures forall s :: s in Settle(held, rs).0 <==> s in held && forall i :: 0 <= i < |rs| ==> rs[i].start != s
    decreases |rs|
  {
    if rs != [] {
      var held2 := if rs[0].start in held then held - {rs[0].start} else held;
      SettleClears(held2, rs[1..]);
      forall s ensures s in Settle(held, rs).0 <==> s in held && forall i :: 0 <= i < |rs| ==> rs[i].start != s {
        assert (forall i :: 0 <= i < |rs| ==> rs[i].start != s)
          <==> rs[0].start != s && forall i :: 0 <= i < |rs[1..]| ==> rs[1..][i].start != s by {
          assert forall i :: 0 < i < |rs| ==> rs[1..][i - 1] == rs[i];
        }
      }
    }
  }

  lemma MatchedTail(held: set<int>, rs: seq<Batch>, i: nat)
    requires 0 < i < |rs|
    ensures var held2 := if rs[0].start in held then held - {rs[0].start} else held;
            Matched(held, rs, i) <==> Matched(held2, rs[1..], i - 1)
  {
    var t := rs[1..];
    assert forall h :: 0 <= h < |t| ==> t[h] == rs[h + 1];
    assert (forall h :: 0 <= h < i ==> rs[h].start != rs[i].start)
      <==> rs[0].start != rs[i].start && forall h :: 0 <= h < i - 1 ==> t[h].start != rs[i].start by {
      assert forall h :: 0 < h < i ==> rs[h] == t[h - 1];
    }
  }

  /** Where no written batch has key k, writing keeps what is there. */
  lemma {:induction false} WriteKeeps(id: Bytes, window: nat, held: set<int>, rs: seq<Batch>, m: Table, k: Bytes)
    requires forall i :: 0 <= i < |rs| && KeyOf(id, window, rs[i]) == k ==> Matched(held, rs, i)
    ensures var r := WriteAll(id, window, m, Settle(held, rs).1);
            (k in r <==> k in m) && (k in m ==> r[k] == m[k])
    decreases |rs|
  {
    if rs != [] {
      var t := rs[1..];
      var matched := rs[0].start in held;
      var held2 := if matched then held - {rs[0].start} else held;
      forall i | 0 <= i < |t| && KeyOf(id, window, t[i]) == k ensures Matched(held2, t, i) {
        assert t[i] == rs[i + 1];
        MatchedTail(held, rs, i + 1);
      }
      var m2 := if matched then m else m[KeyOf(id, window, rs[0]) := BatchValue(rs[0])];
      assert !matched ==> KeyOf(id, window, rs[0]) != k by {
        if KeyOf(id, window, rs[0]) == k { assert Matched(held, rs, 0); }
      }
      WriteKeeps(id, window, held2, t, m2, k);
    }
  }

  /** The last batch with key k, if it is written, is what the store then holds. */
  lemma {:induction false} WriteLast(id: Bytes, window: nat, held: set<int>, rs: seq<Batch>, m: Table, k: Bytes, q: nat)
    requires LastAt(id, window, rs, k, q) && !Matched(held, rs, q)
    ensures var r := WriteAll(id, window, m, Settle(held, rs).1); k in r && r[k] == BatchValue(rs[q])
    decreases |rs|
  {
    var t := rs[1..];
    var matched := rs[0].start in held;
    var held2 := if matched then held - {rs[0].start} else held;
    var m2 := if matched then m else m[KeyOf(id, window, rs[0]) := BatchValue(rs[0])];
    assert forall i :: 0 <= i < |t| ==> t[i] == rs[i + 1];
    if q == 0 {
      assert !matched;
      WriteKeeps(id, window, held2, t, m2, k);
    } else {
      MatchedTail(held, rs, q);
      WriteLast(id, window, held2, t, m2, k, q - 1);
    }
  }

  /** How many batches a clean scans: up to the first with a live entry. */
  function Scanned(bs: seq<Batch>, cutoff: int): (n: nat)
    ensures n <= |bs| && (bs != [] ==> n > 0)
  {
    if bs == [] then 0 else if HasLive(bs[0], cutoff) then 1 else 1 + Scanned(bs[1..], cutoff)
  }

  /** The list cs is bs with its first n batches scanned: those all start at the cutoff and only the
      last of them may hold entries; the others are kept whole. */
  ghost predicate Replaces(cs: seq<Batch>, bs: seq<Batch>, n: nat, cutoff: int) {
    && n <= |bs| == |cs|
    && (forall i :: n <= i < |bs| ==> cs[i] == bs[i])
    && (forall i :: 0 <= i < n ==> cs[i].start == cutoff)
    && (forall i :: 0 <= i < n - 1 ==> cs[i].data == [])
    && (0 < n < |bs| ==> cs[n - 1].data != [])
  }

  lemma ReplacesOneMore(cs: seq<Batch>, bs: seq<Batch>, n: nat, cutoff: int)
    requires bs != [] && n > 0 && Replaces(cs, bs[1..], n, cutoff)
    ensures Replaces([Batch(cutoff, [])] + cs, bs, n + 1, cutoff)
  {
    var ds := [Batch(cutoff, [])] + cs;
    assert forall i :: 0 < i < |bs| ==> ds[i] == cs[i - 1] && bs[i] == bs[1..][i - 1];
  }

  lemma {:induction false} CleanedShape(bs: seq<Batch>, cutoff: int)
    ensures Replaces(Cleaned(bs, cutoff), bs, Scanned(bs, cutoff), cutoff)
    ensures bs != [] ==> var n := Scanned(bs, cutoff); Cleaned(bs, cutoff)[n - 1] == Remainder(bs[n - 1], cutoff)
  {
    if bs != [] {
      CleanedUnfolds(bs, cutoff);
      if !HasLive(bs[0], cutoff) {
        CleanedShape(bs[1..], cutoff);
        if |bs| > 1 {
          ReplacesOneMore(Cleaned(bs[1..], cutoff), bs, Scanned(bs[1..], cutoff), cutoff);
        }
      }
    }
  }

  /** No batch that is kept whole has the key of the cutoff. */
  predicate KeptClear(bs: seq<Batch>, cutoff: int) {
    forall i :: Scanned(bs, cutoff) <= i < |bs| ==> Slot(bs[i].start) != Slot(cutoff)
  }

  /** A first batch that is the only one scanned and starts at the cutoff itself does not have its
      first entry at the cutoff. */
  predicate FirstClear(bs: seq<Batch>, cutoff: int) {
    bs != [] && Scanned(bs, cutoff) == 1 && bs[0].start == cutoff ==> bs[0].data == [] || bs[0].data[0] != 0
  }

  predicate CleanSafe(bs: seq<Batch>, cutoff: int) {
    KeptClear(bs, cutoff) && FirstClear(bs, cutoff)
  }

  lemma ReplacedKeyed(cs: seq<Batch>, bs: seq<Batch>, n: nat, cutoff: int)
    requires Keyed(bs) && Replaces(cs, bs, n, cutoff) && (bs != [] ==> n > 0)
    ensures Keyed(cs) <==> forall i :: n <= i < |bs| ==> Slot(bs[i].start) != Slot(cutoff)
  {
    if Keyed(cs) {
      forall i | n <= i < |bs| ensures Slot(bs[i].start) != Slot(cutoff) {
        assert cs[n - 1].data != [] && cs[n - 1].start == cutoff && cs[i] == bs[i];
      }
    }
  }

  /** The cleaned list stays keyed exactly when no batch kept whole has the cutoff's key. */
  lemma CleanedKeyed(bs: seq<Batch>, cutoff: int)
    requires Keyed(bs)
    ensures Keyed(Cleaned(bs, cutoff)) <==> KeptClear(bs, cutoff)
  {
    CleanedShape(bs, cutoff);
    ReplacedKeyed(Cleaned(bs, cutoff), bs, Scanned(bs, cutoff), cutoff);
  }

  lemma FirstTime(b: Batch)
    requires b.data != []
    ensures TimeAt(b, 0) == b.start + b.data[0] * SEC
  {
    var p := b.data[..1];
    assert p == [b.data[0]] && p[..0] == [];
    assert Sum(p) == b.data[0];
  }

  lemma FirstUnchanged(b: Batch)
    ensures Remainder(b, b.start) == b <==> b.data == [] || b.data[0] != 0
  {
    if b.data != [] {
      FirstTime(b);
      if b.data[0] != 0 {
        assert FirstLive(b, b.start, 0) == 0;
        assert b.data == [b.data[0]] + b.data[1..];
      } else {
        assert FirstLive(b, b.start, 0) > 0;
        assert |Remainder(b, b.start).data| < |b.data|;
      }
    }
  }

  function Starts(bs: seq<Batch>): set<int> {
    set b | b in bs :: b.start
  }

  /** The batch keys after a clean has cleared and written. */
  function CleanedStore(id: Bytes, window: nat, m: Table, bs: seq<Batch>, cutoff: int): Table {
    var (clear, write) := Settle(Starts(bs), Cleaned(bs, cutoff));
    WriteAll(id, window, ClearAll(id, window, m, clear), write)
  }

  lemma ClearedKey(id: Bytes, window: nat, m: Table, starts: set<int>, k: Bytes)
    ensures k in ClearAll(id, window, m, starts)
      <==> k in m && forall s :: s in starts ==> RequestsKey(id, window, s) != k
  {}

  /** A key that no cleaned batch has is cleared. */
  lemma AbsentKey(id: Bytes, window: nat, bs: seq<Batch>, cutoff: int, k: Bytes)
    requires NoneAt(id, window, Cleaned(bs, cutoff), k)
    ensures k !in CleanedStore(id, window, LatestOf(id, window, bs), bs, cutoff)
  {
    var cs, m := Cleaned(bs, cutoff), LatestOf(id, window, bs);
    var clear := Settle(Starts(bs), cs).0;
    SettleClears(Starts(bs), cs);
    WriteKeeps(id, window, Starts(bs), cs, ClearAll(id, window, m, clear), k);
    if !NoneAt(id, window, bs, k) {
      var q := FindLast(id, window, bs, k);
      assert bs[q].start in clear;
    } else {
      LatestNone(id, window, bs, k);
    }
  }

  /** A key whose last cleaned batch counts as unchanged keeps what the store held. */
  lemma MatchedKey(id: Bytes, window: nat, bs: seq<Batch>, cutoff: int, k: Bytes, q: nat)
    requires Keyed(bs) && Keyed(Cleaned(bs, cutoff))
    requires LastAt(id, window, Cleaned(bs, cutoff), k, q) && Matched(Starts(bs), Cleaned(bs, cutoff), q)
    ensures var r, m := CleanedStore(id, window, LatestOf(id, window, bs), bs, cutoff), LatestOf(id, window, bs);
            k in m && k in r && r[k] == m[k]
  {
    var cs, m := Cleaned(bs, cutoff), LatestOf(id, window, bs);
    var clear := Settle(Starts(bs), cs).0;
    SettleClears(Starts(bs), cs);
    forall i | 0 <= i < |cs| && KeyOf(id, window, cs[i]) == k ensures Matched(Starts(bs), cs, i) {
      SameKey(id, window, cs[i].start, cs[q].start);
      assert i == q;
    }
    var b :| b in bs && b.start == cs[q].start;
    var p := FindLast(id, window, bs, k);
    LatestAt(id, window, bs, k, p);
    forall s | s in clear ensures RequestsKey(id, window, s) != k {
      var c :| c in bs && c.start == s;
      SameKey(id, window, c.start, b.start);
      SameStart(bs, c, b);
    }
    ClearedKey(id, window, m, clear, k);
    WriteKeeps(id, window, Starts(bs), cs, ClearAll(id, window, m, clear), k);
  }

  lemma SameStart(bs: seq<Batch>, c: Batch, b: Batch)
    requires Keyed(bs) && c in bs && b in bs
    ensures Slot(c.start) == Slot(b.start) ==> c.start == b.start
  {
    var i :| 0 <= i < |bs| && bs[i] == c;
    var j :| 0 <= j < |bs| && bs[j] == b;
  }

  /** A key whose last cleaned batch is written holds that batch. */
  lemma WrittenKey(id: Bytes, window: nat, bs: seq<Batch>, cutoff: int, k: Bytes, q: nat)
    requires LastAt(id, window, Cleaned(bs, cutoff), k, q) && !Matched(Starts(bs), Cleaned(bs, cutoff), q)
    ensures var r := CleanedStore(id, window, LatestOf(id, window, bs), bs, cutoff);
            k in r && r[k] == BatchValue(Cleaned(bs, cutoff)[q])
  {
    var clear := Settle(Starts(bs), Cleaned(bs, cutoff)).0;
    WriteLast(id, window, Starts(bs), Cleaned(bs, cutoff), ClearAll(id, window, LatestOf(id, window, bs), clear), k, q);
  }

  /** The only batch that can count as unchanged without being so is the first. */
  lemma MatchedBatch(id: Bytes, window: nat, bs: seq<Batch>, cutoff: int, k: Bytes, q: nat)
    requires Keyed(bs) && KeptClear(bs, cutoff)
    requires LastAt(id, window, Cleaned(bs, cutoff), k, q) && Matched(Starts(bs), Cleaned(bs, cutoff), q)
    ensures Keyed(Cleaned(bs, cutoff))
    ensures LastAt(id, window, bs, k, q)
    ensures q >= Scanned(bs, cutoff) ==> Cleaned(bs, cutoff)[q] == bs[q]
    ensures q < Scanned(bs, cutoff) ==>
      q == 0 && Scanned(bs, cutoff) == 1 && bs[0].start == cutoff && Cleaned(bs, cutoff)[0] == Remainder(bs[0], cutoff)
  {
    var n, cs := Scanned(bs, cutoff), Cleaned(bs, cutoff);
    CleanedKeyed(bs, cutoff);
    CleanedShape(bs, cutoff);
    if q >= n {
      assert forall i :: q < i < |bs| ==> cs[i] == bs[i];
    } else {
      assert q == 0 by { assert cs[0].start == cs[q].start; }
      assert n == 1 by { assert KeyOf(id, window, cs[n - 1]) == k; }
      var b :| b in bs && b.start == cutoff;
      var p :| 0 <= p < |bs| && bs[p] == b;
      assert p == 0;
      assert forall i :: 0 < i < |bs| ==> cs[i] == bs[i];
    }
  }

  predicate SameAt(a: Table, b: Table, k: Bytes) {
    (k in a <==> k in b) && (k in a ==> a[k] == b[k])
  }

  lemma SameEverywhere(a: Table, b: Table)
    requires forall k :: SameAt(a, b, k)
    ensures a == b
  {
    forall k ensures (k in a <==> k in b) && (k in a ==> a[k] == b[k]) { assert SameAt(a, b, k); }
  }

  ghost predicate SameAtKey(id: Bytes, window: nat, bs: seq<Batch>, cutoff: int, k: Bytes) {
    SameAt(CleanedStore(id, window, LatestOf(id, window, bs), bs, cutoff), LatestOf(id, window, Cleaned(bs, cutoff)), k)
  }

  /** The store after a clean is the written form of the cleaned list. */
  ghost predicate CleanWritesBack(id: Bytes, window: nat, bs: seq<Batch>, cutoff: int) {
    CleanedStore(id, window, LatestOf(id, window, bs), bs, cutoff) == LatestOf(id, window, Cleaned(bs, cutoff))
  }

  lemma SafeWritesBack(id: Bytes, window: nat, bs: seq<Batch>, cutoff: int)
    requires Keyed(bs) && CleanSafe(bs, cutoff)
    ensures CleanWritesBack(id, window, bs, cutoff)
  {
    var r := CleanedStore(id, window, LatestOf(id, window, bs), bs, cutoff);
    var l := LatestOf(id, window, Cleaned(bs, cutoff));
    forall k ensures SameAt(r, l, k) {
      SafeKey(id, window, bs, cutoff, k);
      assert SameAtKey(id, window, bs, cutoff, k);
    }
    SameEverywhere(r, l);
  }

  /** A clean leaves a keyed list that the store represents exactly when the clean is safe. */
  lemma CleanRepresents(id: Bytes, window: nat, bs: seq<Batch>, cutoff: int)
    requires Keyed(bs)
    ensures CleanSafe(bs, cutoff) <==> Keyed(Cleaned(bs, cutoff)) && CleanWritesBack(id, window, bs, cutoff)
  {
    CleanedKeyed(bs, cutoff);
    if CleanSafe(bs, cutoff) {
      SafeWritesBack(id, window, bs, cutoff);
    } else if KeptClear(bs, cutoff) {
      UnsafeFirst(id, window, bs, cutoff);
    }
  }

  lemma SafeKey(id: Bytes, window: nat, bs: seq<Batch>, cutoff: int, k: Bytes)
    requires Keyed(bs) && CleanSafe(bs, cutoff)
    ensures SameAtKey(id, window, bs, cutoff, k)
  {
    var cs := Cleaned(bs, cutoff);
    if NoneAt(id, window, cs, k) {
      AbsentKey(id, window, bs, cutoff, k);
      LatestNone(id, window, cs, k);
    } else {
      var q := FindLast(id, window, cs, k);
      LatestAt(id, window, cs, k, q);
      if Matched(Starts(bs), cs, q) {
        MatchedBatch(id, window, bs, cutoff, k, q);
        MatchedKey(id, window, bs, cutoff, k, q);
        LatestAt(id, window, bs, k, q);
        if q < Scanned(bs, cutoff) { FirstUnchanged(bs[0]); }
      } else {
        WrittenKey(id, window, bs, cutoff, k, q);
      }
    }
  }

  lemma UnsafeFirst(id: Bytes, window: nat, bs: seq<Batch>, cutoff: int)
    requires Keyed(bs) && KeptClear(bs, cutoff) && !FirstClear(bs, cutoff)
    ensures !SameAtKey(id, window, bs, cutoff, KeyOf(id, window, bs[0]))
  {
    var cs, k := Cleaned(bs, cutoff), KeyOf(id, window, bs[0]);
    CleanedKeyed(bs, cutoff);
    CleanedShape(bs, cutoff);
    forall i | 0 < i < |cs| ensures KeyOf(id, window, cs[i]) != k {
      assert cs[i] == bs[i];
      SameKey(id, window, bs[i].start, cutoff);
    }
    assert LastAt(id, window, cs, k, 0);
    assert bs[0] in bs;
    assert Matched(Starts(bs), cs, 0);
    MatchedBatch(id, window, bs, cutoff, k, 0);
    MatchedKey(id, window, bs, cutoff, k, 0);
    LatestAt(id, window, bs, k, 0);
    LatestAt(id, window, cs, k, 0);
    FirstUnchanged(bs[0]);
  }
}
