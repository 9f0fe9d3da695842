/** Byte strings and the order in which the key-value store keeps them. */
module Bytes {

  type byte = x: int | 0 <= x < 256

  type Bytes = seq<byte>

  /** Byte-wise lexicographic order; a proper prefix comes first. */
  predicate LexLess(a: Bytes, b: Bytes)
    decreases |a|
  {
    if b == [] then false
    else if a == [] then true
    else a[0] < b[0] || (a[0] == b[0] && LexLess(a[1..], b[1..]))
  }

  predicate LexLessOrEqual(a: Bytes, b: Bytes) {
    a == b || LexLess(a, b)
  }

  lemma {:induction false} LexIrreflexive(a: Bytes)
    ensures !LexLess(a, a)
  {
    if a != [] { LexIrreflexive(a[1..]); }
  }

  lemma {:induction false} LexTransitive(a: Bytes, b: Bytes, c: Bytes)
    requires LexLess(a, b) && LexLess(b, c)
    ensures LexLess(a, c)
  {
    if a != [] && a[0] == b[0] == c[0] { LexTransitive(a[1..], b[1..], c[1..]); }
  }

  lemma {:induction false} LexTotal(a: Bytes, b: Bytes)
    ensures a == b || LexLess(a, b) || LexLess(b, a)
  {
    if a == [] || b == [] {
    } else if a[0] == b[0] {
      LexTotal(a[1..], b[1..]);
      assert a == [a[0]] + a[1..] && b == [b[0]] + b[1..];
    }
  }

  /** A shared prefix does not take part in a comparison. */
  lemma {:induction false} LexCommonPrefix(p: Bytes, a: Bytes, b: Bytes)
    ensures LexLess(p + a, p + b) <==> LexLess(a, b)
  {
    if p == [] {
      assert p + a == a && p + b == b;
    } else {
      assert (p + a)[1..] == p[1..] + a && (p + b)[1..] == p[1..] + b;
      LexCommonPrefix(p[1..], a, b);
    }
  }

  /** Heads of equal length decide a comparison unless they are equal. */
  lemma {:induction false} LexEqualLengthHeads(p: Bytes, q: Bytes, a: Bytes, b: Bytes)
    requires |p| == |q|
    ensures LexLess(p + a, q + b) <==> LexLess(p, q) || (p == q && LexLess(a, b))
  {
    if p == [] {
      assert p + a == a && q + b == b;
    } else {
      assert (p + a)[1..] == p[1..] + a && (q + b)[1..] == q[1..] + b;
      assert p == [p[0]] + p[1..] && q == [q[0]] + q[1..];
      LexEqualLengthHeads(p[1..], q[1..], a, b);
    }
  }

  /** Every non-empty set of byte strings has a first element. */
  lemma {:induction false} LexLeastExists(s: set<Bytes>)
    requires s != {}
    ensures exists m :: m in s && forall x :: x in s ==> LexLessOrEqual(m, x)
    decreases |s|
  {
    var a :| a in s;
    var rest := s - {a};
    if rest != {} {
      LexLeastExists(rest);
      var m :| m in rest && forall x :: x in rest ==> LexLessOrEqual(m, x);
      LexTotal(a, m);
      var least := if LexLess(a, m) then a else m;
      forall x | x in s ensures LexLessOrEqual(least, x) {
        if x in rest && least == a && x != m { LexTransitive(a, m, x); }
      }
    } else {
      assert forall x :: x in s ==> x == a || x in rest;
      assert LexLessOrEqual(a, a);
    }
  }

  lemma LexLeastUnique(s: set<Bytes>, m: Bytes, n: Bytes)
    requires m in s && forall x :: x in s ==> LexLessOrEqual(m, x)
    requires n in s && forall x :: x in s ==> LexLessOrEqual(n, x)
    ensures m == n
  {
    if m != n {
      LexTransitive(m, n, m);
      LexIrreflexive(m);
    }
  }

  ghost function Least(s: set<Bytes>): (m: Bytes)
    requires s != {}
    ensures m in s && forall x :: x in s ==> LexLessOrEqual(m, x)
  {
    LexLeastExists(s);
    var m :| m in s && forall x :: x in s ==> LexLessOrEqual(m, x);
    m
  }

  ghost predicate StrictlySorted(ks: seq<Bytes>) {
    forall i, j :: 0 <= i < j < |ks| ==> LexLess(ks[i], ks[j])
  }

  /** The elements of a set, first to last. */
  ghost function Sorted(s: set<Bytes>): (ks: seq<Bytes>)
    ensures forall k :: k in ks <==> k in s
    ensures StrictlySorted(ks)
    ensures |ks| == |s|
    decreases |s|
  {
    if s == {} then [] else
      var m := Least(s);
      var rest := Sorted(s - {m});
      assert forall i :: 0 <= i < |rest| ==> rest[i] in rest;
      [m] + rest
  }

  method FirstOf(s: set<Bytes>) returns (m: Bytes)
    requires s != {}
    ensures m in s && forall x :: x in s ==> LexLessOrEqual(m, x)
  {
    LexLeastExists(s);
    m :| m in s && forall x :: x in s ==> LexLessOrEqual(m, x);
  }

  lemma SortedStep(s: set<Bytes>, m: Bytes)
    requires m in s && forall x :: x in s ==> LexLessOrEqual(m, x)
    ensures Sorted(s) == [m] + Sorted(s - {m})
  {
    LexLeastUnique(s, m, Least(s));
  }

  /** Lists a set first to last. */
  method SortedKeys(s: set<Bytes>) returns (ks: seq<Bytes>)
    ensures ks == Sorted(s)
  {
    var left := s;
    ks := [];
    ghost var all, rest := Sorted(s), Sorted(s);
    while left != {}
      invariant rest == Sorted(left) && all == Sorted(s) && all == ks + rest
      decreases left
    {
      var k := FirstOf(left);
      SortedStep(left, k);
      rest := Sorted(left - {k});
      MoveFirst(ks, k, rest);
      ks := ks + [k];
      left := left - {k};
    }
    assert rest == [];
  }

  lemma MoveFirst(a: seq<Bytes>, k: Bytes, b: seq<Bytes>)
    ensures a + ([k] + b) == (a + [k]) + b
  {}

  // ----- prefixes and the range that scans one -----

  /** The first byte string after every string that starts with p:
      trailing 0xff bytes are dropped and the last other byte is raised. */
  function Strinc(p: Bytes): Bytes
    requires exists i :: 0 <= i < |p| && p[i] != 255
  {
    var n := |p| - 1;
    if p[n] == 255 then
      assert forall i :: 0 <= i < |p| && p[i] != 255 ==> p[..n][i] != 255;
      Strinc(p[..n])
    else p[..n] + [p[n] + 1]
  }

  /** Nothing but an extension of a run of 0xff bytes is at or after it. */
  lemma {:induction false} AfterAllOnes(ones: Bytes, k: Bytes)
    requires forall i :: 0 <= i < |ones| ==> ones[i] == 255
    ensures LexLessOrEqual(ones, k) <==> ones <= k
  {
    if ones != [] && k != [] && k[0] == 255 {
      AfterAllOnes(ones[1..], k[1..]);
      assert ones == [ones[0]] + ones[1..] && k == [k[0]] + k[1..];
    }
  }

  lemma {:induction false} RangeOfHead(head: Bytes, c: byte, ones: Bytes, k: Bytes)
    requires c < 255 && forall i :: 0 <= i < |ones| ==> ones[i] == 255
    ensures LexLessOrEqual(head + [c] + ones, k) && LexLess(k, head + [c + 1]) <==> head + [c] + ones <= k
  {
    var p := head + [c] + ones;
    if k == [] {
    } else if head == [] {
      assert p[0] == c && p[1..] == ones && (head + [c + 1])[1..] == [];
      assert k == [k[0]] + k[1..] && p == [c] + ones;
      AfterAllOnes(ones, k[1..]);
    } else {
      var tail := head[1..] + [c] + ones;
      assert p[0] == head[0] && p[1..] == tail;
      assert (head + [c + 1])[0] == head[0] && (head + [c + 1])[1..] == head[1..] + [c + 1];
      assert k == [k[0]] + k[1..] && p == [head[0]] + tail;
      RangeOfHead(head[1..], c, ones, k[1..]);
    }
  }

  lemma {:induction false} StrincShape(p: Bytes) returns (n: nat)
    requires exists i :: 0 <= i < |p| && p[i] != 255
    ensures n < |p| && p[n] != 255 && Strinc(p) == p[..n] + [p[n] + 1]
    ensures forall i :: n < i < |p| ==> p[i] == 255
  {
    var m := |p| - 1;
    if p[m] == 255 {
      assert forall i :: 0 <= i < |p| && p[i] != 255 ==> p[..m][i] != 255;
      n := StrincShape(p[..m]);
      assert p[..m][..n] == p[..n];
    } else {
      n := m;
    }
  }

  /** Scanning from p up to Strinc(p) meets exactly the strings that start with p. */
  lemma PrefixRangeExact(p: Bytes, k: Bytes)
    requires exists i :: 0 <= i < |p| && p[i] != 255
    ensures LexLessOrEqual(p, k) && LexLess(k, Strinc(p)) <==> p <= k
  {
    var n := StrincShape(p);
    assert p == p[..n] + [p[n]] + p[n + 1..];
    RangeOfHead(p[..n], p[n], p[n + 1..], k);
  }
}
