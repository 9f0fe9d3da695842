/** Key layout: every key the model uses, as the bytes the builder concatenates. */
module Keys {
  import opened Bytes

  /** Nanoseconds in a second. */
  const SEC: int := 1_000_000_000

  const TWEET: Bytes := [0x00, 0x01]
  const RATING_INDEX: Bytes := [0x00, 0x12]
  const CREATION_INDEX: Bytes := [0x00, 0x14]
  const REQUEST_LIMIT: Bytes := [0x00, 0x1a]
  const REQUESTS: Bytes := [0x00, 0x1b]

  /** time.Unix: seconds since the epoch, rounded down. */
  function UnixSecond(t: int): int { t / SEC }

  // ----- little-endian integers -----

  function LittleEndian(n: nat, width: nat): (r: Bytes)
    ensures |r| == width
  {
    if width == 0 then [] else [n % 256] + LittleEndian(n / 256, width - 1)
  }

  function Pow256(n: nat): nat { if n == 0 then 1 else 256 * Pow256(n - 1) }

  lemma {:induction false} LittleEndianInjective(a: nat, b: nat, width: nat)
    requires a < Pow256(width) && b < Pow256(width)
    requires LittleEndian(a, width) == LittleEndian(b, width)
    ensures a == b
    decreases width
  {
    if width > 0 {
      var x, y := LittleEndian(a, width), LittleEndian(b, width);
      assert x[0] == y[0] && x[1..] == y[1..];
      LittleEndianInjective(a / 256, b / 256, width - 1);
    }
  }

  // ----- request limits and their batches -----

  /** uint16(window.Seconds()), little-endian. */
  function WindowBytes(window: nat): Bytes { LittleEndian(window % 65536, 2) }

  /** The value of uint64(start.Unix()). */
  function Slot(start: int): nat { UnixSecond(start) % 0x1_0000_0000_0000_0000 }

  function RequestLimitsKey(id: Bytes, window: nat): Bytes {
    REQUEST_LIMIT + id + WindowBytes(window)
  }

  function RequestsPrefix(id: Bytes, window: nat): Bytes {
    REQUESTS + id + WindowBytes(window)
  }

  function SlotKey(id: Bytes, window: nat, slot: nat): Bytes {
    RequestsPrefix(id, window) + LittleEndian(slot, 8)
  }

  function RequestsKey(id: Bytes, window: nat, start: int): Bytes {
    SlotKey(id, window, Slot(start))
  }

  predicate LoginChar(c: byte) {
    48 <= c <= 57 || 65 <= c <= 90 || 97 <= c <= 122 || c == 95
  }

  /** A login over letters, digits and underscore. */
  predicate Login(id: Bytes) {
    forall i :: 0 <= i < |id| ==> LoginChar(id[i])
  }

  /** Ten minutes, an hour, a day and thirty days. */
  predicate PoolWindow(window: nat) {
    window == 600 || window == 3600 || window == 86400 || window == 2592000
  }

  predicate Owner(id: Bytes, window: nat) {
    Login(id) && PoolWindow(window)
  }

  lemma WindowBytesOfPool(window: nat)
    requires PoolWindow(window)
    ensures window == 600 ==> WindowBytes(window) == [0x58, 0x02]
    ensures window == 3600 ==> WindowBytes(window) == [0x10, 0x0e]
    ensures window == 86400 ==> WindowBytes(window) == [0x80, 0x51]
    ensures window == 2592000 ==> WindowBytes(window) == [0x00, 0x8d]
  {
    var n := window % 65536;
    assert LittleEndian(n / 256 / 256, 0) == [];
    assert LittleEndian(n / 256, 1) == [(n / 256) % 256];
    assert WindowBytes(window) == [n % 256, (n / 256) % 256];
  }

  /** A login's window scan cannot reach a batch of another login or window. */
  lemma BatchPrefixExact(id: Bytes, window: nat, id2: Bytes, window2: nat, slot: nat)
    requires Owner(id, window) && Owner(id2, window2)
    ensures RequestsPrefix(id, window) <= SlotKey(id2, window2, slot) <==> id == id2 && window == window2
  {
    var p, k := RequestsPrefix(id, window), SlotKey(id2, window2, slot);
    var w, w2 := WindowBytes(window), WindowBytes(window2);
    WindowBytesOfPool(window);
    WindowBytesOfPool(window2);
    var n, n2 := |id|, |id2|;
    assert p[n + 2] == w[0] && p[n + 3] == w[1];
    assert k[n2 + 2] == w2[0] && k[n2 + 3] == w2[1];
    assert p <= k ==> k[n + 2] == w[0] && k[n + 3] == w[1] && k[..n + 2] == p[..n + 2];
    assert p <= k ==> forall i :: 0 <= i < |p| ==> p[i] == k[i];
    if n < n2 {
      assert k[n + 2] == id2[n] && LoginChar(id2[n]);
      if n + 1 < n2 { assert k[n + 3] == id2[n + 1] && LoginChar(id2[n + 1]); }
    } else if n2 < n {
      assert p[n2 + 2] == id[n2] && LoginChar(id[n2]);
      if n2 + 1 < n { assert p[n2 + 3] == id[n2 + 1] && LoginChar(id[n2 + 1]); }
    } else {
      assert p[..n + 2] == REQUESTS + id && k[..n + 2] == REQUESTS + id2;
      assert (REQUESTS + id)[2..] == id && (REQUESTS + id2)[2..] == id2;
    }
  }

  /** With other bytes in a login the scan does leak: a login ending in the bytes of a window. */
  lemma BatchPrefixLeaks()
    ensures var id: Bytes, id2: Bytes := [97], [97, 0x58, 0x02];
            Login(id) && !Login(id2) && RequestsPrefix(id, 600) <= SlotKey(id2, 600, 0)
  {
    WindowBytesOfPool(600);
    var id2: Bytes := [97, 0x58, 0x02];
    assert !LoginChar(id2[2]);
    assert RequestsPrefix([97], 600) == [0, 0x1b, 97, 0x58, 0x02];
    assert RequestsPrefix([97], 600) == SlotKey(id2, 600, 0)[..5];
  }

  lemma ConcatPrefix(x: Bytes, y: Bytes, u: Bytes, v: Bytes)
    ensures |x| <= |u| ==> (x + y <= u + v <==> x <= u && y <= u[|x|..] + v)
    ensures |x| > |u| ==> (x + y <= u + v <==> u <= x && x[|u|..] + y <= v)
  {
    if |x| <= |u| {
      assert u + v == u[..|x|] + (u[|x|..] + v);
      SamePartition(x, y, u[..|x|], u[|x|..] + v);
    } else {
      assert x + y == x[..|u|] + (x[|u|..] + y);
      SamePartition(x[..|u|], x[|u|..] + y, u, v);
    }
  }

  lemma SamePartition(x: Bytes, y: Bytes, u: Bytes, v: Bytes)
    requires |x| == |u|
    ensures x + y <= u + v <==> x == u && y <= v
  {
    if x + y <= u + v {
      assert x == (x + y)[..|x|] == (u + v)[..|x|] == u;
      assert y == (x + y)[|x|..] && v == (u + v)[|x|..];
      assert forall i :: 0 <= i < |y| ==> y[i] == (x + y)[|x| + i] == (u + v)[|x| + i] == v[i];
    }
  }

  /** A login continued by the bytes of its window reaches into the keys of another one: into those of a
      login that is no shorter, whatever their seconds, or else as far as window and second continue it. */
  predicate Leaks(id: Bytes, window: nat, id2: Bytes, window2: nat, slot: nat) {
    if |id| <= |id2| then id <= id2 && WindowBytes(window) <= id2[|id|..] + WindowBytes(window2)
    else id2 <= id && id[|id2|..] + WindowBytes(window) <= WindowBytes(window2) + LittleEndian(slot, 8)
  }

  /** Over any bytes, a login's window scan reaches a batch exactly in these cases; never one of a login
      more than eight bytes shorter. */
  lemma BatchPrefixLeaksWhen(id: Bytes, window: nat, id2: Bytes, window2: nat, slot: nat)
    ensures RequestsPrefix(id, window) <= SlotKey(id2, window2, slot) <==> Leaks(id, window, id2, window2, slot)
    ensures |id| > |id2| + 8 ==> !Leaks(id, window, id2, window2, slot)
    ensures |id| + 2 <= |id2| ==> (Leaks(id, window, id2, window2, slot) <==> id + WindowBytes(window) <= id2)
  {
    var w, w2, l := WindowBytes(window), WindowBytes(window2), LittleEndian(slot, 8);
    assert RequestsPrefix(id, window) == REQUESTS + (id + w);
    assert SlotKey(id2, window2, slot) == REQUESTS + (id2 + (w2 + l));
    SamePartition(REQUESTS, id + w, REQUESTS, id2 + (w2 + l));
    ConcatPrefix(id, w, id2, w2 + l);
    if |id| <= |id2| {
      var rest := id2[|id|..];
      assert rest + (w2 + l) == (rest + w2) + l;
      ConcatPrefix(w, [], rest + w2, l);
      assert w + [] == w;
      if |id| + 2 <= |id2| {
        ConcatPrefix(w, [], rest, w2);
        ConcatPrefix(id, w, id2, []);
        assert id2 + [] == id2 && rest + [] == rest;
      }
    }
  }

  /** Batch keys are injective in login, window and start second. */
  lemma SlotKeyInjective(id: Bytes, window: nat, slot: nat, id2: Bytes, window2: nat, slot2: nat)
    requires Owner(id, window) && Owner(id2, window2)
    requires slot < 0x1_0000_0000_0000_0000 && slot2 < 0x1_0000_0000_0000_0000
    requires SlotKey(id, window, slot) == SlotKey(id2, window2, slot2)
    ensures id == id2 && window == window2 && slot == slot2
  {
    BatchPrefixExact(id, window, id2, window2, slot2);
    var p := RequestsPrefix(id, window);
    assert SlotKey(id, window, slot)[|p|..] == LittleEndian(slot, 8);
    assert SlotKey(id2, window2, slot2)[|p|..] == LittleEndian(slot2, 8);
    Pow256Of8();
    LittleEndianInjective(slot, slot2, 8);
  }

  lemma Pow256Of8()
    ensures Pow256(8) == 0x1_0000_0000_0000_0000
  {
    assert Pow256(4) == 0x1_0000_0000;
    assert Pow256(6) == 0x1_0000_0000_0000;
  }

  lemma RequestLimitsKeyInjective(id: Bytes, window: nat, id2: Bytes, window2: nat)
    requires Owner(id, window) && Owner(id2, window2)
    requires RequestLimitsKey(id, window) == RequestLimitsKey(id2, window2)
    ensures id == id2 && window == window2
  {
    var a, b := RequestLimitsKey(id, window), RequestLimitsKey(id2, window2);
    assert |id| == |id2|;
    assert id == a[2..|id| + 2] == b[2..|id| + 2] == id2;
    assert a[|id| + 2..] == WindowBytes(window) && b[|id| + 2..] == WindowBytes(window2);
    WindowBytesOfPool(window);
    WindowBytesOfPool(window2);
  }

  lemma NextLowByte(n: nat)
    ensures (n + 1) % 256 < n % 256 <==> n % 256 == 255
    ensures (n + 1) % 256 != n % 256
  {}

  lemma LowByteDecides(a: nat, b: nat)
    requires a % 256 != b % 256
    ensures LexLess(LittleEndian(a, 8), LittleEndian(b, 8)) <==> a % 256 < b % 256
  {
    assert LittleEndian(a, 8)[0] == a % 256 && LittleEndian(b, 8)[0] == b % 256;
  }

  /** Batch keys do not sort as their seconds do: the next second's key comes first exactly after every
      256th. */
  lemma NextSecondFirst(id: Bytes, window: nat, slot: nat)
    ensures LexLess(SlotKey(id, window, slot + 1), SlotKey(id, window, slot)) <==> slot % 256 == 255
  {
    LexCommonPrefix(RequestsPrefix(id, window), LittleEndian(slot + 1, 8), LittleEndian(slot, 8));
    NextLowByte(slot);
    LowByteDecides(slot + 1, slot);
  }

  lemma RequestsPrefixHasEnd(id: Bytes, window: nat)
    ensures exists i :: 0 <= i < |RequestsPrefix(id, window)| && RequestsPrefix(id, window)[i] != 255
  {
    assert RequestsPrefix(id, window)[0] == 0;
  }

  // ----- decimal numbers -----

  const MINUS: byte := 45
  const DOT: byte := 46
  const ZERO: byte := 48

  /** The digits of n, without leading zeros. */
  function Decimal(n: nat): (r: Bytes)
    ensures |r| > 0
    ensures forall i :: 0 <= i < |r| ==> 48 <= r[i] <= 57
    ensures n > 0 ==> r[0] > 48
  {
    if n < 10 then [ZERO + n] else Decimal(n / 10) + [ZERO + n % 10]
  }

  function PrintInt(z: int): Bytes {
    if z < 0 then [MINUS] + Decimal(-z) else Decimal(z)
  }

  /** The last `width` digits of n. */
  function Fixed(n: nat, width: nat): (r: Bytes)
    ensures |r| == width
    ensures forall i :: 0 <= i < |r| ==> 48 <= r[i] <= 57
    decreases width
  {
    if width == 0 then [] else Fixed(n / 10, width - 1) + [ZERO + n % 10]
  }

  /** Printed numbers of equal length sort as the numbers do. */
  lemma {:induction false} DecimalOrder(a: nat, b: nat)
    requires |Decimal(a)| == |Decimal(b)|
    ensures LexLess(Decimal(a), Decimal(b)) <==> a < b
    ensures Decimal(a) == Decimal(b) <==> a == b
  {
    if a < 10 {
      assert b < 10;
    } else {
      assert b >= 10;
      DecimalOrder(a / 10, b / 10);
      var p, q := Decimal(a / 10), Decimal(b / 10);
      var x: Bytes, y: Bytes := [ZERO + a % 10], [ZERO + b % 10];
      LexEqualLengthHeads(p, q, x, y);
      assert LexLess(x, y) <==> x[0] < y[0];
      assert (p + x)[..|p|] == p && (q + y)[..|p|] == q && (p + x)[|p|] == x[0] && (q + y)[|p|] == y[0];
    }
  }

  lemma {:induction false} FixedOrder(a: nat, b: nat, width: nat)
    requires a < Pow10(width) && b < Pow10(width)
    ensures LexLess(Fixed(a, width), Fixed(b, width)) <==> a < b
    decreases width
  {
    if width > 0 {
      FixedOrder(a / 10, b / 10, width - 1);
      FixedEqual(a / 10, b / 10, width - 1);
      var x: Bytes, y: Bytes := [ZERO + a % 10], [ZERO + b % 10];
      LexEqualLengthHeads(Fixed(a / 10, width - 1), Fixed(b / 10, width - 1), x, y);
      assert LexLess(x, y) <==> x[0] < y[0];
    }
  }

  lemma {:induction false} FixedEqual(a: nat, b: nat, width: nat)
    requires a < Pow10(width) && b < Pow10(width)
    ensures Fixed(a, width) == Fixed(b, width) <==> a == b
    decreases width
  {
    if width > 0 {
      FixedEqual(a / 10, b / 10, width - 1);
      var p, q := Fixed(a, width), Fixed(b, width);
      assert p[..width - 1] == Fixed(a / 10, width - 1) && q[..width - 1] == Fixed(b / 10, width - 1);
      assert p[width - 1] == ZERO + a % 10 && q[width - 1] == ZERO + b % 10;
    }
  }

  function Pow10(n: nat): nat { if n == 0 then 1 else 10 * Pow10(n - 1) }

  // ----- tweets and their indexes -----

  /** The byte that tells one family of keys from another. */
  function Family(k: Bytes): int {
    if |k| >= 2 && k[0] == 0 then k[1] else -1
  }

  function TweetKey(id: Bytes): (k: Bytes)
    ensures Family(k) == 0x01
  {
    TWEET + id
  }

  /** Nearest integer, ties to even. */
  function RoundHalfEven(x: real): (n: nat)
    requires x >= 0.0
    ensures -0.5 <= x - n as real <= 0.5
  {
    var f := x.Floor;
    var d := x - f as real;
    if d < 0.5 || (d == 0.5 && f % 2 == 0) then f else f + 1
  }

  /** The magnitude of a rating in units of 0.00001, as "%.5f" rounds it. */
  function Hundredthousandths(rating: real): nat {
    RoundHalfEven((if rating < 0.0 then -rating else rating) * 100000.0)
  }

  /** A number printed with five decimals. */
  function PrintDecimals(negative: bool, whole: nat, fraction: nat): Bytes {
    (if negative then [MINUS] else []) + Decimal(whole) + [DOT] + Fixed(fraction, 5)
  }

  /** "%.5f" of a finite rating. */
  function PrintRating(rating: real): Bytes {
    var n := Hundredthousandths(rating);
    PrintDecimals(rating < 0.0, n / 100000, n % 100000)
  }

  function RatingKey(rating: real, id: Bytes): (k: Bytes)
    ensures Family(k) == 0x12
  {
    RATING_INDEX + PrintRating(rating) + id
  }

  /** Bounds of the scan over positive ratings: "0.00001" up to the end of the index. */
  const POSITIVE_BEGIN: Bytes := RATING_INDEX + [48, 46, 48, 48, 48, 48, 49]
  const POSITIVE_END: Bytes := [0x00, 0x13]

  function CreationKey(created: int, id: Bytes): (k: Bytes)
    ensures Family(k) == 0x14
  {
    CREATION_INDEX + PrintInt(UnixSecond(created)) + id
  }

  function CreationBound(created: int): Bytes {
    CREATION_INDEX + PrintInt(UnixSecond(created))
  }

  lemma TweetKeyInjective(id1: Bytes, id2: Bytes)
    ensures TweetKey(id1) == TweetKey(id2) <==> id1 == id2
  {
    assert TweetKey(id1)[2..] == id1 && TweetKey(id2)[2..] == id2;
  }

  /** The first dot of a printed rating stands six bytes before its end. */
  lemma FirstDot(negative: bool, whole: nat, fraction: nat) returns (head: Bytes, digits: Bytes)
    ensures PrintDecimals(negative, whole, fraction) == head + [DOT] + digits && |digits| == 5 && DOT !in head
  {
    head := (if negative then [MINUS] else []) + Decimal(whole);
    digits := Fixed(fraction, 5);
  }

  lemma {:induction false} SameHead(p: Bytes, q: Bytes, a: Bytes, b: Bytes)
    requires DOT !in p && DOT !in q && p + [DOT] + a == q + [DOT] + b
    ensures p == q
  {
    var x, y := p + [DOT] + a, q + [DOT] + b;
    assert x[|p|] == DOT && y[|q|] == DOT;
    assert forall i :: 0 <= i < |p| ==> x[i] == p[i];
    assert forall i :: 0 <= i < |q| ==> y[i] == q[i];
    assert p == x[..|p|] && q == y[..|p|];
  }

  lemma SameDotted(p: Bytes, h: Bytes, d: Bytes, id: Bytes, p2: Bytes, h2: Bytes, d2: Bytes, id2: Bytes)
    requires p == h + [DOT] + d && p2 == h2 + [DOT] + d2 && |d| == |d2|
    requires DOT !in h && DOT !in h2 && p + id == p2 + id2
    ensures p == p2 && id == id2
  {
    assert p + id == h + [DOT] + (d + id) && p2 + id2 == h2 + [DOT] + (d2 + id2);
    SameHead(h, h2, d + id, d2 + id2);
    assert p == (p + id)[..|p|] && p2 == (p2 + id2)[..|p|];
    assert id == (p + id)[|p|..] && id2 == (p2 + id2)[|p|..];
  }

  /** Rating keys never mix up two tweets, whatever their ids. */
  lemma RatingKeyInjective(r1: real, id1: Bytes, r2: real, id2: Bytes)
    ensures RatingKey(r1, id1) == RatingKey(r2, id2) <==> PrintRating(r1) == PrintRating(r2) && id1 == id2
  {
    if RatingKey(r1, id1) == RatingKey(r2, id2) {
      var n1, n2 := Hundredthousandths(r1), Hundredthousandths(r2);
      var h1, d1 := FirstDot(r1 < 0.0, n1 / 100000, n1 % 100000);
      var h2, d2 := FirstDot(r2 < 0.0, n2 / 100000, n2 % 100000);
      SamePrefixed(RATING_INDEX, PrintRating(r1), id1, PrintRating(r2), id2);
      SameDotted(PrintRating(r1), h1, d1, id1, PrintRating(r2), h2, d2, id2);
    }
  }

  lemma SamePrefixed(prefix: Bytes, p: Bytes, id: Bytes, p2: Bytes, id2: Bytes)
    requires prefix + p + id == prefix + p2 + id2
    ensures p + id == p2 + id2
  {
    assert (prefix + p + id)[|prefix|..] == p + id && (prefix + p2 + id2)[|prefix|..] == p2 + id2;
  }

  /** The positive scan meets exactly the ratings that print as 0.00001 or more. */
  lemma PositiveRangeExact(rating: real, id: Bytes)
    ensures InPositiveRange(RatingKey(rating, id)) <==> rating >= 0.0 && Hundredthousandths(rating) >= 1
  {
    var n := Hundredthousandths(rating);
    PositiveDecimals(rating < 0.0, n / 100000, n % 100000, id);
  }

  lemma PositiveDecimals(negative: bool, whole: nat, fraction: nat, id: Bytes)
    requires fraction < 100000
    ensures InPositiveRange(RATING_INDEX + PrintDecimals(negative, whole, fraction) + id)
      <==> !negative && (whole >= 1 || fraction >= 1)
  {
    var low: Bytes := [48, 46, 48, 48, 48, 48, 49];
    var body := PrintDecimals(negative, whole, fraction) + id;
    assert POSITIVE_BEGIN == RATING_INDEX + low;
    assert RATING_INDEX + PrintDecimals(negative, whole, fraction) + id == RATING_INDEX + body;
    InRatingIndex(low, body);
    PositiveBody(negative, whole, fraction, id);
  }

  predicate InPositiveRange(k: Bytes) {
    LexLessOrEqual(POSITIVE_BEGIN, k) && LexLess(k, POSITIVE_END)
  }

  lemma PositiveBody(negative: bool, whole: nat, fraction: nat, id: Bytes)
    requires fraction < 100000
    ensures LexLessOrEqual([48, 46, 48, 48, 48, 48, 49], PrintDecimals(negative, whole, fraction) + id)
      <==> !negative && (whole >= 1 || fraction >= 1)
  {
    var body := PrintDecimals(negative, whole, fraction) + id;
    if negative {
      assert body[0] == MINUS;
    } else if whole >= 1 {
      assert body[0] == Decimal(whole)[0];
    } else {
      assert body == [ZERO, DOT] + (Fixed(fraction, 5) + id);
      PositiveFraction(fraction, id);
    }
  }

  lemma InRatingIndex(low: Bytes, body: Bytes)
    ensures LexLessOrEqual(RATING_INDEX + low, RATING_INDEX + body) <==> LexLessOrEqual(low, body)
    ensures LexLess(RATING_INDEX + body, POSITIVE_END)
  {
    LexCommonPrefix(RATING_INDEX, low, body);
    assert (RATING_INDEX + low)[2..] == low && (RATING_INDEX + body)[2..] == body;
    var k := RATING_INDEX + body;
    assert k[1..][0] == 0x12 && POSITIVE_END[1..][0] == 0x13;
  }

  lemma PositiveFraction(n: nat, id: Bytes)
    requires n < 100000
    ensures LexLessOrEqual([48, 46, 48, 48, 48, 48, 49], [48, 46] + (Fixed(n, 5) + id)) <==> n >= 1
  {
    var one: Bytes := [48, 48, 48, 48, 49];
    var low: Bytes := [48, 46, 48, 48, 48, 48, 49];
    var body: Bytes := [48, 46] + (Fixed(n, 5) + id);
    assert low == [48, 46] + one;
    LexCommonPrefix([48, 46], one, Fixed(n, 5) + id);
    FixedOne();
    assert Pow10(5) == 100000;
    FixedOrder(1, n, 5);
    FixedEqual(1, n, 5);
    LexEqualLengthHeads(one, Fixed(n, 5), [], id);
    assert one + [] == one;
    assert low[2..] == one && body[2..] == Fixed(n, 5) + id;
    assert n == 1 && id == [] ==> body == low;
    if n == 0 {
      assert (Fixed(n, 5) + id)[..5] == Fixed(n, 5);
    }
  }

  lemma FixedOne()
    ensures Fixed(1, 5) == [48, 48, 48, 48, 49]
  {
    assert Fixed(0, 1) == [48] && Fixed(0, 2) == [48, 48];
    assert Fixed(0, 3) == [48, 48, 48] && Fixed(0, 4) == [48, 48, 48, 48];
  }

  /** Printed integers are equal exactly when the integers are. */
  lemma PrintIntInjective(a: int, b: int)
    ensures PrintInt(a) == PrintInt(b) <==> a == b
  {
    if a < 0 && b < 0 {
      assert PrintInt(a)[1..] == Decimal(-a) && PrintInt(b)[1..] == Decimal(-b);
      if PrintInt(a) == PrintInt(b) { DecimalOrder(-a, -b); }
    } else if a >= 0 && b >= 0 {
      if PrintInt(a) == PrintInt(b) { DecimalOrder(a, b); }
    }
  }

  /** The creation entries of one tweet are told apart by their seconds, whatever their widths. */
  lemma CreationKeySameId(c1: int, c2: int, id: Bytes)
    ensures CreationKey(c1, id) == CreationKey(c2, id) <==> UnixSecond(c1) == UnixSecond(c2)
  {
    var p, q := PrintInt(UnixSecond(c1)), PrintInt(UnixSecond(c2));
    if CreationKey(c1, id) == CreationKey(c2, id) {
      SamePrefixed(CREATION_INDEX, p, id, q, id);
      assert |p| == |q| && p == (p + id)[..|p|] && q == (q + id)[..|p|];
      PrintIntInjective(UnixSecond(c1), UnixSecond(c2));
    }
  }

  /** A creation second as it is printed. */
  function SecondPrint(created: int): Bytes { PrintInt(UnixSecond(created)) }

  /** Neither print is a proper prefix of the other. */
  predicate Apart(c1: int, c2: int) {
    !(SecondPrint(c1) < SecondPrint(c2)) && !(SecondPrint(c2) < SecondPrint(c1))
  }

  lemma CreationKeyParts(created: int, id: Bytes)
    ensures CreationKey(created, id) == CREATION_INDEX + (SecondPrint(created) + id)
  {}

  /** Creation keys of seconds that print apart are equal only for the same second and id. */
  lemma CreationKeyInjective(c1: int, id1: Bytes, c2: int, id2: Bytes)
    requires Apart(c1, c2)
    ensures CreationKey(c1, id1) == CreationKey(c2, id2) <==> UnixSecond(c1) == UnixSecond(c2) && id1 == id2
  {
    var p, q := SecondPrint(c1), SecondPrint(c2);
    if CreationKey(c1, id1) == CreationKey(c2, id2) {
      SamePrefixed(CREATION_INDEX, p, id1, q, id2);
      SameLengthPrints(p, id1, q, id2);
      PrintIntInjective(UnixSecond(c1), UnixSecond(c2));
    }
  }

  lemma SameLengthPrints(p: Bytes, id1: Bytes, q: Bytes, id2: Bytes)
    requires p + id1 == q + id2 && !(p < q) && !(q < p)
    ensures p == q && id1 == id2
  {
    var x := p + id1;
    if |p| <= |q| { LongerExtends(p, id1, q, id2); } else { LongerExtends(q, id2, p, id1); }
    assert id1 == x[|p|..] && id2 == x[|q|..];
  }

  lemma LongerExtends(p: Bytes, id1: Bytes, q: Bytes, id2: Bytes)
    requires p + id1 == q + id2 && |p| <= |q|
    ensures p <= q
  {
    assert p == (p + id1)[..|p|] && q[..|p|] == (q + id2)[..|p|];
  }

  /** Some two ids clash under the creation keys of two instants exactly when one second's print is a
      proper prefix of the other's. */
  lemma CreationClashWhen(c1: int, c2: int)
    ensures (exists id1, id2 :: id1 != id2 && CreationKey(c1, id1) == CreationKey(c2, id2)) <==> !Apart(c1, c2)
  {
    if Apart(c1, c2) {
      forall id1, id2 | id1 != id2 ensures CreationKey(c1, id1) != CreationKey(c2, id2) {
        CreationKeyInjective(c1, id1, c2, id2);
      }
    } else if SecondPrint(c1) < SecondPrint(c2) {
      ClashOfPrefix(c1, c2);
    } else {
      ClashOfPrefix(c2, c1);
    }
  }

  lemma ClashOfPrefix(c1: int, c2: int)
    requires SecondPrint(c1) < SecondPrint(c2)
    ensures var rest := SecondPrint(c2)[|SecondPrint(c1)|..];
            rest != [] && CreationKey(c1, rest) == CreationKey(c2, [])
  {
    var p, q := SecondPrint(c1), SecondPrint(c2);
    assert q == p + q[|p|..];
    CreationKeyParts(c1, q[|p|..]);
    CreationKeyParts(c2, []);
  }

  /** Whether a key lies in the scan of the entries before an instant. */
  predicate InOldRange(k: Bytes, cutoff: int) {
    LexLessOrEqual(CREATION_INDEX, k) && LexLess(k, CreationBound(cutoff))
  }

  /** The prints of the two seconds sort as the seconds do, and the cutoff's does not extend the other. */
  predicate SortsRight(created: int, cutoff: int) {
    var p, q := SecondPrint(created), SecondPrint(cutoff);
    !(p < q) && (LexLess(p, q) <==> UnixSecond(created) < UnixSecond(cutoff))
  }

  /** What follows p does not matter in a comparison with q unless q extends p. */
  lemma {:induction false} LexExtension(p: Bytes, id: Bytes, q: Bytes)
    requires !(p < q)
    ensures LexLess(p + id, q) <==> LexLess(p, q)
  {
    if p == [] || q == [] {
      assert q == [];
    } else if p[0] == q[0] {
      assert (p + id)[1..] == p[1..] + id;
      assert p[1..] < q[1..] ==> p < q by { assert p == [p[0]] + p[1..] && q == [q[0]] + q[1..]; }
      LexExtension(p[1..], id, q[1..]);
    }
  }

  lemma OldRangeIs(created: int, id: Bytes, cutoff: int)
    ensures InOldRange(CreationKey(created, id), cutoff) <==> LexLess(SecondPrint(created) + id, SecondPrint(cutoff))
  {
    var x, q := SecondPrint(created) + id, SecondPrint(cutoff);
    CreationKeyParts(created, id);
    assert CREATION_INDEX == CREATION_INDEX + [];
    LexCommonPrefix(CREATION_INDEX, [], x);
    LexCommonPrefix(CREATION_INDEX, x, q);
  }

  /** For prints that sort right the bounded scan meets exactly the earlier seconds. */
  lemma CreationRangeExact(created: int, id: Bytes, cutoff: int)
    requires SortsRight(created, cutoff)
    ensures InOldRange(CreationKey(created, id), cutoff) <==> UnixSecond(created) < UnixSecond(cutoff)
  {
    OldRangeIs(created, id, cutoff);
    LexExtension(SecondPrint(created), id, SecondPrint(cutoff));
  }

  /** And only for those, if any id may follow the second. */
  lemma CreationRangeWhen(created: int, cutoff: int)
    ensures SortsRight(created, cutoff)
      <==> forall id :: InOldRange(CreationKey(created, id), cutoff) <==> UnixSecond(created) < UnixSecond(cutoff)
  {
    var p, q := SecondPrint(created), SecondPrint(cutoff);
    if SortsRight(created, cutoff) {
      forall id ensures InOldRange(CreationKey(created, id), cutoff) <==> UnixSecond(created) < UnixSecond(cutoff) {
        CreationRangeExact(created, id, cutoff);
      }
    } else {
      OldRangeIs(created, [], cutoff);
      OldRangeIs(created, [255], cutoff);
      assert p + [] == p;
      if p < q {
        PrintBytes(UnixSecond(cutoff));
        BothSides(p, q);
      }
    }
  }

  lemma PrintBytes(z: int)
    ensures forall i :: 0 <= i < |PrintInt(z)| ==> PrintInt(z)[i] <= 57
  {}

  lemma BothSides(p: Bytes, q: Bytes)
    requires p < q && q[|p|] < 255
    ensures LexLess(p, q) && !LexLess(p + [255], q)
  {
    var rest := q[|p|..];
    assert q == p + rest && p == p + [] && rest[0] == q[|p|];
    LexCommonPrefix(p, [], rest);
    LexCommonPrefix(p, [255], rest);
  }

  // ----- seconds that are apart and sort right -----

  /** The decimal width of a creation second. */
  predicate HasWidth(created: int, width: nat) {
    UnixSecond(created) >= 0 && |Decimal(UnixSecond(created))| == width
  }

  /** Seconds of one width are apart and sort right. */
  lemma OneWidth(c1: int, c2: int, width: nat)
    requires HasWidth(c1, width) && HasWidth(c2, width)
    ensures Apart(c1, c2) && SortsRight(c1, c2)
  {
    DecimalOrder(UnixSecond(c1), UnixSecond(c2));
  }

  /** So is a second before the epoch, such as that of the zero time, and one after it. */
  lemma BeforeEpoch(c1: int, c2: int)
    requires UnixSecond(c1) < 0 <= UnixSecond(c2)
    ensures Apart(c1, c2) && SortsRight(c1, c2)
  {
    assert SecondPrint(c1)[0] == MINUS && SecondPrint(c2)[0] >= 48;
  }

  /** Every second from 2001-09-09 up to 2286-11-20 prints with ten digits. */
  lemma TenDigits(created: int)
    requires 1_000_000_000 <= UnixSecond(created) < 10_000_000_000
    ensures HasWidth(created, 10)
  {
    var n := UnixSecond(created);
    DigitsOf(n, 10);
  }

  lemma {:induction false} DigitsOf(n: nat, width: nat)
    requires width > 0 && n < Pow10(width) && (width > 1 ==> n >= Pow10(width - 1))
    ensures |Decimal(n)| == width
    decreases width
  {
    if width > 1 {
      Pow10Positive(width - 2);
      DigitsOf(n / 10, width - 1);
    }
  }

  lemma Pow10Positive(n: nat)
    ensures Pow10(n) >= 1
  {}

  /** A second and one of its ten decimal extensions are neither apart nor sort right. */
  lemma ExtendedSecond(n: nat, d: nat)
    requires n >= 1 && d <= 9
    ensures !Apart(n * SEC, (10 * n + d) * SEC) && !SortsRight(n * SEC, (10 * n + d) * SEC)
    ensures CreationKey(n * SEC, [ZERO + d]) == CreationKey((10 * n + d) * SEC, [])
  {
    assert UnixSecond(n * SEC) == n && UnixSecond((10 * n + d) * SEC) == 10 * n + d;
    assert (10 * n + d) / 10 == n && (10 * n + d) % 10 == d;
    assert Decimal(10 * n + d) == Decimal(n) + [ZERO + d];
    CreationKeyParts(n * SEC, [ZERO + d]);
    CreationKeyParts((10 * n + d) * SEC, []);
  }

  // ----- what is printed, read back -----

  /** The number that a list of digits stands for. */
  function Parsed(digits: Bytes): int {
    if digits == [] then 0 else 10 * Parsed(digits[..|digits| - 1]) + digits[|digits| - 1] as int - 48
  }

  lemma {:induction false} DecimalParsed(n: nat)
    ensures Parsed(Decimal(n)) == n
  {
    if n < 10 {
      assert Decimal(n)[..0] == [];
    } else {
      DecimalParsed(n / 10);
      assert Decimal(n)[..|Decimal(n)| - 1] == Decimal(n / 10);
    }
  }

  lemma {:induction false} FixedParsed(n: nat, width: nat)
    requires n < Pow10(width)
    ensures Parsed(Fixed(n, width)) == n
    decreases width
  {
    if width > 0 {
      FixedParsed(n / 10, width - 1);
      assert Fixed(n, width)[..width - 1] == Fixed(n / 10, width - 1);
    }
  }

  /** A creation second is the instant's, rounded down, printed in decimal. */
  lemma SecondReads(created: int)
    ensures var second := if created < 0 then -Parsed(SecondPrint(created)[1..]) else Parsed(SecondPrint(created));
            second * 1_000_000_000 <= created < (second + 1) * 1_000_000_000
    ensures created < 0 ==> SecondPrint(created)[0] == 45
  {
    PrintIntReads(UnixSecond(created));
    assert UnixSecond(created) < 0 <==> created < 0;
  }

  lemma PrintIntReads(z: int)
    ensures z < 0 ==> PrintInt(z)[0] == 45 && Parsed(PrintInt(z)[1..]) == -z
    ensures z >= 0 ==> Parsed(PrintInt(z)) == z
  {
    if z < 0 {
      assert PrintInt(z)[1..] == Decimal(-z);
      DecimalParsed(-z);
    } else {
      DecimalParsed(z);
    }
  }

  /** The printed rating without its sign. */
  function Magnitude(rating: real): Bytes {
    if rating < 0.0 then PrintRating(rating)[1..] else PrintRating(rating)
  }

  /** What a number with five decimals says in units of 0.00001. */
  function UnitsOf(q: Bytes): int
    requires |q| >= 6
  {
    Parsed(q[..|q| - 6]) * 100000 + Parsed(q[|q| - 5..])
  }

  /** What the printed rating says in units of 0.00001, without its sign. */
  function Units(rating: real): int {
    var q := Magnitude(rating);
    if |q| < 6 then 0 else UnitsOf(q)
  }

  lemma Undotted(whole: Bytes, fraction: Bytes)
    requires |fraction| == 5
    ensures var q := whole + [DOT] + fraction;
            |q| == |whole| + 6 && q[..|q| - 6] == whole && q[|q| - 5..] == fraction && q[|q| - 6] == DOT
  {}

  lemma FiveParsed(fraction: nat)
    requires fraction < 100000
    ensures Parsed(Fixed(fraction, 5)) == fraction
  {
    assert Pow10(5) == 100000;
    FixedParsed(fraction, 5);
  }

  lemma UnitsOfParts(whole: Bytes, fraction: Bytes)
    requires |fraction| == 5
    ensures UnitsOf(whole + [DOT] + fraction) == Parsed(whole) * 100000 + Parsed(fraction)
  {
    Undotted(whole, fraction);
  }

  lemma DecimalsRead(whole: nat, fraction: nat)
    requires fraction < 100000
    ensures var q := PrintDecimals(false, whole, fraction);
            |q| >= 7 && q[|q| - 6] == 46 && UnitsOf(q) == whole * 100000 + fraction
  {
    assert PrintDecimals(false, whole, fraction) == Decimal(whole) + [DOT] + Fixed(fraction, 5);
    UnitsOfParts(Decimal(whole), Fixed(fraction, 5));
    Undotted(Decimal(whole), Fixed(fraction, 5));
    DecimalParsed(whole);
    FiveParsed(fraction);
  }

  lemma MagnitudeIs(rating: real)
    ensures var n := Hundredthousandths(rating); Magnitude(rating) == PrintDecimals(false, n / 100000, n % 100000)
    ensures rating < 0.0 ==> PrintRating(rating)[0] == 45
  {
    var n := Hundredthousandths(rating);
    var q := PrintDecimals(false, n / 100000, n % 100000);
    assert PrintDecimals(true, n / 100000, n % 100000) == [MINUS] + q;
  }

  lemma UnitsAre(rating: real)
    ensures Units(rating) == Hundredthousandths(rating)
    ensures |Magnitude(rating)| >= 7 && Magnitude(rating)[|Magnitude(rating)| - 6] == 46
    ensures rating < 0.0 ==> PrintRating(rating)[0] == 45
  {
    var n := Hundredthousandths(rating);
    MagnitudeIs(rating);
    DecimalsRead(n / 100000, n % 100000);
  }

  lemma RoundsToEven(x: real, n: nat)
    requires x >= 0.0 && n == RoundHalfEven(x)
    ensures -0.5 <= x - n as real <= 0.5
    ensures x - n as real == 0.5 || x - n as real == -0.5 ==> n % 2 == 0
  {}

  /** A rating is printed with its sign and a dot before the last five digits and, read in units of
      0.00001, is the nearest to the rating, the even one of two. */
  lemma RatingReads(rating: real)
    ensures rating < 0.0 ==> PrintRating(rating)[0] == 45
    ensures |Magnitude(rating)| >= 7 && Magnitude(rating)[|Magnitude(rating)| - 6] == 46
    ensures var x := (if rating < 0.0 then -rating else rating) * 100000.0;
            && -0.5 <= x - Units(rating) as real <= 0.5
            && (x - Units(rating) as real == 0.5 || x - Units(rating) as real == -0.5 ==> Units(rating) % 2 == 0)
  {
    var n := Hundredthousandths(rating);
    UnitsAre(rating);
    RoundsToEven((if rating < 0.0 then -rating else rating) * 100000.0, n);
  }

  /** The positive scan meets exactly the ratings above half of 0.00001. */
  lemma PositiveRangeWhen(rating: real, id: Bytes)
    ensures InPositiveRange(RatingKey(rating, id)) <==> rating > 0.000005
  {
    PositiveRangeExact(rating, id);
    if rating >= 0.0 { RoundsUpFrom(rating * 100000.0); }
  }

  lemma RoundsUpFrom(x: real)
    requires x >= 0.0
    ensures RoundHalfEven(x) >= 1 <==> x > 0.5
  {}

  // ----- examples of keys -----

  lemma NextDigit(n: nat, d: nat, width: nat)
    requires d <= 9
    ensures n > 0 ==> Decimal(10 * n + d) == Decimal(n) + [ZERO + d]
    ensures Fixed(10 * n + d, width + 1) == Fixed(n, width) + [ZERO + d]
  {
    assert (10 * n + d) / 10 == n && (10 * n + d) % 10 == d;
  }

  lemma LowByte(low: nat, n: nat, width: nat)
    requires low <= 255
    ensures LittleEndian(256 * n + low, width + 1) == [low] + LittleEndian(n, width)
  {
    assert (256 * n + low) / 256 == n && (256 * n + low) % 256 == low;
  }

  /** The keys for the rating 1.5, the second 1700000000 and ten minutes. */
  lemma KeyExamples(id: Bytes)
    ensures TweetKey(id) == [0, 1] + id
    ensures RatingKey(1.5, id) == [0, 18, 49, 46, 53, 48, 48, 48, 48] + id
    ensures CreationKey(1_700_000_000_000_000_000, id) == [0, 20, 49, 55, 48, 48, 48, 48, 48, 48, 48, 48] + id
    ensures RequestLimitsKey(id, 600) == [0, 26] + id + [88, 2]
    ensures RequestsKey(id, 600, 1_700_000_000_000_000_000) == [0, 27] + id + [88, 2] + [0, 241, 83, 101, 0, 0, 0, 0]
  {
    RatingExample(id);
    CreationExample(id);
    RequestsExample(id);
  }

  lemma RatingExample(id: Bytes)
    ensures RatingKey(1.5, id) == [0, 18, 49, 46, 53, 48, 48, 48, 48] + id
  {
    RatingPrinted();
    TwoAndSeven(RATING_INDEX, [49, 46, 53, 48, 48, 48, 48], id);
  }

  lemma TwoAndSeven(a: Bytes, b: Bytes, id: Bytes)
    requires a == [0, 18] && |b| == 7
    ensures a + b + id == [0, 18, b[0], b[1], b[2], b[3], b[4], b[5], b[6]] + id
  {
    assert a + b == [0, 18, b[0], b[1], b[2], b[3], b[4], b[5], b[6]];
  }

  lemma RatingPrinted()
    ensures PrintRating(1.5) == [49, 46, 53, 48, 48, 48, 48]
  {
    OneAndAHalf();
    OneAndAHalfPrinted();
  }

  lemma OneAndAHalfPrinted()
    ensures PrintDecimals(false, 1, 50000) == [49, 46, 53, 48, 48, 48, 48]
  {
    FiftyThousand();
    assert Decimal(1) == [49] && [] + [49] == [49] && [49] + [DOT] == [49, 46];
  }

  lemma OneAndAHalf()
    ensures Hundredthousandths(1.5) == 150000
  {}

  lemma FiftyThousand()
    ensures Fixed(50000, 5) == [53, 48, 48, 48, 48]
  {
    assert Fixed(0, 0) == [];
    NextDigit(0, 5, 0);
    NextDigit(5, 0, 1);
    NextDigit(50, 0, 2);
    NextDigit(500, 0, 3);
    NextDigit(5000, 0, 4);
  }

  lemma CreationExample(id: Bytes)
    ensures CreationKey(1_700_000_000_000_000_000, id)
         == [0, 20, 49, 55, 48, 48, 48, 48, 48, 48, 48, 48] + id
  {
    SeventeenEights();
    assert UnixSecond(1_700_000_000_000_000_000) == 1_700_000_000;
    assert CREATION_INDEX + Decimal(1_700_000_000) == [0, 20, 49, 55, 48, 48, 48, 48, 48, 48, 48, 48];
  }

  lemma SeventeenEights()
    ensures Decimal(1_700_000_000) == [49, 55, 48, 48, 48, 48, 48, 48, 48, 48]
  {
    assert Decimal(1) == [49];
    NextDigit(1, 7, 0);
    NextDigit(17, 0, 0);
    NextDigit(170, 0, 0);
    NextDigit(1700, 0, 0);
    NextDigit(17000, 0, 0);
    NextDigit(170000, 0, 0);
    NextDigit(1700000, 0, 0);
    NextDigit(17000000, 0, 0);
    NextDigit(170000000, 0, 0);
  }

  lemma RequestsExample(id: Bytes)
    ensures RequestLimitsKey(id, 600) == [0, 26] + id + [88, 2]
    ensures RequestsKey(id, 600, 1_700_000_000_000_000_000) == [0, 27] + id + [88, 2] + [0, 241, 83, 101, 0, 0, 0, 0]
  {
    WindowBytesOfPool(600);
    assert Slot(1_700_000_000_000_000_000) == 1_700_000_000;
    SlotExample();
  }

  lemma SlotExample()
    ensures LittleEndian(1_700_000_000, 8) == [0, 241, 83, 101, 0, 0, 0, 0]
  {
    assert LittleEndian(0, 0) == [];
    LowByte(0, 0, 0);
    LowByte(0, 0, 1);
    LowByte(0, 0, 2);
    LowByte(0, 0, 3);
    LowByte(101, 0, 4);
    LowByte(83, 101, 5);
    LowByte(241, 25939, 6);
    LowByte(0, 6640625, 7);
  }
}
