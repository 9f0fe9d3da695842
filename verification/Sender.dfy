/** Escaping a message for markup, symbol after symbol, and sending it in chunks. */
module Sender {
  import opened Bytes

  const BACKSLASH: byte := 92

  /** - ] [ { } ( ) > < . ! * + = # ~ | ` _ in the order of the passes. */
  const SYMBOLS: Bytes := [45, 93, 91, 123, 125, 40, 41, 62, 60, 46, 33, 42, 43, 61, 35, 126, 124, 96, 95]

  const MAX_LEN: nat := 4096

  /** strings.ReplaceAll of one symbol by the symbol after a backslash. */
  function Replaced(s: Bytes, symbol: byte): Bytes {
    if s == [] then []
    else (if s[0] == symbol then [BACKSLASH, symbol] else [s[0]]) + Replaced(s[1..], symbol)
  }

  /** Every one of the symbols gets a backslash, in one pass over the text. */
  function EscapedOnce(s: Bytes, symbols: seq<byte>): Bytes {
    if s == [] then []
    else (if s[0] in symbols then [BACKSLASH, s[0]] else [s[0]]) + EscapedOnce(s[1..], symbols)
  }

  function Escaped(s: Bytes): Bytes { EscapedOnce(s, SYMBOLS) }

  /** The backslash before each symbol removed. */
  function Unescaped(s: Bytes): Bytes {
    if |s| >= 2 && s[0] == BACKSLASH && s[1] in SYMBOLS then [s[1]] + Unescaped(s[2..])
    else if s == [] then [] else [s[0]] + Unescaped(s[1..])
  }

  lemma ReplacedConcat(a: Bytes, b: Bytes, symbol: byte)
    requires |a| <= 2
    ensures Replaced(a + b, symbol) == Replaced(a, symbol) + Replaced(b, symbol)
  {
    if |a| == 0 {
      assert a + b == b;
    } else if |a| == 1 {
      assert (a + b)[1..] == b && a[1..] == [];
    } else {
      assert (a + b)[1..] == [a[1]] + b && (a + b)[1..][1..] == b && a[1..] == [a[1]] && a[1..][1..] == [];
    }
  }

  /** One more pass escapes one more symbol, as long as it is new and no backslash. */
  lemma {:induction false} OneMorePass(s: Bytes, symbols: seq<byte>, symbol: byte)
    requires symbol !in symbols && symbol != BACKSLASH
    ensures Replaced(EscapedOnce(s, symbols), symbol) == EscapedOnce(s, symbols + [symbol])
  {
    if s != [] {
      OneMorePass(s[1..], symbols, symbol);
      var head := if s[0] in symbols then [BACKSLASH, s[0]] else [s[0]];
      ReplacedConcat(head, EscapedOnce(s[1..], symbols), symbol);
      PassOnHead(s[0], symbols, symbol);
    }
  }

  lemma PassOnHead(c: byte, symbols: seq<byte>, symbol: byte)
    requires symbol !in symbols && symbol != BACKSLASH
    ensures Replaced(if c in symbols then [BACKSLASH, c] else [c], symbol)
         == if c in symbols + [symbol] then [BACKSLASH, c] else [c]
  {
    if c in symbols {
      assert [BACKSLASH, c][1..] == [c] && [c][1..] == [];
      assert Replaced([c], symbol) == [c] + Replaced([], symbol);
      assert Replaced([BACKSLASH, c], symbol) == [BACKSLASH] + Replaced([c], symbol);
    } else {
      assert [c][1..] == [];
    }
  }

  /** The symbols are distinct, and the backslash is none of them. */
  lemma SymbolsDistinct(i: nat)
    requires i < |SYMBOLS|
    ensures SYMBOLS[i] !in SYMBOLS[..i] && SYMBOLS[i] != BACKSLASH
  {}

  lemma {:induction false} NoSymbols(s: Bytes)
    ensures EscapedOnce(s, []) == s
  {
    if s != [] { NoSymbols(s[1..]); }
  }

  /** The nineteen passes do what a single pass does. */
  method Escape(data: Bytes) returns (res: Bytes)
    ensures res == Escaped(data)
  {
    res := data;
    NoSymbols(data);
    for i := 0 to |SYMBOLS|
      invariant res == EscapedOnce(data, SYMBOLS[..i])
    {
      SymbolsDistinct(i);
      OneMorePass(data, SYMBOLS[..i], SYMBOLS[i]);
      assert SYMBOLS[..i + 1] == SYMBOLS[..i] + [SYMBOLS[i]];
      res := Replaced(res, SYMBOLS[i]);
    }
    assert SYMBOLS[..|SYMBOLS|] == SYMBOLS;
  }

  /** Escaping a concatenation escapes the parts. */
  lemma {:induction false} EscapedConcat(a: Bytes, b: Bytes)
    ensures Escaped(a + b) == Escaped(a) + Escaped(b)
  {
    if a == [] {
      assert a + b == b;
    } else {
      assert (a + b)[1..] == a[1..] + b;
      EscapedConcat(a[1..], b);
    }
  }

  /** One byte: the markup's symbols get a backslash before them, all others stay. */
  lemma EscapedByte(c: byte)
    ensures Escaped([c]) == if c as char in "-][{}()><.!*+=#~|`_" then ['\\' as int, c] else [c]
  {
    assert [c][1..] == [];
    assert EscapedOnce([c][1..], SYMBOLS) == [];
  }

  lemma EscapedStart(s: Bytes)
    ensures s != [] ==> Escaped(s) != [] && Escaped(s)[0] !in SYMBOLS
  {
    assert BACKSLASH !in SYMBOLS;
  }

  /** Nothing is lost by escaping. */
  lemma {:induction false} UnescapedEscaped(s: Bytes)
    ensures Unescaped(Escaped(s)) == s
  {
    if s != [] {
      var rest := Escaped(s[1..]);
      UnescapedEscaped(s[1..]);
      EscapedStart(s[1..]);
      if s[0] in SYMBOLS {
        assert Escaped(s) == [BACKSLASH, s[0]] + rest && Escaped(s)[2..] == rest;
      } else {
        assert Escaped(s) == [s[0]] + rest && Escaped(s)[1..] == rest;
        if s[1..] == [] { assert rest == []; }
      }
    }
  }

  function Specials(s: Bytes): nat {
    if s == [] then 0 else (if s[0] in SYMBOLS then 1 else 0) + Specials(s[1..])
  }

  /** The escaped form is longer by one byte for every symbol: an escaped chunk may exceed the limit
      that the raw chunk keeps. */
  lemma {:induction false} EscapedLength(s: Bytes)
    ensures |Escaped(s)| == |s| + Specials(s) && Specials(s) <= |s|
  {
    if s != [] { EscapedLength(s[1..]); }
  }

  // ----- chunks -----

  function Joined(chunks: seq<Bytes>): Bytes
    decreases |chunks|
  {
    if chunks == [] then [] else Joined(chunks[..|chunks| - 1]) + chunks[|chunks| - 1]
  }

  function EscapedAll(chunks: seq<Bytes>): (r: seq<Bytes>)
    ensures |r| == |chunks|
  {
    seq(|chunks|, i requires 0 <= i < |chunks| => Escaped(chunks[i]))
  }

  /** The escaped chunks rejoin to the escaped message. */
  lemma {:induction false} EscapedRejoins(chunks: seq<Bytes>)
    ensures Joined(EscapedAll(chunks)) == Escaped(Joined(chunks))
    decreases |chunks|
  {
    if chunks != [] {
      var n := |chunks| - 1;
      EscapedRejoins(chunks[..n]);
      assert EscapedAll(chunks)[..n] == EscapedAll(chunks[..n]);
      EscapedConcat(Joined(chunks[..n]), chunks[n]);
    }
  }

  /** All chunks but the last are full, and none is empty. */
  ghost predicate Chunked(chunks: seq<Bytes>) {
    && (forall i :: 0 <= i < |chunks| ==> 0 < |chunks[i]| <= MAX_LEN)
    && (forall i :: 0 <= i < |chunks| - 1 ==> |chunks[i]| == MAX_LEN)
  }

  /** A call of the client with its text, and whether it was accepted. */
  datatype Call = Call(text: Bytes, ok: bool)

  /** The calls for one chunk: a refused chunk is tried once more, escaped. */
  predicate CallsFor(chunk: Bytes, calls: seq<Call>) {
    calls == [Call(chunk, true)]
    || (|calls| == 2 && calls[0] == Call(chunk, false) && calls[1].text == Escaped(chunk))
  }

  /** The calls are those for the chunks, one group after the other. */
  ghost predicate Transcript(chunks: seq<Bytes>, calls: seq<Call>)
    decreases |chunks|
  {
    if chunks == [] then calls == []
    else
      var n := |chunks| - 1;
      exists k :: 0 <= k <= |calls| && Transcript(chunks[..n], calls[..k]) && CallsFor(chunks[n], calls[k..])
  }

  lemma TranscriptNext(chunks: seq<Bytes>, calls: seq<Call>, chunk: Bytes, more: seq<Call>)
    requires Transcript(chunks, calls) && CallsFor(chunk, more)
    ensures Transcript(chunks + [chunk], calls + more)
  {
    var k := |calls|;
    assert (chunks + [chunk])[..|chunks|] == chunks;
    assert (calls + more)[..k] == calls && (calls + more)[k..] == more;
  }

  lemma JoinedNext(chunks: seq<Bytes>, chunk: Bytes)
    ensures Joined(chunks + [chunk]) == Joined(chunks) + chunk
  {
    assert (chunks + [chunk])[..|chunks|] == chunks;
  }

  /** The client: it accepts a call or not. */
  class Client {
    var calls: seq<Call>

    method Send(text: Bytes, accepted: bool)
      modifies this
      ensures calls == old(calls) + [Call(text, accepted)]
    {
      calls := calls + [Call(text, accepted)];
    }
  }

  /** From the n-th on, the calls were answered as `accepts` says. */
  ghost predicate Answered(calls: seq<Call>, n: nat, accepts: nat -> bool) {
    forall k :: n <= k < |calls| ==> calls[k].ok == accepts(k)
  }

  lemma AnsweredMore(calls: seq<Call>, m: nat, more: seq<Call>, accepts: nat -> bool)
    requires m <= |calls| && Answered(calls, m, accepts) && Answered(calls + more, |calls|, accepts)
    ensures Answered(calls + more, m, accepts)
  {
    forall k | m <= k < |calls + more| ensures (calls + more)[k].ok == accepts(k) {
      if k < |calls| { assert (calls + more)[k] == calls[k]; }
    }
  }

  /** Sends one chunk and, if it is refused, its escaped form; `accepts` says which call succeeds. */
  method SendChunk(client: Client, chunk: Bytes, accepts: nat -> bool) returns (refused: bool, ghost more: seq<Call>)
    modifies client
    ensures client.calls == old(client.calls) + more && CallsFor(chunk, more)
    ensures refused <==> |more| == 2
    ensures Answered(client.calls, |old(client.calls)|, accepts)
  {
    var accepted := accepts(|client.calls|);
    more := [Call(chunk, accepted)];
    client.Send(chunk, accepted);
    refused := !accepted;
    if refused {
      var escaped := Escape(chunk);
      accepted := accepts(|client.calls|);
      more := more + [Call(escaped, accepted)];
      client.Send(escaped, accepted);
    }
  }

  /** What has been sent of the message, and whether a chunk was refused. */
  ghost predicate Sent(msg: Bytes, rest: Bytes, chunks: seq<Bytes>, sent: seq<Call>, cancelled: bool) {
    && Joined(chunks) + rest == msg && Chunked(chunks) && Transcript(chunks, sent)
    && (rest != [] && chunks != [] ==> |chunks[|chunks| - 1]| == MAX_LEN)
    && |sent| >= |chunks| && (cancelled <==> |sent| > |chunks|)
  }

  lemma ChunkedNext(chunks: seq<Bytes>, chunk: Bytes)
    requires Chunked(chunks) && 0 < |chunk| <= MAX_LEN
    requires chunks != [] ==> |chunks[|chunks| - 1]| == MAX_LEN
    ensures Chunked(chunks + [chunk])
  {
    var cs := chunks + [chunk];
    forall i | 0 <= i < |cs| ensures 0 < |cs[i]| <= MAX_LEN && (i < |cs| - 1 ==> |cs[i]| == MAX_LEN) {
      if i < |chunks| { assert cs[i] == chunks[i]; }
    }
  }

  lemma SentNext(msg: Bytes, rest: Bytes, chunks: seq<Bytes>, sent: seq<Call>, cancelled: bool,
                 batchLen: nat, more: seq<Call>, refused: bool)
    requires Sent(msg, rest, chunks, sent, cancelled) && rest != []
    requires batchLen == if |rest| < MAX_LEN then |rest| else MAX_LEN
    requires CallsFor(rest[..batchLen], more) && (refused <==> |more| == 2)
    ensures Sent(msg, rest[batchLen..], chunks + [rest[..batchLen]], sent + more, cancelled || refused)
  {
    var chunk := rest[..batchLen];
    TranscriptNext(chunks, sent, chunk, more);
    ChunkedNext(chunks, chunk);
    JoinedNext(chunks, chunk);
    assert rest == chunk + rest[batchLen..];
  }

  /** The client has been sent what was sent of the message, and answered as `accepts` says. */
  ghost predicate Told(start: seq<Call>, calls: seq<Call>, sent: seq<Call>, accepts: nat -> bool) {
    calls == start + sent && Answered(calls, |start|, accepts)
  }

  lemma ToldNext(start: seq<Call>, calls: seq<Call>, sent: seq<Call>, more: seq<Call>, accepts: nat -> bool)
    requires Told(start, calls, sent, accepts) && Answered(calls + more, |calls|, accepts)
    ensures Told(start, calls + more, sent + more, accepts)
  {
    AnsweredMore(calls, |start|, more, accepts);
    assert start + (sent + more) == (start + sent) + more;
  }

  /** Sends a message in chunks of at most 4096 bytes. The raw chunks rejoin to the message, each is sent
      raw and, if refused, escaped, and the sender's context is cancelled exactly if some chunk was
      refused. */
  method SendMessage(client: Client, msg: Bytes, accepts: nat -> bool)
    returns (cancelled: bool, ghost chunks: seq<Bytes>, ghost sent: seq<Call>)
    modifies client
    ensures Joined(chunks) == msg && Chunked(chunks)
    ensures client.calls == old(client.calls) + sent && Transcript(chunks, sent)
    ensures cancelled <==> |sent| > |chunks|
    ensures forall i :: 0 <= i < |chunks| ==> 0 < |chunks[i]| <= 4096 && (i < |chunks| - 1 ==> |chunks[i]| == 4096)
    ensures forall k :: |old(client.calls)| <= k < |client.calls| ==> client.calls[k].ok == accepts(k)
  {
    var rest := msg;
    cancelled, chunks, sent := false, [], [];
    ghost var start := client.calls;
    while |rest| > 0
      invariant Sent(msg, rest, chunks, sent, cancelled)
      invariant Told(start, client.calls, sent, accepts)
    {
      var batchLen := if |rest| < MAX_LEN then |rest| else MAX_LEN;
      var refused;
      ghost var more, before := [], client.calls;
      refused, more := SendChunk(client, rest[..batchLen], accepts);
      ToldNext(start, before, sent, more, accepts);
      SentNext(msg, rest, chunks, sent, cancelled, batchLen, more, refused);
      cancelled := cancelled || refused;
      sent := sent + more;
      chunks := chunks + [rest[..batchLen]];
      rest := rest[batchLen..];
    }
  }
}
