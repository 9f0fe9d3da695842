/** The records kept in the store. Their JSON form is taken to round-trip. */
module Records {
  import opened Bytes

  /** Unsigned 32-bit modulus. */
  const U32: int := 0x1_0000_0000

  type uint32 = x: int | 0 <= x < 0x1_0000_0000

  type int32 = x: int | -0x8000_0000 <= x < 0x8000_0000

  /** Conversion and arithmetic modulo 2^32. */
  function Wrap(x: int): uint32 { x % 0x1_0000_0000 }

  function Wrap32(x: int): int32 { Wrap(x + 0x8000_0000) - 0x8000_0000 }

  lemma WrapShift(x: int, k: int)
    ensures Wrap(x + k * 0x1_0000_0000) == Wrap(x)
  {}

  /** Wrapping before a further step changes nothing. */
  lemma WrapTwice(a: int, b: int)
    ensures Wrap(Wrap(a) + b) == Wrap(a + b)
  {
    assert Wrap(a) + b == (a + b) + (-(a / 0x1_0000_0000)) * 0x1_0000_0000;
    WrapShift(a + b, -(a / 0x1_0000_0000));
  }

  lemma Wrap32Twice(a: int, b: int)
    ensures Wrap32(Wrap32(a) + b) == Wrap32(a + b)
  {
    WrapTwice(a + 0x8000_0000, b);
    assert Wrap32(a) + b + 0x8000_0000 == Wrap(a + 0x8000_0000) + b;
  }

  /** A request batch: a start instant in nanoseconds and second-granular deltas. */
  datatype Batch = Batch(start: int, data: seq<uint32>)

  /** A tweet as the index code sees it. Instants are nanoseconds; the rating is a finite real. */
  datatype Tweet = Tweet(id: Bytes, rating: real, created: int, checkedAt: int)

  datatype TweetIndex = TweetIndex(id: Bytes, rating: real, created: int, checkedAt: int)

  datatype Value =
    | LimitValue(window: nat, count: uint32, threshold: nat)
    | BatchValue(batch: Batch)
    | TweetValue(tweet: Tweet)
    | IndexValue(index: TweetIndex)
    | IdValue(id: Bytes)

  type Table = map<Bytes, Value>

  datatype Option<+T> = None | Some(value: T)

  /** The errors of the repositories, apart from those of the database itself. */
  datatype Fault = LimitsNotFound | AlreadyExists | TweetsNotFound | BadRecord

  datatype Result<T> = Ok(value: T) | Failed(fault: Fault)
}
