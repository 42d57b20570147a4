// Shared vocabulary: bytes, errors, results and fallible streams.

module Basics {

  /** A byte, as read from the device. */
  type byte = b: int | 0 <= b < 0x100

  type Bytes = seq<byte>

  const U16_LIMIT: int := 0x1_0000
  const U32_LIMIT: int := 0x1_0000_0000
  const U48_LIMIT: int := 0x1_0000_0000_0000
  const U64_LIMIT: int := 0x1_0000_0000_0000_0000

  /** The classes of `Ext4Error` that the modelled code can tell apart. */
  datatype Error =
    | Corrupt
    | Incompatible
    | Io
    | NotFound
    | NotADirectory
    | NotAbsolute
    | NotASymlink
    | PathTooLong
    | TooManySymlinks
    | Encrypted

  datatype Option<+T> = None | Some(value: T)

  datatype Result<+T> = Ok(value: T) | Err(error: Error)
  {
    predicate IsFailure() {
      Err?
    }

    function PropagateFailure<U>(): Result<U>
      requires Err?
    {
      Err(error)
    }

    function Extract(): T
      requires Ok?
    {
      value
    }
  }

  function ZeroBytes(n: nat): (r: Bytes)
    ensures |r| == n && forall i :: 0 <= i < n ==> r[i] == 0
  {
    seq(n, _ => 0)
  }

  function Min(a: int, b: int): int {
    if a <= b then a else b
  }

  /** What a fallible iterator has left to yield: some items, and then either
      the end of the iteration or one last error. */
  datatype Stream<T> = Stream(items: seq<T>, err: Option<Error>)
  {
    /** `this`, and then `more` unless `this` ends in an error. */
    function Then(more: Stream<T>): Stream<T> {
      if err.Some? then this else Stream(items + more.items, more.err)
    }

    /** `Iterator::skip`: skipped errors are dropped like any other element. */
    function Skip(n: nat): Stream<T> {
      if n <= |items| then Stream(items[n..], err) else Stream([], None)
    }
  }

  /** A slice of a prefix is a slice of the whole. */
  lemma SliceOfPrefix<T>(s: seq<T>, n: nat, i: nat, j: nat)
    requires i <= j <= n <= |s|
    ensures s[..n][i..j] == s[i..j]
  {
  }

  lemma PrefixAndNext<T>(s: seq<T>, k: nat)
    requires k < |s|
    ensures s[..k] + [s[k]] == s[..k + 1] && s[k..][0] == s[k] && s[k..][1..] == s[k + 1..]
  {
  }

  lemma JoinSlices<T>(s: seq<T>, i: nat, j: nat, k: nat)
    requires i <= j <= k <= |s|
    ensures s[i..j] + s[j..k] == s[i..k]
  {
  }

  lemma TakeFirstAnd<T>(x: T, s: seq<T>, n: nat)
    requires n <= |s|
    ensures ([x] + s)[..1 + n] == [x] + s[..n]
  {
  }

  lemma ThenAssociative<T>(a: Stream<T>, b: Stream<T>, c: Stream<T>)
    ensures a.Then(b).Then(c) == a.Then(b.Then(c))
  {
    if a.err.None? && b.err.None? {
      assert a.items + b.items + c.items == a.items + (b.items + c.items);
    }
  }

  /** One call of a fallible iterator's `next`: it returned `r` and went from
      having `before` left to yield to having `after` left. */
  ghost predicate Yielded<T>(before: Stream<T>, r: Option<Result<T>>, after: Stream<T>) {
    match r
    case None => before == Stream([], None) && after == before
    case Some(Err(e)) => before == Stream([], Some(e)) && after == Stream([], None)
    case Some(Ok(item)) => before == Stream([item] + after.items, after.err)
  }
}
