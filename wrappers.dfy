// Error-carrying results, for the source's exceptions and error returns.

module Wrappers {

  datatype Option<T> = None | Some(value: T)

  datatype Result<T, E> = Ok(value: T) | Err(error: E)

  /** The Java exceptions the modelled code can raise on bad data. */
  datatype Exception =
    | ArrayIndexOutOfBounds
    | StringIndexOutOfBounds
    | NullPointer
    | BufferUnderflow
    | BufferOverflow
    | IllegalArgument
    | NegativeArraySize
    | UnsupportedOperation
    | CloneNotSupported
    | InvalidHex
    | UnknownAtomPrimitive
    | NoSuchElement
    | StackOverflow

  /** A prefix grows by the next element. */
  lemma PrefixSnoc<T>(xs: seq<T>, n: nat)
    requires 0 < n <= |xs|
    ensures xs[..n - 1] + [xs[n - 1]] == xs[..n]
  {}

  lemma PrefixPrefix<T>(xs: seq<T>, n: nat, m: nat)
    requires m <= n <= |xs|
    ensures xs[..n][..m] == xs[..m]
  {}

  lemma SliceIndex<T>(xs: seq<T>, p: nat, q: nat, i: nat)
    requires p <= q <= |xs| && i < q - p
    ensures xs[p..q][i] == xs[p + i]
  {}

  lemma ConcatAssoc<T>(a: seq<T>, b: seq<T>, c: seq<T>)
    ensures (a + b) + c == a + (b + c)
  {}

  lemma PrefixFull<T>(xs: seq<T>)
    ensures xs[..|xs|] == xs
  {}
}
