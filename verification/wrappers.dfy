/** Optional values and results, standing in for C#'s null references and exceptions. */
module Wrappers {

  /** A value that may be absent: `None` plays the part of a C# `null`. */
  datatype Option<+T> = None | Some(value: T)

  /** C#'s null-coalescing `a ?? b`: the first value when present, otherwise the second. */
  function OrElse<T>(a: Option<T>, b: Option<T>): (r: Option<T>)
    ensures r.Some? <==> a.Some? || b.Some?
    ensures a.Some? ==> r == a
    ensures a.None? ==> r == b
  {
    if a.Some? then a else b
  }

  /** The outcome of an operation that either produces a value or throws with a message. */
  datatype Result<+T> = Success(value: T) | Failure(error: string)
}
