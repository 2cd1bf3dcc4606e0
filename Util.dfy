/**
 * Shared result types. The modelled Python code signals failure by raising
 * built-in exceptions; each operation that can raise returns one of these
 * instead, naming the exception class it would raise. Also Python's list
 * indexing, where a negative index counts from the end.
 */
module Util {

  datatype Option<T> = None | Some(value: T)

  /** The Python exception classes raised by the modelled code. */
  datatype Error =
    | KeyError
    | ValueError
    | IndexError
    | RuntimeError
    | AttributeError
    | AssertionError

  /** A value, or the exception raised instead of returning one. */
  datatype Result<T> = Ok(value: T) | Err(error: Error)

  /** Completion of an operation that returns nothing. */
  datatype Outcome = Done | Raised(error: Error)

  /** Python's `lst[i]` position: a negative index counts from the end; None is an IndexError. */
  function PyIndex(len: nat, i: int): (r: Option<nat>)
    ensures r.Some? <==> -(len as int) <= i < len
    ensures r.Some? ==> r.value < len && (r.value == i || r.value == i + len)
  {
    if 0 <= i < len then Some(i)
    else if -(len as int) <= i < 0 then Some(i + len)
    else None
  }
}
