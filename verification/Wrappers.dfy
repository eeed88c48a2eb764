/** A value that may be missing, the larger and the smaller of two numbers, and a fact about lists. */
module Wrappers {

  datatype Option<+T> = None | Some(value: T)

  function Max(x: int, y: int): int { if x < y then y else x }

  function Min(x: int, y: int): int { if x < y then x else y }

  /** A list that is not empty has its first element among its members. */
  lemma HasFirst<T>(x: seq<T>)
    ensures x != [] ==> x[0] in x
  {
  }
}
