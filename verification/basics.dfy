/** Small shared vocabulary: bytes, optional values, and the outcome of a call
    that may end in an uncaught exception. */
module Basics {

  /** An octet, as found in `bytes` objects and on the wire. */
  type byte = b: int | 0 <= b < 256

  /** The conventional Some/None datatype, standing for a value or Python's `None`. */
  datatype Option<+T> = None | Some(value: T)

  /** The result of a call that either returns normally with `value` or raises an
      exception that nothing in the module catches. */
  datatype Outcome<+T> = Done(value: T) | Fault

  /** Index of the first occurrence of `x` in `s`. */
  function Find<T(==)>(s: seq<T>, x: T): (k: nat)
    requires x in s
    ensures k < |s| && s[k] == x
    ensures forall j :: 0 <= j < k ==> s[j] != x
  {
    if s[0] == x then 0 else 1 + Find(s[1..], x)
  }
}
