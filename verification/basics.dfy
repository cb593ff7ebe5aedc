/** Small shared vocabulary: optional values, the outcome of a computation
    (a returned value or a propagated exception), and index ranges. */
module Basics {

  /** An opaque exception payload, as carried by `std::exception_ptr`. */
  type Exc = int

  datatype Option<+T> = None | Some(value: T)

  /** What a finished computation produced: the value it returned, or the
      exception that escaped it and was captured by `unhandled_exception`. */
  datatype Outcome<+T> = Returned(value: T) | Threw(exc: Exc)

  /** The indices 0, 1, ..., n-1 in increasing order. */
  function Range(n: nat): (r: seq<nat>)
    ensures |r| == n
    ensures forall i :: 0 <= i < n ==> r[i] == i
  {
    if n == 0 then [] else Range(n - 1) + [n - 1]
  }
}
