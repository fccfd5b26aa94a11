/** Failure-carrying results shared by the data store and the queue: the
    Python code signals failure by raising, and each raise it can reach is
    named here by the exception class Python would raise. */
module Results {

  datatype Option<+T> = None | Some(value: T) {
    predicate IsFailure() { None? }
    function PropagateFailure<U>(): Option<U> requires None? { None }
    function Extract(): T requires Some? { value }
  }

  /** The Python exceptions the modelled code can raise. */
  datatype Error =
    | KeyError    // a dict lookup of a missing key
    | TypeError   // subscripting None or a value of the wrong type
    | ValueError  // int() of a non-numeric string, or an explicit raise
    | IndexError  // popping or peeking an empty heap

  datatype Result<+T> = Ok(value: T) | Err(error: Error) {
    predicate IsFailure() { Err? }
    function PropagateFailure<U>(): Result<U> requires Err? { Err(error) }
    function Extract(): T requires Ok? { value }
  }
}
