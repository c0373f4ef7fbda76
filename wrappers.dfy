/** Optional values and results with an error, for lookups that may find nothing
    and queries that may raise. */
module Wrappers {
  datatype Option<+T> = None | Some(value: T)

  /** A value or the error raised instead; usable with `:-`. */
  datatype Result<+T, +E> = Ok(value: T) | Err(error: E) {
    predicate IsFailure() {
      Err?
    }

    function PropagateFailure<U>(): Result<U, E>
      requires Err?
    {
      Err(error)
    }

    function Extract(): T
      requires Ok?
    {
      value
    }
  }
}
