/** The single failure of the list: an index outside the range an operation accepts. */
module Errors {

  /**
   The outcome of a list operation: a value, or the index-out-of-range
   condition carrying the offending index and the size of the list it was
   applied to. A failed operation returns no list, so the caller's list is
   left exactly as it was.
   */
  datatype Result<T> = Ok(value: T) | OutOfRange(index: nat, size: nat)
}
