/** Stock types. */
module Wrappers {
  datatype Option<+T> = None | Some(value: T)

  /** What a call returns, or the error it throws. */
  datatype Outcome<+T, +E> = Ok(value: T) | Thrown(error: E)

  type Bytes = seq<bv8>
}
