/** Failure-carrying values shared by every module: an optional value, a
    result that is either a value or a fault, and a pass/fail outcome. */
module Wrappers {
  datatype Option<+T> = None | Some(value: T)

  datatype Result<+T, +E> = Ok(value: T) | Err(error: E)

  datatype Outcome<+E> = Pass | Fail(error: E)
}
