/** Failure-carrying results, used where the C code calls `exit(EXIT_FAILURE)`
    or returns a pointer that may be NULL. */
module Wrappers {

  datatype Option<+T> = None | Some(value: T)

  datatype Result<+T, +E> = Ok(value: T) | Err(error: E)

  datatype Outcome<+E> = Pass | Fail(error: E)
}
