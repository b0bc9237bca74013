/** Failure outcomes shared by the modules of this model.

    The original code reports failures by throwing a runtime error (the THROW
    macro); here such an operation returns one of these values instead. */
module Wrappers {

  /** A computed value, or the error that prevented computing it. */
  datatype Result<+T, +E> = Ok(value: T) | Err(error: E)

  /** Success of an operation that returns nothing, or the error it raised. */
  datatype Outcome<+E> = Pass | Fail(error: E)
}
