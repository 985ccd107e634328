/** Small shared vocabulary: optional values, results, and flux's error codes. */
module Basics {

  datatype Option<+T> = None | Some(value: T)

  datatype Result<+T, +E> = Ok(value: T) | Err(error: E)

  /** The subset of flux's `codes` package that the modelled code raises. */
  datatype Code = Internal | Invalid | FailedPrecondition | Unknown
}
