/** Small failure-carrying datatypes shared by the localisation modules. */
module Wrappers {

  /** A value that may be missing: stands for a C# reference that may be null. */
  datatype Option<+T> = None | Some(value: T)

  /** The outcome of an operation that may throw: `Err` names the exception. */
  datatype Result<+T, +E> = Ok(value: T) | Err(error: E)
}
