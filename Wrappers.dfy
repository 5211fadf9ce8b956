// Option and Result, for absent values and for the source's exceptions.

module Wrappers {

  datatype Option<T> = None | Some(value: T)

  /** Err carries the text of the exception the source throws. */
  datatype Result<T> = Ok(value: T) | Err(msg: string)
  {
    predicate IsFailure() { Err? }
  }
}
