/** Option and Result, the two failure-carrying datatypes the model uses.
    `Option` doubles as the model of a Python value that may be `None`. */
module Wrappers {

  datatype Option<+T> = None | Some(value: T)

  /** The value of a computation that returns normally (`Ok`) or raises (`Err`). */
  datatype Result<+T, +E> = Ok(value: T) | Err(error: E)
}
