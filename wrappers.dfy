/** Option and Result, the two failure-aware wrappers the model uses. */
module Wrappers {

  datatype Option<+T> = None | Some(value: T)

  /** A Python exception the modelled code lets escape, by kind. */
  datatype Error =
    | KeyMissing(key: string)   // KeyError from a dict or session lookup
    | EmptySequence             // ValueError from max() over an empty list
    | IndexOutOfRange           // IndexError from [0] or pop() on an empty list
    | DivisionByZero            // ZeroDivisionError
    | NotAString                // AttributeError from .lower() on a non-string

  datatype Result<+T> = Ok(value: T) | Err(error: Error)
}
