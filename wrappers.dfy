/** Option and Result, used for the exporter's "no key" and "abort" outcomes. */
module Wrappers {

  datatype Option<T> = None | Some(value: T)

  datatype Result<T, E> = Success(value: T) | Failure(error: E)
}
