/** Option and Result values, standing in for Python's None and for the
    exceptions the scraper raises and catches. */
module Wrappers {

  datatype Option<+T> = None | Some(value: T)

  datatype Result<+T, +E> = Success(value: T) | Failure(error: E)
}
