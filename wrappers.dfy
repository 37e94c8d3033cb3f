/** The two wrappers the model uses: Option for Ruby's `nil`-or-value, Result for an
    operation that either yields a value or raises an error the source raises on purpose. */
module Wrappers {

  datatype Option<+T> = None | Some(value: T)

  datatype Result<+T, +E> = Success(value: T) | Failure(error: E)
}
