/** Option and Result, and the kinds of exception the content core throws. */
module Wrappers {

  /** A reference or nullable value that may be absent (C# null). */
  datatype Option<+T> = None | Some(value: T)

  /** The exceptions the content core raises synchronously to its caller. */
  datatype Error =
    | InvalidArgument      // ArgumentNullException: a null or empty key
    | UsageError           // N2Exception: a detail collection set through the indexer
    | TemplateNotFound     // TemplateNotFoundException: no address can be built
    | InvalidCast          // InvalidCastException: a stored value of the wrong type
    | NoValue              // InvalidOperationException: Value of an empty Nullable
    | ParameterCountMismatch // TargetParameterCountException: the indexer set as a property

  /** The outcome of an operation that either returns a value or throws. */
  datatype Result<+T> = Success(value: T) | Failure(error: Error)
}
