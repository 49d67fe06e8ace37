/**
  The two failures the deque reports to its callers (pkg/errors.go), and the
  value-or-error pair its fallible operations return.
 */
module Errors {

  /** `PopError`: removal from an empty deque. `PeekError`: an index outside `[0, len)`. */
  datatype DequeError = PopError | PeekError(index: int)

  /** What a Go `(T, error)` return denotes: a value, or an error (the value is then meaningless). */
  datatype Result<+R> = Success(value: R) | Failure(error: DequeError)
}
