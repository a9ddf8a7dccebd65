/** Success/failure results for the operations whose Python counterparts raise. */
module Outcomes {

  /** Either a computed value or the error the source would raise instead. */
  datatype Result<+T, +E> = Success(value: T) | Failure(error: E)
}
