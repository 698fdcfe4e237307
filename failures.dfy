/** The exceptions the list and its iterator throw, and the values that carry them back to the caller. */
module Failures {

  /** The Java exception kinds the core throws. */
  datatype Error =
    | IndexOutOfBounds   // IndexOutOfBoundsException from checkIndex
    | IllegalArgument    // IllegalArgumentException: negative capacity, removing null
    | NoSuchElement      // NoSuchElementException: iterator advanced past the end

  /** The outcome of a call that returns a value or throws. */
  datatype Result<+R> = Success(value: R) | Failure(error: Error)

  /** The outcome of a void call that returns normally or throws. */
  datatype Outcome = Pass | Fail(error: Error)
}
