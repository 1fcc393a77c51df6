/** The ways the aggregation can fail, and the result wrappers that carry them. */
module Failures {

  /** Every failure the aggregation can raise. In the program each of these is a
      `ValueError` raised by the runtime; the model keeps them apart by cause. */
  datatype Error =
    | EmptyFile        // mapping a zero-length file into memory is refused
    | SeekOutOfRange   // the chunk start lies more than one byte past the end of the file
    | WrongFieldCount  // a line does not split on ';' into exactly two fields
    | NotANumber       // the temperature field is not a number
    | NoWorkers        // a worker pool of size zero was requested

  datatype Option<+T> = None | Some(value: T)

  datatype Result<+T> = Success(value: T) | Failure(error: Error)

  /** Two outcomes agree when both succeed with the same value or both fail
      (possibly with different errors: which failing worker is reported first
      depends on completion order). */
  predicate SameOutcome<T(==)>(a: Result<T>, b: Result<T>)
  {
    a.Success? == b.Success? && (a.Success? ==> a.value == b.value)
  }
}
