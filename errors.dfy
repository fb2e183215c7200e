/** Outcomes of the table's operations: a value, or the exception the source throws. */
module Errors {

  datatype Result<+T, +E> = Ok(value: T) | Err(error: E)

  datatype Outcome<+E> = Pass | Fail(error: E)

  /** The exceptions the table throws, one per message or check in the source. */
  datatype TableError =
    | TooSmall      // "Too small dining table"
    | Restart       // "Restart is not supported"
    | RepeatedStop  // "Repeated stop is illegal"
    | StartFirst    // "Start first"
    | OutOfBounds   // the seat index is outside the table
}
