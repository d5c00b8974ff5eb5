/** Failure-carrying values shared by every module: a Java `null` becomes `None`,
    a thrown exception becomes `Err` with the exception's kind. */
module Wrappers {

  datatype Option<T> = None | Some(value: T)

  /** The Java exceptions the modelled code throws or lets escape. */
  datatype Error =
    | IllegalArgument     // java.lang.IllegalArgumentException
    | NoSuchElement       // java.util.NoSuchElementException
    | NumberFormat        // java.lang.NumberFormatException
    | IndexOutOfBounds    // java.lang.ArrayIndexOutOfBoundsException
    | OutOfFuel           // the search bound of a loop the source never bounds

  datatype Result<T> = Ok(value: T) | Err(error: Error)

  /** Outcome of an operation that returns nothing but may throw. */
  datatype Outcome = Pass | Fail(error: Error)
}
