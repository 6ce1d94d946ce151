/** Option and Result types standing in for Java's `null` returns and thrown exceptions. */
module Wrappers {
  datatype Option<T> = None | Some(value: T)

  /** The exceptions a modelled Java method can throw. */
  datatype Error =
    | IllegalArgument      // java.lang.IllegalArgumentException
    | NoSuchElement        // java.util.NoSuchElementException
    | NumberFormat         // java.lang.NumberFormatException

  datatype Result<T> = Ok(value: T) | Err(error: Error)
}
