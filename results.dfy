/** Absent values and the exceptions the library throws, as values. */
module Results {

  datatype Option<+T> = None | Some(value: T)

  /** The JVM exceptions that the modelled code can raise. */
  datatype Error =
    | IllegalArgument        // IllegalArgumentException: malformed code framing
    | IndexOutOfBounds       // IndexOutOfBoundsException: negative ordinal, missing split piece, array slot
    | StringIndexOutOfBounds // StringIndexOutOfBoundsException: charAt / substring outside the text
    | NoSuchElement          // NoSuchElementException: next() on an exhausted iterator
    | NullPointer            // NullPointerException: a `!!` or an explicit throw on null

  datatype Result<+T> = Ok(value: T) | Err(error: Error)

  /** Success or failure of an operation that returns nothing. */
  datatype Outcome = Pass | Fail(error: Error)
}
