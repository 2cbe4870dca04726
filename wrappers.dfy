/** Failure-carrying results shared by the parsers and the stage functions. */
module Wrappers {

  /** A value that may be absent (a Kotlin nullable, or a Java parse that fails). */
  datatype Option<+T> = None | Some(value: T)

  /** Why a piece of text is not a node or a node pair.
      `MissingField` is the `IndexOutOfBoundsException` of reading `data[1]` from a split
      that produced a single field; `BadNumber` is the `NumberFormatException` of
      `toByte` / `toInt`. */
  datatype ParseError = MissingField | BadNumber

  /** The outcome of a parse: the value, or the exception the source would throw. */
  datatype Result<+T> = Ok(value: T) | Err(error: ParseError)
}
