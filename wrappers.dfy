/** Wrappers used to model Java's null results and thrown exceptions. */
module Wrappers {

  /** A value or nothing; `None` stands for a Java `null` result. */
  datatype Option<+T> = None | Some(value: T)

  /** A value or the exception the Java code throws instead of returning one. */
  datatype Result<+T> = Success(value: T) | Failure(error: Exception)

  /** The exceptions the modelled code throws on purpose. */
  datatype Exception =
    | IndexOutOfBounds(message: string)
    | InvalidParameter(message: string)
    | NumberFormat(input: string)
    | MalformedText
    | CannotGenerate(message: string)
}
