/** Option/Result datatypes and the .NET exceptions the library throws, modelled as values. */
module Wrappers {

  /** A C# reference that may be null (`None`) or a value (`Some`). */
  datatype Option<+T> = None | Some(value: T)

  /** The exceptions the modelled code throws, with the argument names and messages it passes. */
  datatype Exception =
    | ArgumentNullException(paramName: string)
    | ArgumentException(message: string, paramName: string)
    | ArgumentOutOfRangeException(paramName: string)
    | KeyNotFoundException(message: string)
    | NullReferenceException
    | IndexOutOfRangeException

  /** Either a returned value or a thrown exception. */
  datatype Result<+T> = Ok(value: T) | Throw(error: Exception)

  /** The outcome of a `void` operation: it returns normally or throws. */
  datatype Outcome = Pass | Fail(error: Exception)
}
