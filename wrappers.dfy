/** Option and Result values, and the exceptions the decoders can raise. */
module Wrappers {

  datatype Option<+T> = None | Some(value: T)

  /** An exception of the .NET runtime that a decoder lets escape to its caller. */
  datatype Exception =
    | IndexOutOfRange     // an array index past the end (`parts[k]` on a short line)
    | FormatError         // `Convert.ToDouble` on a token that is not a number
    | Overflow            // `Convert.ToDouble` on a number beyond the range of `double`
    | ArgumentOutOfRange  // `BitConverter` asked to start at or past the end of the array
    | ArgumentError       // `BitConverter` asked to read past the end of the array

  /** The value of a computation, or the exception that stopped it. */
  datatype Result<+T> = Ok(value: T) | Err(error: Exception)
}
