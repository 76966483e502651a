/** Option and Result wrappers, and the .NET exceptions the modelled code can raise. */
module Results {

  datatype Option<+T> = None | Some(value: T)

  /** The exceptions that escape the modelled operations, by their .NET names. */
  datatype Error =
    | IndexOutOfRange     // indexing a string[] past its end
    | ArgumentOutOfRange  // String.Remove(-1, 1) on an empty string
    | ArgumentNull        // a null Dictionary key
    | InvalidOperation    // Enumerable.Aggregate over an empty sequence
    | NullReference       // a member access through a null Directory

  datatype Result<+T> = Ok(value: T) | Err(error: Error)
}
