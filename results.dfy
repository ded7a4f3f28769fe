/** Error reporting shared by both queue variants and the sorting run. */
module Results {

  /** The ways an operation of the model can fail. */
  datatype Error =
    | EmptyQueue      // dequeue or peek on a queue whose root is null
    | HeaderTooShort  // the file ends before the 32-bit offset field at bytes 10..13
    | OffsetPastEnd   // the payload offset lies beyond the end of the file

  datatype Result<T> = Ok(value: T) | Err(error: Error)

  datatype Option<T> = None | Some(value: T)
}
