/** Failure-carrying values shared by the rest of the model. */
module Wrappers {

  /** A value that may be absent; stands for a C# reference that may be null. */
  datatype Option<+T> = None | Some(value: T) {
    function GetOr(default: T): T {
      match this
      case Some(v) => v
      case None => default
    }
  }

  /** The exceptions the modelled code can raise. */
  datatype Fault =
    | NullReference      // an access through a released (null) array
    | IndexOutOfRange    // an access outside the backing array
    | Overflow           // a negative array length
    | OutOfMemory        // the runtime could not allocate the array

  /** Either a value or the exception that replaced it. */
  datatype Result<+T> = Ok(value: T) | Err(fault: Fault)
}
