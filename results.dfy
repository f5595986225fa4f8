/** Failure-compatible wrappers and the decoder's error taxonomy. */
module Results {

  /** Why a decode step failed; each stands for an exception the Java code throws. */
  datatype Error =
    | BufferUnderrun            // a read or a position past the buffer's limit
    | InvalidLength             // a declared length that is negative
    | UnsupportedType(tag: int) // a tag byte outside the type table
    | UnsupportedFeature        // DBRef
    | UnrecognizedFlag(c: char) // a regular-expression flag letter outside the table
    | UnrecognizedFlagBits      // flag bits no regular-expression flag letter stands for

  datatype Option<+T> = None | Some(value: T) {
    function GetOr(default: T): T {
      match this
      case Some(v) => v
      case None => default
    }
  }

  datatype Result<+T> = Ok(value: T) | Err(error: Error) {
    predicate IsFailure() {
      Err?
    }

    function PropagateFailure<U>(): Result<U>
      requires Err?
    {
      Err(error)
    }

    function Extract(): T
      requires Ok?
    {
      value
    }
  }
}
