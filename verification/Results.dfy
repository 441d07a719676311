/** The usual two datatypes for values that may be missing and calls that may fail. */
module Results {
  datatype Option<+T> = None | Some(value: T)

  /** The error codes of ImBox.h; 0 is success. */
  type ErrorCode = c: nat | c != 0 witness 1

  /** A failed call returns one of the error codes. */
  datatype Result<+T> = Ok(value: T) | Err(code: ErrorCode)
}
