/** What the other modules share: bytes, the Python exceptions the modelled
    code raises, and the result types that carry them in place of raising. */
module Base {

  /** An element of a Python `bytes` or `bytearray`. */
  type byte = b: int | 0 <= b < 256

  /** The exception classes raised by binimage.py and insasm.py. The two
      ValueErrors of Pointer.resolve are told apart by their message. */
  datatype Error =
    | TypeError(msg: string)
    | ValueError(msg: string)
    | OverflowError
    | KeyError
    | IndexError

  const CombineOnlyMsg := "BinaryImages can only be combined with combine."
  const NoDestinationMsg := "Cannot resolve without destination!"
  const UnresolvedUsesMsg := "Not all uses are resolved!"

  /** A value, or the exception that was raised instead. */
  datatype Result<+T> = Success(value: T) | Failure(error: Error)

  /** The outcome of a procedure that returns None in Python. */
  datatype Outcome = Pass | Fail(error: Error)

  datatype Option<+T> = None | Some(value: T)
}
