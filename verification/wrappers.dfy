/** Failure-carrying results for the list operations. A Java method that throws
    is modelled as a function returning `Failure`; since lists are values, a
    failing call leaves the caller's list exactly as it was. */
module Wrappers {

  /** The two runtime exceptions the list code can raise. */
  datatype Exception = IllegalArgument | NullPointer

  datatype Option<+T> = None | Some(value: T)

  datatype Result<+T> = Success(value: T) | Failure(error: Exception)
}
