/** The Option, Result and Outcome types shared by the model. */
module Wrappers {

  /** A value or nothing; also stands for a C# reference that may be null. */
  datatype Option<+T> = None | Some(value: T) {
    function GetOr(default: T): T {
      match this
      case Some(v) => v
      case None => default
    }
  }

  /** A value or the error an operation raised. */
  datatype Result<+R, +E> = Success(value: R) | Failure(error: E)

  /** Completion of an operation that returns nothing: it either passes or raises an error. */
  datatype Outcome<+E> = Pass | Fail(error: E)
}
