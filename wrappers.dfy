/** Failure-carrying results shared by every module of the cipher engine.
    The source signals every domain error with one exception type; the model
    returns a `Failure` carrying the reason instead. */
module Wrappers {

  datatype Option<+T> = None | Some(value: T)

  /** Why an operation failed.  `Crash` stands for a Java runtime exception
      (an index out of bounds, a null slot) that the program does not catch. */
  datatype Error =
    | NotInAlphabet
    | SizeMismatch
    | FinalNotMoving
    | FirstNotReflector
    | DuplicateRotor
    | ParenthesisInSetting
    | BadFormat
    | BadPlugboard
    | DuplicateNotch
    | NotchOnReflector
    | UnknownRotorKind
    | Crash

  datatype Result<+T> = Success(value: T) | Failure(error: Error)

  datatype Outcome = Pass | Fail(error: Error)
}
