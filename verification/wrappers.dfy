/** Null-or-value and value-or-exception results shared by the helpers. */
module Wrappers {
  /** A reference that may be null. */
  datatype Option<+T> = None | Some(value: T)

  /** The value an operation returns, or the exception it throws. */
  datatype Result<+T, +E> = Success(value: T) | Failure(error: E)

  /** The .NET exceptions the modelled helpers can throw. */
  datatype Exception =
    | IndexOutOfRangeException
    | InvalidCastException
    | OverflowException
    | ApplicationException(message: string)

  /** `string.IsNullOrEmpty` for a string reference that may be null. */
  predicate IsNullOrEmpty(s: Option<string>) {
    s.None? || |s.value| == 0
  }
}
