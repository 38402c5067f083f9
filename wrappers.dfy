/** Small failure-carrying datatypes shared by every module of the model:
    `Option` stands for a nullable reference or an absent element,
    `Result` for a value-or-exception, `Outcome` for a void call that may throw. */
module Wrappers {

  datatype Option<T> = None | Some(value: T) {
    /** `x ?? d` */
    function GetOr(d: T): T {
      match this
      case Some(v) => v
      case None => d
    }
  }

  datatype Result<T, E> = Ok(value: T) | Err(error: E)

  datatype Outcome<E> = Pass | Fail(error: E)

  /** The .NET exceptions the modelled code can throw. */
  datatype Error =
    | ArgumentNull        // ArgumentNullException
    | ArgumentOutOfRange  // ArgumentOutOfRangeException from date arithmetic
    | BadFormat           // FormatException from Guid, DateTime or base64 parsing
    | FileExists          // IOException from FileMode.CreateNew on an existing file
    | NullReference       // NullReferenceException on a missing form field
}
