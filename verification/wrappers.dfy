/** Failure-carrying datatypes shared by the voter model.
    - Option<T> stands for a Java reference that may be null.
    - Result<T> is an operation that either returns a value or throws a
      GenericOutputException carrying a user-facing message.
    - Outcome is a check that either passes or throws such an exception. */
module Wrappers {

  datatype Option<+T> = None | Some(value: T)

  datatype Result<+T> = Ok(value: T) | Err(message: string)

  datatype Outcome = Pass | Fail(message: string)
}
