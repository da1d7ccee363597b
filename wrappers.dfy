/** Failure-carrying results shared by the library modules. */
module Wrappers {

  datatype Option<+T> = None | Some(value: T)

  /** The exceptions the lending code raises. */
  datatype Exception =
    | IllegalArgument(message: Option<string>)  // java.lang.IllegalArgumentException, with or without a message
    | NoActiveLoan                              // a return for which the user holds no open loan

  /** A value, or the exception that stopped its computation. */
  datatype Result<+T> = Ok(value: T) | Err(error: Exception)

  /** The outcome of an operation that returns nothing (`Unit`) or throws. */
  datatype Outcome = Pass | Fail(error: Exception)
}
