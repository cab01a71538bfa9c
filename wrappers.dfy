/** Option and Result, the two failure-carrying shapes the model uses for
    `null` returns and for thrown `Error`s. */
module Wrappers {

  datatype Option<+T> = None | Some(value: T)

  /** A JavaScript `Error` carries a message string; `Failure` keeps it. */
  datatype Result<+T> = Success(value: T) | Failure(error: string)

  /** An async operation that returns nothing: it completes, or it throws an `Error`
      with a message. */
  datatype Outcome = Done | Thrown(message: string)
}
