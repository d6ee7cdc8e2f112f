/** Failure-carrying values shared by the whole model: Java's `null` results
    become `Option`, and the exceptions the sorter throws become `Exception`
    values carried by `Outcome` and `Result`. */
module Wrappers {

  datatype Option<+T> = None | Some(value: T)

  /** The Java exceptions the modelled code can raise. */
  datatype Exception =
    | IllegalStateException
    | IllegalArgumentException
    | NullPointerException
    | ArithmeticException

  datatype Outcome = Completed | Threw(error: Exception)

  datatype Result<+T> = Success(value: T) | Failure(error: Exception)
}
