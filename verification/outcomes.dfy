/** Option and Result values, and the Java exceptions the model raises instead of throwing. */
module Outcomes {

  datatype Option<+T> = None | Some(value: T)

  datatype Result<+T, +E> = Success(value: T) | Failure(error: E)

  /** The two exceptions the expression-tree code can end in. */
  datatype Exception =
    | IllegalArgument(message: string)  // `IllegalArgumentException` with its message
    | NullPointer                       // a dereference of a null link
}
