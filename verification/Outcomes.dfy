/** Java exceptions as values: a method that may throw returns an Outcome first, and
    `:-` stops at the first one thrown, as a statement that throws does. */
module Outcomes {

  datatype Exception =
    | NegativeArraySize
    | IllegalArgument
    | BufferOverflow
    | Arithmetic
    | ArrayIndexOutOfBounds

  datatype Outcome = Done | Threw(exception: Exception) {
    predicate IsFailure() {
      Threw?
    }
    function PropagateFailure(): Outcome
      requires Threw?
    {
      this
    }
  }

  datatype Option<+T> = None | Some(value: T)
}
