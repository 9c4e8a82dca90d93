/** The ways a computation of the engines can be cut short. */
module Results {
  datatype Error =
    | AssertionFailed
    | ZeroDivision
    | UnknownFee
    | MissingWord
    | MissingTick
    | NoConvergence
    | UndefinedName
    | PopFromEmptyStack
    | MissingPart

  datatype Result<+T> = Success(value: T) | Failure(error: Error) {
    predicate IsFailure() {
      Failure?
    }

    function PropagateFailure<U>(): Result<U>
      requires Failure?
    {
      Failure(error)
    }

    function Extract(): T
      requires Success?
    {
      value
    }
  }
}
