/** Failure-compatible result types shared by the field graph and the graphics list. */
module Outcome {

  /** The error kinds the computed-field operations report. */
  datatype Error =
    | InvalidArgument       // missing object or input of the wrong shape
    | NotDefinedAtLocation  // the field cannot be calculated at the node or element
    | NotReversible         // no inverse exists for the field type or its chain
    | CyclicDependency      // a type conversion would make a field depend on itself

  datatype Option<+T> = None | Some(value: T)

  datatype Result<+T> = Ok(value: T) | Err(error: Error) {
    predicate IsFailure() { Err? }

    function PropagateFailure<U>(): Result<U>
      requires Err?
    {
      Err(error)
    }

    function Extract(): T
      requires Ok?
    {
      value
    }
  }

  /** The integer return code of a mutating operation: done, or failed with an error. */
  datatype Status = Done | Failed(error: Error)
}
