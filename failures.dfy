/**
  The failure kinds the services raise, and the Option and Result wrappers
  that carry them.  The repository's own error module is incomplete (several
  exceptions the services import are never defined), so the model names each
  exception once here.
 */
module Failures {

  datatype Failure =
    | InvalidVector          // ValueError("Vector has zero magnitude") from normalize_vector
    | FaceConfidenceTooLow
    | ServerMisconfigured
    | EmployeeNotFound
    | EmployeeAlreadyExists
    | NoEmployees            // NoEmployeesException
    | AlreadyClockedIn
    | NotClockedIn
    | DatabaseError
    | PayloadNotMapping      // TypeError from `Employee(**payload)` when payload is not a mapping

  datatype Option<+T> = None | Some(value: T)

  datatype Result<+T> = Ok(value: T) | Err(failure: Failure) {

    predicate IsFailure() {
      Err?
    }

    function PropagateFailure<U>(): Result<U>
      requires Err?
    {
      Err(failure)
    }

    function Extract(): T
      requires Ok?
    {
      value
    }
  }
}
