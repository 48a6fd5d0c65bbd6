/** Failure-compatible wrappers shared by every module of the model.

    `Error` lists the exception classes the modelled code raises: the three
    domain errors of the system manager, Python's OverflowError (date
    arithmetic leaving the calendar), and the built-in errors raised by the
    `Resource` value class.
 */
module Wrappers {

  datatype Option<+T> = None | Some(value: T)

  datatype Error =
    | ValidationError   // malformed or missing input
    | NotFoundError     // a referenced student, resource or transaction is absent
    | ConflictError     // the action would break a ledger rule
    | OverflowError     // a date moved outside years 1..9999
    | ValueError        // Resource constructor rejected a field
    | KeyError          // a record dictionary lacks a required key
    | AttributeError    // a non-string value where a string method is called

  /** Success carries a value; failure carries the exception raised. */
  datatype Result<+T> = Ok(value: T) | Fail(error: Error) {

    predicate IsFailure() {
      Fail?
    }

    function PropagateFailure<U>(): Result<U>
      requires Fail?
    {
      Fail(error)
    }

    function Extract(): T
      requires Ok?
    {
      value
    }
  }
}
