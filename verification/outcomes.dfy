/** Optional values (Java `null`), results, and the exceptions the modelled
    service code raises, as one closed datatype. */
module Outcomes {

  /** A Java reference that may be `null`. */
  datatype Option<+T> = None | Some(value: T) {
    function GetOr(default: T): T {
      match this
      case Some(v) => v
      case None => default
    }
  }

  /** HTTP statuses carried by Spring's `ResponseStatusException`. */
  datatype HttpStatus = BadRequest | NotFound

  /** The exceptions thrown by the modelled code. */
  datatype Failure =
    | ResponseStatus(status: HttpStatus, message: string)
    | IllegalArgument(message: string)
    | IllegalState(message: string)
    | NullPointer
    | DateTimeParse(text: string)

  /** Either a value or the exception that replaced it. */
  datatype Result<+T> = Success(value: T) | Error(failure: Failure) {
    predicate IsFailure() {
      Error?
    }

    function PropagateFailure<U>(): Result<U>
      requires Error?
    {
      Error(failure)
    }

    function Extract(): T
      requires Success?
    {
      value
    }
  }
}
