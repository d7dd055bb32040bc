/** Shared vocabulary of the event-listing backend: optional values, the
    exception kinds the services raise, results, and time. */
module Common {

  /** A Java reference that may be null. */
  datatype Option<+T> = None | Some(value: T) {
    function GetOr(default: T): T {
      match this
      case Some(v) => v
      case None => default
    }
  }

  /** The exception classes the services throw. */
  datatype Exception =
    | UserNotFound
    | CategoryNotFound
    | EventNotFound
    | RequestNotFound
    | CommentNotFound
    | CompilationNotFound
      // a bare JPA EntityNotFoundException, raised when a lazy reference to a missing row is used
    | EntityNotFound
      // a bean-validation constraint on a request body failed before the service ran
    | MethodArgumentNotValid
    | ValidationRequest
    | Forbidden
    | DataIntegrityViolation
    | ConstraintViolation
    | RequestConflict
      // Enum.valueOf applied to a name the enum does not declare
    | IllegalArgument

  /** Either the value a service call returns or the exception it throws. */
  datatype Result<+T> = Ok(value: T) | Err(error: Exception) {
    predicate IsFailure() {
      Err?
    }

    function PropagateFailure<U>(): Result<U>
      requires Err?
    {
      Err(error)
    }

    function Extract(): T
      requires Ok?
    {
      value
    }
  }

  /** Instants are whole seconds on one time line. */
  type Instant = int

  const Hour: int := 3600

  /** Every event date must lie at least this far after the current instant. */
  const MinLeadTime: int := 2 * Hour
}
