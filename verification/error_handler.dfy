/** The controller advice that turns an exception into an HTTP response:
    a status code and the status's name. Exceptions it does not list are
    left to the framework's default handling, shown here as `None`. */
module ErrorHandler {
  import opened Common

  datatype ApiError = ApiError(status: int, reason: string)

  /** The name Spring's HttpStatus enum gives each code the advice uses. */
  function StatusName(code: int): string {
    if code == 400 then "BAD_REQUEST"
    else if code == 403 then "FORBIDDEN"
    else if code == 404 then "NOT_FOUND"
    else if code == 409 then "CONFLICT"
    else "INTERNAL_SERVER_ERROR"
  }

  /** The exception kinds a missing entity can surface as. */
  predicate IsNotFoundKind(e: Exception) {
    e.UserNotFound? || e.CategoryNotFound? || e.EventNotFound? || e.RequestNotFound?
    || e.CommentNotFound? || e.CompilationNotFound? || e.EntityNotFound?
  }

  function Handle(e: Exception): (r: Option<ApiError>)
    // every answer carries the name of its own status code
    ensures r.Some? ==> r.value.reason == StatusName(r.value.status)
    // request-body and rule validation are the only 400s
    ensures r.Some? && r.value.status == 400 <==> e.MethodArgumentNotValid? || e.ValidationRequest?
    // four of the seven not-found kinds are answered 404; the others are not handled here
    ensures r.Some? && r.value.status == 404 <==>
      e.UserNotFound? || e.CategoryNotFound? || e.EventNotFound? || e.RequestNotFound?
    ensures IsNotFoundKind(e) ==> r.None? || r.value.status == 404
    // uniqueness violations, rule violations and request conflicts are all 409; nothing is 403
    ensures r.Some? && r.value.status == 409 <==>
      e.ConstraintViolation? || e.DataIntegrityViolation? || e.Forbidden? || e.RequestConflict?
    ensures r.Some? ==> r.value.status in {400, 404, 409}
  {
    match e
    case MethodArgumentNotValid | ValidationRequest => Some(ApiError(400, "BAD_REQUEST"))
    case UserNotFound | CategoryNotFound | EventNotFound | RequestNotFound => Some(ApiError(404, "NOT_FOUND"))
    case ConstraintViolation | DataIntegrityViolation => Some(ApiError(409, "CONFLICT"))
    case Forbidden => Some(ApiError(409, "CONFLICT"))
    case RequestConflict => Some(ApiError(409, "CONFLICT"))
    case CommentNotFound | CompilationNotFound | EntityNotFound | IllegalArgument => None
  }

  /** A rule violation reaches the client as 409 CONFLICT, never as 403. */
  lemma ForbiddenIsConflict()
    ensures Handle(Forbidden) == Some(ApiError(409, "CONFLICT"))
    ensures forall e :: Handle(e) != Some(ApiError(403, StatusName(403)))
  {
  }
}
