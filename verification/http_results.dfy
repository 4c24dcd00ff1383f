/** The typed HTTP results the minimal-API endpoints return, and the common
    shape of every endpoint: a success is answered by the endpoint's own
    success result, a failure by a per-endpoint table that looks at the
    class of the FIRST error only. */
module HttpResults {
  import opened Results
  import ValidationDictionary

  /** `TypedResults.Ok`, `Created`, `NoContent`, `NotFound`, `Unauthorized`,
      `Forbid`, `Problem` and `ValidationProblem`. */
  datatype HttpResult<T> =
    | Okay(value: T)
    | Created(location: string, value: T)
    | NoContent
    | NotFoundStatus
    | Unauthorized
    | Forbid
    | Problem(detail: string, status: int)
    | ValidationProblem(errors: map<string, seq<string>>)

  /** `TypedResults.Problem` without a status code answers 500. */
  const InternalServerError: int := 500
  const ConflictStatus: int := 409

  /** The status code each result is sent with. */
  function Status<T>(h: HttpResult<T>): int {
    match h
    case Okay(_) => 200
    case Created(_, _) => 201
    case NoContent => 204
    case NotFoundStatus => 404
    case Unauthorized => 401
    case Forbid => 403
    case Problem(_, status) => status
    case ValidationProblem(_) => 400
  }

  /** How an endpoint answers one class of error. */
  datatype Handling =
    | AsNotFound            // TypedResults.NotFound()
    | AsUnauthorized        // TypedResults.Unauthorized()
    | AsForbid              // TypedResults.Forbid()
    | AsConflict            // Problem(message, statusCode: 409)
    | AsValidationProblem   // ValidationProblem(MapValidationErrorsToDictionary())
    | AsProblem             // Problem(message)

  /** An endpoint's `switch` on the first error: the arm for each error
      class. The discard arm, which also takes plain errors, is `AsProblem`. */
  datatype Table = Table(notFound: Handling, validation: Handling, conflict: Handling, accessDenied: Handling)

  /** The table of an endpoint whose switch has only the discard arm and the
      arms given. */
  const Discard := Table(AsProblem, AsProblem, AsProblem, AsProblem)

  /** The arm the switch takes for an error. */
  function ArmFor(table: Table, e: Error): Handling {
    match e
    case NotFound(_) => table.notFound
    case Validation(_, _) => table.validation
    case Conflict(_) => table.conflict
    case AccessDenied(_) => table.accessDenied
    case Other(_) => AsProblem
  }

  /** The reply to a failed result: the first error picks the arm; a problem
      carries the first error's message, and a validation problem the
      field-to-messages dictionary of ALL the errors. */
  function Failure<T>(table: Table, errs: Errors): (h: HttpResult<T>)
    ensures Status(h) >= 400
    ensures h.Problem? ==> h.detail == errs[0].message
  {
    match ArmFor(table, errs[0])
    case AsNotFound => NotFoundStatus
    case AsUnauthorized => Unauthorized
    case AsForbid => Forbid
    case AsConflict => Problem(errs[0].message, ConflictStatus)
    case AsValidationProblem => ValidationProblem(ValidationDictionary.MapValidationErrorsToDictionary(Fail(errs)))
    case AsProblem => Problem(errs[0].message, InternalServerError)
  }

  /** An endpoint: `if (result.IsSuccess) return success(result.Value);`
      then the switch. */
  function Respond<T, U>(r: Result<T>, success: T -> HttpResult<U>, table: Table): (h: HttpResult<U>)
    ensures r.Ok? ==> h == success(r.value)
    ensures r.Fail? ==> Status(h) >= 400 && (h.Problem? ==> h.detail == r.errors[0].message)
    ensures r.Fail? && ArmFor(table, r.errors[0]) == AsNotFound ==> h == NotFoundStatus
    ensures r.Fail? && ArmFor(table, r.errors[0]) == AsForbid ==> h == Forbid
  {
    if r.Ok? then success(r.value) else Failure(table, r.errors)
  }

  /** Only the first error decides: two failures that start with the same
      error get the same status, and unless the arm is a validation problem
      (whose body lists every error) the very same reply. */
  lemma FirstErrorDecides<T>(table: Table, a: Errors, b: Errors)
    requires a[0] == b[0]
    ensures Status<T>(Failure(table, a)) == Status<T>(Failure(table, b))
    ensures ArmFor(table, a[0]) != AsValidationProblem ==> Failure<T>(table, a) == Failure<T>(table, b)
  {
  }

  /** Even a validation-problem reply only looks past the first error for
      validation errors: the status depends on the first error's class alone. */
  lemma FirstClassDecides<T>(table: Table, a: Errors, b: Errors)
    requires ArmFor(table, a[0]) == ArmFor(table, b[0])
    ensures Status<T>(Failure(table, a)) == Status<T>(Failure(table, b))
  {
  }
}
