/** The error taxonomy and the FluentResults-style `Result` every layer of the
    server returns, with the combinators the application uses (`FailIf`,
    `Merge`, `MapErrors`, `ToResult`) and the validation-field relabelling
    of MyCustomers.Domain.Shared/Results/ResultExtensions.cs. */
module Results {
  import opened Seqs

  /** One error of a failed result. The first four are the repository's own
      error classes (ResourceNotFoundError, ValidationError, ConflictError,
      AccessDeniedError); `Other` is a plain error carrying a message, such as
      the ones built from identity-framework failures. */
  datatype Error =
    | NotFound(message: string)
    | Validation(field: string, message: string)
    | Conflict(message: string)
    | AccessDenied(message: string)
    | Other(message: string)

  /** A failed result carries at least one error: FluentResults reports a
      result as failed exactly when it holds an error. */
  type Errors = s: seq<Error> | |s| > 0 witness [Other("")]

  /** `Result<T>`; the non-generic `Result` is `Result<()>`. */
  datatype Result<+T> = Ok(value: T) | Fail(errors: Errors)

  predicate IsNotFound(e: Error) { e.NotFound? }
  predicate IsValidation(e: Error) { e.Validation? }

  /** The errors of a result: none on success. */
  function ErrorsOf<T>(r: Result<T>): seq<Error> {
    if r.Ok? then [] else r.errors
  }

  /** The non-generic result holding exactly the given errors. */
  function FromErrors(errs: seq<Error>): (r: Result<()>)
    ensures ErrorsOf(r) == errs
  {
    if |errs| == 0 then Ok(()) else Fail(errs)
  }

  /** `Result.FailIf(condition, error)`. */
  function FailIf(condition: bool, e: Error): (r: Result<()>)
    ensures r.Fail? <==> condition
    ensures r.Fail? ==> r.errors == [e]
  {
    if condition then Fail([e]) else Ok(())
  }

  /** All errors of the given results, in order. */
  function AllErrors(rs: seq<Result<()>>): (errs: seq<Error>)
    ensures |errs| == 0 <==> forall i :: 0 <= i < |rs| ==> rs[i].Ok?
  {
    if |rs| == 0 then [] else ErrorsOf(rs[0]) + AllErrors(rs[1..])
  }

  /** `Result.Merge(...)`: one result holding every error of every input, in
      order; it succeeds exactly when every input succeeds. */
  function Merge(rs: seq<Result<()>>): (r: Result<()>)
    ensures r.Ok? <==> forall i :: 0 <= i < |rs| ==> rs[i].Ok?
    ensures ErrorsOf(r) == AllErrors(rs)
  {
    FromErrors(AllErrors(rs))
  }

  /** `ToResult()`: forget the value, keep the errors. */
  function ToUnit<T>(r: Result<T>): (u: Result<()>)
    ensures u.Ok? <==> r.Ok?
    ensures ErrorsOf(u) == ErrorsOf(r)
  {
    if r.Ok? then Ok(()) else Fail(r.errors)
  }

  /** `ToResult<U>()` on a failed result: the same errors under another value type. */
  function Propagate<T, U>(r: Result<T>): (u: Result<U>)
    requires r.Fail?
    ensures u.Fail? && u.errors == r.errors
  {
    Fail(r.errors)
  }

  /** `MapErrors(mapper)`: a successful result is returned as it is; a failed
      one gets every error replaced by its image, position by position. */
  function MapErrors<T>(r: Result<T>, f: Error -> Error): (m: Result<T>)
    ensures r.Ok? ==> m == r
    ensures r.Fail? ==> m.Fail? && |m.errors| == |r.errors|
    ensures r.Fail? ==> forall i :: 0 <= i < |r.errors| ==> m.errors[i] == f(r.errors[i])
  {
    if r.Ok? then r else Fail(Map(f, r.errors))
  }

  /** A validation error moved to `field`; other errors are left alone. */
  function Relabel(e: Error, field: string): Error {
    if e.Validation? then Validation(field, e.message) else e
  }

  /** Two errors of the same class with the same message. */
  predicate SameKind(a: Error, b: Error) {
    && a.NotFound? == b.NotFound?
    && a.Validation? == b.Validation?
    && a.Conflict? == b.Conflict?
    && a.AccessDenied? == b.AccessDenied?
    && a.Other? == b.Other?
    && a.message == b.message
  }

  /** The relabelling both `MapValidationErrors` overloads perform, stated on
      an error list: same length and order, every validation error now names
      `field` and keeps its message, every other error is untouched. */
  ghost predicate RelabelledTo(before: seq<Error>, after: seq<Error>, field: string) {
    && |after| == |before|
    && forall i :: 0 <= i < |before| ==>
         && SameKind(after[i], before[i])
         && (before[i].Validation? ==> after[i] == Validation(field, before[i].message))
         && (!before[i].Validation? ==> after[i] == before[i])
  }

  /** `MapValidationErrors(Result, field)`. */
  function MapValidationErrors(r: Result<()>, field: string): (m: Result<()>)
    ensures m.Ok? <==> r.Ok?
    ensures RelabelledTo(ErrorsOf(r), ErrorsOf(m), field)
  {
    MapErrors(r, e => Relabel(e, field))
  }

  /** `MapValidationErrors<T>(Result<T>, field)`. */
  function MapValidationErrorsOf<T>(r: Result<T>, field: string): (m: Result<T>)
    ensures r.Ok? ==> m == r
    ensures m.Ok? <==> r.Ok?
    ensures RelabelledTo(ErrorsOf(r), ErrorsOf(m), field)
  {
    MapErrors(r, e => Relabel(e, field))
  }

  /** Relabelling determines its output: the error list it produces is the only
      list related to the input by `RelabelledTo`. */
  lemma RelabelledToUnique(before: seq<Error>, a: seq<Error>, b: seq<Error>, field: string)
    requires RelabelledTo(before, a, field) && RelabelledTo(before, b, field)
    ensures a == b
  {
  }

  /** Relabelling again with the same field changes nothing. */
  lemma MapValidationErrorsIdempotent(r: Result<()>, field: string)
    ensures MapValidationErrors(MapValidationErrors(r, field), field) == MapValidationErrors(r, field)
  {
    var once := MapValidationErrors(r, field);
    var twice := MapValidationErrors(once, field);
    if r.Fail? {
      assert twice.errors == once.errors;
    }
  }

  /** Relabelling to `f` and then to `g` is relabelling to `g`: the last field wins. */
  lemma MapValidationErrorsLastFieldWins(r: Result<()>, f: string, g: string)
    ensures MapValidationErrors(MapValidationErrors(r, f), g) == MapValidationErrors(r, g)
  {
    var viaF := MapValidationErrors(MapValidationErrors(r, f), g);
    var direct := MapValidationErrors(r, g);
    if r.Fail? {
      assert viaF.errors == direct.errors;
    }
  }

  /** The generic overload treats errors exactly as the non-generic one does on
      the value-free version of the same result. */
  lemma MapValidationErrorsOverloadsAgree<T>(r: Result<T>, field: string)
    ensures ErrorsOf(MapValidationErrorsOf(r, field)) == ErrorsOf(MapValidationErrors(ToUnit(r), field))
  {
    RelabelledToUnique(ErrorsOf(r), ErrorsOf(MapValidationErrorsOf(r, field)),
      ErrorsOf(MapValidationErrors(ToUnit(r), field)), field);
  }
}
