/** MyCustomers.WebApi/Customers/CustomerEndpoints.cs: the customer routes
    under /api/customers, each turning its use case's result into an HTTP
    result. Customer ids are rendered with `Text.IntText`. */
module CustomerEndpoints {
  import opened Wrappers
  import opened Results
  import opened HttpResults
  import opened Customers
  import Text
  import Pagination
  import ValidationDictionary
  import Repository
  import Svc = CustomerAppService

  /** The route prefix of the group. */
  const Route := "/api/customers"

  /** The location of a created customer: `$"/api/customers/{customer.Id}"`. */
  function Location(id: int): (l: string)
    ensures |l| > |Route| && l[..|Route| + 1] == Route + "/"
    ensures l[|Route| + 1..] == Text.IntText(id)
  {
    Route + "/" + Text.IntText(id)
  }

  /** Different customers are created at different locations. */
  lemma LocationInjective(a: int, b: int)
    ensures Location(a) == Location(b) <==> a == b
  {
    if Location(a) == Location(b) {
      assert Text.IntText(a) == Location(a)[|Route| + 1..];
      Text.IntTextInjective(a, b);
    }
  }

  /** GET /{id}: not found, or a problem with the first message. */
  function Get(r: Result<CustomerDto>): (h: HttpResult<CustomerDto>)
    ensures r.Ok? ==> h == Okay(r.value)
    ensures r.Fail? && r.errors[0].NotFound? ==> h == NotFoundStatus
    ensures r.Fail? && !r.errors[0].NotFound? ==> h == Problem(r.errors[0].message, InternalServerError)
  {
    Respond(r, v => Okay(v), Discard.(notFound := AsNotFound))
  }

  /** GET /: a first validation error gives a validation problem. */
  function List(r: Result<Svc.PageDto<CustomerDto>>): (h: HttpResult<Svc.PageDto<CustomerDto>>)
    ensures r.Ok? ==> h == Okay(r.value)
    ensures r.Fail? && r.errors[0].Validation? ==>
      h == ValidationProblem(ValidationDictionary.MapValidationErrorsToDictionary(ToUnit(r)))
    ensures r.Fail? && !r.errors[0].Validation? ==> h == Problem(r.errors[0].message, InternalServerError)
  {
    Respond(r, v => Okay(v), Discard.(validation := AsValidationProblem))
  }

  /** POST /: created at the new customer's location, or a 409 problem, a
      validation problem or a problem. */
  function Create(r: Result<CustomerDto>): (h: HttpResult<CustomerDto>)
    ensures r.Ok? ==> h == Created(Location(r.value.id), r.value)
    ensures r.Fail? && r.errors[0].Conflict? ==> h == Problem(r.errors[0].message, ConflictStatus)
    ensures r.Fail? && r.errors[0].Validation? ==>
      h == ValidationProblem(ValidationDictionary.MapValidationErrorsToDictionary(ToUnit(r)))
    ensures r.Fail? && !r.errors[0].Conflict? && !r.errors[0].Validation? ==>
      h == Problem(r.errors[0].message, InternalServerError)
  {
    Respond(r, (v: CustomerDto) => Created(Location(v.id), v),
      Discard.(conflict := AsConflict, validation := AsValidationProblem))
  }

  /** PUT /{id}: not found, 409 problem, validation problem or problem. */
  function Update(r: Result<CustomerDto>): (h: HttpResult<CustomerDto>)
    ensures r.Ok? ==> h == Okay(r.value)
    ensures r.Fail? && r.errors[0].NotFound? ==> h == NotFoundStatus
    ensures r.Fail? && r.errors[0].Conflict? ==> h == Problem(r.errors[0].message, ConflictStatus)
    ensures r.Fail? && r.errors[0].Validation? ==>
      h == ValidationProblem(ValidationDictionary.MapValidationErrorsToDictionary(ToUnit(r)))
    ensures r.Fail? && (r.errors[0].AccessDenied? || r.errors[0].Other?) ==>
      h == Problem(r.errors[0].message, InternalServerError)
  {
    Respond(r, v => Okay(v),
      Table(AsNotFound, AsValidationProblem, AsConflict, AsProblem))
  }

  /** DELETE /{id}: no content, not found, or a problem. */
  function Delete(r: Result<()>): (h: HttpResult<()>)
    ensures r.Ok? ==> h == NoContent
    ensures r.Fail? && r.errors[0].NotFound? ==> h == NotFoundStatus
    ensures r.Fail? && !r.errors[0].NotFound? ==> h == Problem(r.errors[0].message, InternalServerError)
  {
    Respond(r, _ => NoContent, Discard.(notFound := AsNotFound))
  }

  /** End to end, reading a customer answers the stored DTO or 404. */
  lemma GetRoute(rows: map<int, Customer>, id: int)
    requires Svc.Stored(rows)
    ensures Get(Svc.Get(rows, id)) == if id in rows then Okay(MapToDto(rows[id])) else NotFoundStatus
  {
    Svc.GetStored(rows, id);
  }

  /** End to end, paging arguments the validator refuses answer 400 with a
      body naming exactly the offending parameters. */
  lemma ListRoute(rows: map<int, Customer>, skip: Option<int>, take: Option<int>)
    requires !Pagination.Acceptable(skip, take)
    ensures var h := List(Svc.List(rows, skip, take));
      && h.ValidationProblem?
      && ("skip" in h.errors <==> skip.Some? && skip.value < 0)
      && ("take" in h.errors <==> take.Some? && (take.value < 1 || take.value > Pagination.MaxPageSize))
      && (forall f :: f in h.errors ==> f == "skip" || f == "take")
  {
    var v := Pagination.Validate(skip, take);
    var r := Svc.List(rows, skip, take);
    assert ToUnit(r) == v;
    assert v.errors[0] in ErrorsOf(v);
    PagingFields(skip, take);
  }

  /** End to end, paging arguments the validator accepts answer 200 with
      the table size and the customers with the (skip + i)-th smallest ids. */
  lemma ListRouteAccepted(rows: map<int, Customer>, skip: Option<int>, take: Option<int>)
    requires Svc.Stored(rows) && Pagination.Acceptable(skip, take)
    ensures var h := List(Svc.List(rows, skip, take));
      var s := Pagination.Defaults(skip, take).0;
      var t := Pagination.Defaults(skip, take).1;
      && h.Okay?
      && h.value.totalCount == |rows|
      && |h.value.items| == Repository.WindowSize(|rows|, s, t)
      && Repository.ProjectsUp(h.value.items, rows, MapToDto, s)
  {
    Svc.ListPage(rows, skip, take);
  }

  /** The dictionary of the validator's errors names the offending
      parameters and nothing else. */
  lemma PagingFields(skip: Option<int>, take: Option<int>)
    requires !Pagination.Acceptable(skip, take)
    ensures var d := ValidationDictionary.MapValidationErrorsToDictionary(Pagination.Validate(skip, take));
      && ("skip" in d <==> skip.Some? && skip.value < 0)
      && ("take" in d <==> take.Some? && (take.value < 1 || take.value > Pagination.MaxPageSize))
      && (forall f :: f in d ==> f == "skip" || f == "take")
  {
    var v := Pagination.Validate(skip, take);
    FieldsOfPagingErrors(ErrorsOf(v), skip.Some? && skip.value < 0,
      take.Some? && (take.value < 1 || take.value > Pagination.MaxPageSize));
  }

  /** A list built from the three pagination errors names `skip` exactly
      when it holds the skip error, `take` exactly when it holds a take
      error, and no other field. */
  lemma FieldsOfPagingErrors(errs: seq<Error>, skipBad: bool, takeBad: bool)
    requires Pagination.SkipNegative in errs <==> skipBad
    requires Pagination.TakeTooSmall in errs || Pagination.TakeTooLarge in errs <==> takeBad
    requires forall e :: e in errs ==>
      e == Pagination.SkipNegative || e == Pagination.TakeTooSmall || e == Pagination.TakeTooLarge
    ensures ValidationDictionary.NamesField(errs, "skip") <==> skipBad
    ensures ValidationDictionary.NamesField(errs, "take") <==> takeBad
    ensures forall f :: ValidationDictionary.NamesField(errs, f) ==> f == "skip" || f == "take"
  {
    Pagination.ErrorFields();
    if skipBad {
      var i :| 0 <= i < |errs| && errs[i] == Pagination.SkipNegative;
    }
    if takeBad {
      var i :| 0 <= i < |errs| && (errs[i] == Pagination.TakeTooSmall || errs[i] == Pagination.TakeTooLarge);
    }
    forall f | ValidationDictionary.NamesField(errs, f) ensures f == "skip" || f == "take" {
      var i :| 0 <= i < |errs| && errs[i].Validation? && errs[i].field == f;
      assert errs[i] in errs;
    }
    if ValidationDictionary.NamesField(errs, "skip") {
      var i :| 0 <= i < |errs| && errs[i].Validation? && errs[i].field == "skip";
      assert errs[i] in errs;
    }
    if ValidationDictionary.NamesField(errs, "take") {
      var i :| 0 <= i < |errs| && errs[i].Validation? && errs[i].field == "take";
      assert errs[i] in errs;
    }
  }

  /** End to end, a create answers 201 at the location of the new id. */
  lemma CreateRoute(rows: map<int, Customer>, newId: int, dto: CreateUpdateCustomerDto)
    requires newId !in rows
    ensures var d := MapToDto(FromDto(newId, dto));
      Create(Svc.Create(rows, newId, dto).result) == Created(Location(newId), d)
  {
    FromDtoKey(newId, dto);
  }

  /** The DTO of a customer built under an id carries that id. */
  lemma FromDtoKey(id: int, dto: CreateUpdateCustomerDto)
    ensures MapToDto(FromDto(id, dto)).id == id
  {
  }

  /** End to end, an update answers the new DTO, or 404 for a missing id. */
  lemma UpdateRoute(rows: map<int, Customer>, id: int, dto: CreateUpdateCustomerDto)
    requires Svc.Stored(rows)
    ensures Svc.Update(rows, id, dto).Reply?
    ensures Update(Svc.Update(rows, id, dto).result) ==
      if id in rows then Okay(MapToDto(FromDto(id, dto))) else NotFoundStatus
  {
    if id in rows {
      Svc.UpdateStored(rows, id, dto);
    }
  }

  /** End to end, a delete answers 204, or 404 for a missing id. */
  lemma DeleteRoute(rows: map<int, Customer>, id: int)
    requires Svc.Stored(rows)
    ensures Svc.Delete(rows, id).Reply?
    ensures Delete(Svc.Delete(rows, id).result) == if id in rows then NoContent else NotFoundStatus
  {
    if id in rows {
      Svc.DeleteStored(rows, id);
    }
  }
}
