/** MyCustomers.Application/Customers/CustomerAppService.cs: the customer use
    cases. Each request works on a fresh context over the stored table and a
    unit of work with no transaction; the guid generator is a parameter
    (`newId`). A write answers the result, the table afterwards and how many
    times it called `SaveChangesAsync`; a save the database rejects is the
    exception that ends the request. */
module CustomerAppService {
  import opened Wrappers
  import opened Seqs
  import opened Results
  import opened DbContext
  import opened Customers
  import Pagination
  import AppResults
  import Repository
  import QueryService
  import UnitOfWork

  /** The save count of a path that never reaches `SaveChangesAsync`. */
  const NoSave: nat := 0

  /** `PageDto<T>`: the size of the whole table and one page of it. */
  datatype PageDto<T> = PageDto(totalCount: nat, items: seq<T>)

  /** The outcome of a write use case. */
  datatype Reply<T> =
    | Reply(result: Result<T>, rows: map<int, Customer>, saves: nat)
    | Threw

  /** The stored table keeps every customer under its own id. */
  ghost predicate Stored(rows: map<int, Customer>) {
    Valid(Fresh(rows), Key)
  }

  /** `Result.Fail(new ResourceNotFoundError(...))` for a customer id. */
  function NotFoundResult<T>(id: int): (r: Result<T>)
    ensures r.Fail? && r.errors == [NotFound(NotFoundMessage(id))]
  {
    Fail([NotFound(NotFoundMessage(id))])
  }

  /** `GetAsync(id)`: the stored customer's DTO, or a single not-found error. */
  function Get(rows: map<int, Customer>, id: int): (r: Result<CustomerDto>)
    ensures r.Fail? ==> r.errors == [NotFound(NotFoundMessage(id))]
    ensures r.Ok? ==> exists k :: k in rows && rows[k].id == id && r.value == MapToDto(rows[k])
  {
    match QueryService.GetById(Fresh(rows), Key, MapToDto, Some(id))
    case None => NotFoundResult(id)
    case Some(dto) => Ok(dto)
  }

  /** On a stored table, `Get` answers exactly the customer stored under the id. */
  lemma GetStored(rows: map<int, Customer>, id: int)
    requires Stored(rows)
    ensures Get(rows, id) == if id in rows then Ok(MapToDto(rows[id])) else NotFoundResult(id)
  {
    QueryService.GetByIdStored(Fresh(rows), Key, MapToDto, Some(id));
  }

  /** `ListAsync(skip, take)`: the validator's errors as they are, or the
      table size and the page at (skip ?? 0, take ?? 50) in id order. */
  function List(rows: map<int, Customer>, skip: Option<int>, take: Option<int>): (r: Result<PageDto<CustomerDto>>)
    ensures !Pagination.Acceptable(skip, take) ==> r.Fail? && r.errors == Pagination.Validate(skip, take).errors
    ensures Pagination.Acceptable(skip, take) ==> r.Ok? && r.value.totalCount == |rows|
    ensures Pagination.Acceptable(skip, take) ==>
      r.value.items == QueryService.GetPage(Fresh(rows), Key, MapToDto,
        Pagination.Defaults(skip, take).0, Pagination.Defaults(skip, take).1, None, false)
  {
    var paginationResult := Pagination.Validate(skip, take);
    if paginationResult.Fail? then Propagate(paginationResult)
    else
      var (s, t) := Pagination.Defaults(skip, take);
      var totalCount := QueryService.Count(Fresh(rows));
      var customerDtos := QueryService.GetPage(Fresh(rows), Key, MapToDto, s, t, None, false);
      Ok(PageDto(totalCount, customerDtos))
  }

  /** The listed page holds the customers with the (skip + i)-th smallest
      ids, at most `take` of them (50 when omitted). */
  lemma ListPage(rows: map<int, Customer>, skip: Option<int>, take: Option<int>)
    requires Stored(rows) && Pagination.Acceptable(skip, take)
    ensures var s := Pagination.Defaults(skip, take).0;
      var t := Pagination.Defaults(skip, take).1;
      var items := List(rows, skip, take).value.items;
      && |items| == (if |rows| <= s then 0 else if |rows| - s < t then |rows| - s else t)
      && Repository.ProjectsUp(items, rows, MapToDto, s)
  {
    var s := Pagination.Defaults(skip, take).0;
    var t := Pagination.Defaults(skip, take).1;
    var items := List(rows, skip, take).value.items;
    assert items == QueryService.GetPage(Fresh(rows), Key, MapToDto, s, t, None, false);
    PageByKey(rows, s, t);
  }

  /** The id-ordered page of customer DTOs at (s, t). */
  lemma PageByKey(rows: map<int, Customer>, s: nat, t: nat)
    requires Stored(rows)
    ensures var items := QueryService.GetPage(Fresh(rows), Key, MapToDto, s, t, None, false);
      && |items| == (if |rows| <= s then 0 else if |rows| - s < t then |rows| - s else t)
      && Repository.ProjectsUp(items, rows, MapToDto, s)
  {
    var items := QueryService.GetPage(Fresh(rows), Key, MapToDto, s, t, None, false);
    var page := Repository.GetPage(Fresh(rows), Key, s, t, None, false);
    assert |items| == |page|;
    QueryService.GetPageByKey(Fresh(rows), Key, MapToDto, s, t);
  }

  /** `CreateAsync(dto)`: create the customer under the generated id, stage
      it, save once and answer its DTO. A generated id that is already
      stored makes the database refuse the insert. */
  function Create(rows: map<int, Customer>, newId: int, dto: CreateUpdateCustomerDto): (r: Reply<CustomerDto>)
    ensures newId in rows ==> r.Threw?
    ensures newId !in rows ==> r.Reply? && r.saves == 1
    ensures newId !in rows ==> r.result == Ok(MapToDto(FromDto(newId, dto)))
    ensures newId !in rows ==> r.rows == rows[newId := FromDto(newId, dto)]
  {
    var customerResult := Customers.Create(newId, dto.name, dto.email, dto.number, dto.notes,
                                           dto.createdDate, dto.modifiedDate);
    match AppResults.MapErrorsToAppServiceResult(ToUnit(customerResult))
    case Fail(errs) => Reply(Fail(errs), rows, NoSave)
    case Ok(_) =>
      var customer := customerResult.value;
      var uow := UnitOfWork.New(Fresh(rows));
      match Repository.Add(uow.ctx, Key, customer)
      case None => Threw
      case Some(staged) =>
        assert staged == Context(rows, map[newId := Entry(customer, Added)]);
        SaveInsert(rows, newId, customer);
        var (saved, o) := UnitOfWork.SaveChanges(uow.(ctx := staged));
        if o.Rejected? then Threw
        else Reply(Ok(MapToDto(customer)), saved.ctx.rows, 1)
  }

  /** Creating under a fresh id keeps the table stored by id, grows it by
      one, and answers the new customer's DTO: the write DTO's fields under
      the generated id. */
  lemma CreateStored(rows: map<int, Customer>, newId: int, dto: CreateUpdateCustomerDto)
    requires Stored(rows) && newId !in rows
    ensures Stored(Create(rows, newId, dto).rows)
    ensures |Create(rows, newId, dto).rows| == |rows| + 1
    ensures var d := Create(rows, newId, dto).result.value;
      d.id == newId && CreateUpdateCustomerDto(d.name, d.email, d.number, d.notes, d.createdDate, d.modifiedDate) == dto
  {
    FromDtoRoundTrip(newId, dto);
  }

  /** `UpdateAsync(id, dto)`: load and track the customer, run the six
      setters on the tracked instance, merge their results, stage the
      update (a no-op: the instance is tracked) and save once. */
  function Update(rows: map<int, Customer>, id: int, dto: CreateUpdateCustomerDto): (r: Reply<CustomerDto>)
    ensures id !in rows ==> r == Reply(NotFoundResult(id), rows, 0)
    ensures r.Reply? ==> r.saves <= 1
    ensures r.Reply? && r.result.Fail? ==> r.rows == rows && r.saves == 0
  {
    var uow := UnitOfWork.New(Fresh(rows));
    var (loaded, found) := Repository.GetById(uow.ctx, Some(id));
    match found
    case None => Reply(NotFoundResult(id), rows, 0)
    case Some(customer) =>
      var (updated, results) := ApplyDto(customer, dto);
      match AppResults.MapErrorsToAppServiceResult(Merge(results))
      case Fail(errs) => Reply(Fail(errs), rows, NoSave)
      case Ok(_) =>
        var staged := Repository.Update(DetectChanges(loaded, Key, updated), Key, updated);
        var (saved, o) := UnitOfWork.SaveChanges(uow.(ctx := staged));
        if o.Rejected? then Threw
        else Reply(Ok(MapToDto(updated)), saved.ctx.rows, 1)
  }

  /** On a stored table, updating a stored customer replaces its six fields
      with the DTO's, keeps its id, leaves every other customer alone and
      saves once; the save is never refused. */
  lemma UpdateStored(rows: map<int, Customer>, id: int, dto: CreateUpdateCustomerDto)
    requires Stored(rows) && id in rows
    ensures Update(rows, id, dto) == Reply(Ok(MapToDto(FromDto(id, dto))), rows[id := FromDto(id, dto)], 1)
  {
    var loaded := Repository.Attach(Fresh(rows), {id});
    assert Repository.GetById(Fresh(rows), Some(id)) == (loaded, Some(rows[id]));
    var customer := rows[id];
    assert Key(customer) == id;
    var updated := ApplyDto(customer, dto).0;
    assert updated == FromDto(id, dto);
    var changed := DetectChanges(loaded, Key, updated);
    assert changed.tracked.Keys == {id};
    var staged := Repository.Update(changed, Key, updated);
    assert staged == changed;
    assert !Conflicts(staged, id);
    UpdateSavedRows(rows, id, staged, updated);
  }

  /** Saving a context whose only entry is the customer under `id`, unchanged
      or modified, stores that customer under `id`. */
  lemma UpdateSavedRows(rows: map<int, Customer>, id: int, staged: Context<Customer>, updated: Customer)
    requires id in rows && staged.rows == rows && staged.tracked.Keys == {id}
    requires staged.tracked[id].entity == updated
    requires staged.tracked[id].state == Modified || (staged.tracked[id].state == Unchanged && updated == rows[id])
    ensures SaveChanges(staged).Saved?
    ensures SaveChanges(staged).ctx.rows == rows[id := updated]
  {
    assert forall k :: k in staged.tracked ==> !Conflicts(staged, k);
    var o := SaveChanges(staged);
    assert o.ctx.rows.Keys == rows.Keys;
  }

  /** `DeleteAsync(id)`: load and track the customer, stage its delete, save
      once. */
  function Delete(rows: map<int, Customer>, id: int): (r: Reply<()>)
    ensures id !in rows ==> r == Reply(NotFoundResult(id), rows, 0)
    ensures r.Reply? ==> r.saves <= 1
    ensures r.Reply? && r.result.Fail? ==> r.rows == rows && r.saves == 0
  {
    var uow := UnitOfWork.New(Fresh(rows));
    var (loaded, found) := Repository.GetById(uow.ctx, Some(id));
    match found
    case None => Reply(NotFoundResult(id), rows, 0)
    case Some(customer) =>
      var staged := Repository.Delete(loaded, Key, customer);
      var (saved, o) := UnitOfWork.SaveChanges(uow.(ctx := staged));
      if o.Rejected? then Threw
      else Reply(Ok(()), saved.ctx.rows, 1)
  }

  /** On a stored table, deleting a stored customer removes exactly that
      customer and saves once; the save is never refused. */
  lemma DeleteStored(rows: map<int, Customer>, id: int)
    requires Stored(rows) && id in rows
    ensures Delete(rows, id) == Reply(Ok(()), rows - {id}, 1)
  {
    var loaded := Repository.Attach(Fresh(rows), {id});
    assert Repository.GetById(Fresh(rows), Some(id)) == (loaded, Some(rows[id]));
    assert Key(rows[id]) == id;
    var staged := Repository.Delete(loaded, Key, rows[id]);
    assert staged == Context(rows, map[id := Entry(rows[id], Deleted)]);
    SaveDelete(rows, id, rows[id]);
  }

  /** Every write keeps the table stored by id. */
  lemma WritesKeepStored(rows: map<int, Customer>, id: int, newId: int, dto: CreateUpdateCustomerDto)
    requires Stored(rows)
    ensures newId !in rows ==> Stored(Create(rows, newId, dto).rows)
    ensures Update(rows, id, dto).Reply? && Stored(Update(rows, id, dto).rows)
    ensures Delete(rows, id).Reply? && Stored(Delete(rows, id).rows)
  {
    if newId !in rows { CreateStored(rows, newId, dto); }
    if id in rows {
      UpdateStored(rows, id, dto);
      StoredPut(rows, FromDto(id, dto));
      DeleteStored(rows, id);
      StoredRemove(rows, id);
    }
  }

  /** Storing a customer under its own id keeps the table stored by id. */
  lemma StoredPut(rows: map<int, Customer>, c: Customer)
    requires Stored(rows)
    ensures Stored(rows[Key(c) := c])
  {
  }

  /** Removing an id keeps the table stored by id. */
  lemma StoredRemove(rows: map<int, Customer>, id: int)
    requires Stored(rows)
    ensures Stored(rows - {id})
  {
  }
}
