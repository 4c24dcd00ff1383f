/** MyCustomers.WebApi/Users/UserEndpoints.cs: the user routes under
    /api/users. Every route of the group requires an authenticated caller,
    so a request without one never reaches these handlers. */
module UserEndpoints {
  import opened Wrappers
  import opened Results
  import opened HttpResults
  import Pagination
  import opened UserAccountService

  /** The route prefix of the group. */
  const Route := "/api/users"

  /** The location of a created user: `$"/api/users/{result.Value.Id}"`. */
  function Location(id: string): (l: string)
    ensures |l| == |Route| + 1 + |id| && l[..|Route| + 1] == Route + "/" && l[|Route| + 1..] == id
  {
    Route + "/" + id
  }

  /** GET /me as written: a first not-found error gives 401, anything else a
      problem with its message. */
  function GetCurrentUser(r: Result<UserDto>): (h: HttpResult<UserDto>)
    ensures r.Ok? ==> h == Okay(r.value)
    ensures r.Fail? && r.errors[0].NotFound? ==> h == Unauthorized
    ensures r.Fail? && !r.errors[0].NotFound? ==> h == Problem(r.errors[0].message, InternalServerError)
  {
    Respond(r, v => Okay(v), Discard.(notFound := AsUnauthorized))
  }

  /** The service reports a missing or unknown caller as access denied,
      never as not found, so the 401 arm above cannot be taken: an
      authenticated caller whose account no longer exists gets a 500 problem
      saying "User not found.". */
  lemma GetCurrentUserNeverUnauthorized(store: Store, caller: Caller)
    ensures GetCurrentUser(UserAccountService.GetCurrentUser(store, caller)) != Unauthorized
    ensures caller.isAuthenticated && caller.userId.Some? && caller.userId.value !in store.users ==>
      GetCurrentUser(UserAccountService.GetCurrentUser(store, caller)) == Problem(UserNotFound, InternalServerError)
  {
  }

  /** GET /me with the arm the 401 result type evidently intends: the
      access-denied error the service reports for a missing caller. */
  function GetCurrentUserIntended(r: Result<UserDto>): (h: HttpResult<UserDto>)
    ensures r.Ok? ==> h == Okay(r.value)
    ensures r.Fail? && r.errors[0].AccessDenied? ==> h == Unauthorized
    ensures r.Fail? && !r.errors[0].AccessDenied? ==> h == Problem(r.errors[0].message, InternalServerError)
  {
    Respond(r, v => Okay(v), Discard.(accessDenied := AsUnauthorized))
  }

  /** With the intended arm, /me answers 401 exactly when the caller is not
      an authenticated, known user, and the caller's DTO otherwise. */
  lemma GetCurrentUserIntendedRoute(store: Store, caller: Caller)
    ensures var h := GetCurrentUserIntended(UserAccountService.GetCurrentUser(store, caller));
      && (h == Unauthorized <==> CurrentIdentityUser(store, caller).Fail?)
      && (h != Unauthorized ==> h == Okay(Describe(store, caller.userId.value)))
  {
  }

  /** GET /: access denied gives 403, anything else a problem. */
  function List(r: Result<UserAccountService.PageDto>): (h: HttpResult<UserAccountService.PageDto>)
    ensures r.Ok? ==> h == Okay(r.value)
    ensures r.Fail? && r.errors[0].AccessDenied? ==> h == Forbid
    ensures r.Fail? && !r.errors[0].AccessDenied? ==> h == Problem(r.errors[0].message, InternalServerError)
  {
    Respond(r, v => Okay(v), Discard.(accessDenied := AsForbid))
  }

  /** POST /: created at the new user's location, 403, or a problem. */
  function Create(r: Result<UserDto>): (h: HttpResult<UserDto>)
    ensures r.Ok? ==> h == Created(Location(r.value.id), r.value)
    ensures r.Fail? && r.errors[0].AccessDenied? ==> h == Forbid
    ensures r.Fail? && !r.errors[0].AccessDenied? ==> h == Problem(r.errors[0].message, InternalServerError)
  {
    Respond(r, (v: UserDto) => Created(Location(v.id), v), Discard.(accessDenied := AsForbid))
  }

  /** GET /{id}: 404, 403, or a problem. */
  function GetById(r: Result<UserDto>): (h: HttpResult<UserDto>)
    ensures r.Ok? ==> h == Okay(r.value)
    ensures r.Fail? && r.errors[0].NotFound? ==> h == NotFoundStatus
    ensures r.Fail? && r.errors[0].AccessDenied? ==> h == Forbid
    ensures r.Fail? && !r.errors[0].NotFound? && !r.errors[0].AccessDenied? ==>
      h == Problem(r.errors[0].message, InternalServerError)
  {
    Respond(r, v => Okay(v), Discard.(notFound := AsNotFound, accessDenied := AsForbid))
  }

  /** PUT /{id}: the same mapping as GET /{id}. The self-demotion conflict
      and validation errors of the update therefore reach the client as a
      plain 500 problem, not as 409 or 400. */
  function Update(r: Result<UserDto>): (h: HttpResult<UserDto>)
    ensures r.Ok? ==> h == Okay(r.value)
    ensures r.Fail? && r.errors[0].NotFound? ==> h == NotFoundStatus
    ensures r.Fail? && r.errors[0].AccessDenied? ==> h == Forbid
    ensures r.Fail? && (r.errors[0].Conflict? || r.errors[0].Validation? || r.errors[0].Other?) ==>
      h == Problem(r.errors[0].message, InternalServerError)
  {
    GetById(r)
  }

  /** DELETE /{id}: 204, a 409 problem, 404, 403, or a problem. */
  function Delete(r: Result<()>): (h: HttpResult<()>)
    ensures r.Ok? ==> h == NoContent
    ensures r.Fail? && r.errors[0].Conflict? ==> h == Problem(r.errors[0].message, ConflictStatus)
    ensures r.Fail? && r.errors[0].NotFound? ==> h == NotFoundStatus
    ensures r.Fail? && r.errors[0].AccessDenied? ==> h == Forbid
    ensures r.Fail? && (r.errors[0].Validation? || r.errors[0].Other?) ==>
      h == Problem(r.errors[0].message, InternalServerError)
  {
    Respond(r, _ => NoContent, Table(AsNotFound, AsProblem, AsConflict, AsForbid))
  }

  /** End to end, a caller who is not an admin gets 403 from every admin
      route (once the paging arguments of the listing are acceptable). */
  lemma NonAdminForbidden(store: Store, caller: Caller, id: string, newId: string,
                          skip: Option<int>, take: Option<int>, listing: seq<string>,
                          cdto: CreateUserDto, udto: UpdateUserDto,
                          identity: IdentityCall -> IdentityResult)
    requires !IsAdminCaller(store, caller)
    requires Enumerates(listing, store.users) && Pagination.Acceptable(skip, take)
    ensures List(ListUsers(store, caller, skip, take, listing)) == Forbid
    ensures Create(CreateUser(store, caller, newId, cdto, identity).result) == Forbid
    ensures GetById(GetUserById(store, caller, id)) == Forbid
    ensures Update(UpdateUser(store, caller, id, udto, identity).result) == Forbid
    ensures Delete(DeleteUser(store, caller, id, identity).result) == Forbid
  {
  }

  /** End to end, an admin deleting their own account gets a 409 problem
      and the store is left as it was. */
  lemma SelfDeleteRoute(store: Store, caller: Caller, identity: IdentityCall -> IdentityResult)
    requires IsAdminCaller(store, caller)
    ensures var r := DeleteUser(store, caller, caller.userId.value, identity);
      && Delete(r.result) == Problem(CannotDeleteSelf, ConflictStatus)
      && r.store == store
  {
  }

  /** End to end, an admin creating a user gets 201 at the new id. */
  lemma CreateRoute(store: Store, caller: Caller, newId: string, dto: CreateUserDto,
                    identity: IdentityCall -> IdentityResult)
    requires IsAdminCaller(store, caller) && newId !in store.users
    requires identity(CreateCall).Succeeded? && (dto.isAdmin ==> identity(AddToRoleCall).Succeeded?)
    ensures var r := CreateUser(store, caller, newId, dto, identity);
      r.Reply? && Create(r.result).Created? && Create(r.result).location == Location(newId)
  {
  }
}
