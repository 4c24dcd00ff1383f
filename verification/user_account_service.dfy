/** MyCustomers.Infrastructure/Users/UserAccountService.cs: user management
    over the ASP.NET Identity store. The store is the user accounts by id and
    the set of ids in the "Admin" role; every Identity call that can fail is
    answered by the `identity` parameter, and a failure carries the
    descriptions Identity reports. The caller (`ICurrentUserService`) is an
    input. Identity writes each change as it happens, so a call that fails
    half-way keeps what it already wrote. */
module UserAccountService {
  import opened Wrappers
  import opened Seqs
  import opened Results
  import Text
  import Pagination

  /** An Identity user: e-mail, user name and password, each optional. */
  datatype Account = Account(email: Option<string>, userName: Option<string>, password: Option<string>)

  /** The users by id and the members of the "Admin" role. */
  datatype Store = Store(users: map<string, Account>, admins: set<string>)

  /** The authenticated principal, as `ICurrentUserService` reports it. */
  datatype Caller = Caller(isAuthenticated: bool, userId: Option<string>)

  /** `UserDto`. */
  datatype UserDto = UserDto(id: string, email: Option<string>, isAdmin: bool)

  /** `CreateUserDto`. */
  datatype CreateUserDto = CreateUserDto(email: string, password: string, isAdmin: bool)

  /** `UpdateUserDto`: absent or blank fields are left alone. */
  datatype UpdateUserDto = UpdateUserDto(newEmail: Option<string>, newPassword: Option<string>, isAdmin: Option<bool>)

  /** The Identity calls that can fail. */
  datatype IdentityCall =
    | CreateCall | DeleteCall | AddToRoleCall | RemoveFromRoleCall
    | SetEmailCall | SetUserNameCall | RemovePasswordCall | AddPasswordCall

  type Descriptions = s: seq<string> | |s| > 0 witness [""]

  /** `IdentityResult`: success, or failure with its error descriptions. */
  datatype IdentityResult = Succeeded | Failed(descriptions: Descriptions)

  /** The reply of a use case: the result and the store afterwards. Only a
      user insert under an id that is already taken makes the store throw. */
  datatype Reply<T> = Reply(result: Result<T>, store: Store) | Threw

  const NotAuthenticated := "User is not authenticated."
  const UserNotFound := "User not found."
  const NotAnAdmin := "User is not an admin."
  const CannotRemoveOwnAdmin := "Users cannot remove their own admin role."
  const CannotDeleteSelf := "Users cannot delete their own account."
  const CannotDeleteLastAdmin := "Cannot delete the last admin user."

  /** `Result.Fail(errors.Select(e => new Error(e.Description)))`. */
  function IdentityErrors(d: Descriptions): (errs: Errors)
    ensures |errs| == |d|
    ensures forall i :: 0 <= i < |d| ==> errs[i] == Other(d[i])
  {
    Map(desc => Other(desc), d)
  }

  /** The store invariant Identity keeps: role members are users. */
  ghost predicate Consistent(store: Store) {
    store.admins <= store.users.Keys
  }

  /** The caller is a known user in the "Admin" role. */
  ghost predicate IsAdminCaller(store: Store, caller: Caller) {
    caller.isAuthenticated && caller.userId.Some?
    && caller.userId.value in store.users && caller.userId.value in store.admins
  }

  /** A single access-denied error. */
  ghost predicate Denied<T>(r: Result<T>) {
    r.Fail? && |r.errors| == 1 && r.errors[0].AccessDenied?
  }

  /** `GetCurrentIdentityUserAsync`: the caller's id when the caller is
      authenticated and known; access denied otherwise. */
  function CurrentIdentityUser(store: Store, caller: Caller): (r: Result<string>)
    ensures r.Ok? <==> caller.isAuthenticated && caller.userId.Some? && caller.userId.value in store.users
    ensures r.Ok? ==> r.value == caller.userId.value
    ensures r.Fail? ==> Denied(r)
  {
    if !caller.isAuthenticated || caller.userId.None? then Fail([AccessDenied(NotAuthenticated)])
    else if caller.userId.value !in store.users then Fail([AccessDenied(UserNotFound)])
    else Ok(caller.userId.value)
  }

  /** `CurrentUserIsAdminAsync`: the admin gate. */
  function CurrentUserIsAdmin(store: Store, caller: Caller): (r: Result<()>)
    ensures r.Ok? <==> IsAdminCaller(store, caller)
    ensures r.Fail? ==> Denied(r)
  {
    match CurrentIdentityUser(store, caller)
    case Fail(errs) => Fail(errs)
    case Ok(id) => if id in store.admins then Ok(()) else Fail([AccessDenied(NotAnAdmin)])
  }

  /** `MapToDto(user) with { IsAdmin = IsInRoleAsync(user, "Admin") }`. */
  function Describe(store: Store, id: string): (d: UserDto)
    requires id in store.users
    ensures d.id == id && d.email == store.users[id].email
    ensures d.isAdmin <==> id in store.admins
  {
    UserDto(id, store.users[id].email, id in store.admins)
  }

  /** `GetCurrentUserAsync`: the caller's own DTO. */
  function GetCurrentUser(store: Store, caller: Caller): (r: Result<UserDto>)
    ensures r.Ok? <==> CurrentIdentityUser(store, caller).Ok?
    ensures r.Ok? ==> r.value == Describe(store, caller.userId.value)
    ensures r.Fail? ==> Denied(r)
  {
    match CurrentIdentityUser(store, caller)
    case Fail(errs) => Fail(errs)
    case Ok(id) => Ok(Describe(store, id))
  }

  /** `PageDto<UserDto>`. */
  datatype PageDto = PageDto(totalCount: nat, items: seq<UserDto>)

  /** `listing` is an order the user table may be read in: every user once. */
  ghost predicate Enumerates(listing: seq<string>, users: map<string, Account>) {
    && (forall i :: 0 <= i < |listing| ==> listing[i] in users)
    && (forall k :: k in users ==> k in listing)
    && (forall i, j :: 0 <= i < j < |listing| ==> listing[i] != listing[j])
  }

  /** `ListUsersAsync(skip, take)`: the paging arguments are validated first,
      then the caller must be an admin. The users query has no ordering, so
      the order the table is read in is the input `listing`. */
  function ListUsers(store: Store, caller: Caller, skip: Option<int>, take: Option<int>,
                     listing: seq<string>): (r: Result<PageDto>)
    requires Enumerates(listing, store.users)
    ensures !Pagination.Acceptable(skip, take) ==> r.Fail? && r.errors == Pagination.Validate(skip, take).errors
    ensures Pagination.Acceptable(skip, take) && !IsAdminCaller(store, caller) ==> Denied(r)
    ensures Pagination.Acceptable(skip, take) && IsAdminCaller(store, caller) ==>
      && r.Ok?
      && r.value.totalCount == |store.users|
      && |r.value.items| == |Page(listing, Pagination.Defaults(skip, take).0, Pagination.Defaults(skip, take).1)|
      && forall i :: 0 <= i < |r.value.items| ==>
           var id := listing[Pagination.Defaults(skip, take).0 + i];
           id in store.users && r.value.items[i] == Describe(store, id)
  {
    var paginationResult := Pagination.Validate(skip, take);
    if paginationResult.Fail? then Propagate(paginationResult)
    else
      var (s, t) := Pagination.Defaults(skip, take);
      var isAdminResult := CurrentUserIsAdmin(store, caller);
      if isAdminResult.Fail? then Propagate(isAdminResult)
      else
        var usersPage := Page(listing, s, t);
        assert |listing| == |store.users| by { EnumerationSize(listing, store.users); }
        var items := seq(|usersPage|, i requires 0 <= i < |usersPage| => Describe(store, usersPage[i]));
        Ok(PageDto(|listing|, items))
  }

  /** An enumeration has one entry per user. */
  lemma EnumerationSize(listing: seq<string>, users: map<string, Account>)
    requires Enumerates(listing, users)
    ensures |listing| == |users|
  {
    var ids := set i | 0 <= i < |listing| :: listing[i];
    assert ids == users.Keys;
    DistinctSize(listing);
  }

  /** A sequence without repetitions has as many elements as its set. */
  lemma {:induction false} DistinctSize<T>(s: seq<T>)
    requires forall i, j :: 0 <= i < j < |s| ==> s[i] != s[j]
    ensures |set i | 0 <= i < |s| :: s[i]| == |s|
  {
    if |s| > 0 {
      var t := s[..|s| - 1];
      DistinctSize(t);
      var a := set i | 0 <= i < |t| :: t[i];
      var b := set i | 0 <= i < |s| :: s[i];
      assert b == a + {s[|s| - 1]} by {
        forall x | x in b ensures x in a + {s[|s| - 1]} {
          var i :| 0 <= i < |s| && s[i] == x;
          if i < |s| - 1 { assert t[i] == x; }
        }
        forall x | x in a ensures x in b {
          var i :| 0 <= i < |t| && t[i] == x;
          assert s[i] == x;
        }
      }
      assert s[|s| - 1] !in a by {
        forall x | x in a ensures x != s[|s| - 1] {
          var i :| 0 <= i < |t| && t[i] == x;
          assert s[i] == x;
        }
      }
    }
  }

  /** `CreateUserAsync(dto)`: an admin creates a user named by its e-mail;
      with `isAdmin`, the user is added to the role, and if that fails the
      new user is deleted again. */
  function CreateUser(store: Store, caller: Caller, newId: string, dto: CreateUserDto,
                      identity: IdentityCall -> IdentityResult): (r: Reply<UserDto>)
    ensures !IsAdminCaller(store, caller) ==> r.Reply? && Denied(r.result) && r.store == store
    ensures IsAdminCaller(store, caller) && newId in store.users ==> r.Threw?
    ensures r.Reply? && r.result.Ok? ==>
      && r.result.value == UserDto(newId, Some(dto.email), newId in r.store.admins)
      && (Consistent(store) ==> r.result.value.isAdmin == dto.isAdmin)
      && r.store.users == store.users[newId := Account(Some(dto.email), Some(dto.email), Some(dto.password))]
      && r.store.admins == (if dto.isAdmin then store.admins + {newId} else store.admins)
    ensures r.Reply? && r.result.Fail? ==> r.store.admins == store.admins
  {
    var isAdminResult := CurrentUserIsAdmin(store, caller);
    if isAdminResult.Fail? then Reply(Propagate(isAdminResult), store)
    else if newId in store.users then Threw
    else match identity(CreateCall)
      case Failed(d) => Reply(Fail(IdentityErrors(d)), store)
      case Succeeded =>
        var created := store.(users := store.users[newId := Account(Some(dto.email), Some(dto.email), Some(dto.password))]);
        if !dto.isAdmin then Reply(Ok(Describe(created, newId)), created)
        else match identity(AddToRoleCall)
          case Failed(d) =>
            var cleaned := if identity(DeleteCall).Succeeded? then store else created;
            Reply(Fail(IdentityErrors(d)), cleaned)
          case Succeeded =>
            var promoted := created.(admins := created.admins + {newId});
            Reply(Ok(Describe(promoted, newId)), promoted)
  }

  /** When adding the new user to the role fails, the compensating delete
      leaves the users exactly as they were before the call, provided that
      delete itself succeeds; otherwise the user stays without the role. */
  lemma CreateUserCompensates(store: Store, caller: Caller, newId: string, dto: CreateUserDto,
                              identity: IdentityCall -> IdentityResult)
    requires Consistent(store)
    requires IsAdminCaller(store, caller) && newId !in store.users && dto.isAdmin
    requires identity(CreateCall).Succeeded? && identity(AddToRoleCall).Failed?
    ensures var r := CreateUser(store, caller, newId, dto, identity);
      && r.Reply? && r.result == Fail(IdentityErrors(identity(AddToRoleCall).descriptions))
      && (identity(DeleteCall).Succeeded? ==> r.store == store)
      && (identity(DeleteCall).Failed? ==> newId in r.store.users && newId !in r.store.admins)
  {
  }

  /** `GetUserByIdAsync(id)`. */
  function GetUserById(store: Store, caller: Caller, id: string): (r: Result<UserDto>)
    ensures !IsAdminCaller(store, caller) ==> Denied(r)
    ensures IsAdminCaller(store, caller) && id !in store.users ==> r == Fail([NotFound(UserNotFound)])
    ensures IsAdminCaller(store, caller) && id in store.users ==> r == Ok(Describe(store, id))
  {
    var isAdminResult := CurrentUserIsAdmin(store, caller);
    if isAdminResult.Fail? then Propagate(isAdminResult)
    else if id !in store.users then Fail([NotFound(UserNotFound)])
    else Ok(Describe(store, id))
  }

  /** A step of the update that may stop it: the store afterwards and the
      errors it stopped with, if it did. */
  datatype Step = Step(store: Store, stop: Option<Errors>)

  /** Only user `id`'s account changed, and the roles did not. */
  ghost predicate TouchesOnlyAccount(before: Store, after: Store, id: string) {
    && after.admins == before.admins
    && after.users.Keys == before.users.Keys
    && forall k :: k in before.users && k != id ==> after.users[k] == before.users[k]
  }

  /** The e-mail part of `UpdateUserAsync`: a non-blank new e-mail is set as
      e-mail, then as user name; each write stays when a later one fails. */
  function EmailStep(store: Store, id: string, newEmail: Option<string>,
                     identity: IdentityCall -> IdentityResult): (s: Step)
    requires id in store.users
    ensures TouchesOnlyAccount(store, s.store, id)
    ensures s.store.users[id].password == store.users[id].password
    ensures Text.IsNullOrWhiteSpace(newEmail) ==> s == Step(store, None)
    ensures s.stop.None? && !Text.IsNullOrWhiteSpace(newEmail) ==>
      s.store.users[id].email == newEmail && s.store.users[id].userName == newEmail
  {
    if Text.IsNullOrWhiteSpace(newEmail) then Step(store, None)
    else match identity(SetEmailCall)
      case Failed(d) => Step(store, Some(IdentityErrors(d)))
      case Succeeded =>
        var account := store.users[id];
        var withEmail := store.(users := store.users[id := account.(email := newEmail)]);
        match identity(SetUserNameCall)
        case Failed(d) => Step(withEmail, Some(IdentityErrors(d)))
        case Succeeded =>
          Step(withEmail.(users := withEmail.users[id := account.(email := newEmail, userName := newEmail)]), None)
  }

  /** The password part: a non-blank new password replaces the old one
      (removed first when there is one). If adding it fails after the old
      one was removed, the user is left without a password. */
  function PasswordStep(store: Store, id: string, newPassword: Option<string>,
                        identity: IdentityCall -> IdentityResult): (s: Step)
    requires id in store.users
    ensures TouchesOnlyAccount(store, s.store, id)
    ensures s.store.users[id].email == store.users[id].email
    ensures Text.IsNullOrWhiteSpace(newPassword) ==> s == Step(store, None)
    ensures s.stop.None? && !Text.IsNullOrWhiteSpace(newPassword) ==> s.store.users[id].password == newPassword
  {
    if Text.IsNullOrWhiteSpace(newPassword) then Step(store, None)
    else
      var account := store.users[id];
      var removed :=
        if account.password.None? then Step(store, None)
        else match identity(RemovePasswordCall)
          case Failed(d) => Step(store, Some(IdentityErrors(d)))
          case Succeeded => Step(store.(users := store.users[id := account.(password := None)]), None);
      if removed.stop.Some? then removed
      else match identity(AddPasswordCall)
        case Failed(d) => Step(removed.store, Some(IdentityErrors(d)))
        case Succeeded => Step(store.(users := store.users[id := account.(password := newPassword)]), None)
  }

  /** The role part: the role changes only when the requested value differs
      from the current one; nobody may take away their own admin role. */
  function RoleStep(store: Store, caller: Caller, id: string, isAdmin: Option<bool>,
                    identity: IdentityCall -> IdentityResult): (s: Step)
    requires id in store.users
    ensures s.store.users == store.users
    ensures s.store.admins - {id} == store.admins - {id}
    ensures isAdmin.None? || isAdmin.value == (id in store.admins) ==> s == Step(store, None)
    ensures s.stop.Some? ==> s.store == store
    ensures s.stop.None? && isAdmin.Some? ==> (id in s.store.admins <==> isAdmin.value)
    ensures isAdmin == Some(false) && id in store.admins && caller.isAuthenticated && caller.userId == Some(id) ==>
      s == Step(store, Some([Conflict(CannotRemoveOwnAdmin)]))
  {
    if isAdmin.None? then Step(store, None)
    else
      var currentlyAdmin := id in store.admins;
      if isAdmin.value && !currentlyAdmin then
        match identity(AddToRoleCall)
        case Failed(d) => Step(store, Some(IdentityErrors(d)))
        case Succeeded => Step(store.(admins := store.admins + {id}), None)
      else if !isAdmin.value && currentlyAdmin then
        match CurrentIdentityUser(store, caller)
        case Fail(errs) => Step(store, Some(errs))
        case Ok(callerId) =>
          if callerId == id then Step(store, Some([Conflict(CannotRemoveOwnAdmin)]))
          else match identity(RemoveFromRoleCall)
            case Failed(d) => Step(store, Some(IdentityErrors(d)))
            case Succeeded => Step(store.(admins := store.admins - {id}), None)
      else Step(store, None)
  }

  /** `UpdateUserAsync(id, dto)`: the admin gate, the lookup, then the
      e-mail, password and role steps in that order; the first step that
      fails ends the call with its errors, keeping the earlier writes. */
  function UpdateUser(store: Store, caller: Caller, id: string, dto: UpdateUserDto,
                      identity: IdentityCall -> IdentityResult): (r: Reply<UserDto>)
    ensures r.Reply?
    ensures !IsAdminCaller(store, caller) ==> Denied(r.result) && r.store == store
    ensures IsAdminCaller(store, caller) && id !in store.users ==>
      r.result == Fail([NotFound(UserNotFound)]) && r.store == store
    ensures r.store.users.Keys == store.users.Keys
    ensures forall k :: k in store.users && k != id ==> r.store.users[k] == store.users[k]
    ensures r.store.admins - {id} == store.admins - {id}
    ensures dto.isAdmin.None? ==> r.store.admins == store.admins
    ensures r.result.Ok? ==> r.result.value == Describe(r.store, id)
    ensures r.result.Ok? && dto.isAdmin.Some? ==> (id in r.store.admins <==> dto.isAdmin.value)
  {
    var isAdminResult := CurrentUserIsAdmin(store, caller);
    if isAdminResult.Fail? then Reply(Propagate(isAdminResult), store)
    else if id !in store.users then Reply(Fail([NotFound(UserNotFound)]), store)
    else
      var email := EmailStep(store, id, dto.newEmail, identity);
      if email.stop.Some? then Reply(Fail(email.stop.value), email.store)
      else
        var password := PasswordStep(email.store, id, dto.newPassword, identity);
        if password.stop.Some? then Reply(Fail(password.stop.value), password.store)
        else
          var role := RoleStep(password.store, caller, id, dto.isAdmin, identity);
          if role.stop.Some? then Reply(Fail(role.stop.value), role.store)
          else Reply(Ok(Describe(role.store, id)), role.store)
  }

  /** The account an update asks for: a non-blank e-mail becomes e-mail and
      user name, a non-blank password replaces the password, and blank or
      absent fields keep what the account had. */
  function Updated(a: Account, dto: UpdateUserDto): Account {
    Account(
      if Text.IsNullOrWhiteSpace(dto.newEmail) then a.email else dto.newEmail,
      if Text.IsNullOrWhiteSpace(dto.newEmail) then a.userName else dto.newEmail,
      if Text.IsNullOrWhiteSpace(dto.newPassword) then a.password else dto.newPassword)
  }

  /** The role members an update asks for. */
  function UpdatedAdmins(admins: set<string>, id: string, isAdmin: Option<bool>): set<string> {
    if isAdmin == Some(true) then admins + {id}
    else if isAdmin == Some(false) then admins - {id}
    else admins
  }

  /** Self-demotion: the caller asks to drop their own admin role. */
  predicate DemotesSelf(store: Store, caller: Caller, id: string, dto: UpdateUserDto) {
    dto.isAdmin == Some(false) && id in store.admins && caller.userId == Some(id)
  }

  /** A successful update has applied every requested change: the account
      is the requested one and the role matches the request. */
  lemma UpdateUserApplies(store: Store, caller: Caller, id: string, dto: UpdateUserDto,
                          identity: IdentityCall -> IdentityResult)
    ensures var r := UpdateUser(store, caller, id, dto, identity);
      r.result.Ok? ==>
        && id in store.users
        && r.store.users == store.users[id := Updated(store.users[id], dto)]
        && r.store.admins == UpdatedAdmins(store.admins, id, dto.isAdmin)
  {
    var r := UpdateUser(store, caller, id, dto, identity);
    if r.result.Ok? {
      var email := EmailStep(store, id, dto.newEmail, identity);
      var password := PasswordStep(email.store, id, dto.newPassword, identity);
      var role := RoleStep(password.store, caller, id, dto.isAdmin, identity);
      assert r.store == role.store;
      assert role.store.users[id] == Updated(store.users[id], dto);
    }
  }

  /** An update by an admin of an existing user, whose Identity calls all
      succeed, succeeds unless it is a self-demotion. */
  lemma UpdateUserSucceeds(store: Store, caller: Caller, id: string, dto: UpdateUserDto,
                           identity: IdentityCall -> IdentityResult)
    requires IsAdminCaller(store, caller) && id in store.users
    requires forall c :: identity(c).Succeeded?
    requires !DemotesSelf(store, caller, id, dto)
    ensures UpdateUser(store, caller, id, dto, identity).result.Ok?
  {
    var email := EmailStep(store, id, dto.newEmail, identity);
    var password := PasswordStep(email.store, id, dto.newPassword, identity);
    assert email.stop.None? && password.stop.None?;
  }

  /** Past the gate and the lookup, an update fails only with the errors of
      a failed Identity call or with the self-demotion conflict. */
  lemma UpdateUserFailures(store: Store, caller: Caller, id: string, dto: UpdateUserDto,
                           identity: IdentityCall -> IdentityResult)
    requires IsAdminCaller(store, caller) && id in store.users
    ensures var r := UpdateUser(store, caller, id, dto, identity);
      r.result.Fail? ==>
        || r.result.errors == [Conflict(CannotRemoveOwnAdmin)]
        || exists c :: identity(c).Failed? && r.result.errors == IdentityErrors(identity(c).descriptions)
  {
  }

  /** An admin who asks to drop their own admin role gets a conflict and
      keeps the role, but the e-mail and password changes of the same call,
      already written, stay. */
  lemma SelfDemotionRefused(store: Store, caller: Caller, dto: UpdateUserDto,
                            identity: IdentityCall -> IdentityResult)
    requires IsAdminCaller(store, caller) && dto.isAdmin == Some(false)
    ensures var id := caller.userId.value;
      var r := UpdateUser(store, caller, id, dto, identity);
      var email := EmailStep(store, id, dto.newEmail, identity);
      var password := PasswordStep(email.store, id, dto.newPassword, identity);
      email.stop.None? && password.stop.None? ==>
        && r.result == Fail([Conflict(CannotRemoveOwnAdmin)])
        && r.store == password.store
        && id in r.store.admins
  {
  }

  /** `DeleteUserAsync(id)`: the admin gate, then no self-deletion (checked
      before the target is looked up), then the lookup, then the last-admin
      guard, then the delete. */
  function DeleteUser(store: Store, caller: Caller, id: string,
                      identity: IdentityCall -> IdentityResult): (r: Reply<()>)
    ensures r.Reply?
    ensures !IsAdminCaller(store, caller) ==> Denied(r.result)
    ensures IsAdminCaller(store, caller) && caller.userId.value == id ==>
      r.result == Fail([Conflict(CannotDeleteSelf)])
    ensures IsAdminCaller(store, caller) && caller.userId.value != id && id !in store.users ==>
      r.result == Fail([NotFound(UserNotFound)])
    ensures r.result.Fail? ==> r.store == store
    ensures r.result.Ok? ==> r.store == Store(store.users - {id}, store.admins - {id}) && id in store.users
  {
    var isAdminResult := CurrentUserIsAdmin(store, caller);
    if isAdminResult.Fail? then Reply(isAdminResult, store)
    else match CurrentIdentityUser(store, caller)
      case Fail(errs) => Reply(Fail(errs), store)
      case Ok(callerId) =>
        if callerId == id then Reply(Fail([Conflict(CannotDeleteSelf)]), store)
        else if id !in store.users then Reply(Fail([NotFound(UserNotFound)]), store)
        else if id in store.admins && |store.admins| <= 1 then
          Reply(Fail([Conflict(CannotDeleteLastAdmin)]), store)
        else match identity(DeleteCall)
          case Failed(d) => Reply(Fail(IdentityErrors(d)), store)
          case Succeeded => Reply(Ok(()), Store(store.users - {id}, store.admins - {id}))
  }

  /** Once the checks pass (an admin caller, another user, who exists), the
      outcome is Identity's: a successful delete removes exactly that user,
      from the users and the role; a failed one reports Identity's errors
      and changes nothing. */
  lemma DeleteUserOutcome(store: Store, caller: Caller, id: string,
                          identity: IdentityCall -> IdentityResult)
    requires IsAdminCaller(store, caller) && caller.userId.value != id && id in store.users
    ensures var r := DeleteUser(store, caller, id, identity);
      identity(DeleteCall).Succeeded? ==>
        r.result.Ok? && r.store == Store(store.users - {id}, store.admins - {id})
    ensures var r := DeleteUser(store, caller, id, identity);
      identity(DeleteCall).Failed? ==>
        r.result == Fail(IdentityErrors(identity(DeleteCall).descriptions)) && r.store == store
  {
    var callerId := caller.userId.value;
    if id in store.admins {
      assert {callerId, id} <= store.admins;
      assert |{callerId, id}| == 2;
      SubsetCardinality({callerId, id}, store.admins);
    }
  }

  /** The last-admin guard never fires: passing the gate makes the caller an
      admin, the caller cannot be the target, so an admin target means two
      admins. Deleting therefore never leaves the role empty. */
  lemma LastAdminGuardUnreachable(store: Store, caller: Caller, id: string,
                                  identity: IdentityCall -> IdentityResult)
    ensures DeleteUser(store, caller, id, identity).result != Fail([Conflict(CannotDeleteLastAdmin)])
    ensures DeleteUser(store, caller, id, identity).result.Ok? ==>
      |DeleteUser(store, caller, id, identity).store.admins| > 0
  {
    var r := DeleteUser(store, caller, id, identity);
    if IsAdminCaller(store, caller) && caller.userId.value != id && id in store.users {
      var callerId := caller.userId.value;
      if id in store.admins {
        assert {callerId, id} <= store.admins;
        assert |{callerId, id}| == 2;
        SubsetCardinality({callerId, id}, store.admins);
      }
      if identity(DeleteCall).Failed? {
        assert IdentityErrors(identity(DeleteCall).descriptions)[0].Other?;
      }
      if r.result.Ok? {
        assert callerId in r.store.admins;
      }
    }
  }

  /** Every write keeps role members among the users. */
  lemma WritesKeepConsistent(store: Store, caller: Caller, id: string, newId: string,
                             cdto: CreateUserDto, udto: UpdateUserDto,
                             identity: IdentityCall -> IdentityResult)
    requires Consistent(store)
    ensures var r := CreateUser(store, caller, newId, cdto, identity); r.Reply? ==> Consistent(r.store)
    ensures Consistent(UpdateUser(store, caller, id, udto, identity).store)
    ensures Consistent(DeleteUser(store, caller, id, identity).store)
  {
  }
}
