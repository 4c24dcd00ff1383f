# MyCustomers in Dafny

This project models the core of MyCustomers, a customer-management system. It covers:

- the ASP.NET Core server's minimal-API endpoints for customers and users;
- the application services behind those endpoints;
- the FluentResults-style error handling that connects the layers;
- the generic Entity Framework repository, query service and unit of work;
- the `Customer` aggregate;
- two client libraries: the paging loop of the React Native customer service, and the request and error shaping of the Next.js front end.

Every operation is a pure function over immutable data, and the one paging loop is a method.

Layout, one module per file, following the program's layers:

| module | models |
|---|---|
| `Wrappers`, `Seqs`, `Text` | `Option`, LINQ-style sequence helpers, decimal rendering, `string.IsNullOrWhiteSpace` |
| `Results` | the error classes and `Result<T>`, `FailIf`, `Merge`, `ToResult`, `MapErrors`, `MapValidationErrors` |
| `Pagination` | `PaginationValidator` and the page-size constants |
| `AppResults` | `MapErrorsToAppServiceResult` (not-found beats validation beats the rest) |
| `ValidationDictionary` | `MapValidationErrorsToDictionary` (the validation-problem body) |
| `Ordering` | `OrderBy` / `OrderByDescending` as a stable sort, with uniqueness for a key |
| `DbContext` | the slice of EF Core that the repository relies on: stored rows, change tracker, `SaveChanges` |
| `Repository`, `QueryService`, `UnitOfWork` | `EfCoreRepository`, `EfCoreQueryService`, `EfCoreUnitOfWork` |
| `Customers` | `Customer`, its DTOs and `CustomerMapper` |
| `CustomerAppService` | `CustomerAppService`, with persistence as a map from id to customer |
| `UserAccountService` | `UserAccountService`, with ASP.NET Identity as a store plus an oracle for the calls that can fail |
| `HttpResults`, `CustomerEndpoints`, `UserEndpoints` | `TypedResults`, and each endpoint's switch from the first error to an HTTP answer |
| `RnCustomerService` | `customerService.ts` of the React Native app |
| `WebService`, `WebUtils` | `app/lib/service.ts` and `app/lib/utils.ts` of the web front end |

Modelling choices:

- A `Guid` is an `int`.
- A `DateTime` is an `int` count of ticks.
- A generated id (from `IGuidGenerator`, or from Identity for users) is a parameter.
- The database is a `map` from key to row.
- A validation problem is answered with status 400, which is what `TypedResults.ValidationProblem` sends.
- A relational table has no inherent order, so an unordered read lists rows by ascending key.
- Identity calls that can fail (create, delete, role changes, e-mail, user name, password) are answered by a function parameter `identity`. Every other Identity call is modelled on the store.

## Model

| member | source | states |
|---|---|---|
| Pagination.Validate | MyCustomers.Application/PaginationValidator.cs:22-41 | All three checks run and their errors are merged, skip first: the result succeeds exactly when a present skip is non-negative and a present take is in 1..100; each error is present exactly when its own condition holds; there are at most two errors, and no others |
| Pagination.TakeTooLargeMessage | MyCustomers.Application/PaginationValidator.cs:32-38 | The maximum-size message spells out the constant as "Take cannot exceed 100." |
| Pagination.ValidateBoundaries | MyCustomers.Application/PaginationValidator.cs:24-38 | Boundary cases: take 0 and 101 are refused, take 1 and 100 are accepted, skip -1 gives only the skip error, and no arguments at all succeed |
| Pagination.Defaults | MyCustomers.Application.Contracts/AppServiceConstants.cs:11-18 | An omitted skip means 0 and an omitted take means 50; after validation the take lies within 1..100 |
| Results.FailIf | MyCustomers.Application/PaginationValidator.cs:24-38 | Fails exactly when the condition holds, and then carries only the given error |
| Results.Merge | MyCustomers.Application/PaginationValidator.cs:40 | Succeeds exactly when every input succeeds, and carries all their errors in order |
| Results.ToUnit | MyCustomers.Infrastructure/Users/UserAccountService.cs:343-355 | `ToResult()` keeps success or failure and exactly the errors |
| Results.Propagate | MyCustomers.Infrastructure/Users/UserAccountService.cs:101-106 | `ToResult<U>()` of a failure is a failure with the same errors |
| Results.MapErrors | MyCustomers.Domain.Shared/Results/ResultExtensions.cs:16-21 | A success is returned unchanged; a failure keeps its length, and each error is replaced by its image, position by position |
| Results.MapValidationErrors | MyCustomers.Domain.Shared/Results/ResultExtensions.cs:16-21 | Success is kept; every validation error is moved to the given field with its message kept; other errors are untouched; order and length are kept |
| Results.MapValidationErrorsOf | MyCustomers.Domain.Shared/Results/ResultExtensions.cs:30-35 | The same relabelling for `Result<T>`; a success keeps its value |
| Results.RelabelledToUnique | MyCustomers.Domain.Shared/Results/ResultExtensions.cs:16-35 | The relabelling relation determines the output: only one error list relates to a given input |
| Results.MapValidationErrorsIdempotent | MyCustomers.Domain.Shared/Results/ResultExtensions.cs:16-21 | Relabelling twice to the same field is relabelling once |
| Results.MapValidationErrorsLastFieldWins | MyCustomers.Domain.Shared/Results/ResultExtensions.cs:16-21 | Relabelling to one field and then another equals relabelling directly to the second |
| Results.MapValidationErrorsOverloadsAgree | MyCustomers.Domain.Shared/Results/ResultExtensions.cs:16-35 | The generic and non-generic overloads produce the same errors |
| AppResults.MapErrorsToAppServiceResult | MyCustomers.Application/Results/ResultExtensions.cs:19-41 | Output by case: a success is returned as is; if any error is not-found, the result is exactly the first not-found error; otherwise, if any error is validation, the result is exactly the validation errors, all kept, in order; otherwise the result is unchanged; in every case the output's errors are a subsequence of the input's |
| AppResults.MapErrorsToAppServiceResultIdempotent | MyCustomers.Application/Results/ResultExtensions.cs:19-41 | Applying the priority mapping to its own output changes nothing |
| ValidationDictionary.MapValidationErrorsToDictionary | MyCustomers.WebApi/Results/ResultExtensions.cs:18-29 | Its keys are exactly the fields some validation error names; each key holds that field's messages in their original order, and never an empty list; a success gives the empty dictionary |
| ValidationDictionary.GroupByFieldMeaning | MyCustomers.WebApi/Results/ResultExtensions.cs:20-27 | `GroupBy` / `ToDictionary` agrees with the reference definition of a field's messages, in both directions for membership |
| ValidationDictionary.NamesFieldIffMessages | MyCustomers.WebApi/Results/ResultExtensions.cs:20-27 | A field has messages exactly when some validation error names it |
| ValidationDictionary.DictionaryIgnoresOtherErrors | MyCustomers.WebApi/Results/ResultExtensions.cs:20-24 | Filtering down to validation errors first does not change the dictionary |
| ValidationDictionary.TotalMessagesIsValidationCount | MyCustomers.WebApi/Results/ResultExtensions.cs:20-27 | Every validation error contributes exactly one message: none is lost or duplicated |
| Ordering.SortBy | MyCustomers.Infrastructure.Persistence/EfCoreRepository.cs:55-57 | `OrderBy` / `OrderByDescending`: the result is ordered in the requested direction and is a permutation of the input |
| Ordering.OrderedUnique | MyCustomers.Infrastructure.Persistence/EfCoreRepository.cs:53-57 | If the sort key identifies elements, there is only one ordered arrangement of a multiset, so a page is well defined |
| Ordering.DescendingIsReverse | MyCustomers.Infrastructure.Persistence/EfCoreRepository.cs:55-57 | With a key as the sort key, descending order is ascending order reversed |
| Ordering.SortByOrderedIsIdentity | MyCustomers.Infrastructure.Persistence/EfCoreRepository.cs:55-57 | Sorting an already ordered, keyed sequence changes nothing |
| DbContext.Fresh | MyCustomers.Infrastructure.Persistence/EfCoreQueryService.cs:34-35 | A request-scoped context starts with the stored rows and tracks nothing |
| DbContext.Listing | MyCustomers.Infrastructure.Persistence/EfCoreRepository.cs:41-42 | The table read without an order lists each row under its key, by ascending key |
| DbContext.ListingMembers | MyCustomers.Infrastructure.Persistence/EfCoreRepository.cs:41-42 | Every row appears in the listing, and the listing holds nothing else |
| DbContext.DetectChanges | MyCustomers.Infrastructure.Persistence/EfCoreRepository.cs:110-118 | A change to a tracked entity marks it modified; untracked entities and other entries are unaffected, and no stored row changes before a save |
| DbContext.SaveChanges | MyCustomers.Infrastructure.Persistence/EfCoreUnitOfWork.cs:28-29 | Refused exactly when some pending entry conflicts. Otherwise it reports one write per pending entry, leaves nothing pending, stores added and modified entities, removes deleted ones, and stops tracking them |
| DbContext.SaveChangesValid | MyCustomers.Infrastructure.Persistence/EfCoreUnitOfWork.cs:28-29 | Saving keeps every row and entry under its own key |
| DbContext.SaveChangesClean | MyCustomers.Infrastructure.Persistence/EfCoreUnitOfWork.cs:28-29 | With nothing pending, a save writes nothing and changes no row |
| DbContext.SaveChangesTwice | MyCustomers.Infrastructure.Persistence/EfCoreUnitOfWork.cs:28-29 | A second save right after a first one writes nothing |
| DbContext.SaveInsert | MyCustomers.Infrastructure.Persistence/EfCoreUnitOfWork.cs:28-29 | A lone staged insert is refused exactly when its key is already stored; otherwise the row is stored under its key and no other row changes |
| DbContext.SaveDelete | MyCustomers.Infrastructure.Persistence/EfCoreUnitOfWork.cs:28-29 | A lone staged delete of a stored row removes exactly that row |
| Repository.CountWhere | MyCustomers.Infrastructure.Persistence/EfCoreRepository.cs:29-32 | The number of stored rows that satisfy the predicate, which is at most the table size |
| Repository.Exists | MyCustomers.Infrastructure.Persistence/EfCoreRepository.cs:35-38 | Holds exactly when some stored row satisfies the predicate, which is exactly when the count is positive |
| Repository.GetPage | MyCustomers.Infrastructure.Persistence/EfCoreRepository.cs:45-60 | The page is ordered by `orderBy`, or by id when it is omitted; its length is the table size after `skip`, clipped to `take`; every element is a stored row |
| Repository.GetPageWindow | MyCustomers.Infrastructure.Persistence/EfCoreRepository.cs:45-60 | The page is exactly the `skip`/`take` window of some ordering of the stored rows: a permutation of the table sorted by the order key |
| Repository.WindowDetermined | MyCustomers.Infrastructure.Persistence/EfCoreRepository.cs:53-59 | When the order key tells rows apart, as the id does, every ordering gives the same window, so the page is determined |
| Repository.GetPageWhere | MyCustomers.Infrastructure.Persistence/EfCoreRepository.cs:63-80 | The page is ordered; its length is the number of matching rows (`CountAsync(predicate)`) after `skip`, clipped to `take`; every element is a stored row that satisfies the predicate |
| Repository.GetPageWhereWindow | MyCustomers.Infrastructure.Persistence/EfCoreRepository.cs:63-80 | The filtered page is exactly the `skip`/`take` window of some ordering of the rows the predicate selects |
| Repository.MatchingCount | MyCustomers.Infrastructure.Persistence/EfCoreRepository.cs:63-80 | Filtering the table keeps exactly as many rows as `CountAsync(predicate)` counts |
| Repository.GetPageDefaultOrder | MyCustomers.Infrastructure.Persistence/EfCoreRepository.cs:53-59 | With no `orderBy`, position i of the page is the row with the (skip+i)-th smallest id |
| Repository.GetPageDescendingIsReversed | MyCustomers.Infrastructure.Persistence/EfCoreRepository.cs:53-59 | With no `orderBy`, a descending page is the same window of the reversed key listing |
| Repository.GetPageDefaultDescending | MyCustomers.Infrastructure.Persistence/EfCoreRepository.cs:53-59 | With no `orderBy`, position i of a descending page is the row with the (skip+i)-th largest id |
| Repository.GetPageWhereAll | MyCustomers.Infrastructure.Persistence/EfCoreRepository.cs:45-80 | A filtered page with an always-true predicate equals the unfiltered page |
| Repository.GetById | MyCustomers.Infrastructure.Persistence/EfCoreRepository.cs:83-91 | A null id answers null without touching the context. Otherwise `Find` answers the tracked instance, or the stored row, which it then tracks as unchanged. It answers null only when neither exists. Stored rows never change |
| Repository.Find | MyCustomers.Infrastructure.Persistence/EfCoreRepository.cs:94-97 | A tracking query returns one entity per matching key, as the context's instance for that key, and starts tracking the matches. Under a valid context the keys are distinct and are exactly the matching keys |
| Repository.GetAll | MyCustomers.Infrastructure.Persistence/EfCoreRepository.cs:41-42 | One entity per stored row, each the context's instance; every stored row becomes tracked |
| Repository.AttachValid | MyCustomers.Infrastructure.Persistence/EfCoreRepository.cs:94-97 | Tracking query results keeps every entry under its own key |
| Repository.Add | MyCustomers.Infrastructure.Persistence/EfCoreRepository.cs:100-101 | Refused exactly when the key is already tracked; otherwise stages exactly an insert of the entity and changes nothing stored |
| Repository.AddRange | MyCustomers.Infrastructure.Persistence/EfCoreRepository.cs:104-107 | Succeeds exactly when the keys are pairwise distinct and none is tracked; then it stages an insert for each entity and keeps every earlier entry |
| Repository.Update | MyCustomers.Infrastructure.Persistence/EfCoreRepository.cs:110-118 | Only a detached entity is staged as modified; a tracked one leaves the context exactly as it was |
| Repository.UpdateRange | MyCustomers.Infrastructure.Persistence/EfCoreRepository.cs:121-130 | Earlier entries are kept; every given key ends up tracked; each newly tracked key holds the first detached entity with that key, marked modified |
| Repository.Delete | MyCustomers.Infrastructure.Persistence/EfCoreRepository.cs:133-137 | An entity whose insert is only staged is forgotten; anything else is staged as deleted; other entries are untouched |
| Repository.DeleteRange | MyCustomers.Infrastructure.Persistence/EfCoreRepository.cs:140-147 | `RemoveRange` only stages: the stored rows are unchanged until a save |
| Repository.DeleteRangeEffect | MyCustomers.Infrastructure.Persistence/EfCoreRepository.cs:140-147 | For entities with distinct keys, each one gets the single-delete effect and every other entry is kept |
| Repository.MatchingIds | MyCustomers.Infrastructure.Persistence/EfCoreRepository.cs:155 | Under a valid context, the predicate `ids.Contains(e.Id)` selects exactly the stored keys among the ids |
| Repository.DeleteRangeByIds | MyCustomers.Infrastructure.Persistence/EfCoreRepository.cs:150-157 | Finding the listed rows and removing them only stages: the stored rows are unchanged until a save |
| Repository.DeleteRangeByIdsStages | MyCustomers.Infrastructure.Persistence/EfCoreRepository.cs:150-157 | Stages a delete for exactly the stored rows whose id is listed; every other entry is left as it was |
| Repository.DeleteRangeByIdsThenSave | MyCustomers.Infrastructure.Persistence/EfCoreRepository.cs:150-157 | On a context with nothing pending, deleting by ids and saving removes exactly the stored rows with those ids, one write each |
| QueryService.Count | MyCustomers.Infrastructure.Persistence/EfCoreQueryService.cs:34-35 | The number of stored rows |
| QueryService.CountWhere | MyCustomers.Infrastructure.Persistence/EfCoreQueryService.cs:38-41 | The number of stored rows that satisfy the predicate, which is at most the total count |
| QueryService.Exists | MyCustomers.Infrastructure.Persistence/EfCoreQueryService.cs:44-47 | Holds exactly when some stored row satisfies the predicate, which is exactly when the count is positive |
| QueryService.Find | MyCustomers.Infrastructure.Persistence/EfCoreQueryService.cs:113-119 | One projection per matching row, as many as the count, and every matching row is projected |
| QueryService.FindIsProjectedRepositoryFind | MyCustomers.Infrastructure.Persistence/EfCoreQueryService.cs:113-119 | The no-tracking query answers the projection of what the repository's tracking query answers on a fresh context |
| QueryService.GetAll | MyCustomers.Infrastructure.Persistence/EfCoreQueryService.cs:50-52 | Exactly one projection per stored row |
| QueryService.GetPage | MyCustomers.Infrastructure.Persistence/EfCoreQueryService.cs:55-72 | The projection of the repository page for the same arguments, so the projected window of an ordering of the rows; its length is the table size after `skip`, clipped to `take` |
| QueryService.GetPageByKey | MyCustomers.Infrastructure.Persistence/EfCoreQueryService.cs:55-72 | With no `orderBy`, ascending position i projects the row with the (skip+i)-th smallest id, and descending position i the (skip+i)-th largest |
| QueryService.GetPageWhere | MyCustomers.Infrastructure.Persistence/EfCoreQueryService.cs:75-94 | The projection of the filtered repository page; its length is the matching count after `skip`, clipped to `take`; every item projects a matching stored row |
| QueryService.GetById | MyCustomers.Infrastructure.Persistence/EfCoreQueryService.cs:97-110 | A null id answers null; otherwise the projection of a row with that id, or null exactly when no row has it |
| QueryService.GetByIdStored | MyCustomers.Infrastructure.Persistence/EfCoreQueryService.cs:97-110 | When every row sits under its own id, the lookup answers the row stored under the id |
| UnitOfWork.New | MyCustomers.Infrastructure.Persistence/EfCoreUnitOfWork.cs:11-25 | A new unit of work has no open transaction |
| UnitOfWork.SaveChanges | MyCustomers.Infrastructure.Persistence/EfCoreUnitOfWork.cs:28-29 | Saves through the context and leaves the transaction alone; a refused save changes nothing |
| UnitOfWork.Begin | MyCustomers.Infrastructure.Persistence/EfCoreUnitOfWork.cs:32-40 | Afterwards a transaction is open; an already open one is kept; a new one remembers the current rows |
| UnitOfWork.Commit | MyCustomers.Infrastructure.Persistence/EfCoreUnitOfWork.cs:43-53 | Closes the transaction and keeps every write |
| UnitOfWork.Rollback | MyCustomers.Infrastructure.Persistence/EfCoreUnitOfWork.cs:56-66 | Closes the transaction and restores the rows of when it began; without a transaction it does nothing |
| UnitOfWork.Dispose | MyCustomers.Infrastructure.Persistence/EfCoreUnitOfWork.cs:71-90 | Drops an open transaction without committing: the rows return to those of when it began |
| UnitOfWork.DisposeIsRollback | MyCustomers.Infrastructure.Persistence/EfCoreUnitOfWork.cs:56-90 | Disposing has the same effect as rolling back |
| UnitOfWork.TransactionCallsIdempotent | MyCustomers.Infrastructure.Persistence/EfCoreUnitOfWork.cs:32-90 | Repeating begin, commit, rollback or dispose does nothing more, because of the null checks on the current transaction |
| UnitOfWork.CommitKeepsSavedRows | MyCustomers.Infrastructure.Persistence/EfCoreUnitOfWork.cs:32-53 | Begin, save, commit leaves exactly the rows the save wrote |
| UnitOfWork.RollbackUndoesSave | MyCustomers.Infrastructure.Persistence/EfCoreUnitOfWork.cs:32-90 | Begin, save, then rollback or dispose leaves the rows as they were before |
| UnitOfWork.Run | MyCustomers.Infrastructure.Persistence/EfCoreUnitOfWork.cs:28-66 | Running a sequence of operations leaves a transaction open exactly as the last begin, commit, rollback or dispose before its end says (the start state when there is none); a run stops early only at a save the database refuses; saves alone never change the transaction |
| Customers.Create | MyCustomers.Domain/Customers/Customer.cs:92-112 | Never fails; the customer has the given id and holds exactly the given values in all six fields |
| Customers.UpdateName | MyCustomers.Domain/Customers/Customer.cs:119-123 | Succeeds; the name takes the new value, and nothing else, including the id, changes |
| Customers.UpdateEmail | MyCustomers.Domain/Customers/Customer.cs:130-134 | Succeeds; the e-mail takes the new value, and nothing else changes |
| Customers.UpdateNumber | MyCustomers.Domain/Customers/Customer.cs:141-145 | Succeeds; the number takes the new value, and nothing else changes |
| Customers.UpdateNotes | MyCustomers.Domain/Customers/Customer.cs:152-156 | Succeeds; the notes take the new value, and nothing else changes |
| Customers.UpdateCreatedDate | MyCustomers.Domain/Customers/Customer.cs:163-167 | Succeeds; the creation date takes the new value, and nothing else changes |
| Customers.UpdateModifiedDate | MyCustomers.Domain/Customers/Customer.cs:174-178 | Succeeds; the modification date takes the new value, and nothing else changes |
| Customers.CustomerExtensionality | MyCustomers.Domain/Customers/Customer.cs:11-41 | A customer is determined by its id and its six fields |
| Customers.SetMeaning | MyCustomers.Domain/Customers/Customer.cs:119-178 | Every setter succeeds and writes only its own field; its result is the only customer that differs from the original in at most that field and holds the value there |
| Customers.SetIdempotent | MyCustomers.Domain/Customers/Customer.cs:119-178 | Setting a field twice to the same value is setting it once |
| Customers.SetCommutes | MyCustomers.Domain/Customers/Customer.cs:119-178 | Setters of different fields commute |
| Customers.SetKeepsId | MyCustomers.Domain/Customers/Customer.cs:11 | No setter changes the id, which has no public setter |
| Customers.MapToDto | MyCustomers.Infrastructure/Customers/CustomerMapper.cs:18 | The DTO carries everything: building a customer from the DTO's fields under its id gives the customer back |
| Customers.MapToDtoInjective | MyCustomers.Infrastructure/Customers/CustomerMapper.cs:18 | The DTO mapping loses nothing: different customers have different DTOs |
| Customers.FromDto | MyCustomers.Application/Customers/CustomerAppService.cs:79-87 | The customer described by a write DTO under a given id has that id |
| Customers.FromDtoRoundTrip | MyCustomers.Infrastructure/Customers/CustomerMapper.cs:18 | The DTO read back from a customer built from a write DTO carries the id and the six written values |
| Customers.ApplyDto | MyCustomers.Application/Customers/CustomerAppService.cs:116-122 | Running the six setters with a write DTO's fields gives six successes, and the customer that DTO describes under the unchanged id |
| CustomerAppService.NotFoundResult | MyCustomers.Application/Customers/CustomerAppService.cs:36-41 | A failure with the single not-found error for the id |
| CustomerAppService.Get | MyCustomers.Application/Customers/CustomerAppService.cs:29-44 | Answers the DTO of a stored customer with that id, or exactly one not-found error |
| CustomerAppService.GetStored | MyCustomers.Application/Customers/CustomerAppService.cs:29-44 | On a table stored by id, answers the customer under the id exactly when it exists, otherwise not-found |
| CustomerAppService.List | MyCustomers.Application/Customers/CustomerAppService.cs:47-71 | Refused paging arguments give the validator's errors, unchanged. Otherwise the page's total count is the table size and its items are the id-ordered window |
| CustomerAppService.ListPage | MyCustomers.Application/Customers/CustomerAppService.cs:47-71 | Item i of a listed page is the DTO of the customer with the (skip+i)-th smallest id, with the default skip and take filled in |
| CustomerAppService.Create | MyCustomers.Application/Customers/CustomerAppService.cs:74-98 | Under a fresh id, saves once and answers the DTO of the described customer, and the table gains exactly that customer; a taken id makes the add throw |
| CustomerAppService.CreateStored | MyCustomers.Application/Customers/CustomerAppService.cs:74-98 | A create keeps the table stored by id, grows it by one, and answers the new id with the written fields |
| CustomerAppService.Update | MyCustomers.Application/Customers/CustomerAppService.cs:101-133 | A missing id gives not-found with no save. At most one save happens, and any failure leaves the table unchanged |
| CustomerAppService.UpdateStored | MyCustomers.Application/Customers/CustomerAppService.cs:101-133 | On a table stored by id, updating a stored customer replaces its six fields, saves once and answers the new DTO |
| CustomerAppService.Delete | MyCustomers.Application/Customers/CustomerAppService.cs:136-151 | A missing id gives not-found with no save. At most one save happens, and any failure leaves the table unchanged |
| CustomerAppService.DeleteStored | MyCustomers.Application/Customers/CustomerAppService.cs:136-151 | On a table stored by id, deleting a stored customer removes exactly that row with one save |
| CustomerAppService.WritesKeepStored | MyCustomers.Application/Customers/CustomerAppService.cs:74-151 | Create, update and delete all keep the table stored by id, and update and delete never throw |
| UserAccountService.IdentityErrors | MyCustomers.Infrastructure/Users/UserAccountService.cs:114 | One plain error per Identity error description, in order |
| UserAccountService.CurrentIdentityUser | MyCustomers.Infrastructure/Users/UserAccountService.cs:322-337 | Succeeds with the caller's id exactly when the caller is authenticated with an id that names a user; otherwise a single access-denied error |
| UserAccountService.CurrentUserIsAdmin | MyCustomers.Infrastructure/Users/UserAccountService.cs:343-355 | Succeeds exactly when the caller is a known user in the Admin role; otherwise a single access-denied error |
| UserAccountService.Describe | MyCustomers.Infrastructure/Users/UserAccountService.cs:156-159 | The DTO carries the user's id and e-mail, and reports admin exactly for members of the Admin role |
| UserAccountService.GetCurrentUser | MyCustomers.Infrastructure/Users/UserAccountService.cs:28-45 | Succeeds exactly when the caller resolves to a user and then describes that user; every failure is access denied |
| UserAccountService.ListUsers | MyCustomers.Infrastructure/Users/UserAccountService.cs:48-93 | Paging arguments are validated before the admin gate, and refused arguments give the validator's errors. A non-admin is denied. An admin gets the user count and the requested window of the listing |
| UserAccountService.EnumerationSize | MyCustomers.Infrastructure/Users/UserAccountService.cs:71-73 | A listing that visits every user once has one entry per user, so the total count is the number of users |
| UserAccountService.CreateUser | MyCustomers.Infrastructure/Users/UserAccountService.cs:96-134 | A non-admin is denied and nothing changes. On success the new user exists with user name and e-mail both the given e-mail, and the DTO reports the role actually held, which equals the request on a consistent store. A failure never changes the roles |
| UserAccountService.CreateUserCompensates | MyCustomers.Infrastructure/Users/UserAccountService.cs:117-125 | When adding the new user to Admin fails, the created user is deleted again and the role's errors are returned |
| UserAccountService.GetUserById | MyCustomers.Infrastructure/Users/UserAccountService.cs:137-162 | A non-admin is denied; an unknown id gives one not-found error; otherwise the user's DTO |
| UserAccountService.EmailStep | MyCustomers.Infrastructure/Users/UserAccountService.cs:185-198 | A blank new e-mail does nothing. Otherwise, if nothing failed, it becomes both e-mail and user name. Only this user's account changes, and never its password |
| UserAccountService.PasswordStep | MyCustomers.Infrastructure/Users/UserAccountService.cs:200-220 | A blank new password does nothing; otherwise, when nothing failed, it replaces the old one; only this user's account changes, never its e-mail |
| UserAccountService.RoleStep | MyCustomers.Infrastructure/Users/UserAccountService.cs:223-255 | No other user's role and no account changes. A request equal to the current role does nothing. On success, membership equals the request. A stopped step changes nothing. Dropping one's own role stops with a conflict |
| UserAccountService.UpdateUser | MyCustomers.Infrastructure/Users/UserAccountService.cs:165-263 | A non-admin is denied and nothing changes; an unknown id gives not-found; no other user is touched and no user is added or removed; without a role request the roles are unchanged; on success the DTO describes the updated user and membership matches the request |
| UserAccountService.UpdateUserApplies | MyCustomers.Infrastructure/Users/UserAccountService.cs:185-262 | A successful update has applied every request: a non-blank e-mail is the e-mail and user name, a non-blank password the password, blank fields keep the account's, and the role membership is the requested one |
| UserAccountService.UpdateUserSucceeds | MyCustomers.Infrastructure/Users/UserAccountService.cs:165-262 | An admin updating an existing user succeeds when every Identity call succeeds, unless the admin drops their own admin role |
| UserAccountService.UpdateUserFailures | MyCustomers.Infrastructure/Users/UserAccountService.cs:185-255 | Past the gate and the lookup, an update fails only with a failed Identity call's errors or with the self-demotion conflict |
| UserAccountService.SelfDemotionRefused | MyCustomers.Infrastructure/Users/UserAccountService.cs:235-247 | An admin who asks to drop their own admin role keeps it and gets the conflict |
| UserAccountService.DeleteUser | MyCustomers.Infrastructure/Users/UserAccountService.cs:266-316 | Checks run in order: a non-admin is denied; self-deletion is a conflict, checked before the lookup; an unknown id is not-found. Success removes exactly that user from the users and the roles; failures change nothing |
| UserAccountService.DeleteUserOutcome | MyCustomers.Infrastructure/Users/UserAccountService.cs:266-316 | Once an admin deletes another, existing user, Identity's delete decides: success removes that user from the users and the role, and failure reports Identity's errors and changes nothing |
| UserAccountService.LastAdminGuardUnreachable | MyCustomers.Infrastructure/Users/UserAccountService.cs:297-306 | The last-admin guard never fires: the calling admin is a second admin whenever the target is an admin, so a successful delete always leaves an admin |
| UserAccountService.WritesKeepConsistent | MyCustomers.Infrastructure/Users/UserAccountService.cs:96-316 | Create, update and delete keep every member of the Admin role among the users |
| HttpResults.Respond | MyCustomers.WebApi/Customers/CustomerEndpoints.cs:182-193 | A success is answered by the endpoint's success reply; a failure by an error status, a problem carrying the first message, and the not-found and forbid arms as the switch names them |
| HttpResults.Failure | MyCustomers.WebApi/Customers/CustomerEndpoints.cs:155-166 | The answer to a failed result is always an error status (at least 400), and a problem's detail is the first error's message |
| HttpResults.FirstErrorDecides | MyCustomers.WebApi/Customers/CustomerEndpoints.cs:155-166 | Only the first error's class picks the answer; apart from a validation problem's body, the rest of the errors are ignored |
| CustomerEndpoints.Location | MyCustomers.WebApi/Customers/CustomerEndpoints.cs:115 | The location is the route prefix, a slash, and the id's text |
| CustomerEndpoints.LocationInjective | MyCustomers.WebApi/Customers/CustomerEndpoints.cs:115 | Different customers are created at different locations, and equal ids give equal locations |
| CustomerEndpoints.Get | MyCustomers.WebApi/Customers/CustomerEndpoints.cs:44-60 | 200 with the DTO, 404 for a first not-found error, otherwise 500 with the first message |
| CustomerEndpoints.List | MyCustomers.WebApi/Customers/CustomerEndpoints.cs:70-93 | 200 with the page, a 400 validation problem with the field dictionary for a first validation error, otherwise 500 |
| CustomerEndpoints.Create | MyCustomers.WebApi/Customers/CustomerEndpoints.cs:102-129 | 201 at the new customer's location, 409 for a conflict, 400 for a validation error, otherwise 500 |
| CustomerEndpoints.Update | MyCustomers.WebApi/Customers/CustomerEndpoints.cs:139-167 | 200, 404, 409, 400 or 500, each chosen by the class of the first error |
| CustomerEndpoints.Delete | MyCustomers.WebApi/Customers/CustomerEndpoints.cs:176-192 | 204, 404 for not-found, otherwise 500 |
| CustomerEndpoints.GetRoute | MyCustomers.WebApi/Customers/CustomerEndpoints.cs:44-60 | End to end, reading answers the stored DTO, or 404 exactly for a missing id |
| CustomerEndpoints.ListRoute | MyCustomers.WebApi/Customers/CustomerEndpoints.cs:70-93 | End to end, refused paging arguments answer 400 with a body naming exactly the offending fields |
| CustomerEndpoints.ListRouteAccepted | MyCustomers.WebApi/Customers/CustomerEndpoints.cs:70-93 | End to end, accepted paging arguments answer 200 with the table size and the customers with the (skip+i)-th smallest ids, a window of the clipped size |
| CustomerEndpoints.PagingFields | MyCustomers.WebApi/Customers/CustomerEndpoints.cs:86-92 | The validation-problem body names only "skip" and "take", and each only when that argument is out of range |
| CustomerEndpoints.CreateRoute | MyCustomers.WebApi/Customers/CustomerEndpoints.cs:102-129 | End to end, a create under a fresh id answers 201 at the location of that id with the new DTO |
| CustomerEndpoints.UpdateRoute | MyCustomers.WebApi/Customers/CustomerEndpoints.cs:139-167 | End to end, an update answers the new DTO, or 404 exactly for a missing id |
| CustomerEndpoints.DeleteRoute | MyCustomers.WebApi/Customers/CustomerEndpoints.cs:176-192 | End to end, a delete answers 204, or 404 exactly for a missing id |
| UserEndpoints.Location | MyCustomers.WebApi/Users/UserEndpoints.cs:107 | The location is the route prefix, a slash, and the user's id |
| UserEndpoints.GetCurrentUser | MyCustomers.WebApi/Users/UserEndpoints.cs:39-55 | As written: 200, 401 for a first not-found error, otherwise 500 with the first message |
| UserEndpoints.GetCurrentUserNeverUnauthorized | MyCustomers.WebApi/Users/UserEndpoints.cs:50-54 | The 401 arm is unreachable, and an authenticated caller whose account is gone gets 500 "User not found." |
| UserEndpoints.GetCurrentUserIntended | MyCustomers.WebApi/Users/UserEndpoints.cs:39-55 | Corrected: 401 for a first access-denied error, which is what the service reports for an unknown caller |
| UserEndpoints.GetCurrentUserIntendedRoute | MyCustomers.WebApi/Users/UserEndpoints.cs:39-55 | With the correction, /me answers 401 exactly when the caller does not resolve to a user, and otherwise the caller's DTO |
| UserEndpoints.List | MyCustomers.WebApi/Users/UserEndpoints.cs:65-86 | 200, 403 for access denied, otherwise 500 |
| UserEndpoints.Create | MyCustomers.WebApi/Users/UserEndpoints.cs:95-115 | 201 at the new user's location, 403 for access denied, otherwise 500 |
| UserEndpoints.GetById | MyCustomers.WebApi/Users/UserEndpoints.cs:124-145 | 200, 404, 403, otherwise 500 |
| UserEndpoints.Update | MyCustomers.WebApi/Users/UserEndpoints.cs:155-177 | 200, 404, 403, otherwise 500; the self-demotion conflict becomes a plain 500 |
| UserEndpoints.Delete | MyCustomers.WebApi/Users/UserEndpoints.cs:186-211 | 204, 409 for a conflict, 404, 403, otherwise 500 |
| UserEndpoints.NonAdminForbidden | MyCustomers.WebApi/Users/UserEndpoints.cs:65-211 | End to end, a caller who is not an admin gets 403 from every admin route, given acceptable paging arguments for the listing |
| UserEndpoints.SelfDeleteRoute | MyCustomers.WebApi/Users/UserEndpoints.cs:186-211 | End to end, an admin deleting their own account gets 409 and the store is unchanged |
| UserEndpoints.CreateRoute | MyCustomers.WebApi/Users/UserEndpoints.cs:95-115 | End to end, a successful create answers 201 at the new user's id |
| RnCustomerService.GetCustomers | MyCustomersRN/src/services/customerService.ts:5-64 | If 0 < take <= 100: one request, and its items are the answer. Otherwise the answer is the concatenated pages of 100, made in 1..1000 requests, stopping at the first empty page, at the first known total reached, or at the safety limit. An error response rethrows the error |
| RnCustomerService.FetchedSnoc | MyCustomersRN/src/services/customerService.ts:40-51 | Each further page request appends that page's items |
| RnCustomerService.FirstTotalStays | MyCustomersRN/src/services/customerService.ts:46-49 | Once a total count is known it is never replaced |
| RnCustomerService.FetchedFromTable | MyCustomersRN/src/services/customerService.ts:35-51 | Against a server that pages a fixed table, n requests from a position hold the next 100n rows, clipped to the table |
| RnCustomerService.PagingCollectsTable | MyCustomersRN/src/services/customerService.ts:25-59 | Against such a server, a listing that stopped on its own collects exactly the rest of the table from the start position |
| RnCustomerService.FirstTotalIsSize | MyCustomersRN/src/services/customerService.ts:46-49 | Against such a server, the first response already carries the table size as the total |
| RnCustomerService.StampForCreate | MyCustomersRN/src/services/customerService.ts:75-89 | Both timestamps are the same reading of the clock |
| RnCustomerService.StampForUpdate | MyCustomersRN/src/services/customerService.ts:91-103 | Only the update timestamp is sent |
| RnCustomerService.StampsKeepDraft | MyCustomersRN/src/services/customerService.ts:75-103 | Stamping keeps every field the caller gave, and both stamps use the same update time |
| WebService.ListArguments | MyCustomers.WebFrontend/app/lib/service.ts:18-35 | A negative skip throws the skip message first. An out-of-range take throws the take message. Otherwise the query holds exactly the present arguments, skip before take |
| WebService.GuardAgreesWithServer | MyCustomers.WebFrontend/app/lib/service.ts:18-35 | The client accepts exactly the paging arguments the server's validator accepts |
| WebService.ParamsDetermineArguments | MyCustomers.WebFrontend/app/lib/service.ts:18-35 | Accepted arguments that give the same query string are equal: the request names them unambiguously |
| WebService.QueryString | MyCustomers.WebFrontend/app/lib/service.ts:35 | The query string is empty exactly when there are no parameters |
| WebService.ShapeResult | MyCustomers.WebFrontend/app/lib/service.ts:49-62 | A response that is not ok gives an `ApiError` with its status and body; an ok response gives its body as the data |
| WebService.ShapeDelete | MyCustomers.WebFrontend/app/lib/service.ts:188-218 | A delete succeeds exactly on an ok response, with no data, and otherwise carries the status and body |
| WebService.FailuresShapedAlike | MyCustomers.WebFrontend/app/lib/service.ts:49-218 | A delete and any other call report the same error for the same failed response |
| WebService.ListResources | MyCustomers.WebFrontend/app/lib/service.ts:13-63 | Throws before sending exactly when the server would refuse the paging arguments; otherwise sends one request to the URL with the query and shapes its response |
| WebUtils.HandleUnknownActionError | MyCustomers.WebFrontend/app/lib/utils.ts:50-61 | The generic message, always shown in a snackbar, with the form data kept |
| WebUtils.HandleApiActionError | MyCustomers.WebFrontend/app/lib/utils.ts:10-42 | Field errors are passed through exactly when the body has an `errors` member, and then no message is shown. Otherwise there is a message, and a snackbar exactly for status 500 unless the generic fallback is used. The form data is always kept |
| WebUtils.MessagePrecedence | MyCustomers.WebFrontend/app/lib/utils.ts:14-41 | Without field errors, the message is the first truthy one of detail, then title, then the generic message |
| WebUtils.FieldErrorsWin | MyCustomers.WebFrontend/app/lib/utils.ts:14-22 | With field errors, the state depends neither on the detail, the title nor the status |
| Text.IsNullOrWhiteSpace | MyCustomers.Infrastructure/Users/UserAccountService.cs:185 | Absent and empty strings are blank, and a string is blank exactly when all its characters are .NET whitespace |
| Text.BlankExamples | MyCustomers.Infrastructure/Users/UserAccountService.cs:200 | The ideographic space and the en quad are blank, as in .NET; a zero-width space or a letter is not |
| Text.NatTextRoundTrip | MyCustomers.WebApi/Customers/CustomerEndpoints.cs:115 | Rendering a number in decimal loses nothing: reading it back gives the number |
| Text.IntTextRoundTrip | MyCustomers.WebApi/Customers/CustomerEndpoints.cs:115 | Rendering an id in decimal, with a sign when negative, loses nothing: reading the numeral back gives the id |
| Text.IntTextInjective | MyCustomers.WebApi/Customers/CustomerEndpoints.cs:115 | Different ids render differently |

## Left out

- Asynchrony, `CancellationToken`s and `ConfigureAwait`: every operation is a function of its inputs, and cancellation is not modelled.
- Logging, `console.error`, and HTTP plumbing (headers, the bearer token, `fetch`, `apiClient`). The server's or HTTP client's answer is a function parameter.
- EF Core internals: SQL translation, the identity map's reference semantics, and concurrency tokens. A save conflict is modelled as an insert under a stored key or a write to a key no longer stored.
- Ordering of an unordered read. SQL gives no order, and the model lists rows by ascending key.
- Repository.GetPage: an `orderBy` expression is modelled as an integer rank of the entity, and rows whose ranks tie keep their key order (a stable sort), where SQL leaves ties in any order. `Repository.GetPageWindow` states only that the page is the window of some ordering, which holds for any tie order. The `ListUsers` listing order is an input constrained to enumerate every user once.
- `Guid` text: ids are integers rendered in decimal (`Text.IntText`), standing in for a Guid's 36-character form. Only injectivity of the rendering is used.
- ASP.NET Identity internals: password rules, normalisation, and the actual failure descriptions. Calls that can fail are answered by the `identity` parameter; everything else acts on the store.
- `WithParameterValidation` and `[Range]` attributes on endpoint parameters, and `[Required]` on DTOs. They can refuse a request before the handler runs. Only the handler's own validation path is modelled.
- Authentication middleware and `RequireAuthorization`: the caller reaches the service as a `Caller` value.
- JavaScript numbers are doubles: skip and take are integers in the model, and fractional or NaN arguments are not modelled.
- The React Native screens, the .NET MAUI client (`MyCustomersApp`), the web front end's pages, forms and schemas, and the authentication services of all clients. They are callers of the modelled core.
- `getCustomer` and `deleteCustomer` of the React Native service: each passes one request through and adds nothing to model.
- `getResource`, `createResource` and `updateResource` of the web front end are modelled only through their shared shaping, `WebService.ShapeResult`. Their URLs and bodies are plain string building.
- `ActionState.successMessage` and the default ProblemDetails title and type that ASP.NET fills in.
- The React Native client sends `updatedDate` while the server's DTO field is `ModifiedDate`. How JSON binding treats the mismatch is outside the model.
- UserAccountService.CreateUser: the DTO's `isAdmin` is stated to equal the request only on a store where every Admin member is a user (`Consistent`), because the role membership of an id outside the users is not constrained otherwise.
- UserAccountService.ListUsers: `requires` a listing that enumerates the users, because the source reads them in the database's order, which the model takes as an input.
- A taken id in `CustomerAppService.Create` is modelled as a throw (`Threw`), since the fresh context stages the insert and `SaveChanges` then refuses it under a key that is already stored. The sequential Guid generator never repeats an id, so this case does not arise in the source.

## Findings

| source | as written | input that shows it | evidently intended | confidence | as-written member | corrected member |
|---|---|---|---|---|---|---|
| MyCustomers.WebApi/Users/UserEndpoints.cs:50-54 | GET /api/users/me maps a first `ResourceNotFoundError` to 401, but `GetCurrentUserAsync` reports a missing or unknown caller as `AccessDeniedError`, so the 401 arm can never fire | an authenticated caller whose account has been deleted: the service fails with access denied "User not found.", and the endpoint answers 500 with that detail | 401 Unauthorized when the caller does not resolve to a user, as the endpoint's declared `UnauthorizedHttpResult` result type says | medium, not executed | UserEndpoints.GetCurrentUser (with UserEndpoints.GetCurrentUserNeverUnauthorized) | UserEndpoints.GetCurrentUserIntended (with UserEndpoints.GetCurrentUserIntendedRoute) |
