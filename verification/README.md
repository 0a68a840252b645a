# User service — a Dafny model

This project models the service layer of a small CRUD service for `User`
records: paged listing, lookup by identifier, create with an email
uniqueness pre-check, partial update with an email-ownership check, and
delete with an existence check. It also models the two pure helpers beside
the service: `PaginationInfo.of` and the `UserMapper` field copies with
their null-ignoring merge.

The store behind the service (`UserRepository`) is a value: a sequence of
users in `findAll` order, each with a distinct identifier, plus the counter
new identifiers come from. Every service operation is a pure function.
Listing and lookup return only their result, so the store cannot change.
Create, update and delete return `(Result, Store)`. `Result` is
`Ok(value) | NotFound(id) | Conflict(email) | StoreFailure`. A `save`
takes a `Fault` argument that says whether the store accepts it, refuses it
for an integrity violation, or fails in another way. The integrity
violation is the visible effect of another writer winning the race between
the email pre-check and the save. The service reports it as `Conflict`.

Files:
- `model.dfy`: `Option`, the `User` entity and the `UserDto` transfer object.
- `case_fold.dfy`: case-insensitive equality `CiEq`, used for the
  pre-check, for the store's `...IgnoreCase` lookups and for
  `equalsIgnoreCase`.
- `stream.dfy`: the `skip`/`take` stream operators used by the listing.
- `pagination.dfy`: `PaginationInfo.of`.
- `user_mapper.dfy`: `toDto`, `toEntity`, `updateEntityFromDto`.
- `user_repository.dfy`: the store and its operations.
- `user_service.dfy`: the six service operations.
- `user_service_properties.dfy`: lemmas relating several calls. These
  cover email uniqueness, the one-user footprint of an update, conflict
  detection, lookups after a write, and page coverage.
- `update_keeping_id.dfy`: the identifier-in-patch finding below.

The service's own source names `CreateUserRequest`, `UpdateUserRequest`,
`UserResponse`, `toResponse` and `updateEntityFromRequest`. Those types and
mapper methods are not part of this model. The controller and the unit
tests call the service with `UserDto` and expect `toDto`, so the model uses
`UserDto` as both the request and the response. It uses the mapper's
`updateEntityFromDto` as the merge.

## Model

| member | source | states |
|---|---|---|
| CaseFold.Fold | src/main/java/com/example/testbbl/repository/UserRepository.java:10-11 | the string with every character lower-cased, position by position, length kept |
| CaseFold.CiEq | src/main/java/com/example/testbbl/service/UserService.java:81 | equality ignoring case, shared by `equalsIgnoreCase` and the store's `IgnoreCase` lookups. Equal strings match, and strings of different lengths never do |
| CaseFold.CiEqIsCharwise | src/main/java/com/example/testbbl/service/UserService.java:81 | two strings match ignoring case exactly when they have the same length and agree character by character once lower-cased |
| Stream.Skip | src/main/java/com/example/testbbl/service/UserService.java:36 | for a count `n >= 0`, skipping leaves the suffix of the stream that starts at `n`, or nothing when `n` is past the end |
| Stream.Take | src/main/java/com/example/testbbl/service/UserService.java:37 | for a count `n >= 0`, taking leaves the prefix of at most `n` elements, in order |
| UserService.ToDtos | src/main/java/com/example/testbbl/service/UserService.java:38 | maps each listed user to its transfer object, keeping length and order |
| UserService.GetAllUsers | src/main/java/com/example/testbbl/service/UserService.java:30-39 | with size clamped to at least 1 and page to at least 0, the result has `min(size, max(0, n - page*size))` entries. Entry `k` is the user at store position `page*size + k`, so the result is a contiguous window in store order |
| UserService.GetAllUsersWithPagination | src/main/java/com/example/testbbl/service/UserService.java:41-53 | the metadata is exactly `PaginationInfo.of(clamped page, clamped size, count)`, so it never sees a negative page or zero size. The data equals the plain listing for the same arguments. The page is non-empty exactly when it is one of the counted pages. It is full whenever `hasNext` holds |
| UserService.PageAgreesWithCount | src/main/java/com/example/testbbl/service/UserService.java:45-51 | a window of `min(size, max(0, total - page*size))` users is non-empty exactly when `page` is below the page count, and full whenever `of` reports a next page |
| UserService.GetUserById | src/main/java/com/example/testbbl/service/UserService.java:55-59 | `Ok` exactly when a user has the identifier, and then it is that user's transfer object. Otherwise `NotFound(id)` |
| UserService.CreateUser | src/main/java/com/example/testbbl/service/UserService.java:61-74 | an email already present ignoring case gives `Conflict` and no save. A save refused for integrity also gives `Conflict`, and any other refused save gives `StoreFailure`. Every failure leaves the store unchanged. On success the store gains exactly one user at the end: the request's fields under the fresh identifier, whatever identifier the request carried. All earlier users are unchanged and the store's identifiers stay distinct |
| UserService.SaveMerged | src/main/java/com/example/testbbl/service/UserService.java:87-93 | success needs an accepted save. It returns the merge's transfer object, keeps the length and counter, and puts the merged user in the slot holding its identifier, with every other user unchanged. An integrity refusal becomes `Conflict`, another refusal becomes `StoreFailure`, and neither changes the store |
| UserService.UpdateUser | src/main/java/com/example/testbbl/service/UserService.java:76-99 | `NotFound(id)` exactly when no user has `id`. Every failure leaves the store unchanged. With a stored user, an integrity refusal is `Conflict`. Success needs an accepted save and returns the merge of the patch onto the stored user. Identifiers stay distinct |
| UserService.DeleteUser | src/main/java/com/example/testbbl/service/UserService.java:101-107 | an absent identifier gives `NotFound(id)` and the store is unchanged. Otherwise exactly that user is removed, every other user stays in order, and none with the identifier remains |
| UserServiceProperties.CreateThenGet | src/main/java/com/example/testbbl/service/UserService.java:61-74 | a successful create returns the request with the store-assigned identifier in place of its own. Looking up that identifier afterwards returns the same |
| UserServiceProperties.CreateKeepsEmailsUnique | src/main/java/com/example/testbbl/service/UserService.java:62-69 | if emails are unique ignoring case before a create, they are unique after it, whatever the save does |
| UserServiceProperties.UpdateConflictIffEmailHeldByOther | src/main/java/com/example/testbbl/service/UserService.java:80-86 | with unique emails and a stored `id`, an update is a `Conflict` exactly when another user holds the patch's email (ignoring case) or the save is refused for integrity. Re-using one's own email is never a conflict |
| UserServiceProperties.UpdateChangesOnlyTarget | src/main/java/com/example/testbbl/service/UserService.java:86-94 | when the patch keeps the identifier, a successful update replaces only the user stored under `id`, by the merge of the patch onto it. Every other user, the order and the counter are unchanged |
| UserServiceProperties.UpdateThenGet | src/main/java/com/example/testbbl/service/UserService.java:76-99 | when the patch keeps the identifier, a lookup after a successful update returns what the update returned |
| UserServiceProperties.UpdateKeepsEmailsUnique | src/main/java/com/example/testbbl/service/UserService.java:80-94 | when the patch keeps the identifier, an update keeps emails unique ignoring case |
| UserServiceProperties.DeleteThenGet | src/main/java/com/example/testbbl/service/UserService.java:101-107 | after a delete, looking up the identifier gives `NotFound` |
| UserServiceProperties.DeleteKeepsEmailsUnique | src/main/java/com/example/testbbl/service/UserService.java:101-104 | a delete keeps emails unique |
| UserServiceProperties.UserOnItsPage | src/main/java/com/example/testbbl/service/UserService.java:30-39 | for every page size, the user at position `i` is listed on page `i / size` at offset `i % size`, so paging misses no user |
| Pagination.CeilDiv | src/main/java/com/example/testbbl/dto/PaginationInfo.java:21 | the page count `q` is the least number of pages holding `total`: `total <= q*size`, `(q-1)*size < total` when `total > 0`, and `q == 0` when `total == 0` |
| Pagination.Of | src/main/java/com/example/testbbl/dto/PaginationInfo.java:20-30 | page, size and total are echoed. The page count is the ceiling of `total/size`. `hasPrevious` holds iff `page > 0`. `hasNext` holds iff elements remain past this page, `(page+1)*size < total` |
| Pagination.TotalPagesIsIntegerCeiling | src/main/java/com/example/testbbl/dto/PaginationInfo.java:21 | the page count equals `(total + size - 1) / size` |
| Pagination.HasNextBoundaries | src/main/java/com/example/testbbl/dto/PaginationInfo.java:27 | `hasNext` is `page < totalPages - 1`, so it implies a following page. It is false on and past the last page, and for an empty collection at page -1 or later |
| UserMapper.ToDto | src/main/java/com/example/testbbl/mapper/UserMapper.java:13 | all six fields are copied unchanged |
| UserMapper.ToEntity | src/main/java/com/example/testbbl/mapper/UserMapper.java:15 | all six fields are copied unchanged |
| UserMapper.UpdateEntityFromDto | src/main/java/com/example/testbbl/mapper/UserMapper.java:17-18 | each non-null patch field, the identifier included, overwrites the entity's field. Each null patch field leaves it unchanged |
| UserMapper.EntityRoundTrip | src/main/java/com/example/testbbl/mapper/UserMapper.java:13-15 | `toEntity(toDto(u)) == u` |
| UserMapper.DtoRoundTrip | src/main/java/com/example/testbbl/mapper/UserMapper.java:13-15 | `toDto(toEntity(d)) == d` for a body with the required fields |
| UserMapper.EmptyPatchIsNoOp | src/main/java/com/example/testbbl/mapper/UserMapper.java:17 | merging an all-null patch changes nothing |
| UserMapper.MergeIdempotent | src/main/java/com/example/testbbl/mapper/UserMapper.java:17-18 | merging the same patch twice equals merging it once |
| UserMapper.FullPatchIsToEntity | src/main/java/com/example/testbbl/mapper/UserMapper.java:15-18 | merging a patch with every field present yields `toEntity(patch)`, whatever the entity was |
| UserMapper.MergeNeverClears | src/main/java/com/example/testbbl/mapper/UserMapper.java:17 | a merge never sets a present identifier, phone or website back to null |
| UserRepository.IndexOfId | src/main/java/com/example/testbbl/repository/UserRepository.java:9 | the position found holds the identifier and no earlier position does. None means no position does |
| UserRepository.IndexOfEmail | src/main/java/com/example/testbbl/repository/UserRepository.java:11 | the position found holds the email ignoring case and no earlier position does. None means no position does |
| UserRepository.FindAll | src/main/java/com/example/testbbl/service/UserService.java:35 | every stored user once, in store order |
| UserRepository.Count | src/main/java/com/example/testbbl/service/UserService.java:45 | the number of users `findAll` yields from the same store |
| UserRepository.FindById | src/main/java/com/example/testbbl/repository/UserRepository.java:9 | a stored user with the identifier, exactly when one exists |
| UserRepository.ExistsById | src/main/java/com/example/testbbl/repository/UserRepository.java:9 | true exactly when a stored user has the identifier |
| UserRepository.ExistsByEmailIgnoreCase | src/main/java/com/example/testbbl/repository/UserRepository.java:10 | true exactly when a stored user's email matches ignoring case |
| UserRepository.FindByEmailIgnoreCase | src/main/java/com/example/testbbl/repository/UserRepository.java:11 | a stored user whose email matches ignoring case, exactly when one exists |
| UserRepository.Save | src/main/java/com/example/testbbl/repository/UserRepository.java:9 | a refused save changes nothing. Without an identifier the user is appended under the counter's fresh identifier. With a stored identifier that user is replaced in place and nothing else changes. Identifiers stay distinct and below the counter |
| UserRepository.DeleteById | src/main/java/com/example/testbbl/repository/UserRepository.java:9 | removes exactly the position holding the identifier and keeps every other user in order. An absent identifier changes nothing |
| UpdateKeepingId.ForeignIdInPatchOverwritesAnotherUser | src/main/java/com/example/testbbl/service/UserService.java:88-89 | in a store with users 1 and 2, updating user 1 with the complete body `{id: 2, name: Ann, username: ann, email: zed@example.com}` succeeds. Emails stay unique, so an email index would not refuse the save. Yet user 1 is left as it was, user 2 is replaced by the merged user, and a lookup of user 1 does not return what the update returned |
| UpdateKeepingId.UpdateUserKeepingId | src/main/java/com/example/testbbl/service/UserService.java:76-99 | the update with the body's identifier ignored. It reports `NotFound` exactly when `id` is absent. Failures change nothing, a conflict carries the request's email, and identifiers stay distinct |
| UpdateKeepingId.UpdateKeepingIdChangesOnlyTarget | src/main/java/com/example/testbbl/service/UserService.java:86-94 | whatever identifier the body carries, a successful update replaces only the user under `id`, by the merge with its identifier kept. Every other user, the order and the counter are unchanged. A lookup of `id` then returns what the update returned |
| UpdateKeepingId.UpdateKeepingIdKeepsEmailsUnique | src/main/java/com/example/testbbl/service/UserService.java:80-94 | with unique emails to start with, they stay unique. On a stored user the update is a conflict exactly when another user holds the body's email ignoring case, or the save is refused for integrity |

## Left out

- The stream operators `skip` and `take` reject a negative count with an error. The model excludes it by a precondition instead, and the listing never passes one.
- Asynchrony (`Mono`/`Flux` composition, `flatMap`, `switchIfEmpty`, `onErrorMap`) is modelled as sequential steps over one store value.
- Concurrency is left out. The race between the email pre-check and `save` appears only as the `Fault` argument of `save`. Listing reads the count and the data from the same store value, so the count/page consistency of `GetAllUsersWithPagination` holds for sequential use only.
- Failures of reads (`findAll`, `count`, `findById`, `existsById`, the email lookups) and of `deleteById` are not modelled. The service passes them on unchanged. Only `save` can fail.
- `save` of an identifier the store does not hold is modelled as a store failure, the outcome of an update that matches no row.
- When emails are not unique, `findByEmailIgnoreCase` returns the first match in store order. A real store would report an error instead.
- The controller, the exception handler and the response envelope are HTTP glue. Error messages are modelled by the identifier or email the error carries, not by strings.
- Bean validation is framework-enforced. `UserService.CreateUser` requires name, username and email to be present, as `@NotNull` on the body and the entity demands. Update accepts any patch, as the service does.
- `PaginationInfo.of` divides as `double` and casts to `int`. The model uses exact integer ceiling division, assuming totals below 2^53 and page counts that fit an `int`. Page and size are unbounded integers. The skip is computed as a `long` in the source, so it cannot overflow there either.
- `equalsIgnoreCase` and the store's `IgnoreCase` queries are modelled by one ASCII case fold. Unicode case mapping is not modelled.
- Pagination.HasNextBoundaries: "no next page for an empty collection" is stated only for page -1 or later. `of` itself reports a next page of an empty collection for smaller pages. The service clamps the page to 0 or more first.
- UserServiceProperties.UpdateChangesOnlyTarget: requires the patch to carry no identifier or the one updated. See the finding below for the general case.
- UserServiceProperties.UpdateThenGet: requires the patch to keep the identifier, for the same reason.
- UserServiceProperties.UpdateKeepsEmailsUnique: requires the patch to keep the identifier, for the same reason.

## Findings

| source | as written | input that shows it | evidently intended | confidence | as-written member | corrected member |
|---|---|---|---|---|---|---|
| src/main/java/com/example/testbbl/service/UserService.java:88-89 | the null-ignoring merge copies a non-null `id` from the update body onto the stored user, and `save` then writes it under that identifier | store holds users 1 (Ann) and 2 (Bob); update user 1 with the complete body `{id: 2, name: Ann, username: ann, email: zed@example.com}`. The update succeeds, user 1 is unchanged, and Bob's record is replaced by the merged user. The new email is held by no one, so a unique email index would not refuse the save | the identifier is never taken from the body, so only user 1 can change | low, not executed. `UpdateUserRequest` and `updateEntityFromRequest`, which the service names, are not part of this model. The finding holds for the `UserDto` body the controller passes and the shown `updateEntityFromDto` | UpdateKeepingId.ForeignIdInPatchOverwritesAnotherUser | UpdateKeepingId.UpdateUserKeepingId |
