/** The user service: listing (plain and with page metadata), lookup,
    create, partial update and delete, each a pure function of the store.
    Reads return only their result; writes return the result together with
    the store after the call. */
module UserService {
  import opened Model
  import opened CaseFold
  import opened Stream
  import opened Pagination
  import opened UserMapper
  import opened UserRepository

  /** What an operation reports: its value, or one of the domain errors.
      `NotFound` carries the identifier asked for, `Conflict` the email of
      the request (which may be null on an update). */
  datatype Result<+T> = Ok(value: T) | NotFound(id: int) | Conflict(email: Option<string>) | StoreFailure

  datatype PagedResult = PagedResult(data: seq<UserDto>, pagination: PaginationInfo)

  /** Every user mapped to its transfer object, in order. */
  function ToDtos(users: seq<User>): (r: seq<UserDto>)
    ensures |r| == |users|
    ensures forall k :: 0 <= k < |users| ==> r[k] == ToDto(users[k])
  {
    seq(|users|, k requires 0 <= k < |users| => ToDto(users[k]))
  }

  /** `getAllUsers`: with the size clamped to at least 1 and the page to at
      least 0, the users from position `page * size` on, at most `size` of
      them, in store order. */
  function GetAllUsers(s: Store, page: int, size: int): (r: seq<UserDto>)
    ensures var safeSize := Max(1, size);
      var skip := Max(0, page) * safeSize;
      && |r| == Min(safeSize, Max(0, |s.users| - skip))
      && forall k :: 0 <= k < |r| ==> r[k] == ToDto(s.users[skip + k])
  {
    var safeSize := Max(1, size);
    var safePage := Max(0, page);
    var skip := safePage * safeSize;
    assert skip >= 0;
    var rest := Skip(FindAll(s), skip);
    assert |rest| == Max(0, |s.users| - skip);
    assert forall k :: 0 <= k < |rest| ==> rest[k] == s.users[skip + k];
    ToDtos(Take(rest, safeSize))
  }

  /** `getAllUsersWithPagination`: the plain listing together with the page
      metadata for the clamped page and size. Within one call the count and
      the page agree: the page holds users exactly when it is one of the
      counted pages, and it is full whenever another page follows. */
  function GetAllUsersWithPagination(s: Store, page: int, size: int): (r: PagedResult)
    ensures r.pagination == Of(Max(0, page), Max(1, size), |s.users|)
    ensures r.pagination.page == Max(0, page) && r.pagination.size == Max(1, size)
    ensures r.pagination.totalElements == |s.users|
    ensures r.data == GetAllUsers(s, page, size)
    ensures |r.data| > 0 <==> r.pagination.page < r.pagination.totalPages
    ensures r.pagination.hasNext ==> |r.data| == r.pagination.size
  {
    var safeSize := Max(1, size);
    var safePage := Max(0, page);
    var total := Count(s);
    var pagination := Of(safePage, safeSize, total);
    var users := GetAllUsers(s, safePage, safeSize);
    PageAgreesWithCount(total, safePage, safeSize);
    PagedResult(users, pagination)
  }

  /** A page of `Min(size, Max(0, total - page * size))` elements is
      non-empty exactly when `page` is one of the counted pages, and full
      whenever the metadata reports a next page. */
  lemma PageAgreesWithCount(total: nat, page: nat, size: int)
    requires size >= 1
    ensures var p := Of(page, size, total);
      var len := Min(size, Max(0, total - page * size));
      && (len > 0 <==> page < p.totalPages)
      && (p.hasNext ==> len == size)
  {
    var p := Of(page, size, total);
    MulMonotone(p.totalPages, page, size);
    MulMonotone(page, p.totalPages - 1, size);
    assert (page + 1) * size == page * size + size;
  }

  /** `getUserById`: the user with identifier `id`, or `NotFound(id)`. */
  function GetUserById(s: Store, id: int): (r: Result<UserDto>)
    ensures r.Ok? || r == NotFound(id)
    ensures r.Ok? <==> HasId(s, id)
    ensures r.Ok? ==> r.value.id == Some(id)
    ensures r.Ok? ==> exists u :: u in s.users && r.value == ToDto(u)
  {
    match FindById(s, id)
    case None => NotFound(id)
    case Some(u) => Ok(ToDto(u))
  }

  /** `createUser`: refuse an email some user already has (ignoring case)
      without saving; otherwise save the request as a new user, discarding
      any identifier the request carries. A save refused for an integrity
      violation is reported as the same conflict. */
  function CreateUser(s: Store, request: UserDto, fault: Fault): (r: (Result<UserDto>, Store))
    requires HasRequiredFields(request)
    ensures !r.0.Ok? ==> r.1 == s
    ensures HasEmail(s, request.email.value) ==> r.0 == Conflict(request.email)
    ensures r.0.Conflict? <==> HasEmail(s, request.email.value) || fault.IntegrityViolation?
    ensures r.0.Conflict? ==> r.0.email == request.email
    ensures r.0.StoreFailure? <==> !HasEmail(s, request.email.value) && fault.OtherFailure?
    ensures r.0.Ok? <==> !HasEmail(s, request.email.value) && fault.NoFault?
    ensures r.0.Ok? ==>
      var n := |s.users|;
      && |r.1.users| == n + 1
      && r.1.users[..n] == s.users
      && r.1.users[n] == ToEntity(request).(id := Some(s.nextId))
      && r.1.nextId == s.nextId + 1
      && r.0.value == ToDto(r.1.users[n])
    ensures Valid(s) ==> Valid(r.1)
  {
    if ExistsByEmailIgnoreCase(s, request.email.value) then
      (Conflict(request.email), s)
    else
      var entity := ToEntity(request).(id := None);
      match Save(s, entity, fault)
      case (Saved(u), s') => (Ok(ToDto(u)), s')
      case (IntegrityError, _) => (Conflict(request.email), s)
      case (StoreError, _) => (StoreFailure, s)
  }

  /** The patch carries no identifier, or the one being updated. */
  predicate PatchKeepsId(request: UserDto, id: int)
  {
    request.id.None? || request.id == Some(id)
  }

  /** The update's email check refuses the request: the patch names an
      email different (ignoring case) from the user's own, and the store's
      lookup finds it on a user with another identifier. */
  predicate EmailTakenByOther(s: Store, id: int, request: UserDto, existing: User)
  {
    && request.email.Some?
    && !CiEq(request.email.value, existing.email)
    && match FindByEmailIgnoreCase(s, request.email.value)
       case None => false
       case Some(found) => found.id != Some(id)
  }

  /** Merge the patch onto the stored user `existing` and save the result. */
  function SaveMerged(s: Store, request: UserDto, existing: User, fault: Fault): (r: (Result<UserDto>, Store))
    requires existing.id.Some?
    ensures !r.0.Ok? ==> r.1 == s
    ensures r.0.Conflict? <==> fault.IntegrityViolation?
    ensures r.0.Conflict? ==> r.0.email == request.email
    ensures fault.OtherFailure? ==> r.0.StoreFailure?
    ensures !r.0.NotFound?
    ensures r.0.Ok? ==> fault.NoFault?
    ensures r.0.Ok? ==> r.0.value == ToDto(UpdateEntityFromDto(request, existing))
    ensures r.0.Ok? ==>
      var merged := UpdateEntityFromDto(request, existing);
      && |r.1.users| == |s.users|
      && r.1.nextId == s.nextId
      && (Valid(s) ==> forall j :: 0 <= j < |s.users| ==>
            r.1.users[j] == (if s.users[j].id == merged.id then merged else s.users[j]))
    ensures Valid(s) ==> Valid(r.1)
  {
    var merged := UpdateEntityFromDto(request, existing);
    match Save(s, merged, fault)
    case (Saved(u), s') => (Ok(ToDto(u)), s')
    case (IntegrityError, _) => (Conflict(request.email), s)
    case (StoreError, _) => (StoreFailure, s)
  }

  /** `updateUser`: `NotFound(id)` without saving when no user has `id`;
      `Conflict` without saving when the email check finds the new email on
      another user; otherwise the null-ignoring merge of the patch onto the
      user, saved, with a refused-for-integrity save reported as
      `Conflict`. */
  function UpdateUser(s: Store, id: int, request: UserDto, fault: Fault): (r: (Result<UserDto>, Store))
    ensures !r.0.Ok? ==> r.1 == s
    ensures r.0.NotFound? <==> !HasId(s, id)
    ensures r.0.NotFound? ==> r.0.id == id
    ensures r.0.Conflict? ==> r.0.email == request.email
    ensures HasId(s, id) && fault.IntegrityViolation? ==> r.0.Conflict?
    ensures r.0.Ok? ==> fault.NoFault?
    ensures r.0.Ok? ==>
      exists e :: e in s.users && e.id == Some(id) && r.0.value == ToDto(UpdateEntityFromDto(request, e))
    ensures Valid(s) ==> Valid(r.1)
  {
    match FindById(s, id)
    case None => (NotFound(id), s)
    case Some(existing) =>
      if EmailTakenByOther(s, id, request, existing) then (Conflict(request.email), s)
      else SaveMerged(s, request, existing, fault)
  }

  /** `deleteUser`: `NotFound(id)` without deleting when no user has `id`;
      otherwise that one user is removed and every other stays, in order. */
  function DeleteUser(s: Store, id: int): (r: (Result<()>, Store))
    ensures r.0 == Ok(()) || r.0 == NotFound(id)
    ensures r.0.Ok? <==> HasId(s, id)
    ensures !HasId(s, id) ==> r.1 == s
    ensures HasId(s, id) ==>
      exists i :: 0 <= i < |s.users| && s.users[i].id == Some(id) && r.1.users == s.users[..i] + s.users[i + 1..]
    ensures r.1.nextId == s.nextId
    ensures Valid(s) ==> Valid(r.1) && !HasId(r.1, id)
  {
    if ExistsById(s, id) then (Ok(()), DeleteById(s, id)) else (NotFound(id), s)
  }
}
