/** Properties relating several service calls, or a call to an invariant
    of the store: emails stay unique across create, update and delete; a
    successful update touches one user only; a conflict on update means
    exactly that another user holds the email; and what create, update and
    delete do is what a following lookup sees. */
module UserServiceProperties {
  import opened Model
  import opened CaseFold
  import opened UserMapper
  import opened UserRepository
  import opened UserService
  import opened Stream
  import Pagination

  /** A successful create appends the request, with the store's fresh
      identifier in place of whatever the request carried, and a lookup of
      that identifier returns it. */
  lemma CreateThenGet(s: Store, request: UserDto)
    requires Valid(s) && HasRequiredFields(request)
    requires CreateUser(s, request, NoFault).0.Ok?
    ensures var c := CreateUser(s, request, NoFault);
      && c.0 == Ok(request.(id := Some(s.nextId)))
      && GetUserById(c.1, s.nextId) == c.0
  {
    var c := CreateUser(s, request, NoFault);
    var n := |s.users|;
    DtoRoundTrip(request);
    IdAtUniquePosition(c.1, s.nextId, n);
  }

  /** With unique emails to start with, a create keeps them unique. */
  lemma CreateKeepsEmailsUnique(s: Store, request: UserDto, fault: Fault)
    requires HasRequiredFields(request) && UniqueEmails(s)
    ensures UniqueEmails(CreateUser(s, request, fault).1)
  {
    var c := CreateUser(s, request, fault);
    if c.0.Ok? {
      var n := |s.users|;
      var us := c.1.users;
      forall i, j | 0 <= i < j < |us|
        ensures !CiEq(us[i].email, us[j].email)
      {
        assert us[i] == us[..n][i] == s.users[i];
        if j < n {
          assert us[j] == us[..n][j] == s.users[j];
        } else {
          assert us[j].email == request.email.value;
        }
      }
    }
  }

  /** Some user other than `id` has an email equal to `email` ignoring case. */
  predicate HeldByOther(s: Store, id: int, email: string)
  {
    exists j :: 0 <= j < |s.users| && s.users[j].id != Some(id) && CiEq(s.users[j].email, email)
  }

  /** With unique emails, an update of an existing user is a conflict
      exactly when the patch's email is held (ignoring case) by another
      user, or the save is refused for an integrity violation. Changing the
      email to one the same user already holds is never a conflict. */
  lemma UpdateConflictIffEmailHeldByOther(s: Store, id: int, request: UserDto, fault: Fault)
    requires Valid(s) && UniqueEmails(s) && HasId(s, id)
    ensures UpdateUser(s, id, request, fault).0.Conflict? <==>
      (request.email.Some? && HeldByOther(s, id, request.email.value)) || fault.IntegrityViolation?
  {
    var i := IndexOfId(s.users, id).value;
    var existing := s.users[i];
    assert FindById(s, id) == Some(existing);
    if request.email.Some? {
      var e := request.email.value;
      if HeldByOther(s, id, e) {
        var j :| 0 <= j < |s.users| && s.users[j].id != Some(id) && CiEq(s.users[j].email, e);
        assert j != i;
        assert !CiEq(s.users[j].email, existing.email) by {
          if j < i {
            assert !CiEq(s.users[j].email, s.users[i].email);
          } else {
            assert !CiEq(s.users[i].email, s.users[j].email);
          }
        }
        assert !CiEq(e, existing.email);
        var k := IndexOfEmail(s.users, e).value;
        assert k == j;
        assert EmailTakenByOther(s, id, request, existing);
      }
    }
  }

  /** When the patch keeps the identifier, a successful update rewrites the
      one user stored under `id` to the merge of the patch onto it, and
      leaves every other user, the order and the identifier counter as
      they were. */
  lemma UpdateChangesOnlyTarget(s: Store, id: int, request: UserDto, fault: Fault)
    requires Valid(s) && PatchKeepsId(request, id)
    requires UpdateUser(s, id, request, fault).0.Ok?
    ensures var u := UpdateUser(s, id, request, fault);
      && |u.1.users| == |s.users|
      && u.1.nextId == s.nextId
      && (forall j :: 0 <= j < |s.users| && s.users[j].id != Some(id) ==> u.1.users[j] == s.users[j])
      && (forall j :: 0 <= j < |s.users| && s.users[j].id == Some(id) ==>
            u.1.users[j] == UpdateEntityFromDto(request, s.users[j]) && u.0.value == ToDto(u.1.users[j]))
  {
    var i := IndexOfId(s.users, id).value;
    var existing := s.users[i];
    assert FindById(s, id) == Some(existing);
    var merged := UpdateEntityFromDto(request, existing);
    assert merged.id == Some(id);
    assert HasId(s, id);
    forall j | 0 <= j < |s.users| && s.users[j].id == Some(id)
      ensures j == i
    {
      IdAtUniquePosition(s, id, j);
    }
  }

  /** When the patch keeps the identifier, a lookup after a successful
      update returns what the update returned. */
  lemma UpdateThenGet(s: Store, id: int, request: UserDto, fault: Fault)
    requires Valid(s) && PatchKeepsId(request, id)
    requires UpdateUser(s, id, request, fault).0.Ok?
    ensures var u := UpdateUser(s, id, request, fault);
      GetUserById(u.1, id) == u.0
  {
    var u := UpdateUser(s, id, request, fault);
    UpdateChangesOnlyTarget(s, id, request, fault);
    var i := IndexOfId(s.users, id).value;
    IdAtUniquePosition(u.1, id, i);
  }

  /** With unique emails to start with, an update whose patch keeps the
      identifier keeps them unique. */
  lemma UpdateKeepsEmailsUnique(s: Store, id: int, request: UserDto, fault: Fault)
    requires Valid(s) && UniqueEmails(s) && PatchKeepsId(request, id)
    ensures UniqueEmails(UpdateUser(s, id, request, fault).1)
  {
    var u := UpdateUser(s, id, request, fault);
    if u.0.Ok? {
      UpdateChangesOnlyTarget(s, id, request, fault);
      UpdateConflictIffEmailHeldByOther(s, id, request, fault);
      var i := IndexOfId(s.users, id).value;
      var merged := UpdateEntityFromDto(request, s.users[i]);
      assert u.1.users[i] == merged;
      forall j | 0 <= j < |s.users| && j != i
        ensures u.1.users[j] == s.users[j]
        ensures !CiEq(s.users[j].email, merged.email)
      {
        assert s.users[j].id != s.users[i].id by {
          if j < i {} else {}
        }
        if request.email.None? {
          if j < i {
            assert !CiEq(s.users[j].email, s.users[i].email);
          } else {
            assert !CiEq(s.users[i].email, s.users[j].email);
          }
        } else {
          assert !HeldByOther(s, id, request.email.value);
        }
      }
      forall a, b | 0 <= a < b < |u.1.users|
        ensures !CiEq(u.1.users[a].email, u.1.users[b].email)
      {
        if a != i && b != i {
          assert !CiEq(s.users[a].email, s.users[b].email);
        }
      }
    }
  }

  /** A lookup after a delete finds nothing under the deleted identifier,
      whether or not it was there. */
  lemma DeleteThenGet(s: Store, id: int)
    requires Valid(s)
    ensures GetUserById(DeleteUser(s, id).1, id) == NotFound(id)
  {
  }

  /** Removing one position keeps emails unique: the users left are a
      subsequence of the users before. */
  lemma RemoveAtKeepsEmailsUnique(s: Store, i: int, t: Store)
    requires UniqueEmails(s)
    requires 0 <= i < |s.users| && t.users == s.users[..i] + s.users[i + 1..]
    ensures UniqueEmails(t)
  {
    forall a, b | 0 <= a < b < |t.users|
      ensures !CiEq(t.users[a].email, t.users[b].email)
    {
      var a' := if a < i then a else a + 1;
      var b' := if b < i then b else b + 1;
      assert t.users[a] == s.users[a'];
      assert t.users[b] == s.users[b'];
    }
  }

  /** Deleting keeps emails unique. */
  lemma DeleteKeepsEmailsUnique(s: Store, id: int)
    requires UniqueEmails(s)
    ensures UniqueEmails(DeleteUser(s, id).1)
  {
    var d := DeleteUser(s, id);
    if HasId(s, id) {
      var i :| 0 <= i < |s.users| && s.users[i].id == Some(id) && d.1.users == s.users[..i] + s.users[i + 1..];
      RemoveAtKeepsEmailsUnique(s, i, d.1);
    }
  }

  /** Euclidean division of a position by a page size. */
  lemma PositionOnPage(i: nat, size: int)
    requires size >= 1
    ensures i / size >= 0 && 0 <= i % size < size
    ensures (i / size) * size + i % size == i
  {
    var p := i / size;
    if p < 0 {
      Pagination.MulMonotone(p, -1, size);
    }
  }

  /** Paging covers the store: the user at position `i` is listed on page
      `i / size`, at offset `i % size`. */
  lemma UserOnItsPage(s: Store, i: int, size: int)
    requires 0 <= i < |s.users| && size >= 1
    ensures var page := GetAllUsers(s, i / size, size);
      i % size < |page| && page[i % size] == ToDto(s.users[i])
  {
    PositionOnPage(i, size);
    var p, offset := i / size, i % size;
    var skip := p * size;
    assert Max(0, p) * Max(1, size) == skip;
    assert skip + offset == i;
    var page := GetAllUsers(s, p, size);
    assert |page| == Min(size, Max(0, |s.users| - skip));
    assert page[offset] == ToDto(s.users[skip + offset]);
  }
}
