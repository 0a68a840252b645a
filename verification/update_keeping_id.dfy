/** The update as written copies a non-null identifier from the patch onto
    the stored user before saving, so a patch naming another user's
    identifier overwrites that other user. `UpdateUserKeepingId` is the
    update with the patch's identifier ignored, which keeps the user under
    the identifier it is updated by. */
module UpdateKeepingId {
  import opened Model
  import opened CaseFold
  import opened UserMapper
  import opened UserRepository
  import opened UserService
  import opened UserServiceProperties

  /** Updating user 1 with a complete, valid body that names identifier 2
      and a fresh email succeeds, yet leaves user 1 as it was and replaces
      user 2 by the merged user: user 2's own data is lost, and a lookup of
      user 1 does not return what the update returned. Emails stay unique,
      so a unique index on email would not refuse the save. */
  lemma ForeignIdInPatchOverwritesAnotherUser()
    ensures var ann := User(Some(1), "Ann", "ann", "ann@example.com", None, None);
      var bob := User(Some(2), "Bob", "bob", "bob@example.com", None, None);
      var s := Store([ann, bob], 3);
      var body := UserDto(Some(2), Some("Ann"), Some("ann"), Some("zed@example.com"), None, None);
      var u := UpdateUser(s, 1, body, NoFault);
      && Valid(s) && UniqueEmails(s) && HasRequiredFields(body)
      && u.0.Ok? && u.0.value.id == Some(2)
      && u.1.users == [ann, User(Some(2), "Ann", "ann", "zed@example.com", None, None)]
      && UniqueEmails(u.1)
      && GetUserById(u.1, 1) != u.0
  {
    var ann := User(Some(1), "Ann", "ann", "ann@example.com", None, None);
    var bob := User(Some(2), "Bob", "bob", "bob@example.com", None, None);
    var zed := User(Some(2), "Ann", "ann", "zed@example.com", None, None);
    var s := Store([ann, bob], 3);
    var body := UserDto(Some(2), Some("Ann"), Some("ann"), Some("zed@example.com"), None, None);
    // the lookup of user 1 and the email check, which finds no one
    assert IndexOfId(s.users, 1) == Some(0);
    assert FindById(s, 1) == Some(ann);
    assert !CiEq("zed@example.com", ann.email) by {
      assert Fold("zed@example.com")[0] != Fold(ann.email)[0];
    }
    assert !CiEq(bob.email, "zed@example.com") by {
      assert Fold(bob.email)[0] != Fold("zed@example.com")[0];
    }
    assert !CiEq(ann.email, "zed@example.com");
    assert FindByEmailIgnoreCase(s, "zed@example.com") == None;
    assert !EmailTakenByOther(s, 1, body, ann);
    // the merge takes the body's identifier, and the save finds it at user 2
    assert UpdateEntityFromDto(body, ann) == zed;
    assert IndexOfId(s.users, 2) == Some(1);
    assert s.users[1 := zed] == [ann, zed];
    assert Save(s, zed, NoFault) == (Saved(zed), Store([ann, zed], 3));
    assert SaveMerged(s, body, ann, NoFault) == (Ok(ToDto(zed)), Store([ann, zed], 3));
    var u := UpdateUser(s, 1, body, NoFault);
    assert u == (Ok(ToDto(zed)), Store([ann, zed], 3));
    assert UniqueEmails(s) by {
      assert Fold(ann.email)[0] != Fold(bob.email)[0];
    }
    assert UniqueEmails(u.1) by {
      assert Fold(ann.email)[0] != Fold(zed.email)[0];
    }
    assert GetUserById(u.1, 1) == Ok(ToDto(ann));
  }

  /** `updateUser` with the patch's identifier cleared before the merge. */
  function UpdateUserKeepingId(s: Store, id: int, request: UserDto, fault: Fault): (r: (Result<UserDto>, Store))
    ensures !r.0.Ok? ==> r.1 == s
    ensures r.0.NotFound? <==> !HasId(s, id)
    ensures r.0.Conflict? ==> r.0.email == request.email
    ensures Valid(s) ==> Valid(r.1)
  {
    UpdateUser(s, id, request.(id := None), fault)
  }

  /** Whatever identifier the patch carries, a successful update rewrites
      only the user stored under `id`, to the merge of the patch onto it
      with its identifier kept, and a lookup then returns what the update
      returned. */
  lemma UpdateKeepingIdChangesOnlyTarget(s: Store, id: int, request: UserDto, fault: Fault)
    requires Valid(s)
    requires UpdateUserKeepingId(s, id, request, fault).0.Ok?
    ensures var r := UpdateUserKeepingId(s, id, request, fault);
      && |r.1.users| == |s.users|
      && r.1.nextId == s.nextId
      && (forall j :: 0 <= j < |s.users| && s.users[j].id != Some(id) ==> r.1.users[j] == s.users[j])
      && (forall j :: 0 <= j < |s.users| && s.users[j].id == Some(id) ==>
            r.1.users[j] == UpdateEntityFromDto(request, s.users[j]).(id := Some(id)))
      && GetUserById(r.1, id) == r.0
  {
    var patch := request.(id := None);
    UpdateChangesOnlyTarget(s, id, patch, fault);
    UpdateThenGet(s, id, patch, fault);
  }

  /** With unique emails to start with, the update keeps them unique, and
      on a stored user it is a conflict exactly when another user holds the
      patch's email or the save is refused for integrity. */
  lemma UpdateKeepingIdKeepsEmailsUnique(s: Store, id: int, request: UserDto, fault: Fault)
    requires Valid(s) && UniqueEmails(s)
    ensures UniqueEmails(UpdateUserKeepingId(s, id, request, fault).1)
    ensures HasId(s, id) ==>
      (UpdateUserKeepingId(s, id, request, fault).0.Conflict? <==>
        (request.email.Some? && HeldByOther(s, id, request.email.value)) || fault.IntegrityViolation?)
  {
    var patch := request.(id := None);
    UpdateKeepsEmailsUnique(s, id, patch, fault);
    if HasId(s, id) {
      UpdateConflictIffEmailHeldByOther(s, id, patch, fault);
    }
  }
}
