/** The store the service talks to: an ordered collection of users (the
    order `findAll` yields) plus the counter the store draws fresh
    identifiers from. Every operation is a pure function of the store. */
module UserRepository {
  import opened Model
  import opened CaseFold

  datatype Store = Store(users: seq<User>, nextId: int)

  /** Every stored user has an identifier below the counter, and no two
      stored users share one. */
  predicate Valid(s: Store)
  {
    && (forall i :: 0 <= i < |s.users| ==> s.users[i].id.Some? && s.users[i].id.value < s.nextId)
    && (forall i, j :: 0 <= i < j < |s.users| ==> s.users[i].id != s.users[j].id)
  }

  /** No two stored users have emails that are equal ignoring case. */
  predicate UniqueEmails(s: Store)
  {
    forall i, j :: 0 <= i < j < |s.users| ==> !CiEq(s.users[i].email, s.users[j].email)
  }

  /** Some stored user has identifier `id`. */
  predicate HasId(s: Store, id: int)
  {
    exists i :: 0 <= i < |s.users| && s.users[i].id == Some(id)
  }

  /** Some stored user has an email equal to `email` ignoring case. */
  predicate HasEmail(s: Store, email: string)
  {
    exists i :: 0 <= i < |s.users| && CiEq(s.users[i].email, email)
  }

  /** The position of the first user with identifier `id`, if any. */
  function IndexOfId(users: seq<User>, id: int): (r: Option<nat>)
    ensures r.Some? ==> r.value < |users| && users[r.value].id == Some(id)
    ensures r.Some? ==> forall j :: 0 <= j < r.value ==> users[j].id != Some(id)
    ensures r.None? ==> forall j :: 0 <= j < |users| ==> users[j].id != Some(id)
  {
    if |users| == 0 then None
    else if users[0].id == Some(id) then Some(0)
    else match IndexOfId(users[1..], id)
      case None => None
      case Some(k) => Some(k + 1)
  }

  /** The position of the first user whose email matches ignoring case. */
  function IndexOfEmail(users: seq<User>, email: string): (r: Option<nat>)
    ensures r.Some? ==> r.value < |users| && CiEq(users[r.value].email, email)
    ensures r.Some? ==> forall j :: 0 <= j < r.value ==> !CiEq(users[j].email, email)
    ensures r.None? ==> forall j :: 0 <= j < |users| ==> !CiEq(users[j].email, email)
  {
    if |users| == 0 then None
    else if CiEq(users[0].email, email) then Some(0)
    else match IndexOfEmail(users[1..], email)
      case None => None
      case Some(k) => Some(k + 1)
  }

  /** In a valid store, a user with identifier `id` sits at one position only. */
  lemma IdAtUniquePosition(s: Store, id: int, i: int)
    requires Valid(s)
    requires 0 <= i < |s.users| && s.users[i].id == Some(id)
    ensures IndexOfId(s.users, id) == Some(i)
  {
  }

  /** `findAll`: every stored user once, in store order. */
  function FindAll(s: Store): (r: seq<User>)
    ensures |r| == |s.users|
    ensures forall i :: 0 <= i < |r| ==> r[i] == s.users[i]
  {
    s.users
  }

  /** `count`: as many as `findAll` yields from the same store. */
  function Count(s: Store): (n: nat)
    ensures n == |FindAll(s)|
  {
    |s.users|
  }

  /** `findById`: the user with identifier `id`, or nothing. */
  function FindById(s: Store, id: int): (r: Option<User>)
    ensures r.Some? <==> HasId(s, id)
    ensures r.Some? ==> r.value in s.users && r.value.id == Some(id)
  {
    match IndexOfId(s.users, id)
    case None => None
    case Some(i) => Some(s.users[i])
  }

  /** `existsById`. */
  function ExistsById(s: Store, id: int): (b: bool)
    ensures b <==> HasId(s, id)
  {
    IndexOfId(s.users, id).Some?
  }

  /** `existsByEmailIgnoreCase`. */
  function ExistsByEmailIgnoreCase(s: Store, email: string): (b: bool)
    ensures b <==> HasEmail(s, email)
  {
    IndexOfEmail(s.users, email).Some?
  }

  /** `findByEmailIgnoreCase`: a user whose email matches ignoring case
      (the first in store order), or nothing. */
  function FindByEmailIgnoreCase(s: Store, email: string): (r: Option<User>)
    ensures r.Some? <==> HasEmail(s, email)
    ensures r.Some? ==> r.value in s.users && CiEq(r.value.email, email)
  {
    match IndexOfEmail(s.users, email)
    case None => None
    case Some(i) => Some(s.users[i])
  }

  /** How the store answers a `save`: it accepts it, or it refuses it with
      an integrity violation (a unique-index clash raced in by another
      writer) or with any other failure. */
  datatype Fault = NoFault | IntegrityViolation | OtherFailure

  datatype SaveResult = Saved(user: User) | IntegrityError | StoreError

  /** `save`: with no identifier, insert under a fresh one at the end; with
      an identifier the store holds, replace that user in place; with an
      identifier the store does not hold, fail (an update that matches no
      row). A refused save leaves the store as it was. */
  function Save(s: Store, u: User, fault: Fault): (r: (SaveResult, Store))
    ensures fault.IntegrityViolation? ==> r == (IntegrityError, s)
    ensures !r.0.Saved? ==> r.1 == s
    ensures r.0.Saved? <==> fault.NoFault? && (u.id.None? || HasId(s, u.id.value))
    ensures r.0.Saved? && u.id.None? ==>
      && r.0.user == u.(id := Some(s.nextId))
      && r.1 == Store(s.users + [r.0.user], s.nextId + 1)
    ensures r.0.Saved? && u.id.Some? ==>
      && r.0.user == u
      && r.1.nextId == s.nextId
      && |r.1.users| == |s.users|
      && (Valid(s) ==> forall j :: 0 <= j < |s.users| ==>
            r.1.users[j] == (if s.users[j].id == u.id then u else s.users[j]))
    ensures Valid(s) ==> Valid(r.1)
  {
    match fault
    case IntegrityViolation => (IntegrityError, s)
    case OtherFailure => (StoreError, s)
    case NoFault =>
      if u.id.None? then
        var v := u.(id := Some(s.nextId));
        (Saved(v), Store(s.users + [v], s.nextId + 1))
      else
        match IndexOfId(s.users, u.id.value)
        case None => (StoreError, s)
        case Some(i) =>
          assert Valid(s) ==> forall j :: 0 <= j < |s.users| && j != i ==> s.users[j].id != u.id;
          (Saved(u), Store(s.users[i := u], s.nextId))
  }

  /** The users left after removing position `i`: every other user, in order. */
  lemma RemoveAt(s: Store, i: nat, r: Store)
    requires i < |s.users| && r.users == s.users[..i] + s.users[i + 1..]
    ensures |r.users| == |s.users| - 1
    ensures forall j :: 0 <= j < |r.users| ==> r.users[j] == s.users[if j < i then j else j + 1]
    ensures forall j :: 0 <= j < |s.users| && j != i ==> s.users[j] in r.users
  {
    forall j | 0 <= j < |s.users| && j != i
      ensures s.users[j] in r.users
    {
      assert r.users[if j < i then j else j - 1] == s.users[j];
    }
  }

  /** `deleteById`: remove the user with identifier `id`; nothing happens
      when there is none. */
  function DeleteById(s: Store, id: int): (r: Store)
    ensures !HasId(s, id) ==> r == s
    ensures HasId(s, id) ==>
      exists i :: 0 <= i < |s.users| && s.users[i].id == Some(id) && r.users == s.users[..i] + s.users[i + 1..]
    ensures HasId(s, id) ==> |r.users| == |s.users| - 1
    ensures r.nextId == s.nextId
    ensures forall u :: u in r.users ==> u in s.users
    ensures forall u :: u in s.users && u.id != Some(id) ==> u in r.users
    ensures Valid(s) ==> Valid(r) && !HasId(r, id)
  {
    match IndexOfId(s.users, id)
    case None => s
    case Some(i) =>
      var r := Store(s.users[..i] + s.users[i + 1..], s.nextId);
      RemoveAt(s, i, r);
      r
  }
}
