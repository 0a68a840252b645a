/** The field copies between `User` and `UserDto`, and the partial merge
    that ignores null fields of the transfer object. */
module UserMapper {
  import opened Model

  /** Entity to transfer object: all six fields copied. */
  function ToDto(u: User): (d: UserDto)
    ensures d.id == u.id && d.phone == u.phone && d.website == u.website
    ensures d.name == Some(u.name) && d.username == Some(u.username) && d.email == Some(u.email)
  {
    UserDto(u.id, Some(u.name), Some(u.username), Some(u.email), u.phone, u.website)
  }

  /** The required fields of a transfer object are present, as bean
      validation demands of a create body. */
  predicate HasRequiredFields(d: UserDto)
  {
    d.name.Some? && d.username.Some? && d.email.Some?
  }

  /** Transfer object to entity: all six fields copied. */
  function ToEntity(d: UserDto): (u: User)
    requires HasRequiredFields(d)
    ensures u.id == d.id && u.phone == d.phone && u.website == d.website
    ensures Some(u.name) == d.name && Some(u.username) == d.username && Some(u.email) == d.email
  {
    User(d.id, d.name.value, d.username.value, d.email.value, d.phone, d.website)
  }

  /** The value a field takes after a null-ignoring copy. */
  function Patch<T>(incoming: Option<T>, current: T): T
  {
    match incoming
    case Some(v) => v
    case None => current
  }

  /** `updateEntityFromDto` under the IGNORE null-value strategy: each
      non-null field of `d` (the identifier included) replaces the entity's
      field, each null field leaves it as it was. */
  function UpdateEntityFromDto(d: UserDto, e: User): (u: User)
    ensures d.id.Some? ==> u.id == d.id
    ensures d.name.Some? ==> u.name == d.name.value
    ensures d.username.Some? ==> u.username == d.username.value
    ensures d.email.Some? ==> u.email == d.email.value
    ensures d.phone.Some? ==> u.phone == d.phone
    ensures d.website.Some? ==> u.website == d.website
    ensures d.id.None? ==> u.id == e.id
    ensures d.name.None? ==> u.name == e.name
    ensures d.username.None? ==> u.username == e.username
    ensures d.email.None? ==> u.email == e.email
    ensures d.phone.None? ==> u.phone == e.phone
    ensures d.website.None? ==> u.website == e.website
  {
    User(
      if d.id.Some? then d.id else e.id,
      Patch(d.name, e.name),
      Patch(d.username, e.username),
      Patch(d.email, e.email),
      if d.phone.Some? then d.phone else e.phone,
      if d.website.Some? then d.website else e.website)
  }

  /** A transfer object with every field null. */
  const EmptyPatch: UserDto := UserDto(None, None, None, None, None, None)

  /** Copying an entity out and back in gives the same entity. */
  lemma EntityRoundTrip(u: User)
    ensures HasRequiredFields(ToDto(u))
    ensures ToEntity(ToDto(u)) == u
  {
  }

  /** Copying a complete transfer object in and back out gives the same
      transfer object. */
  lemma DtoRoundTrip(d: UserDto)
    requires HasRequiredFields(d)
    ensures ToDto(ToEntity(d)) == d
  {
  }

  /** An all-null patch changes nothing. */
  lemma EmptyPatchIsNoOp(e: User)
    ensures UpdateEntityFromDto(EmptyPatch, e) == e
  {
  }

  /** Applying the same patch twice is the same as applying it once. */
  lemma MergeIdempotent(d: UserDto, e: User)
    ensures UpdateEntityFromDto(d, UpdateEntityFromDto(d, e)) == UpdateEntityFromDto(d, e)
  {
  }

  /** A patch with every field present replaces the entity wholesale: the
      result is the patch's own entity, whatever was there before. */
  lemma FullPatchIsToEntity(d: UserDto, e: User)
    requires HasRequiredFields(d) && d.id.Some? && d.phone.Some? && d.website.Some?
    ensures UpdateEntityFromDto(d, e) == ToEntity(d)
  {
  }

  /** The merge can set an optional field but never clear it back to null. */
  lemma MergeNeverClears(d: UserDto, e: User)
    ensures e.id.Some? ==> UpdateEntityFromDto(d, e).id.Some?
    ensures e.phone.Some? ==> UpdateEntityFromDto(d, e).phone.Some?
    ensures e.website.Some? ==> UpdateEntityFromDto(d, e).website.Some?
  {
  }
}
