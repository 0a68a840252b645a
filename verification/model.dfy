/** The record shapes of the user service: the persisted `User` entity and
    the `UserDto` transfer object. A Java reference that may be null is an
    `Option`. */
module Model {

  /** A nullable value: `None` stands for Java's null. */
  datatype Option<+T> = None | Some(value: T)

  /** A persisted (or about-to-be-persisted) user. The identifier is absent
      until the store assigns one; name, username and email are required
      (bean-validated as not null), phone and website are optional. */
  datatype User = User(
    id: Option<int>,
    name: string,
    username: string,
    email: string,
    phone: Option<string>,
    website: Option<string>)

  /** The request/response body: every field may be null. */
  datatype UserDto = UserDto(
    id: Option<int>,
    name: Option<string>,
    username: Option<string>,
    email: Option<string>,
    phone: Option<string>,
    website: Option<string>)
}
