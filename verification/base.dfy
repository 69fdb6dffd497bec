/** Shared vocabulary of the content store: row identifiers, the requesting
    user, membership roles, and the error kinds the store's operations raise. */
module Base {

  type UserId = nat
  type WorkspaceId = nat
  type ArticleId = nat

  datatype Option<+T> = None | Some(value: T)

  /** Errors raised by the ORM, the database or the code around them. */
  datatype Error =
    | Conflict           // a unique or unique-together constraint was violated
    | MissingReference   // a foreign key names a row that does not exist
    | NotNull            // a NOT NULL column received no value
    | InvalidUser        // an anonymous user was assigned to a user foreign key
    | Validation         // a model's clean() rejected the instance
    | MissingAttribute   // Python raised AttributeError
    | UploadFailed       // the cloud upload raised

  datatype Result<+T> = Ok(value: T) | Err(error: Error)

  datatype Outcome = Pass | Fail(error: Error)

  /** The user attached to a request: Django's AnonymousUser or a real account. */
  datatype User = Anonymous | Authenticated(id: UserId) {
    predicate IsAuthenticated() { Authenticated? }
  }

  /** A role is the text stored in the membership's role column; the column
      accepts any text, the enumeration only names three values. */
  type Role = string

  const OWNER: Role := "owner"
  const EDITOR: Role := "editor"
  const VIEWER: Role := "viewer"
}
