/** Optional values, the failures the core can raise, and a Result type
    that carries them.  `Api` failures are the `ApiError`s the services
    throw; the other variants are the store-level errors (schema
    validation, unique-index violations, a dangling user reference) that
    surface through the generic error layer. */
module Outcomes {

  datatype Option<T> = None | Some(value: T)

  /** The HTTP statuses the core raises itself. */
  datatype Status = BadRequest | Unauthorized | Forbidden | NotFound

  datatype Failure =
    | Api(status: Status, message: string)
      /** a schema validation error naming every failing path, in schema order */
    | Validation(paths: seq<string>)
      /** an insert or save rejected by the unique index on `path` */
    | DuplicateKey(path: string)
      /** a session whose user reference no longer resolves */
    | DanglingUser

  datatype Result<T> = Ok(value: T) | Err(failure: Failure)

  const PleaseAuthenticate: Failure := Api(Unauthorized, "Please authenticate")
  const ForbiddenError: Failure := Api(Forbidden, "Forbidden")
  const SessionNotFound: Failure := Api(NotFound, "Not found")
  const UserNotFound: Failure := Api(NotFound, "User not found")
  const EmailTaken: Failure := Api(BadRequest, "Email already taken")
  const BadCredentials: Failure := Api(Unauthorized, "Incorrect email or password")
}
