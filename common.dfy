/** Shared vocabulary of the counting backend: optional request fields,
    route replies, the error taxonomy with its HTTP status codes, and the
    integer clock (whole seconds). */
module Common {

  /** A request field: `None` when the JSON body does not carry the key. */
  datatype Option<+T> = None | Some(value: T) {
    /** `data.get(key, default)`: the value when present, else the default. */
    function GetOr(default: T): T {
      if Some? then value else default
    }
  }

  /** Python truthiness of an optional string: absent and empty are both false. */
  predicate Given(f: Option<string>) {
    f.Some? && f.value != ""
  }

  /** What a route answers: its success body, or one of the error kinds. */
  datatype Reply<+T> = Ok(value: T) | Err(error: Error)

  datatype Error =
    | MissingCredentials   // username or password absent or empty
    | UserExists           // username already registered
    | InvalidCredentials   // unknown username or wrong password (indistinguishable)
    | MissingToken         // no Authorization header, or an empty one
    | InvalidToken         // no second field, bad signature or expired
    | UserNotFound         // the token's username no longer resolves
    | DeviceNotFound       // unknown device id
    | StorageFailure       // the commit failed and was rolled back

  /** The HTTP status each error kind is answered with. */
  function Status(e: Error): int {
    match e
    case MissingCredentials => 400
    case UserExists => 400
    case InvalidCredentials => 401
    case MissingToken => 401
    case InvalidToken => 401
    case UserNotFound => 401
    case DeviceNotFound => 404
    case StorageFailure => 500
  }

  /** Time is a single integer clock counting seconds. */
  const Hour: int := 3600
  const Day: int := 24 * Hour
}
