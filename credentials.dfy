/** The credential store's records: users and their salted password hashes.
    The hashing library is modelled as an ideal salted hash: the stored
    value is tied to the salt and password it was made from, and checking
    a password against it succeeds exactly for that password. */
module Credentials {

  /** A stored password hash; the salt is drawn at random on registration. */
  datatype PasswordHash = Salted(salt: string, digest: string)

  /** `generate_password_hash(password)` with the random salt as a parameter. */
  function Hash(salt: string, password: string): PasswordHash {
    Salted(salt, password)
  }

  /** `check_password_hash(stored, password)`. */
  predicate CheckHash(stored: PasswordHash, password: string) {
    stored.digest == password
  }

  /** A password checks against its own hash, and no other password does. */
  lemma CheckHashExact(salt: string, password: string, attempt: string)
    ensures CheckHash(Hash(salt, password), attempt) <==> attempt == password
  {
  }

  /** A row of the user table; `createdAt` is the registration time. */
  datatype User = User(username: string, password: PasswordHash, createdAt: int)

  /** The row `register` writes for a new account. */
  function NewUser(username: string, password: string, salt: string, now: int): (u: User)
    ensures u.username == username && u.createdAt == now
    ensures forall attempt :: CheckHash(u.password, attempt) <==> attempt == password
  {
    User(username, Hash(salt, password), now)
  }
}
