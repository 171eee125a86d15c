/** Roles and password hashing (utils/auth.py). The salted, slow hash of the
    source comes from a library; here it is a keyed digest whose salt is an
    input (the randomness the library draws), and the only property the rest of
    the model relies on is that a password verifies against its own hash. */
module Credentials {

  import opened Wrappers

  /** The closed set of roles a user can hold. */
  datatype Role = UserRole | AdminRole

  /** The string stored for a role. */
  function RoleValue(r: Role): string
  {
    match r
    case UserRole => "user"
    case AdminRole => "admin"
  }

  /** Converting a request's role string into a role: only "user" and
      "admin" name one; every other string is refused by the column type. */
  function ParseRole(s: string): (r: Option<Role>)
    ensures r.Some? <==> s == "user" || s == "admin"
    ensures r.Some? ==> RoleValue(r.value) == s
  {
    if s == "user" then Some(UserRole)
    else if s == "admin" then Some(AdminRole)
    else None
  }

  lemma RoleValueParses(r: Role)
    ensures ParseRole(RoleValue(r)) == Some(r)
  {
  }

  /** A stored password: the salt drawn when it was hashed and the digest.
      Its type is distinct from `string`, so no record field can hold a
      plaintext password where a hash is expected. */
  datatype PasswordHash = PasswordHash(salt: nat, digest: nat)

  const Modulus: nat := 2305843009213693951

  /** The keyed digest of a password; a stand-in for the library's key
      derivation function. */
  function Digest(salt: nat, password: string): nat
  {
    if password == [] then salt % Modulus
    else (Digest(salt, password[..|password| - 1]) * 131 + password[|password| - 1] as nat) % Modulus
  }

  /** `hash_password(password)`, with the salt the library would draw. */
  function HashPassword(password: string, salt: nat): (h: PasswordHash)
    ensures h.salt == salt
    ensures VerifyPassword(h, password)
  {
    PasswordHash(salt, Digest(salt, password))
  }

  /** `verify_password(hashed, plain)`: the hash comes first. */
  function VerifyPassword(hashed: PasswordHash, plain: string): bool
  {
    Digest(hashed.salt, plain) == hashed.digest
  }
}
