/** Access tokens and the identity of a request (utils/auth.py): issuing a
    token whose claims carry an expiry, and resolving a presented token to
    the stored user it names, then to an administrator.

    The JWT library is represented by the checks its `decode` makes when no
    audience, issuer, subject or access token is passed: a token carries its
    claims and the key it was signed with; it is accepted only under the same
    key, when "iat", "nbf" and "exp" read as integers with "nbf" not after
    and "exp" not before the present instant, when it has no "aud" and no
    "at_hash", and when "sub" and "jti" are text if present. A null time
    claim makes `int()` raise a `TypeError`, which escapes as a 500. The
    cryptography itself is not modelled. */
module Auth {

  import opened Wrappers
  import opened Models
  import opened Credentials
  import Text

  /** A claim value as it appears in the token's JSON payload. */
  datatype Claim = Null | Str(text: string) | Num(number: int)

  type Claims = map<string, Claim>

  /** A signed token: its claims and the key that signed them. */
  datatype Token = Token(claims: Claims, key: string)

  /** The decoder's answer: the payload, a `JWTError`, or an exception
      that is not one. */
  datatype Decoding = Decoded(payload: Claims) | Rejected | Raised

  /** `int(v)` on a claim: an integer, a `ValueError`, or, on null, a
      `TypeError`. */
  datatype Reading = Int(value: int) | NotInt | NullClaim

  /** How one time claim fares: it passes, it is refused with a
      `JWTError`, or it raises. */
  datatype Verdict = Pass | Refuse | Raise

  const InvalidToken := HttpError(401, "Invalid token")
  const UserNotFound := HttpError(401, "User not found")
  const AdminRequired := HttpError(403, "Admin access required")

  /** `create_access_token(data, expires_delta)` at instant `now` (seconds)
      and signed with `key`: the payload is a copy of `data` whose "exp"
      claim is the expiry instant; every other claim is kept. */
  function CreateAccessToken(data: Claims, expiresDelta: int, now: int, key: string): (t: Token)
    ensures t.key == key
    ensures t.claims.Keys == data.Keys + {"exp"}
    ensures t.claims["exp"] == Num(now + expiresDelta)
    ensures forall c | c in data && c != "exp" :: t.claims[c] == data[c]
  {
    Token(data["exp" := Num(now + expiresDelta)], key)
  }

  function ReadInt(c: Claim): (r: Reading)
    ensures r.NullClaim? <==> c.Null?
    ensures r.Int? <==> c.Num? || (c.Str? && Text.ParseInt(c.text).Some?)
    ensures c.Num? ==> r == Int(c.number)
  {
    match c
    case Null => NullClaim
    case Num(n) => Int(n)
    case Str(s) => if Text.ParseInt(s).Some? then Int(Text.ParseInt(s).value) else NotInt
  }

  /** The check of time claim `name` at instant `now`: absent passes; it is
      read with `int()`; "nbf" must not be after `now` and "exp" not before
      it. */
  function TimeClaim(claims: Claims, name: string, now: int): (v: Verdict)
    ensures v.Raise? <==> name in claims && claims[name].Null?
    ensures name !in claims ==> v == Pass
  {
    if name !in claims then Pass
    else
      match ReadInt(claims[name])
      case NullClaim => Raise
      case NotInt => Refuse
      case Int(n) => if (name == "nbf" && n > now) || (name == "exp" && n < now) then Refuse else Pass
  }

  function Stop(v: Verdict): Decoding
    requires v != Pass
  {
    if v == Raise then Raised else Rejected
  }

  /** A time claim the decoder reads is null. */
  predicate NullTime(claims: Claims)
  {
    || ("iat" in claims && claims["iat"].Null?)
    || ("nbf" in claims && claims["nbf"].Null?)
    || ("exp" in claims && claims["exp"].Null?)
  }

  /** The caller's claims hold a null "iat" or "nbf". */
  predicate NullStart(data: Claims)
  {
    ("iat" in data && data["iat"].Null?) || ("nbf" in data && data["nbf"].Null?)
  }

  /** `jwt.decode(token, key, algorithms=[...])` at instant `now`: the
      signature, then "iat", "nbf" and "exp" in that order, then "aud",
      "sub", "jti" and "at_hash". */
  function Decode(t: Token, key: string, now: int): (r: Decoding)
    ensures r.Decoded? <==>
              && t.key == key
              && ("iat" in t.claims ==> ReadInt(t.claims["iat"]).Int?)
              && ("nbf" in t.claims ==> ReadInt(t.claims["nbf"]).Int? && ReadInt(t.claims["nbf"]).value <= now)
              && ("exp" in t.claims ==> ReadInt(t.claims["exp"]).Int? && now <= ReadInt(t.claims["exp"]).value)
              && "aud" !in t.claims
              && ("sub" in t.claims ==> t.claims["sub"].Str?)
              && ("jti" in t.claims ==> t.claims["jti"].Str?)
              && "at_hash" !in t.claims
    ensures r.Decoded? ==> r.payload == t.claims
    ensures r.Raised? ==> t.key == key && NullTime(t.claims)
    ensures t.key == key && "iat" in t.claims && t.claims["iat"].Null? ==> r.Raised?
  {
    var c := t.claims;
    if t.key != key then Rejected
    else if TimeClaim(c, "iat", now) != Pass then Stop(TimeClaim(c, "iat", now))
    else if TimeClaim(c, "nbf", now) != Pass then Stop(TimeClaim(c, "nbf", now))
    else if TimeClaim(c, "exp", now) != Pass then Stop(TimeClaim(c, "exp", now))
    else if "aud" in c || ("sub" in c && !c["sub"].Str?) || ("jti" in c && !c["jti"].Str?) || "at_hash" in c then Rejected
    else Decoded(c)
  }

  /** `int(payload["sub"])`, when the subject is there and reads as an
      integer. */
  function SubjectId(payload: Claims): Option<int>
  {
    if "sub" !in payload then None
    else
      match payload["sub"]
      case Null => None
      case Num(n) => Some(n)
      case Str(s) => Text.ParseInt(s)
  }

  /** The body of `get_current_user` after decoding: a missing or null
      subject is an invalid token; a subject `int()` cannot read raises a
      `ValueError` nothing catches (a 500); otherwise the answer is the user
      stored under that id, or "User not found". */
  function UserFromPayload(payload: Claims, db: Database): (r: Result<User>)
    ensures r.Ok? ==> r.value in db.users.Values
    ensures ("sub" !in payload || payload["sub"].Null?) ==> r == Err(InvalidToken)
    ensures "sub" in payload && payload["sub"].Str? && SubjectId(payload).None? ==> r == Err(InternalServerError)
    ensures SubjectId(payload).Some? ==>
              var id := SubjectId(payload).value;
              r == (if id in db.users then Ok(db.users[id]) else Err(UserNotFound))
    ensures r.Err? ==> r.error == InvalidToken || r.error == UserNotFound || r.error == InternalServerError
  {
    if "sub" !in payload then Err(InvalidToken)
    else
      match payload["sub"]
      case Null => Err(InvalidToken)
      case Num(n) => if n in db.users then Ok(db.users[n]) else Err(UserNotFound)
      case Str(s) =>
        match Text.ParseInt(s)
        case None => Err(InternalServerError)
        case Some(id) => if id in db.users then Ok(db.users[id]) else Err(UserNotFound)
  }

  /** `get_current_user`: a token the decoder refuses is an invalid token;
      an exception other than a `JWTError` escapes as a 500. */
  function GetCurrentUser(t: Token, key: string, now: int, db: Database): (r: Result<User>)
    ensures Decode(t, key, now).Rejected? ==> r == Err(InvalidToken)
    ensures Decode(t, key, now).Raised? ==> r == Err(InternalServerError)
    ensures r.Ok? ==> t.key == key && r.value in db.users.Values
    ensures Decode(t, key, now).Decoded? && SubjectId(Decode(t, key, now).payload).Some? ==>
              var id := SubjectId(Decode(t, key, now).payload).value;
              r == (if id in db.users then Ok(db.users[id]) else Err(UserNotFound))
  {
    match Decode(t, key, now)
    case Rejected => Err(InvalidToken)
    case Raised => Err(InternalServerError)
    case Decoded(payload) => UserFromPayload(payload, db)
  }

  /** `get_current_admin`: the user, when their role is "admin". */
  function GetCurrentAdmin(user: User): (r: Result<User>)
    ensures r.Ok? <==> user.role == AdminRole
    ensures r.Ok? ==> r.value == user
    ensures r.Err? ==> r.error == AdminRequired
  {
    if RoleValue(user.role) != RoleValue(AdminRole) then Err(AdminRequired) else Ok(user)
  }

  /** The claims a token for user `id` carries: its subject is the decimal
      form of the id (`str(user.id)`). */
  predicate NamesUser(data: Claims, id: int)
  {
    "sub" in data && data["sub"] == Str(Text.DecimalString(id))
  }

  /** The caller's claims include none that the decoder checks besides
      "sub" and "exp" (the token's own "exp" replaces any in `data`). */
  predicate OnlyPlainClaims(data: Claims)
  {
    "iat" !in data && "nbf" !in data && "aud" !in data && "jti" !in data && "at_hash" !in data
  }

  /** The round trip: a token issued for a stored user, presented with the
      signing key at any instant up to its expiry, resolves to that user, and
      passes the administrator check exactly when the user is an admin. */
  lemma IssuedTokenResolves(db: Database, data: Claims, id: int, expiresDelta: int, now: int, key: string, at: int)
    requires NamesUser(data, id) && OnlyPlainClaims(data) && id in db.users
    requires at <= now + expiresDelta
    ensures var t := CreateAccessToken(data, expiresDelta, now, key);
            && GetCurrentUser(t, key, at, db) == Ok(db.users[id])
            && (GetCurrentAdmin(db.users[id]).Ok? <==> db.users[id].role == AdminRole)
  {
    var t := CreateAccessToken(data, expiresDelta, now, key);
    assert t.claims["sub"] == data["sub"];
    Text.DecimalRoundTrip(id);
  }

  /** A token presented after its expiry, or under another key, is refused
      whatever it names: as an invalid token, unless the caller's claims
      hold a null "iat" or "nbf" the decoder reaches first, which is a 500. */
  lemma StaleOrForeignTokenRefused(db: Database, data: Claims, expiresDelta: int, now: int, key: string, presentedKey: string, at: int)
    requires at > now + expiresDelta || presentedKey != key
    ensures var r := GetCurrentUser(CreateAccessToken(data, expiresDelta, now, key), presentedKey, at, db);
            && (r == Err(InvalidToken) || r == Err(InternalServerError))
            && (presentedKey != key || !NullStart(data) ==> r == Err(InvalidToken))
  {
    var t := CreateAccessToken(data, expiresDelta, now, key);
    assert t.claims["exp"] == Num(now + expiresDelta);
    assert ReadInt(t.claims["exp"]) == Int(now + expiresDelta);
    if presentedKey == key && !NullStart(data) {
      assert !NullTime(t.claims);
    }
  }

  /** A subject naming no stored user is refused with "User not found", never
      resolved to someone else. */
  lemma UnknownSubjectRefused(db: Database, data: Claims, id: int, expiresDelta: int, now: int, key: string, at: int)
    requires NamesUser(data, id) && OnlyPlainClaims(data) && id !in db.users
    requires at <= now + expiresDelta
    ensures GetCurrentUser(CreateAccessToken(data, expiresDelta, now, key), key, at, db) == Err(UserNotFound)
  {
    var t := CreateAccessToken(data, expiresDelta, now, key);
    assert t.claims["sub"] == data["sub"];
    Text.DecimalRoundTrip(id);
  }
}
