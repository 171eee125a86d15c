/** Registered API consumers (cruds/oauth_client.py): look one up by its
    public id, check a presented secret against the stored hash, register a
    new one with its secret hashed. */
module OAuthClientCrud {

  import opened Wrappers
  import opened Models
  import opened Db
  import opened Credentials
  import Keys

  const InvalidClientCredentials := HttpError(401, "Invalid client credentials")

  predicate ClientIdUsed(oauthClients: map<int, OAuthClient>, clientId: string)
  {
    exists k | k in oauthClients :: oauthClients[k].clientId == clientId
  }

  /** `get_oauth_client_by_client_id`: a record with that client id, or None
      when there is none. */
  function GetOAuthClientByClientId(db: Database, clientId: string): (r: Option<OAuthClient>)
    ensures r.Some? ==> r.value in db.oauthClients.Values && r.value.clientId == clientId
    ensures r.None? <==> !ClientIdUsed(db.oauthClients, clientId)
  {
    match Keys.First(db.oauthClients, (c: OAuthClient) => c.clientId == clientId)
    case None => None
    case Some(k) => Some(db.oauthClients[k])
  }

  /** `validate_oauth_client`: the record of the client id when the secret
      verifies against its hash; an unknown id and a wrong secret give the
      same 401, so a caller cannot tell which it was. */
  function ValidateOAuthClient(db: Database, clientId: string, secret: string): (r: Result<OAuthClient>)
    ensures r.Err? ==> r.error == InvalidClientCredentials
    ensures !ClientIdUsed(db.oauthClients, clientId) ==> r.Err?
    ensures r.Ok? ==> r.value in db.oauthClients.Values && r.value.clientId == clientId
                      && VerifyPassword(r.value.clientSecret, secret)
  {
    match GetOAuthClientByClientId(db, clientId)
    case None => Err(InvalidClientCredentials)
    case Some(c) => if VerifyPassword(c.clientSecret, secret) then Ok(c) else Err(InvalidClientCredentials)
  }

  /** Client ids are unique, so validation succeeds exactly when the secret
      verifies against the hash of the one record with that id. */
  lemma ValidateOAuthClientExactly(db: Database, k: int, secret: string)
    requires OAuthClientsOk(db.oauthClients) && k in db.oauthClients
    ensures var c := db.oauthClients[k];
            ValidateOAuthClient(db, c.clientId, secret) == (if VerifyPassword(c.clientSecret, secret) then Ok(c) else Err(InvalidClientCredentials))
  {
    var c := db.oauthClients[k];
    assert ClientIdUsed(db.oauthClients, c.clientId);
    var found := GetOAuthClientByClientId(db, c.clientId).value;
    var j :| j in db.oauthClients && db.oauthClients[j] == found;
    assert db.oauthClients[j].clientId == db.oauthClients[k].clientId;
  }

  /** `create_oauth_client`: the record is built with the hash of the secret
      (never the secret itself), inserted and committed. */
  function CreateOAuthClientSpec(db: Database, clientId: string, secret: string, name: string, newId: int, salt: nat)
    : (out: Outcome<OAuthClient>)
    ensures out.result.Err? ==> out.result.error == InternalServerError && out.after == db
    ensures out.result.Ok? ==>
              var c := out.result.value;
              && c.id == newId && c.clientId == clientId && c.name == name
              && c.clientSecret.salt == salt && VerifyPassword(c.clientSecret, secret)
              && out.after == db.(oauthClients := db.oauthClients[newId := c])
  {
    var c := OAuthClient(newId, clientId, HashPassword(secret, salt), name);
    Committed(db, db.(oauthClients := db.oauthClients[newId := c]), c)
  }

  /** Registration fails exactly when the client id is taken. */
  lemma CreateOAuthClientSucceeds(db: Database, clientId: string, secret: string, name: string, newId: int, salt: nat)
    requires SatisfiesConstraints(db) && newId !in db.oauthClients
    ensures CreateOAuthClientSpec(db, clientId, secret, name, newId, salt).result.Ok?
        <==> !ClientIdUsed(db.oauthClients, clientId)
  {
    var c := OAuthClient(newId, clientId, HashPassword(secret, salt), name);
    var written := db.oauthClients[newId := c];
    if ClientIdUsed(db.oauthClients, clientId) {
      var k :| k in db.oauthClients && db.oauthClients[k].clientId == clientId;
      assert written[k].clientId == written[newId].clientId;
    } else {
      forall i, j | i in written && j in written && written[i].clientId == written[j].clientId ensures i == j {
        if i != j && (i == newId || j == newId) {
          assert false;
        }
      }
    }
  }

  /** The round trip: a client registered with a secret is then accepted
      with that secret. */
  lemma CreatedClientValidates(db: Database, clientId: string, secret: string, name: string, newId: int, salt: nat)
    requires SatisfiesConstraints(db) && newId !in db.oauthClients
    requires CreateOAuthClientSpec(db, clientId, secret, name, newId, salt).result.Ok?
    ensures var out := CreateOAuthClientSpec(db, clientId, secret, name, newId, salt);
            ValidateOAuthClient(out.after, clientId, secret) == Ok(out.result.value)
  {
    var out := CreateOAuthClientSpec(db, clientId, secret, name, newId, salt);
    ValidateOAuthClientExactly(out.after, newId, secret);
  }

  method CreateOAuthClient(db: Session, clientId: string, secret: string, name: string, newId: int, salt: nat)
    returns (r: Result<OAuthClient>)
    requires db.Valid()
    modifies db
    ensures db.Valid()
    ensures var out := CreateOAuthClientSpec(old(db.Snapshot()), clientId, secret, name, newId, salt);
            r == out.result && db.Snapshot() == out.after
  {
    var before := db.Snapshot();
    var c := OAuthClient(newId, clientId, HashPassword(secret, salt), name);
    db.oauthClients := db.oauthClients[newId := c];
    var committed := db.Commit(before);
    if !committed {
      return Err(InternalServerError);
    }
    r := Ok(c);
  }
}
