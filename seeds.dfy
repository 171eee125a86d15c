/** Start-up seeding (seeds/users.py, seeds/oauth_clients.py): each seed
    inserts a default record unless one with its natural key is already
    stored, so running it again changes nothing. */
module Seeds {

  import opened Wrappers
  import opened Models
  import opened Db
  import opened Credentials
  import UserCrud
  import OAuthClientCrud

  /** What a seed did when it did not fail. */
  datatype Seed = Skipped | Seeded

  const AdminUsername := "admin"
  const AdminEmail := "admin@example.com"
  const AdminPassword := "admin123"

  const DefaultClientId := "app123"
  const DefaultClientSecret := "secret456"
  const DefaultClientName := "Default OAuth Client"

  /** The default administrator, with its password hashed under `salt`. */
  function AdminUser(newId: int, salt: nat): User
  {
    User(newId, AdminUsername, "Super Admin", Some(AdminEmail), HashPassword(AdminPassword, salt), AdminRole)
  }

  /** `seed_admin_user`: skipped when a user is called "admin"; otherwise the
      default administrator is inserted and committed. A failed commit (the
      email taken by another user) raises an `IntegrityError` that the seed
      does not catch; `InternalServerError` stands for that error. The
      service runs this seed during start-up (app/main.py:21-27), where the
      error aborts start-up rather than answering a request. */
  function SeedAdminSpec(db: Database, newId: int, salt: nat): (out: Outcome<Seed>)
    ensures out.result == Ok(Skipped) <==> UserCrud.UsernameUsed(db.users, AdminUsername)
    ensures out.result.Err? ==> out.result.error == InternalServerError
    ensures out.result != Ok(Seeded) ==> out.after == db
    ensures out.result == Ok(Seeded) ==> out.after == db.(users := db.users[newId := AdminUser(newId, salt)])
  {
    if UserCrud.UsernameUsed(db.users, AdminUsername) then Outcome(Ok(Skipped), db)
    else Committed(db, db.(users := db.users[newId := AdminUser(newId, salt)]), Seeded)
  }

  /** Seeding the administrator fails only when its email already belongs to
      a user; when it inserts, the stored administrator logs in with the
      default password. */
  lemma SeedAdminSucceeds(db: Database, newId: int, salt: nat)
    requires SatisfiesConstraints(db) && newId !in db.users
    ensures var out := SeedAdminSpec(db, newId, salt);
            && (out.result.Err? <==>
                  !UserCrud.UsernameUsed(db.users, AdminUsername) && UserCrud.EmailUsedByOther(db.users, Some(AdminEmail), newId))
            && (out.result == Ok(Seeded) ==>
                  && out.after.users[newId].role == AdminRole
                  && VerifyPassword(out.after.users[newId].hashedPassword, AdminPassword))
  {
    var users := db.users[newId := AdminUser(newId, salt)];
    if UserCrud.UsernameUsed(db.users, AdminUsername) {
    } else if UserCrud.EmailUsedByOther(db.users, Some(AdminEmail), newId) {
      var k :| k in db.users && k != newId && db.users[k].email == Some(AdminEmail);
      assert users[k].email == users[newId].email;
    } else {
      forall i, j | i in users && j in users && users[i].username == users[j].username ensures i == j {
        if i != j && (i == newId || j == newId) {
          assert false;
        }
      }
      forall i, j | i in users && j in users && users[i].email.Some? && users[i].email == users[j].email ensures i == j {
        if i != j && (i == newId || j == newId) {
          assert false;
        }
      }
      assert UsersOk(users);
      var pending := db.(users := users);
      assert SatisfiesConstraints(pending);
    }
  }

  /** Running the admin seed on the state a successful run left skips and
      changes nothing. */
  lemma SeedAdminIdempotent(db: Database, newId: int, salt: nat, nextId: int, nextSalt: nat)
    requires SeedAdminSpec(db, newId, salt).result.Ok?
    ensures var after := SeedAdminSpec(db, newId, salt).after;
            SeedAdminSpec(after, nextId, nextSalt) == Outcome(Ok(Skipped), after)
  {
    var out := SeedAdminSpec(db, newId, salt);
    if out.result == Ok(Seeded) {
      assert out.after.users[newId].username == AdminUsername;
    }
  }

  method SeedAdminUser(db: Session, newId: int, salt: nat) returns (r: Result<Seed>)
    requires db.Valid()
    modifies db
    ensures db.Valid()
    ensures var out := SeedAdminSpec(old(db.Snapshot()), newId, salt);
            r == out.result && db.Snapshot() == out.after
  {
    var before := db.Snapshot();
    if UserCrud.UsernameUsed(db.users, AdminUsername) {
      return Ok(Skipped);
    }
    db.users := db.users[newId := AdminUser(newId, salt)];
    var committed := db.Commit(before);
    if !committed {
      return Err(InternalServerError);
    }
    r := Ok(Seeded);
  }

  /** `seed_oauth_client`: skipped when the client id "app123" is taken;
      otherwise the default client is registered. */
  function SeedOAuthClientSpec(db: Database, newId: int, salt: nat): (out: Outcome<Seed>)
    ensures out.result == Ok(Skipped) <==> OAuthClientCrud.ClientIdUsed(db.oauthClients, DefaultClientId)
    ensures out.result != Ok(Seeded) ==> out.after == db
    ensures out.result == Ok(Seeded) ==>
              out.after == OAuthClientCrud.CreateOAuthClientSpec(db, DefaultClientId, DefaultClientSecret, DefaultClientName, newId, salt).after
  {
    if OAuthClientCrud.ClientIdUsed(db.oauthClients, DefaultClientId) then Outcome(Ok(Skipped), db)
    else
      var created := OAuthClientCrud.CreateOAuthClientSpec(db, DefaultClientId, DefaultClientSecret, DefaultClientName, newId, salt);
      match created.result
      case Ok(_) => Outcome(Ok(Seeded), created.after)
      case Err(e) => Outcome(Err(e), created.after)
  }

  /** On a committed state the client seed never fails, and afterwards the
      default credentials are accepted whenever this run inserted them. */
  lemma SeedOAuthClientSucceeds(db: Database, newId: int, salt: nat)
    requires SatisfiesConstraints(db) && newId !in db.oauthClients
    ensures var out := SeedOAuthClientSpec(db, newId, salt);
            && out.result.Ok?
            && (out.result == Ok(Seeded) ==>
                  OAuthClientCrud.ValidateOAuthClient(out.after, DefaultClientId, DefaultClientSecret).Ok?)
  {
    OAuthClientCrud.CreateOAuthClientSucceeds(db, DefaultClientId, DefaultClientSecret, DefaultClientName, newId, salt);
    if !OAuthClientCrud.ClientIdUsed(db.oauthClients, DefaultClientId) {
      OAuthClientCrud.CreatedClientValidates(db, DefaultClientId, DefaultClientSecret, DefaultClientName, newId, salt);
    }
  }

  /** Running the client seed again skips and changes nothing. */
  lemma SeedOAuthClientIdempotent(db: Database, newId: int, salt: nat, nextId: int, nextSalt: nat)
    requires SeedOAuthClientSpec(db, newId, salt).result.Ok?
    ensures var after := SeedOAuthClientSpec(db, newId, salt).after;
            SeedOAuthClientSpec(after, nextId, nextSalt) == Outcome(Ok(Skipped), after)
  {
    var out := SeedOAuthClientSpec(db, newId, salt);
    if out.result == Ok(Seeded) {
      assert out.after.oauthClients[newId].clientId == DefaultClientId;
    }
  }

  method SeedOAuthClient(db: Session, newId: int, salt: nat) returns (r: Result<Seed>)
    requires db.Valid()
    modifies db
    ensures db.Valid()
    ensures var out := SeedOAuthClientSpec(old(db.Snapshot()), newId, salt);
            r == out.result && db.Snapshot() == out.after
  {
    if OAuthClientCrud.GetOAuthClientByClientId(db.Snapshot(), DefaultClientId).Some? {
      return Ok(Skipped);
    }
    var created := OAuthClientCrud.CreateOAuthClient(db, DefaultClientId, DefaultClientSecret, DefaultClientName, newId, salt);
    match created
    case Ok(_) => r := Ok(Seeded);
    case Err(e) => r := Err(e);
  }
}
