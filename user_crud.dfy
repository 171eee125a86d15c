/** Users (cruds/user.py): create with a hashed password, look up by id,
    username or email, list, update field by field, delete. */
module UserCrud {

  import opened Wrappers
  import opened Models
  import opened Db
  import opened Credentials
  import Keys
  import Sorting

  /** The request. `role` is free text; only "user" and "admin" name a
      role, and the column refuses anything else when the row is written. */
  datatype UserCreate = UserCreate(
    username: string,
    name: string,
    email: Option<string>,
    password: string,
    role: string)

  /** The role a request gets when it names none. */
  const DefaultRole := "user"

  /** The update payload. A field is applied only when it is truthy:
      absent and empty values both leave the stored one as it is. */
  datatype UserUpdate = UserUpdate(
    name: Option<string>,
    email: Option<string>,
    password: Option<string>,
    role: Option<string>)

  predicate UsernameUsed(users: map<int, User>, username: string)
  {
    exists k | k in users :: users[k].username == username
  }

  /** Some user other than `id` has the email. */
  predicate EmailUsedByOther(users: map<int, User>, email: Option<string>, id: int)
  {
    email.Some? && exists k | k in users && k != id :: users[k].email == email
  }

  /** `create_user`: the password is stored hashed with a fresh salt; a role
      outside the enumeration, or a row that breaks a column constraint,
      fails the commit. */
  function CreateUserSpec(db: Database, u: UserCreate, newId: int, salt: nat): (out: Outcome<User>)
    ensures ParseRole(u.role).None? ==> out.result.Err?
    ensures out.result.Err? ==> out.result.error == InternalServerError && out.after == db
    ensures out.result.Ok? ==>
              var user := out.result.value;
              && user.id == newId && user.username == u.username && user.name == u.name && user.email == u.email
              && RoleValue(user.role) == u.role
              && user.hashedPassword.salt == salt && VerifyPassword(user.hashedPassword, u.password)
              && out.after == db.(users := db.users[newId := user])
  {
    match ParseRole(u.role)
    case None => Outcome(Err(InternalServerError), db)
    case Some(role) =>
      var user := User(newId, u.username, u.name, u.email, HashPassword(u.password, salt), role);
      Committed(db, db.(users := db.users[newId := user]), user)
  }

  /** A new user is stored exactly when the role is valid, the texts fit
      their columns, and neither the username nor a given email is taken. */
  lemma CreateUserSucceeds(db: Database, u: UserCreate, newId: int, salt: nat)
    requires SatisfiesConstraints(db) && newId !in db.users
    ensures CreateUserSpec(db, u, newId, salt).result.Ok?
        <==> && ParseRole(u.role).Some?
             && |u.username| <= 50 && |u.name| <= 100 && OptionalFits(u.email, 120)
             && !UsernameUsed(db.users, u.username)
             && !EmailUsedByOther(db.users, u.email, newId)
  {
    if ParseRole(u.role).Some? {
      var user := User(newId, u.username, u.name, u.email, HashPassword(u.password, salt), ParseRole(u.role).value);
      var users := db.users[newId := user];
      if UsernameUsed(db.users, u.username) {
        var k :| k in db.users && db.users[k].username == u.username;
        assert users[k].username == users[newId].username;
      } else if EmailUsedByOther(db.users, u.email, newId) {
        var k :| k in db.users && k != newId && db.users[k].email == u.email;
        assert users[k].email == users[newId].email;
      } else if UserFits(user) {
        assert UsersOk(users) by {
          forall i, j | i in users && j in users && users[i].username == users[j].username ensures i == j {
            if i != j && (i == newId || j == newId) { assert false; }
          }
          forall i, j | i in users && j in users && users[i].email.Some? && users[i].email == users[j].email
            ensures i == j
          {
            if i != j && (i == newId || j == newId) { assert false; }
          }
        }
      } else {
        assert !UserFits(users[newId]);
      }
    }
  }

  method CreateUser(db: Session, u: UserCreate, newId: int, salt: nat) returns (r: Result<User>)
    requires db.Valid()
    modifies db
    ensures db.Valid()
    ensures var out := CreateUserSpec(old(db.Snapshot()), u, newId, salt);
            r == out.result && db.Snapshot() == out.after
  {
    var before := db.Snapshot();
    var role := ParseRole(u.role);
    if role.None? {
      return Err(InternalServerError);
    }
    var user := User(newId, u.username, u.name, u.email, HashPassword(u.password, salt), role.value);
    db.users := db.users[newId := user];
    var committed := db.Commit(before);
    if !committed {
      return Err(InternalServerError);
    }
    r := Ok(user);
  }

  /** `get_user`: the user stored under `id`, if any. */
  function GetUser(db: Database, id: int): (r: Option<User>)
    requires UsersOk(db.users)
    ensures r.Some? <==> id in db.users
    ensures r.Some? ==> r.value.id == id && r.value in db.users.Values
  {
    if id in db.users then Some(db.users[id]) else None
  }

  /** `get_user_by_username`: a user with that username, or None when no
      user has it. */
  function GetUserByUsername(db: Database, username: string): (r: Option<User>)
    ensures r.Some? ==> r.value in db.users.Values && r.value.username == username
    ensures r.None? <==> !UsernameUsed(db.users, username)
  {
    match Keys.First(db.users, (user: User) => user.username == username)
    case None => None
    case Some(k) => Some(db.users[k])
  }

  /** Usernames are unique, so the lookup finds the one user that has it. */
  lemma UsernameLookupFindsOwner(db: Database, id: int)
    requires UsersOk(db.users) && id in db.users
    ensures GetUserByUsername(db, db.users[id].username) == Some(db.users[id])
  {
    var username := db.users[id].username;
    assert UsernameUsed(db.users, username) by { assert db.users[id].username == username; }
    var found := GetUserByUsername(db, username).value;
    var k :| k in db.users && db.users[k] == found;
    assert db.users[k].username == db.users[id].username;
  }

  /** `get_user_by_email`: a user whose email equals the argument; a NULL
      email equals nothing. */
  function GetUserByEmail(db: Database, email: string): (r: Option<User>)
    ensures r.Some? ==> r.value in db.users.Values && r.value.email == Some(email)
    ensures r.None? <==> forall k | k in db.users :: db.users[k].email != Some(email)
  {
    match Keys.First(db.users, (user: User) => user.email == Some(email))
    case None => None
    case Some(k) => Some(db.users[k])
  }

  /** Emails are unique where present, so the lookup finds the one user
      that has it. */
  lemma EmailLookupFindsOwner(db: Database, id: int)
    requires UsersOk(db.users) && id in db.users && db.users[id].email.Some?
    ensures GetUserByEmail(db, db.users[id].email.value) == Some(db.users[id])
  {
    var email := db.users[id].email.value;
    var found := GetUserByEmail(db, email).value;
    var k :| k in db.users && db.users[k] == found;
    assert db.users[k].email == db.users[id].email;
  }

  /** `list_users`: every user, each once. */
  function ListUsers(db: Database): (r: seq<User>)
    ensures |r| == |db.users|
    ensures forall user :: user in r <==> user in db.users.Values
    ensures UsersOk(db.users) ==> Sorting.Distinct(r)
  {
    assert UsersOk(db.users) ==> Sorting.Distinct(Keys.Rows(db.users)) by {
      if UsersOk(db.users) {
        Keys.RowsDistinct(db.users);
      }
    }
    Keys.Rows(db.users)
  }

  /** The user after the truthy fields of the update are applied; the role,
      when sent, must be one the enumeration names. */
  function Updated(user: User, u: UserUpdate, salt: nat): User
    requires Truthy(u.role) ==> ParseRole(u.role.value).Some?
  {
    user.(name := if Truthy(u.name) then u.name.value else user.name,
          email := if Truthy(u.email) then u.email else user.email,
          hashedPassword := if Truthy(u.password) then HashPassword(u.password.value, salt) else user.hashedPassword,
          role := if Truthy(u.role) then ParseRole(u.role.value).value else user.role)
  }

  /** `update_user`: None for an unknown id; otherwise each truthy field is
      written (the password hashed), and the commit checks the row. */
  function UpdateUserSpec(db: Database, id: int, u: UserUpdate, salt: nat): (out: Outcome<Option<User>>)
    ensures id !in db.users ==> out == Outcome(Ok(None), db)
    ensures out.result.Err? ==> out.result.error == InternalServerError && out.after == db
    ensures out.result.Ok? && id in db.users ==> out.result.value.Some?
    ensures out.result.Ok? && id in db.users ==>
              var before := db.users[id];
              var user := out.result.value.value;
              && user.id == before.id && user.username == before.username
              && user.name == (if Truthy(u.name) then u.name.value else before.name)
              && user.email == (if Truthy(u.email) then u.email else before.email)
              && (Truthy(u.password) ==> user.hashedPassword.salt == salt && VerifyPassword(user.hashedPassword, u.password.value))
              && (!Truthy(u.password) ==> user.hashedPassword == before.hashedPassword)
              && (Truthy(u.role) ==> RoleValue(user.role) == u.role.value)
              && (!Truthy(u.role) ==> user.role == before.role)
              && out.after == db.(users := db.users[id := user])
  {
    if id !in db.users then Outcome(Ok(None), db)
    else if Truthy(u.role) && ParseRole(u.role.value).None? then Outcome(Err(InternalServerError), db)
    else
      var user := Updated(db.users[id], u, salt);
      Committed(db, db.(users := db.users[id := user]), Some(user))
  }

  /** An update of a stored user goes through exactly when a sent role is
      valid, the result fits its columns, and its email is no other user's
      (the username never changes, so it stays unique). */
  lemma UpdateUserSucceeds(db: Database, id: int, u: UserUpdate, salt: nat)
    requires SatisfiesConstraints(db) && id in db.users
    ensures UpdateUserSpec(db, id, u, salt).result.Ok?
            <==> && (Truthy(u.role) ==> ParseRole(u.role.value).Some?)
                 && UserFits(Updated(db.users[id], u, salt))
                 && !EmailUsedByOther(db.users, Updated(db.users[id], u, salt).email, id)
  {
    if Truthy(u.role) && ParseRole(u.role.value).None? {
      return;
    }
    var user := Updated(db.users[id], u, salt);
    var users := db.users[id := user];
    if EmailUsedByOther(db.users, user.email, id) {
      var k :| k in db.users && k != id && db.users[k].email == user.email;
      assert users[k].email == users[id].email;
    } else if UserFits(user) {
      assert UsersOk(users) by {
        forall i, j | i in users && j in users && users[i].username == users[j].username ensures i == j {
          assert db.users[i].username == db.users[j].username;
        }
      }
    } else {
      assert !UserFits(users[id]);
    }
  }

  method UpdateUser(db: Session, id: int, u: UserUpdate, salt: nat) returns (r: Result<Option<User>>)
    requires db.Valid()
    modifies db
    ensures db.Valid()
    ensures var out := UpdateUserSpec(old(db.Snapshot()), id, u, salt);
            r == out.result && db.Snapshot() == out.after
  {
    var before := db.Snapshot();
    if id !in db.users {
      return Ok(None);
    }
    var user := db.users[id];
    if Truthy(u.name) {
      user := user.(name := u.name.value);
    }
    if Truthy(u.email) {
      user := user.(email := u.email);
    }
    if Truthy(u.password) {
      user := user.(hashedPassword := HashPassword(u.password.value, salt));
    }
    if Truthy(u.role) {
      var role := ParseRole(u.role.value);
      if role.None? {
        return Err(InternalServerError);
      }
      user := user.(role := role.value);
    }
    db.users := db.users[id := user];
    var committed := db.Commit(before);
    if !committed {
      return Err(InternalServerError);
    }
    r := Ok(Some(user));
  }

  /** `delete_user`: False for an unknown id; otherwise the user is removed. */
  function DeleteUserSpec(db: Database, id: int): (out: Outcome<bool>)
    ensures id !in db.users ==> out == Outcome(Ok(false), db)
    ensures out.result.Ok? && id in db.users ==> out.result.value && out.after == db.(users := db.users - {id})
  {
    if id !in db.users then Outcome(Ok(false), db)
    else Committed(db, db.(users := db.users - {id}), true)
  }

  /** No table constraint references a user, so a delete never fails: it
      answers whether the user existed and removes exactly that one. */
  lemma DeleteUserRemovesUser(db: Database, id: int)
    requires SatisfiesConstraints(db)
    ensures var out := DeleteUserSpec(db, id);
            out.result == Ok(id in db.users) && out.after == db.(users := db.users - {id})
  {
    if id !in db.users {
      assert db.users - {id} == db.users;
    } else {
      var users := db.users - {id};
      assert UsersOk(users) by {
        forall i, j | i in users && j in users && users[i].username == users[j].username ensures i == j {
          assert db.users[i].username == db.users[j].username;
        }
        forall i, j | i in users && j in users && users[i].email.Some? && users[i].email == users[j].email
          ensures i == j
        {
          assert db.users[i].email == db.users[j].email;
        }
      }
    }
  }

  method DeleteUser(db: Session, id: int) returns (r: Result<bool>)
    requires db.Valid()
    modifies db
    ensures db.Valid()
    ensures var out := DeleteUserSpec(old(db.Snapshot()), id);
            r == out.result && db.Snapshot() == out.after
  {
    var before := db.Snapshot();
    if id !in db.users {
      return Ok(false);
    }
    db.users := db.users - {id};
    var committed := db.Commit(before);
    if !committed {
      return Err(InternalServerError);
    }
    r := Ok(true);
  }
}
