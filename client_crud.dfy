/** Customers (cruds/client.py): create, list, partial update, delete. The
    handlers check nothing themselves; the commit enforces the column
    lengths and the unique email. */
module ClientCrud {

  import opened Wrappers
  import opened Models
  import opened Db
  import Keys
  import Sorting

  datatype ClientCreate = ClientCreate(name: string, email: string, phone: string)

  /** The update payload: each column, when the request sent it. */
  datatype ClientUpdate = ClientUpdate(name: Field<string>, email: Field<string>, phone: Field<string>)

  /** A JSON object the handler answers with, as key/value pairs. */
  type Reply = map<string, string>

  const NotFoundReply: Reply := map["error" := "Client not found"]
  const DeletedReply: Reply := map["message" := "Client deleted"]

  /** Some client other than `id` has the email. */
  predicate EmailUsedByOther(clients: map<int, Client>, email: string, id: int)
  {
    exists k | k in clients && k != id :: clients[k].email == email
  }

  /** Adding or replacing the client under `id` keeps the table's
      constraints exactly when the client fits its columns and its email is
      no other client's. */
  lemma WriteClientOk(clients: map<int, Client>, id: int, c: Client)
    requires ClientsOk(clients) && c.id == id
    ensures ClientsOk(clients[id := c]) <==> ClientFits(c) && !EmailUsedByOther(clients, c.email, id)
  {
    var written := clients[id := c];
    if EmailUsedByOther(clients, c.email, id) {
      var k :| k in clients && k != id && clients[k].email == c.email;
      assert written[k].email == written[id].email;
    } else if ClientFits(c) {
      forall i, j | i in written && j in written && written[i].email == written[j].email ensures i == j {
        if i != j && (i == id || j == id) {
          assert false;
        }
      }
    } else {
      assert !ClientFits(written[id]);
    }
  }

  /** `create_client`: the row is inserted and committed. */
  function CreateClientSpec(db: Database, c: ClientCreate, newId: int): (out: Outcome<Client>)
    ensures out.result.Err? ==> out.result.error == InternalServerError && out.after == db
    ensures out.result.Ok? ==> out.result.value == Client(newId, c.name, c.email, c.phone)
                               && out.after == db.(clients := db.clients[newId := out.result.value])
  {
    var client := Client(newId, c.name, c.email, c.phone);
    Committed(db, db.(clients := db.clients[newId := client]), client)
  }

  lemma CreateClientSucceeds(db: Database, c: ClientCreate, newId: int)
    requires SatisfiesConstraints(db) && newId !in db.clients
    ensures CreateClientSpec(db, c, newId).result.Ok?
        <==> ClientFits(Client(newId, c.name, c.email, c.phone)) && !EmailUsedByOther(db.clients, c.email, newId)
  {
    WriteClientOk(db.clients, newId, Client(newId, c.name, c.email, c.phone));
  }

  method CreateClient(db: Session, c: ClientCreate, newId: int) returns (r: Result<Client>)
    requires db.Valid()
    modifies db
    ensures db.Valid()
    ensures var out := CreateClientSpec(old(db.Snapshot()), c, newId);
            r == out.result && db.Snapshot() == out.after
  {
    var before := db.Snapshot();
    var client := Client(newId, c.name, c.email, c.phone);
    db.clients := db.clients[newId := client];
    var committed := db.Commit(before);
    if !committed {
      return Err(InternalServerError);
    }
    r := Ok(client);
  }

  /** `get_clients`: every client, each once. */
  function GetClients(db: Database): (r: seq<Client>)
    ensures |r| == |db.clients|
    ensures forall c :: c in r <==> c in db.clients.Values
    ensures ClientsOk(db.clients) ==> Sorting.Distinct(r)
  {
    assert ClientsOk(db.clients) ==> Sorting.Distinct(Keys.Rows(db.clients)) by {
      if ClientsOk(db.clients) {
        Keys.RowsDistinct(db.clients);
      }
    }
    Keys.Rows(db.clients)
  }

  /** The client with the sent columns written over it. */
  function ApplyUpdate(c: Client, u: ClientUpdate): Client
  {
    c.(name := Apply(u.name, c.name), email := Apply(u.email, c.email), phone := Apply(u.phone, c.phone))
  }

  /** `update_client`: None for an unknown id; otherwise the sent columns are
      written and committed. */
  function UpdateClientSpec(db: Database, id: int, u: ClientUpdate): (out: Outcome<Option<Client>>)
    ensures id !in db.clients ==> out == Outcome(Ok(None), db)
    ensures out.result.Err? ==> out.result.error == InternalServerError && out.after == db
    ensures out.result.Ok? && id in db.clients ==>
              var c := ApplyUpdate(db.clients[id], u);
              out.result.value == Some(c) && out.after == db.(clients := db.clients[id := c])
  {
    if id !in db.clients then Outcome(Ok(None), db)
    else
      var c := ApplyUpdate(db.clients[id], u);
      Committed(db, db.(clients := db.clients[id := c]), Some(c))
  }

  /** An update of a stored client goes through exactly when the result fits
      its columns and its email is no other client's; the id never changes. */
  lemma UpdateClientSucceeds(db: Database, id: int, u: ClientUpdate)
    requires SatisfiesConstraints(db) && id in db.clients
    ensures var c := ApplyUpdate(db.clients[id], u);
            var out := UpdateClientSpec(db, id, u);
            && (out.result.Ok? <==> ClientFits(c) && !EmailUsedByOther(db.clients, c.email, id))
            && (out.result.Ok? ==> out.result.value.value.id == id)
  {
    WriteClientOk(db.clients, id, ApplyUpdate(db.clients[id], u));
  }

  method UpdateClient(db: Session, id: int, u: ClientUpdate) returns (r: Result<Option<Client>>)
    requires db.Valid()
    modifies db
    ensures db.Valid()
    ensures var out := UpdateClientSpec(old(db.Snapshot()), id, u);
            r == out.result && db.Snapshot() == out.after
  {
    var before := db.Snapshot();
    if id !in db.clients {
      return Ok(None);
    }
    var c := db.clients[id];
    if u.name.Set? {
      c := c.(name := u.name.value);
    }
    if u.email.Set? {
      c := c.(email := u.email.value);
    }
    if u.phone.Set? {
      c := c.(phone := u.phone.value);
    }
    db.clients := db.clients[id := c];
    var committed := db.Commit(before);
    if !committed {
      return Err(InternalServerError);
    }
    r := Ok(Some(c));
  }

  /** `delete_client`: an unknown id answers an error object (and changes
      nothing) instead of raising; otherwise the client is removed. */
  function DeleteClientSpec(db: Database, id: int): (out: Outcome<Reply>)
    ensures id !in db.clients ==> out == Outcome(Ok(NotFoundReply), db)
    ensures out.result.Ok? && id in db.clients ==> out.result.value == DeletedReply && out.after == db.(clients := db.clients - {id})
  {
    if id !in db.clients then Outcome(Ok(NotFoundReply), db)
    else Committed(db, db.(clients := db.clients - {id}), DeletedReply)
  }

  /** A delete never fails, and both of its answers are non-empty objects,
      which Python treats as true: a caller that tests the answer for
      falsity, as the route does to answer 404, never sees a miss. */
  lemma DeleteClientAnswersTruthy(db: Database, id: int)
    requires SatisfiesConstraints(db)
    ensures var out := DeleteClientSpec(db, id);
            && out.result.Ok? && out.result.value != map[]
            && out.after == db.(clients := db.clients - {id})
            && (out.result.value == NotFoundReply <==> id !in db.clients)
  {
    assert "error" in NotFoundReply && "error" !in DeletedReply;
    if id !in db.clients {
      assert db.clients - {id} == db.clients;
    } else {
      var clients := db.clients - {id};
      forall i, j | i in clients && j in clients && clients[i].email == clients[j].email ensures i == j {
        assert db.clients[i].email == db.clients[j].email;
      }
      assert "message" in DeletedReply;
      assert SatisfiesConstraints(db.(clients := clients));
    }
  }

  method DeleteClient(db: Session, id: int) returns (r: Result<Reply>)
    requires db.Valid()
    modifies db
    ensures db.Valid()
    ensures var out := DeleteClientSpec(old(db.Snapshot()), id);
            r == out.result && db.Snapshot() == out.after
  {
    var before := db.Snapshot();
    if id !in db.clients {
      return Ok(NotFoundReply);
    }
    db.clients := db.clients - {id};
    var committed := db.Commit(before);
    if !committed {
      return Err(InternalServerError);
    }
    r := Ok(DeletedReply);
  }
}
