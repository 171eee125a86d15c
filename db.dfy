/** The unit of work a request runs in (a SQLAlchemy session): one field per
    table, changed in place by the handlers, and a commit that either keeps
    the changes, when they satisfy every table constraint, or puts back the
    state the request started from. */
module Db {

  import opened Models

  class Session {
    var products: map<int, Product>
    var branches: map<int, Branch>
    var stock: map<int, StockRow>
    var movements: seq<Movement>
    var users: map<int, User>
    var clients: map<int, Client>
    var oauthClients: map<int, OAuthClient>

    /** The tables as they stand in this session. */
    function Snapshot(): Database
      reads this
    {
      Database(products, branches, stock, movements, users, clients, oauthClients)
    }

    /** The session holds a committed state. */
    predicate Valid()
      reads this
    {
      SatisfiesConstraints(Snapshot())
    }

    constructor (initial: Database)
      requires SatisfiesConstraints(initial)
      ensures Valid() && Snapshot() == initial
    {
      products := initial.products;
      branches := initial.branches;
      stock := initial.stock;
      movements := initial.movements;
      users := initial.users;
      clients := initial.clients;
      oauthClients := initial.oauthClients;
    }

    /** Rollback: every table goes back to `saved`. */
    method Restore(saved: Database)
      modifies this
      ensures Snapshot() == saved
    {
      products := saved.products;
      branches := saved.branches;
      stock := saved.stock;
      movements := saved.movements;
      users := saved.users;
      clients := saved.clients;
      oauthClients := saved.oauthClients;
    }

    /** `db.commit()`: the pending changes are kept exactly when they satisfy
        the table constraints; otherwise the transaction is rolled back to
        `before`, the state the request started from. */
    method Commit(before: Database) returns (committed: bool)
      requires SatisfiesConstraints(before)
      modifies this
      ensures committed == SatisfiesConstraints(old(Snapshot()))
      ensures Snapshot() == if committed then old(Snapshot()) else before
      ensures Valid()
    {
      committed := SatisfiesConstraints(Snapshot());
      if !committed {
        Restore(before);
      }
    }
  }
}
