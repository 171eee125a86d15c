/** The tables (the files under models/) as records keyed by primary key, and the
    constraints the database checks when a transaction commits. A committed
    state always satisfies `SatisfiesConstraints`. */
module Models {

  import opened Wrappers
  import opened Credentials
  import Keys

  datatype Product = Product(
    id: int,
    name: string,
    vintage: Option<int>,
    region: Option<string>,
    grapeVariety: Option<string>)

  datatype Branch = Branch(id: int, name: string)

  /** One ledger row: how many units of a product a branch holds. */
  datatype StockRow = StockRow(id: int, productId: int, branchId: int, quantity: int)

  /** An audit record of one transfer; `timestamp` is the instant the row was
      inserted, an ordered value supplied by the caller. */
  datatype Movement = Movement(
    id: int,
    productId: int,
    quantity: int,
    originBranchId: int,
    destinationBranchId: int,
    userId: int,
    timestamp: int,
    notes: Option<string>)

  datatype User = User(
    id: int,
    username: string,
    name: string,
    email: Option<string>,
    hashedPassword: PasswordHash,
    role: Role)

  datatype Client = Client(id: int, name: string, email: string, phone: string)

  datatype OAuthClient = OAuthClient(id: int, clientId: string, clientSecret: PasswordHash, name: string)

  /** Every table of the store. Movements are append-only, so they are kept
      in insertion order. */
  datatype Database = Database(
    products: map<int, Product>,
    branches: map<int, Branch>,
    stock: map<int, StockRow>,
    movements: seq<Movement>,
    users: map<int, User>,
    clients: map<int, Client>,
    oauthClients: map<int, OAuthClient>)

  /** The column default of `stock.quantity`. */
  const DefaultQuantity := 0

  /** A nullable `VARCHAR(n)` value fits its column. */
  predicate OptionalFits(s: Option<string>, n: nat)
  {
    s.None? || |s.value| <= n
  }

  predicate ProductFits(p: Product)
  {
    |p.name| <= 100 && OptionalFits(p.region, 100) && OptionalFits(p.grapeVariety, 100)
  }

  /** products: primary key, `VARCHAR` lengths, `name` unique. */
  predicate ProductsOk(products: map<int, Product>)
  {
    && (forall k | k in products :: products[k].id == k && ProductFits(products[k]))
    && (forall i, j | i in products && j in products && products[i].name == products[j].name :: i == j)
  }

  /** branches: primary key only (the name is not unique in the schema). */
  predicate BranchesOk(branches: map<int, Branch>)
  {
    forall k | k in branches :: branches[k].id == k
  }

  /** The row belongs to the (product, branch) pair. */
  predicate RowFor(row: StockRow, productId: int, branchId: int)
  {
    row.productId == productId && row.branchId == branchId
  }

  /** A stock row on its own: primary key, `quantity >= 0`, and both foreign
      keys resolve. */
  predicate StockRowOk(k: int, row: StockRow, products: map<int, Product>, branches: map<int, Branch>)
  {
    row.id == k && row.quantity >= 0 && row.productId in products && row.branchId in branches
  }

  /** No two rows share a (product, branch) pair. */
  predicate UniquePairs(stock: map<int, StockRow>)
  {
    forall i, j | i in stock && j in stock && RowFor(stock[j], stock[i].productId, stock[i].branchId) :: i == j
  }

  /** stock: the ledger invariant (models/stock.py). */
  predicate StockOk(stock: map<int, StockRow>, products: map<int, Product>, branches: map<int, Branch>)
  {
    && (forall k | k in stock :: StockRowOk(k, stock[k], products, branches))
    && UniquePairs(stock)
  }

  /** movements: the primary key is unique. */
  predicate MovementsOk(movements: seq<Movement>)
  {
    forall i, j | 0 <= i < j < |movements| :: movements[i].id != movements[j].id
  }

  predicate UserFits(u: User)
  {
    |u.username| <= 50 && |u.name| <= 100 && OptionalFits(u.email, 120)
  }

  /** users: primary key, lengths, `username` unique, `email` unique where
      present (NULLs never collide). */
  predicate UsersOk(users: map<int, User>)
  {
    && (forall k | k in users :: users[k].id == k && UserFits(users[k]))
    && (forall i, j | i in users && j in users && users[i].username == users[j].username :: i == j)
    && (forall i, j | i in users && j in users && users[i].email.Some? && users[i].email == users[j].email :: i == j)
  }

  predicate ClientFits(c: Client)
  {
    |c.name| <= 100 && |c.email| <= 120 && |c.phone| <= 20
  }

  /** clients: primary key, lengths, `email` unique. */
  predicate ClientsOk(clients: map<int, Client>)
  {
    && (forall k | k in clients :: clients[k].id == k && ClientFits(clients[k]))
    && (forall i, j | i in clients && j in clients && clients[i].email == clients[j].email :: i == j)
  }

  /** oauth_clients: primary key, `client_id` unique. */
  predicate OAuthClientsOk(oauthClients: map<int, OAuthClient>)
  {
    && (forall k | k in oauthClients :: oauthClients[k].id == k)
    && (forall i, j | i in oauthClients && j in oauthClients && oauthClients[i].clientId == oauthClients[j].clientId :: i == j)
  }

  /** Everything the database checks at commit. */
  predicate SatisfiesConstraints(db: Database)
  {
    && ProductsOk(db.products)
    && BranchesOk(db.branches)
    && StockOk(db.stock, db.products, db.branches)
    && MovementsOk(db.movements)
    && UsersOk(db.users)
    && ClientsOk(db.clients)
    && OAuthClientsOk(db.oauthClients)
  }

  /** What a handler answers and the tables it leaves behind. */
  datatype Outcome<+T> = Outcome(result: Result<T>, after: Database)

  /** `db.commit()` at the end of a handler, as a value: the pending tables
      are kept when they satisfy every constraint; otherwise the transaction
      rolls back to `db` and the escaping database error becomes a 500. */
  function Committed<T>(db: Database, pending: Database, value: T): Outcome<T>
  {
    if SatisfiesConstraints(pending) then Outcome(Ok(value), pending)
    else Outcome(Err(InternalServerError), db)
  }

  const ProductNotFound := HttpError(404, "Product not found")

  /** `filter(product_id == p, branch_id == b).first()` on the stock table:
      the row of the pair, if there is one. */
  function FindStock(stock: map<int, StockRow>, productId: int, branchId: int): (r: Option<int>)
    ensures r.Some? ==> r.value in stock && RowFor(stock[r.value], productId, branchId)
    ensures r.None? ==> forall k | k in stock :: !RowFor(stock[k], productId, branchId)
  {
    Keys.First(stock, (row: StockRow) => RowFor(row, productId, branchId))
  }

  /** Under the ledger invariant the row of a pair is unique: any row of the
      pair is the one `FindStock` returns. */
  lemma FindStockUnique(stock: map<int, StockRow>, productId: int, branchId: int, k: int)
    requires UniquePairs(stock)
    requires k in stock && RowFor(stock[k], productId, branchId)
    ensures FindStock(stock, productId, branchId) == Some(k)
  {
  }

  /** Inserting a row under an unused key keeps the ledger invariant exactly
      when the row is valid on its own and its (product, branch) pair has no
      row yet. */
  lemma InsertRowOk(stock: map<int, StockRow>, products: map<int, Product>, branches: map<int, Branch>, k: int, row: StockRow)
    requires StockOk(stock, products, branches) && k !in stock
    ensures StockOk(stock[k := row], products, branches)
        <==> StockRowOk(k, row, products, branches) && FindStock(stock, row.productId, row.branchId).None?
  {
    var written := stock[k := row];
    var existing := FindStock(stock, row.productId, row.branchId);
    if existing.Some? {
      assert RowFor(written[existing.value], written[k].productId, written[k].branchId);
      assert !UniquePairs(written);
    } else if StockRowOk(k, row, products, branches) {
      assert forall i | i in written :: StockRowOk(i, written[i], products, branches);
      forall i, j | i in written && j in written && RowFor(written[j], written[i].productId, written[i].branchId)
        ensures i == j
      {
        if i != j && (i == k || j == k) { assert false; }
      }
    } else {
      assert !StockRowOk(k, written[k], products, branches);
    }
  }

  /** Setting the quantity of an existing row keeps the ledger invariant
      exactly when the new quantity is not negative. */
  lemma WriteQuantityOk(stock: map<int, StockRow>, products: map<int, Product>, branches: map<int, Branch>, k: int, quantity: int)
    requires StockOk(stock, products, branches) && k in stock
    ensures StockOk(stock[k := stock[k].(quantity := quantity)], products, branches) <==> quantity >= 0
  {
    var written := stock[k := stock[k].(quantity := quantity)];
    if quantity >= 0 {
      forall i, j | i in written && j in written && RowFor(written[j], written[i].productId, written[i].branchId)
        ensures i == j
      {
        assert RowFor(stock[j], stock[i].productId, stock[i].branchId);
      }
    } else {
      assert !StockRowOk(k, written[k], products, branches);
    }
  }
}
