/** The stock-transfer engine (cruds/movement.py): validate the request,
    move quantity from the origin row to the destination row (creating the
    destination row when the branch has none), append an audit record, and
    commit all of it or nothing. */
module MovementCrud {

  import opened Wrappers
  import opened Models
  import opened Db
  import opened Ledger
  import Sorting

  /** The request. `userId` is the authenticated caller's id, which the
      route fills in before calling the handler. */
  datatype MovementCreate = MovementCreate(
    productId: int,
    quantity: int,
    originBranchId: int,
    destinationBranchId: int,
    notes: Option<string>,
    userId: int)

  const UserNotFound := HttpError(404, "User not found")
  const OriginBranchNotFound := HttpError(404, "Origin branch not found")
  const DestinationBranchNotFound := HttpError(404, "Destination branch not found")
  const InsufficientStock := HttpError(400, "Insufficient stock at origin branch")
  const RegisterFailed := HttpError(500, "Error registering movement")

  /** The audit record built from the request. */
  function Record(m: MovementCreate, movementId: int, now: int): Movement
  {
    Movement(movementId, m.productId, m.quantity, m.originBranchId, m.destinationBranchId, m.userId, now, m.notes)
  }

  /** The destination row and the stock table in which it exists: the row
      the pair already has, or a new one under `newStockId` holding the
      default quantity. */
  function WithDestination(stock: map<int, StockRow>, productId: int, branchId: int, newStockId: int): (out: (int, map<int, StockRow>))
    ensures out.0 in out.1 && RowFor(out.1[out.0], productId, branchId)
  {
    match FindStock(stock, productId, branchId)
    case Some(d) => (d, stock)
    case None => (newStockId, stock[newStockId := StockRow(newStockId, productId, branchId, DefaultQuantity)])
  }

  /** `origin.quantity -= q` then `destination.quantity += q`, in that order,
      on whatever rows those are (the same row, read twice, ends unchanged). */
  function Transfer(stock: map<int, StockRow>, origin: int, destination: int, q: int): map<int, StockRow>
    requires origin in stock && destination in stock
  {
    var debited := stock[origin := stock[origin].(quantity := stock[origin].quantity - q)];
    debited[destination := debited[destination].(quantity := debited[destination].quantity + q)]
  }

  /** The referenced entities exist and the origin holds at least the
      requested quantity: every check before the writes passes. */
  predicate ChecksPass(db: Database, m: MovementCreate)
  {
    && m.userId in db.users
    && m.productId in db.products
    && m.originBranchId in db.branches
    && m.destinationBranchId in db.branches
    && var origin := FindStock(db.stock, m.productId, m.originBranchId);
       origin.Some? && db.stock[origin.value].quantity >= m.quantity
  }

  /** `create_movement` as a function of the tables before the call.
      `newStockId` and `movementId` are the values the tables' id sequences
      hand out; `now` is the insertion time. */
  function CreateMovementSpec(db: Database, m: MovementCreate, newStockId: int, movementId: int, now: int): (out: Outcome<Movement>)
    ensures out.result == Err(UserNotFound) <==> m.userId !in db.users
    ensures out.result == Err(ProductNotFound) <==> m.userId in db.users && m.productId !in db.products
    ensures out.result == Err(OriginBranchNotFound)
        <==> m.userId in db.users && m.productId in db.products && m.originBranchId !in db.branches
    ensures out.result == Err(DestinationBranchNotFound)
        <==> m.userId in db.users && m.productId in db.products && m.originBranchId in db.branches
             && m.destinationBranchId !in db.branches
    ensures out.result == Err(InsufficientStock)
        <==> m.userId in db.users && m.productId in db.products && m.originBranchId in db.branches
             && m.destinationBranchId in db.branches && !ChecksPass(db, m)
    ensures out.result.Err? ==> out.after == db
    ensures out.result.Ok? ==> out.result.value == Record(m, movementId, now)
                               && out.after == db.(stock := out.after.stock,
                                                   movements := db.movements + [Record(m, movementId, now)])
                               && SatisfiesConstraints(out.after)
  {
    if m.userId !in db.users then Outcome(Err(UserNotFound), db)
    else if m.productId !in db.products then Outcome(Err(ProductNotFound), db)
    else if m.originBranchId !in db.branches then Outcome(Err(OriginBranchNotFound), db)
    else if m.destinationBranchId !in db.branches then Outcome(Err(DestinationBranchNotFound), db)
    else if !ChecksPass(db, m) then Outcome(Err(InsufficientStock), db)
    else
      var pending := Pending(db, m, newStockId, movementId, now);
      if SatisfiesConstraints(pending) then Outcome(Ok(Record(m, movementId, now)), pending)
      else Outcome(Err(RegisterFailed), db)
  }

  /** The state the writes leave before the commit: the transfer applied and
      the record appended. */
  function Pending(db: Database, m: MovementCreate, newStockId: int, movementId: int, now: int): (pending: Database)
    requires ChecksPass(db, m)
    ensures pending == db.(stock := pending.stock, movements := db.movements + [Record(m, movementId, now)])
  {
    var origin := FindStock(db.stock, m.productId, m.originBranchId).value;
    var (destination, stock) := WithDestination(db.stock, m.productId, m.destinationBranchId, newStockId);
    db.(stock := Transfer(stock, origin, destination, m.quantity), movements := db.movements + [Record(m, movementId, now)])
  }

  /** The request's id sequences hand out unused values. */
  predicate FreshIds(db: Database, newStockId: int, movementId: int)
  {
    newStockId !in db.stock && forall i | 0 <= i < |db.movements| :: db.movements[i].id != movementId
  }

  /** Conservation: no call changes any product's total quantity across
      branches — a success moves units between two rows of one product,
      and a failure changes nothing. */
  lemma CreateMovementConservesTotals(db: Database, m: MovementCreate, newStockId: int, movementId: int, now: int)
    requires newStockId !in db.stock
    ensures var out := CreateMovementSpec(db, m, newStockId, movementId, now);
            forall p :: ProductTotal(out.after.stock, p) == ProductTotal(db.stock, p)
  {
    var out := CreateMovementSpec(db, m, newStockId, movementId, now);
    if out.result.Ok? {
      var origin := FindStock(db.stock, m.productId, m.originBranchId).value;
      var (destination, stock) := WithDestination(db.stock, m.productId, m.destinationBranchId, newStockId);
      assert out.after.stock == Transfer(stock, origin, destination, m.quantity);
      forall p ensures ProductTotal(out.after.stock, p) == ProductTotal(db.stock, p) {
        WithDestinationKeepsTotal(db.stock, m.productId, m.destinationBranchId, newStockId, p);
        TransferKeepsTotal(stock, origin, destination, m.quantity, p);
      }
    }
  }

  /** Finding or creating the destination row keeps every existing row. */
  lemma WithDestinationKeepsRows(stock: map<int, StockRow>, productId: int, branchId: int, newStockId: int)
    requires newStockId !in stock
    ensures var (_, staged) := WithDestination(stock, productId, branchId, newStockId);
            stock.Keys <= staged.Keys && staged.Keys <= stock.Keys + {newStockId}
            && forall k | k in stock :: staged[k] == stock[k]
  {
  }

  /** Creating the missing destination row adds a row holding nothing. */
  lemma WithDestinationKeepsTotal(stock: map<int, StockRow>, productId: int, branchId: int, newStockId: int, p: int)
    requires newStockId !in stock
    ensures ProductTotal(WithDestination(stock, productId, branchId, newStockId).1, p) == ProductTotal(stock, p)
  {
    if FindStock(stock, productId, branchId).None? {
      TotalAfterWrite(stock, newStockId, StockRow(newStockId, productId, branchId, DefaultQuantity), p);
    }
  }

  /** Moving units between two rows of one product keeps its total. */
  lemma TransferKeepsTotal(stock: map<int, StockRow>, origin: int, destination: int, q: int, p: int)
    requires origin in stock && destination in stock
    requires stock[origin].productId == stock[destination].productId
    ensures ProductTotal(Transfer(stock, origin, destination, q), p) == ProductTotal(stock, p)
  {
    var debited := stock[origin := stock[origin].(quantity := stock[origin].quantity - q)];
    TotalAfterWrite(stock, origin, debited[origin], p);
    TotalAfterWrite(debited, destination, debited[destination].(quantity := debited[destination].quantity + q), p);
  }

  /** A transfer between two different branches debits the origin row by
      exactly `q`, credits the destination row by exactly `q` (a row created
      for it starts from the default quantity), creates at most that one row,
      and leaves every other row as it was. */
  lemma CreateMovementMovesQuantity(db: Database, m: MovementCreate, newStockId: int, movementId: int, now: int)
    requires newStockId !in db.stock
    requires m.originBranchId != m.destinationBranchId
    requires CreateMovementSpec(db, m, newStockId, movementId, now).result.Ok?
    ensures var after := CreateMovementSpec(db, m, newStockId, movementId, now).after.stock;
            var origin := FindStock(db.stock, m.productId, m.originBranchId).value;
            var existing := FindStock(db.stock, m.productId, m.destinationBranchId);
            var destination := if existing.Some? then existing.value else newStockId;
            && origin in after && after[origin] == db.stock[origin].(quantity := db.stock[origin].quantity - m.quantity)
            && destination in after
            && after[destination] == StockRow(destination, m.productId, m.destinationBranchId,
                 (if existing.Some? then db.stock[destination].quantity else DefaultQuantity) + m.quantity)
            && after.Keys == db.stock.Keys + {destination}
            && forall k | k in db.stock && k != origin && k != destination :: after[k] == db.stock[k]
  {
    var existing := FindStock(db.stock, m.productId, m.destinationBranchId);
    if existing.Some? {
      assert db.stock[existing.value].id == existing.value by {
        assert SatisfiesConstraints(CreateMovementSpec(db, m, newStockId, movementId, now).after);
        assert StockRowOk(existing.value, CreateMovementSpec(db, m, newStockId, movementId, now).after.stock[existing.value],
                          db.products, db.branches);
      }
    }
  }

  /** Origin and destination may name the same branch: the one row is read
      twice, so its quantity ends where it began, yet the call succeeds and
      records a movement. */
  lemma SameBranchMovementKeepsStock(db: Database, m: MovementCreate, newStockId: int, movementId: int, now: int)
    requires SatisfiesConstraints(db) && FreshIds(db, newStockId, movementId)
    requires ChecksPass(db, m) && m.originBranchId == m.destinationBranchId
    ensures var out := CreateMovementSpec(db, m, newStockId, movementId, now);
            out.result == Ok(Record(m, movementId, now))
            && out.after == db.(movements := db.movements + [Record(m, movementId, now)])
  {
    var origin := FindStock(db.stock, m.productId, m.originBranchId).value;
    var row := db.stock[origin];
    assert Transfer(db.stock, origin, origin, m.quantity) == db.stock[origin := row];
    assert db.stock[origin := row] == db.stock;
    var pending := db.(movements := db.movements + [Record(m, movementId, now)]);
    assert MovementsOk(pending.movements);
  }

  /** Once the checks pass, the commit is the only way the call can still
      fail, and it fails exactly when the destination would go below zero:
      the debit cannot (the origin holds at least `q` units), no pair can
      be duplicated (the destination row is only created when missing), and
      the movement id is fresh. So a non-negative quantity always succeeds,
      and a negative one fails with 500 exactly when it overdraws the
      destination. */
  lemma CreateMovementCommitFails(db: Database, m: MovementCreate, newStockId: int, movementId: int, now: int)
    requires SatisfiesConstraints(db) && FreshIds(db, newStockId, movementId)
    requires ChecksPass(db, m)
    ensures var existing := FindStock(db.stock, m.productId, m.destinationBranchId);
            var destinationQuantity := if existing.Some? then db.stock[existing.value].quantity else DefaultQuantity;
            CreateMovementSpec(db, m, newStockId, movementId, now).result == Err(RegisterFailed)
            <==> m.originBranchId != m.destinationBranchId && destinationQuantity + m.quantity < 0
  {
    var origin := FindStock(db.stock, m.productId, m.originBranchId).value;
    var existing := FindStock(db.stock, m.productId, m.destinationBranchId);
    var (destination, stock) := WithDestination(db.stock, m.productId, m.destinationBranchId, newStockId);
    var pending := Pending(db, m, newStockId, movementId, now);
    assert pending == db.(stock := Transfer(stock, origin, destination, m.quantity), movements := db.movements + [Record(m, movementId, now)]);
    if m.originBranchId == m.destinationBranchId {
      SameBranchMovementKeepsStock(db, m, newStockId, movementId, now);
    } else {
      WithDestinationKeepsRows(db.stock, m.productId, m.destinationBranchId, newStockId);
      StagedOk(db, m.productId, m.destinationBranchId, newStockId);
      assert RowFor(stock[origin], m.productId, m.originBranchId);
      assert stock[destination].quantity == if existing.Some? then db.stock[existing.value].quantity else DefaultQuantity;
      TransferOk(stock, db.products, db.branches, origin, destination, m.quantity);
      assert MovementsOk(pending.movements);
    }
  }

  /** Finding or creating the destination row of a product and a branch that
      exist keeps the ledger invariant. */
  lemma StagedOk(db: Database, productId: int, branchId: int, newStockId: int)
    requires SatisfiesConstraints(db) && newStockId !in db.stock
    requires productId in db.products && branchId in db.branches
    ensures StockOk(WithDestination(db.stock, productId, branchId, newStockId).1, db.products, db.branches)
  {
    if FindStock(db.stock, productId, branchId).None? {
      InsertRowOk(db.stock, db.products, db.branches, newStockId, StockRow(newStockId, productId, branchId, DefaultQuantity));
    }
  }

  /** Moving `q` units between two distinct rows, when the origin holds at
      least `q`, keeps the ledger invariant exactly when the destination does
      not end below zero. */
  lemma TransferOk(stock: map<int, StockRow>, products: map<int, Product>, branches: map<int, Branch>, origin: int, destination: int, q: int)
    requires StockOk(stock, products, branches)
    requires origin in stock && destination in stock && origin != destination
    requires stock[origin].quantity >= q
    ensures StockOk(Transfer(stock, origin, destination, q), products, branches) <==> stock[destination].quantity + q >= 0
  {
    var debited := stock[origin := stock[origin].(quantity := stock[origin].quantity - q)];
    WriteQuantityOk(stock, products, branches, origin, stock[origin].quantity - q);
    WriteQuantityOk(debited, products, branches, destination, debited[destination].quantity + q);
  }

  /** A shop with one product and two branches, A and B: 10 units at A and
      no row at B. */
  function Shop(clerk: User): Database
  {
    Database(map[1 := Product(1, "P1", None, None, None)], map[1 := Branch(1, "A"), 2 := Branch(2, "B")],
             map[1 := StockRow(1, 1, 1, 10)], [], map[1 := clerk], map[], map[])
  }

  predicate Clerk(clerk: User)
  {
    clerk.id == 1 && |clerk.username| <= 50 && |clerk.name| <= 100 && clerk.email.None?
  }

  /** Moving 4 units from A to B creates B's row under the new id 2 and
      leaves 6 units at A and 4 at B. */
  lemma FirstTransfer(clerk: User)
    requires Clerk(clerk)
    ensures var m := MovementCreate(1, 4, 1, 2, None, 1);
            var out := CreateMovementSpec(Shop(clerk), m, 2, 1, 100);
            && out.result == Ok(Record(m, 1, 100))
            && SatisfiesConstraints(out.after)
            && out.after.stock.Keys == {1, 2}
            && out.after.stock[1] == StockRow(1, 1, 1, 6)
            && out.after.stock[2] == StockRow(2, 1, 2, 4)
            && out.after.movements == [Record(m, 1, 100)]
            && out.after.users == Shop(clerk).users
            && out.after.products == Shop(clerk).products
            && out.after.branches == Shop(clerk).branches
  {
    var db := Shop(clerk);
    var m := MovementCreate(1, 4, 1, 2, None, 1);
    assert FindStock(db.stock, 1, 1) == Some(1) by { FindStockUnique(db.stock, 1, 1, 1); }
    assert FindStock(db.stock, 1, 2) == None;
    assert SatisfiesConstraints(db);
    CreateMovementCommitFails(db, m, 2, 1, 100);
    CreateMovementMovesQuantity(db, m, 2, 1, 100);
  }

  /** Asking for more than a branch holds is refused and changes nothing. */
  lemma OverdrawRefused(db: Database)
    requires SatisfiesConstraints(db)
    requires 1 in db.users && 1 in db.products && 1 in db.branches && 2 in db.branches
    requires 1 in db.stock && db.stock[1] == StockRow(1, 1, 1, 6)
    ensures CreateMovementSpec(db, MovementCreate(1, 10, 1, 2, None, 1), 3, 2, 200) == Outcome(Err(InsufficientStock), db)
  {
    FindStockUnique(db.stock, 1, 1, 1);
  }

  /** The spec spelled out on a scenario: a transfer that succeeds and moves
      the units, then one the origin cannot cover, which leaves the state the
      first one committed. */
  lemma TransferScenario(clerk: User)
    requires Clerk(clerk)
    ensures
      var first := CreateMovementSpec(Shop(clerk), MovementCreate(1, 4, 1, 2, None, 1), 2, 1, 100);
      var second := CreateMovementSpec(first.after, MovementCreate(1, 10, 1, 2, None, 1), 3, 2, 200);
      && first.result.Ok?
      && first.after.stock[1].quantity == 6 && first.after.stock[2].quantity == 4
      && |first.after.movements| == 1
      && second.result == Err(InsufficientStock)
      && second.after == first.after
  {
    FirstTransfer(clerk);
    var first := CreateMovementSpec(Shop(clerk), MovementCreate(1, 4, 1, 2, None, 1), 2, 1, 100);
    OverdrawRefused(first.after);
  }

  /** `create_movement`, step by step on the session. */
  method CreateMovement(db: Session, m: MovementCreate, newStockId: int, movementId: int, now: int)
    returns (r: Result<Movement>)
    requires db.Valid() && FreshIds(db.Snapshot(), newStockId, movementId)
    modifies db
    ensures db.Valid()
    ensures var out := CreateMovementSpec(old(db.Snapshot()), m, newStockId, movementId, now);
            r == out.result && db.Snapshot() == out.after
  {
    var before := db.Snapshot();
    if m.userId !in db.users {
      return Err(UserNotFound);
    }
    if m.productId !in db.products {
      return Err(ProductNotFound);
    }
    if m.originBranchId !in db.branches {
      return Err(OriginBranchNotFound);
    }
    if m.destinationBranchId !in db.branches {
      return Err(DestinationBranchNotFound);
    }
    var originRow := FindStock(db.stock, m.productId, m.originBranchId);
    if originRow.None? || db.stock[originRow.value].quantity < m.quantity {
      return Err(InsufficientStock);
    }
    var origin := originRow.value;
    var destinationRow := FindStock(db.stock, m.productId, m.destinationBranchId);
    var stock := db.stock;
    var destination;
    if destinationRow.None? {
      destination := newStockId;
      stock := stock[destination := StockRow(destination, m.productId, m.destinationBranchId, DefaultQuantity)];
    } else {
      destination := destinationRow.value;
    }
    assert (destination, stock) == WithDestination(before.stock, m.productId, m.destinationBranchId, newStockId);
    ghost var moved := Transfer(stock, origin, destination, m.quantity);
    stock := stock[origin := stock[origin].(quantity := stock[origin].quantity - m.quantity)];
    stock := stock[destination := stock[destination].(quantity := stock[destination].quantity + m.quantity)];
    assert stock == moved;
    db.stock := stock;
    var record := Record(m, movementId, now);
    db.movements := db.movements + [record];
    assert db.Snapshot() == Pending(before, m, newStockId, movementId, now);
    var committed := db.Commit(before);
    if !committed {
      return Err(RegisterFailed);
    }
    r := Ok(record);
  }

  /** Newest first. */
  predicate LaterFirst(a: Movement, b: Movement)
  {
    a.timestamp >= b.timestamp
  }

  lemma LaterFirstIsTotalPreorder()
    ensures Sorting.TotalPreorder(LaterFirst)
  {
  }

  /** `list_movements`: every movement, newest first; reads only. */
  function ListMovements(db: Database): (r: seq<Movement>)
    ensures multiset(r) == multiset(db.movements)
    ensures forall i, j | 0 <= i < j < |r| :: r[i].timestamp >= r[j].timestamp
  {
    LaterFirstIsTotalPreorder();
    var sorted := Sorting.InsertionSort(db.movements, LaterFirst);
    assert forall i, j | 0 <= i < j < |sorted| :: LaterFirst(sorted[i], sorted[j]);
    sorted
  }
}
