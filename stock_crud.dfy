/** Direct edits of the stock ledger (cruds/stock.py): create the row of a
    (product, branch) pair, list rows, set a row's quantity, delete a row.
    None of them looks at the quantity; a negative one is refused only by
    the table's check constraint when the transaction commits. */
module StockCrud {

  import opened Wrappers
  import opened Models
  import opened Db
  import opened Ledger
  import Keys
  import Sorting

  datatype StockCreate = StockCreate(productId: int, branchId: int, quantity: int)

  /** The update payload: the quantity, when the request sent one. */
  datatype StockUpdate = StockUpdate(quantity: Field<int>)

  const BranchNotFound := HttpError(404, "Branch not found")
  const StockExists := HttpError(400, "Stock entry already exists for this product and branch")

  /** The row built from the request, under the id the sequence hands out. */
  function NewRow(s: StockCreate, newId: int): StockRow
  {
    StockRow(newId, s.productId, s.branchId, s.quantity)
  }

  /** `create_stock`: product, then branch, then the pair's existing row are
      checked, in that order; then the row is inserted and committed. */
  function CreateStockSpec(db: Database, s: StockCreate, newId: int): (out: Outcome<StockRow>)
    ensures out.result == Err(ProductNotFound) <==> s.productId !in db.products
    ensures out.result == Err(BranchNotFound) <==> s.productId in db.products && s.branchId !in db.branches
    ensures out.result == Err(StockExists)
        <==> s.productId in db.products && s.branchId in db.branches && FindStock(db.stock, s.productId, s.branchId).Some?
    ensures out.result.Err? ==> out.after == db
    ensures out.result.Ok? ==> out.result.value == NewRow(s, newId)
                               && out.after == db.(stock := db.stock[newId := NewRow(s, newId)])
  {
    if s.productId !in db.products then Outcome(Err(ProductNotFound), db)
    else if s.branchId !in db.branches then Outcome(Err(BranchNotFound), db)
    else if FindStock(db.stock, s.productId, s.branchId).Some? then Outcome(Err(StockExists), db)
    else Committed(db, db.(stock := db.stock[newId := NewRow(s, newId)]), NewRow(s, newId))
  }

  /** A request that passes the three checks fails at commit exactly when
      its quantity is negative; so the call succeeds exactly when the
      product and branch exist, the pair has no row, and the quantity is not
      negative. */
  lemma CreateStockSucceeds(db: Database, s: StockCreate, newId: int)
    requires SatisfiesConstraints(db) && newId !in db.stock
    ensures CreateStockSpec(db, s, newId).result.Ok?
        <==> s.productId in db.products && s.branchId in db.branches
             && FindStock(db.stock, s.productId, s.branchId).None? && s.quantity >= 0
  {
    if s.productId in db.products && s.branchId in db.branches && FindStock(db.stock, s.productId, s.branchId).None? {
      InsertRowOk(db.stock, db.products, db.branches, newId, NewRow(s, newId));
    }
  }

  method CreateStock(db: Session, s: StockCreate, newId: int) returns (r: Result<StockRow>)
    requires db.Valid()
    modifies db
    ensures db.Valid()
    ensures var out := CreateStockSpec(old(db.Snapshot()), s, newId);
            r == out.result && db.Snapshot() == out.after
  {
    var before := db.Snapshot();
    if s.productId !in db.products {
      return Err(ProductNotFound);
    }
    if s.branchId !in db.branches {
      return Err(BranchNotFound);
    }
    if FindStock(db.stock, s.productId, s.branchId).Some? {
      return Err(StockExists);
    }
    var row := NewRow(s, newId);
    db.stock := db.stock[newId := row];
    var committed := db.Commit(before);
    if !committed {
      return Err(InternalServerError);
    }
    r := Ok(row);
  }

  /** `get_stock`: the rows of `branchId` when it is truthy, every row
      otherwise (so branch 0 means no filter); reads only. */
  function GetStock(db: Database, branchId: Option<int>): (r: seq<StockRow>)
    ensures forall row | row in r :: row in db.stock.Values && (NonZero(branchId) ==> row.branchId == branchId.value)
    ensures forall k | k in db.stock && (!NonZero(branchId) || db.stock[k].branchId == branchId.value) :: db.stock[k] in r
    ensures !NonZero(branchId) ==> |r| == |db.stock|
    ensures NonZero(branchId) ==> |r| == |BranchKeys(db.stock, branchId.value)|
    ensures IdsAreKeys(db.stock) ==> Sorting.Distinct(r)
  {
    if NonZero(branchId) then BranchRows(db.stock, branchId.value)
    else
      assert IdsAreKeys(db.stock) ==> Sorting.Distinct(Keys.Rows(db.stock)) by {
        if IdsAreKeys(db.stock) {
          Keys.RowsDistinct(db.stock);
        }
      }
      Keys.Rows(db.stock)
  }

  /** Every row carries its own key as id, so no two keys hold equal rows. */
  predicate IdsAreKeys(stock: map<int, StockRow>)
  {
    forall k | k in stock :: stock[k].id == k
  }

  /** `WHERE branch_id = b` on every row of the table. */
  function BranchRows(stock: map<int, StockRow>, b: int): (r: seq<StockRow>)
    ensures forall row :: row in r <==> row in stock.Values && row.branchId == b
    ensures forall k | k in stock && stock[k].branchId == b :: stock[k] in r
    ensures |r| == |BranchKeys(stock, b)|
    ensures IdsAreKeys(stock) ==> Sorting.Distinct(r)
  {
    var rows := Keys.Rows(stock);
    CountBranchRows(stock, b);
    assert IdsAreKeys(stock) ==> Sorting.Distinct(Sorting.Filter(rows, AtBranch(b))) by {
      if IdsAreKeys(stock) {
        Keys.RowsDistinct(stock);
        Sorting.DistinctSub(rows, Sorting.Filter(rows, AtBranch(b)));
      }
    }
    Sorting.Filter(rows, AtBranch(b))
  }

  /** The keys of the rows held at branch `b`. */
  function BranchKeys(stock: map<int, StockRow>, b: int): set<int>
  {
    set k | k in stock && stock[k].branchId == b
  }

  function AtBranch(b: int): StockRow -> bool
  {
    (row: StockRow) => row.branchId == b
  }

  /** The filtered listing holds one row per stock key at the branch. */
  lemma CountBranchRows(stock: map<int, StockRow>, b: int)
    ensures |Sorting.Filter(Keys.Rows(stock), AtBranch(b))| == |BranchKeys(stock, b)|
  {
    assert Keys.KeysWhere(stock, AtBranch(b)) == BranchKeys(stock, b) by {
      assert forall k :: k in Keys.KeysWhere(stock, AtBranch(b)) <==> k in BranchKeys(stock, b);
    }
    Keys.FilterRowsCount(stock, AtBranch(b));
  }

  /** `update_stock`: an unknown id answers None and changes nothing;
      otherwise the quantity, when sent, is written and committed. */
  function UpdateStockSpec(db: Database, stockId: int, u: StockUpdate): (out: Outcome<Option<StockRow>>)
    ensures stockId !in db.stock ==> out == Outcome(Ok(None), db)
    ensures out.result.Err? ==> out.result.error == InternalServerError && out.after == db
    ensures out.result.Ok? && stockId in db.stock
            ==> var row := db.stock[stockId].(quantity := Apply(u.quantity, db.stock[stockId].quantity));
                out.result.value == Some(row) && out.after == db.(stock := db.stock[stockId := row])
  {
    if stockId !in db.stock then Outcome(Ok(None), db)
    else
      var row := db.stock[stockId].(quantity := Apply(u.quantity, db.stock[stockId].quantity));
      Committed(db, db.(stock := db.stock[stockId := row]), Some(row))
  }

  /** An update fails exactly when it would leave its row negative. */
  lemma UpdateStockSucceeds(db: Database, stockId: int, u: StockUpdate)
    requires SatisfiesConstraints(db)
    ensures UpdateStockSpec(db, stockId, u).result.Err?
        <==> stockId in db.stock && Apply(u.quantity, db.stock[stockId].quantity) < 0
  {
    if stockId in db.stock {
      WriteQuantityOk(db.stock, db.products, db.branches, stockId, Apply(u.quantity, db.stock[stockId].quantity));
    }
  }

  /** Unlike a transfer, a direct update changes the product's total across
      branches by exactly the change of the row, and no other product's. */
  lemma UpdateStockAdjustsTotal(db: Database, stockId: int, u: StockUpdate, p: int)
    requires stockId in db.stock
    requires UpdateStockSpec(db, stockId, u).result.Ok?
    ensures var row := db.stock[stockId];
            ProductTotal(UpdateStockSpec(db, stockId, u).after.stock, p)
            == ProductTotal(db.stock, p)
               + (if row.productId == p then Apply(u.quantity, row.quantity) - row.quantity else 0)
  {
    var row := db.stock[stockId];
    TotalAfterWrite(db.stock, stockId, row.(quantity := Apply(u.quantity, row.quantity)), p);
  }

  method UpdateStock(db: Session, stockId: int, u: StockUpdate) returns (r: Result<Option<StockRow>>)
    requires db.Valid()
    modifies db
    ensures db.Valid()
    ensures var out := UpdateStockSpec(old(db.Snapshot()), stockId, u);
            r == out.result && db.Snapshot() == out.after
  {
    var before := db.Snapshot();
    if stockId !in db.stock {
      return Ok(None);
    }
    var row := db.stock[stockId];
    if u.quantity.Set? {
      row := row.(quantity := u.quantity.value);
    }
    db.stock := db.stock[stockId := row];
    var committed := db.Commit(before);
    if !committed {
      return Err(InternalServerError);
    }
    r := Ok(Some(row));
  }

  /** `delete_stock`: False for an unknown id; otherwise the row is removed. */
  function DeleteStockSpec(db: Database, stockId: int): (out: Outcome<bool>)
    ensures stockId !in db.stock ==> out == Outcome(Ok(false), db)
    ensures out.result.Ok? && stockId in db.stock ==> out.result.value && out.after == db.(stock := db.stock - {stockId})
  {
    if stockId !in db.stock then Outcome(Ok(false), db)
    else Committed(db, db.(stock := db.stock - {stockId}), true)
  }

  /** Nothing references a stock row, so a delete never fails: it answers
      whether the row existed and leaves every row but that one. */
  lemma DeleteStockRemovesRow(db: Database, stockId: int)
    requires SatisfiesConstraints(db)
    ensures var out := DeleteStockSpec(db, stockId);
            out.result == Ok(stockId in db.stock) && out.after == db.(stock := db.stock - {stockId})
  {
    if stockId !in db.stock {
      assert db.stock - {stockId} == db.stock;
    } else {
      var rest := db.stock - {stockId};
      assert StockOk(rest, db.products, db.branches) by {
        forall i, j | i in rest && j in rest && RowFor(rest[j], rest[i].productId, rest[i].branchId)
          ensures i == j
        {
          assert RowFor(db.stock[j], db.stock[i].productId, db.stock[i].branchId);
        }
      }
    }
  }

  method DeleteStock(db: Session, stockId: int) returns (r: Result<bool>)
    requires db.Valid()
    modifies db
    ensures db.Valid()
    ensures var out := DeleteStockSpec(old(db.Snapshot()), stockId);
            r == out.result && db.Snapshot() == out.after
  {
    var before := db.Snapshot();
    if stockId !in db.stock {
      return Ok(false);
    }
    db.stock := db.stock - {stockId};
    var committed := db.Commit(before);
    if !committed {
      return Err(InternalServerError);
    }
    r := Ok(true);
  }
}
