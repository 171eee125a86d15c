/** Branches (cruds/branch.py): list, look up, create and rename with a
    name check done by the handler (the column itself is not unique), and
    delete guarded by the stock rows and movements that name the branch. */
module BranchCrud {

  import opened Wrappers
  import opened Models
  import opened Db
  import Keys

  datatype BranchCreate = BranchCreate(name: string)

  /** The update payload: the name, when the request sent one. */
  datatype BranchUpdate = BranchUpdate(name: Field<string>)

  const BranchNameExists := HttpError(400, "Branch name already exists")
  const BranchInUse := HttpError(400, "Cannot delete branch with associated stock or movements")

  /** Some branch other than `id` is called `name`. */
  predicate NameUsedByOther(branches: map<int, Branch>, name: string, id: int)
  {
    exists k | k in branches && k != id :: branches[k].name == name
  }

  /** Some branch is called `name`. */
  predicate NameUsed(branches: map<int, Branch>, name: string)
  {
    exists k | k in branches :: branches[k].name == name
  }

  /** `get_branches`: every branch, each once, in ascending id order. */
  function GetBranches(db: Database): (r: seq<Branch>)
    requires BranchesOk(db.branches)
    ensures |r| == |db.branches|
    ensures forall b | b in r :: b.id in db.branches && db.branches[b.id] == b
    ensures forall k | k in db.branches :: db.branches[k] in r
    ensures forall i, j | 0 <= i < j < |r| :: r[i].id < r[j].id
  {
    RowsById(db.branches);
    Keys.Rows(db.branches)
  }

  /** Each stored branch carries its key, so the rows in key order are in id
      order and each is stored under its own id. */
  lemma RowsById(branches: map<int, Branch>)
    requires BranchesOk(branches)
    ensures var r := Keys.Rows(branches);
            && (forall b | b in r :: b.id in branches && branches[b.id] == b)
            && (forall i, j | 0 <= i < j < |r| :: r[i].id < r[j].id)
  {
    var r := Keys.Rows(branches);
    RowIdsAscend(branches);
    forall b | b in r ensures b.id in branches && branches[b.id] == b {
      var k := Keys.StoredKey(branches, b);
    }
  }

  lemma RowIdsAscend(branches: map<int, Branch>)
    requires BranchesOk(branches)
    ensures var r := Keys.Rows(branches);
            forall i, j | 0 <= i < j < |r| :: r[i].id < r[j].id
  {
    var ks := Keys.Ascending(branches.Keys);
    var r := Keys.Rows(branches);
    assert Keys.StrictlyIncreasing(ks);
    forall i, j | 0 <= i < j < |r| ensures r[i].id < r[j].id {
      assert r[i].id == ks[i] && r[j].id == ks[j];
    }
  }

  /** `get_branch`: the branch stored under `id`, if any. */
  function GetBranch(db: Database, id: int): (r: Option<Branch>)
    requires BranchesOk(db.branches)
    ensures r.Some? <==> id in db.branches
    ensures r.Some? ==> r.value.id == id && r.value in db.branches.Values
  {
    if id in db.branches then Some(db.branches[id]) else None
  }

  /** `create_branch`: a taken name is refused before anything is written. */
  function CreateBranchSpec(db: Database, b: BranchCreate, newId: int): (out: Outcome<Branch>)
    ensures out.result == Err(BranchNameExists) <==> NameUsed(db.branches, b.name)
    ensures out.result.Err? ==> out.after == db
    ensures out.result.Ok? ==> out.result.value == Branch(newId, b.name)
                               && out.after == db.(branches := db.branches[newId := Branch(newId, b.name)])
  {
    if NameUsed(db.branches, b.name) then Outcome(Err(BranchNameExists), db)
    else Committed(db, db.(branches := db.branches[newId := Branch(newId, b.name)]), Branch(newId, b.name))
  }

  /** The schema puts no constraint on a branch beyond its key, so the only
      way to fail is a taken name. */
  lemma CreateBranchSucceeds(db: Database, b: BranchCreate, newId: int)
    requires SatisfiesConstraints(db) && newId !in db.branches
    ensures CreateBranchSpec(db, b, newId).result.Ok? <==> !NameUsed(db.branches, b.name)
  {
    var pending := db.(branches := db.branches[newId := Branch(newId, b.name)]);
    assert forall k | k in db.stock :: StockRowOk(k, pending.stock[k], pending.products, pending.branches);
  }

  method CreateBranch(db: Session, b: BranchCreate, newId: int) returns (r: Result<Branch>)
    requires db.Valid()
    modifies db
    ensures db.Valid()
    ensures var out := CreateBranchSpec(old(db.Snapshot()), b, newId);
            r == out.result && db.Snapshot() == out.after
  {
    var before := db.Snapshot();
    if NameUsed(db.branches, b.name) {
      return Err(BranchNameExists);
    }
    var branch := Branch(newId, b.name);
    db.branches := db.branches[newId := branch];
    var committed := db.Commit(before);
    if !committed {
      return Err(InternalServerError);
    }
    r := Ok(branch);
  }

  /** `update_branch`: None for an unknown id; a non-empty new name held by
      another branch is refused; otherwise the sent fields are written. */
  function UpdateBranchSpec(db: Database, id: int, u: BranchUpdate): (out: Outcome<Option<Branch>>)
    ensures id !in db.branches ==> out == Outcome(Ok(None), db)
    ensures out.result == Err(BranchNameExists)
        <==> id in db.branches && u.name.Set? && u.name.value != "" && NameUsedByOther(db.branches, u.name.value, id)
    ensures out.result.Err? ==> out.after == db
    ensures out.result.Ok? && id in db.branches
            ==> var b := db.branches[id].(name := Apply(u.name, db.branches[id].name));
                out.result.value == Some(b) && out.after == db.(branches := db.branches[id := b])
  {
    if id !in db.branches then Outcome(Ok(None), db)
    else if u.name.Set? && u.name.value != "" && NameUsedByOther(db.branches, u.name.value, id) then
      Outcome(Err(BranchNameExists), db)
    else
      var b := db.branches[id].(name := Apply(u.name, db.branches[id].name));
      Committed(db, db.(branches := db.branches[id := b]), Some(b))
  }

  /** A rename fails only on another branch's name: keeping its own name,
      or an empty one, always goes through, and the id never changes. */
  lemma UpdateBranchSucceeds(db: Database, id: int, u: BranchUpdate)
    requires SatisfiesConstraints(db)
    ensures var out := UpdateBranchSpec(db, id, u);
            (out.result.Ok? <==> out.result != Err(BranchNameExists))
            && (out.result.Ok? && out.result.value.Some? ==> out.result.value.value.id == id)
  {
    if id in db.branches {
      var b := db.branches[id].(name := Apply(u.name, db.branches[id].name));
      var pending := db.(branches := db.branches[id := b]);
      assert forall k | k in db.stock :: StockRowOk(k, pending.stock[k], pending.products, pending.branches);
    }
  }

  method UpdateBranch(db: Session, id: int, u: BranchUpdate) returns (r: Result<Option<Branch>>)
    requires db.Valid()
    modifies db
    ensures db.Valid()
    ensures var out := UpdateBranchSpec(old(db.Snapshot()), id, u);
            r == out.result && db.Snapshot() == out.after
  {
    var before := db.Snapshot();
    if id !in db.branches {
      return Ok(None);
    }
    if u.name.Set? && u.name.value != "" && NameUsedByOther(db.branches, u.name.value, id) {
      return Err(BranchNameExists);
    }
    var b := db.branches[id];
    if u.name.Set? {
      b := b.(name := u.name.value);
    }
    db.branches := db.branches[id := b];
    var committed := db.Commit(before);
    if !committed {
      return Err(InternalServerError);
    }
    r := Ok(Some(b));
  }

  /** A stock row, or a movement as origin or destination, names the branch. */
  predicate Referenced(db: Database, id: int)
  {
    || (exists k | k in db.stock :: db.stock[k].branchId == id)
    || (exists i | 0 <= i < |db.movements| :: db.movements[i].originBranchId == id || db.movements[i].destinationBranchId == id)
  }

  /** `delete_branch`: False for an unknown id; refused while referenced. */
  function DeleteBranchSpec(db: Database, id: int): (out: Outcome<bool>)
    ensures id !in db.branches ==> out == Outcome(Ok(false), db)
    ensures out.result == Err(BranchInUse) <==> id in db.branches && Referenced(db, id)
    ensures out.result.Err? ==> out.after == db
    ensures out.result.Ok? && id in db.branches ==> out.result.value && out.after == db.(branches := db.branches - {id})
  {
    if id !in db.branches then Outcome(Ok(false), db)
    else if Referenced(db, id) then Outcome(Err(BranchInUse), db)
    else Committed(db, db.(branches := db.branches - {id}), true)
  }

  /** The guard is what keeps the ledger sound: an unreferenced branch is
      always removed, and nothing else is. */
  lemma DeleteBranchSucceeds(db: Database, id: int)
    requires SatisfiesConstraints(db)
    ensures var out := DeleteBranchSpec(db, id);
            (out.result == Ok(true) <==> id in db.branches && !Referenced(db, id))
            && (out.result == Ok(true) ==> out.after == db.(branches := db.branches - {id}))
  {
    if id in db.branches && !Referenced(db, id) {
      var pending := db.(branches := db.branches - {id});
      forall k | k in db.stock ensures StockRowOk(k, pending.stock[k], pending.products, pending.branches) {
        assert db.stock[k].branchId != id;
      }
    }
  }

  method DeleteBranch(db: Session, id: int) returns (r: Result<bool>)
    requires db.Valid()
    modifies db
    ensures db.Valid()
    ensures var out := DeleteBranchSpec(old(db.Snapshot()), id);
            r == out.result && db.Snapshot() == out.after
  {
    var before := db.Snapshot();
    if id !in db.branches {
      return Ok(false);
    }
    if Referenced(db.Snapshot(), id) {
      return Err(BranchInUse);
    }
    db.branches := db.branches - {id};
    var committed := db.Commit(before);
    if !committed {
      return Err(InternalServerError);
    }
    r := Ok(true);
  }
}
