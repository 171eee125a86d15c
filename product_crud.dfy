/** Wines (cruds/product.py): the catalogue listing with filters, a sort
    order and cursor paging, and create/update/delete with the name check
    and the stock guard the handlers add. */
module ProductCrud {

  import opened Wrappers
  import opened Models
  import opened Db
  import opened Text
  import Keys
  import Sorting

  /** The columns a new wine is created with. */
  datatype ProductCreate = ProductCreate(
    name: string,
    vintage: Option<int>,
    region: Option<string>,
    grapeVariety: Option<string>)

  /** The update payload: each column, when the request sent it. */
  datatype ProductUpdate = ProductUpdate(
    name: Field<string>,
    vintage: Field<Option<int>>,
    region: Field<Option<string>>,
    grapeVariety: Field<Option<string>>)

  const InvalidSort := HttpError(400, "Invalid sort parameter")
  const WineNameExists := HttpError(400, "Wine name already exists")
  const WineHasStock := HttpError(400, "Cannot delete wine with associated stock")

  // ---------------------------------------------------------------------
  // Listing

  datatype SortOrder = NameAsc | NameDesc | VintageAsc | VintageDesc

  function SortName(order: SortOrder): string
  {
    match order
    case NameAsc => "name_asc"
    case NameDesc => "name_desc"
    case VintageAsc => "vintage_asc"
    case VintageDesc => "vintage_desc"
  }

  /** The four accepted `sort` values; anything else is refused. */
  function ParseSort(s: string): (r: Option<SortOrder>)
    ensures r.Some? <==> s == "name_asc" || s == "name_desc" || s == "vintage_asc" || s == "vintage_desc"
    ensures r.Some? ==> SortName(r.value) == s
  {
    if s == "name_asc" then Some(NameAsc)
    else if s == "name_desc" then Some(NameDesc)
    else if s == "vintage_asc" then Some(VintageAsc)
    else if s == "vintage_desc" then Some(VintageDesc)
    else None
  }

  /** `ORDER BY vintage ASC`: a NULL vintage counts as larger than every
      year, so NULLs come last ascending and first descending. */
  predicate VintageLeq(a: Option<int>, b: Option<int>)
  {
    b.None? || (a.Some? && a.value <= b.value)
  }

  /** `a` may be listed before `b` under the order. */
  predicate Precedes(order: SortOrder, a: Product, b: Product)
  {
    match order
    case NameAsc => LexLeq(a.name, b.name)
    case NameDesc => LexLeq(b.name, a.name)
    case VintageAsc => VintageLeq(a.vintage, b.vintage)
    case VintageDesc => VintageLeq(b.vintage, a.vintage)
  }

  /** The order as the comparison `ORDER BY` uses. */
  function Listing(order: SortOrder): (Product, Product) -> bool
  {
    (a: Product, b: Product) => Precedes(order, a, b)
  }

  lemma PrecedesTotal(order: SortOrder, a: Product, b: Product)
    ensures Precedes(order, a, b) || Precedes(order, b, a)
  {
    LexLeqTotal(a.name, b.name);
  }

  lemma PrecedesTransitive(order: SortOrder, a: Product, b: Product, c: Product)
    requires Precedes(order, a, b) && Precedes(order, b, c)
    ensures Precedes(order, a, c)
  {
    if order == NameAsc {
      LexLeqTransitive(a.name, b.name, c.name);
    } else if order == NameDesc {
      LexLeqTransitive(c.name, b.name, a.name);
    }
  }

  lemma ListingIsTotalPreorder(order: SortOrder)
    ensures Sorting.TotalPreorder(Listing(order))
  {
    forall a: Product, b: Product ensures Precedes(order, a, b) || Precedes(order, b, a) {
      PrecedesTotal(order, a, b);
    }
    forall a: Product, b: Product, c: Product | Precedes(order, a, b) && Precedes(order, b, c)
      ensures Precedes(order, a, c)
    {
      PrecedesTransitive(order, a, b, c);
    }
  }

  /** `ORDER BY` on the selected rows: sorted, and the same rows. */
  function SortProducts(s: seq<Product>, order: SortOrder): (r: seq<Product>)
    ensures Sorting.SortedBy(r, Listing(order))
    ensures multiset(r) == multiset(s)
    ensures forall p :: p in r <==> p in s
  {
    ListingIsTotalPreorder(order);
    var r := Sorting.InsertionSort(s, Listing(order));
    assert forall p :: p in r <==> p in s by {
      forall p ensures p in r <==> p in s {
        assert p in r <==> p in multiset(r);
        assert p in s <==> p in multiset(s);
      }
    }
    r
  }

  /** The query string of the listing. An empty `name` or `region` means no
      filter; `vintage` filters whenever it is given, 0 included. A `cursor`
      of 0 means no cursor. */
  datatype WineQuery = WineQuery(
    name: Option<string>,
    region: Option<string>,
    vintage: Option<int>,
    sort: string,
    cursor: Option<int>,
    limit: int)

  const DefaultSort := "name_asc"
  const DefaultLimit := 100

  /** The product passes every filter of the query (`ILIKE '%x%'` for name
      and region, with `x` not escaped, so its `%`, `_` and `\` act as
      pattern characters, and a NULL region never matches; equality for
      vintage). */
  predicate Matches(p: Product, q: WineQuery)
  {
    && (Truthy(q.name) ==> ILikeAnywhere(p.name, q.name.value))
    && (Truthy(q.region) ==> p.region.Some? && ILikeAnywhere(p.region.value, q.region.value))
    && (q.vintage.Some? ==> p.vintage == q.vintage)
  }

  /** The product is past the cursor, when there is one. */
  predicate PastCursor(p: Product, q: WineQuery)
  {
    NonZero(q.cursor) ==> p.id > q.cursor.value
  }

  /** The keys of the products the filters select. */
  function MatchingKeys(products: map<int, Product>, q: WineQuery): set<int>
  {
    set k | k in products && Matches(products[k], q)
  }

  datatype WinePage = WinePage(items: seq<Product>, total: int, nextCursor: Option<int>)

  /** `WHERE` with the query's filters, on the whole table. */
  function Selection(products: map<int, Product>, q: WineQuery): seq<Product>
  {
    Sorting.Filter(Keys.Rows(products), (p: Product) => Matches(p, q))
  }

  /** `total`: the number of products the filters select. */
  lemma CountMatching(products: map<int, Product>, q: WineQuery)
    ensures |Selection(products, q)| == |MatchingKeys(products, q)|
  {
    var keep := (p: Product) => Matches(p, q);
    assert Keys.KeysWhere(products, keep) == MatchingKeys(products, q) by {
      assert forall k :: k in Keys.KeysWhere(products, keep) <==> k in MatchingKeys(products, q);
    }
    Keys.FilterRowsCount(products, keep);
  }

  /** Products are stored under their own ids, so the selection lists each
      once. */
  lemma SelectionDistinct(products: map<int, Product>, q: WineQuery)
    requires ProductsOk(products)
    ensures Sorting.Distinct(Selection(products, q))
  {
    forall i, j | i in products && j in products && products[i] == products[j] ensures i == j {
      assert products[i].id == i && products[j].id == j;
    }
    Keys.RowsDistinct(products);
    Sorting.DistinctSub(Keys.Rows(products), Selection(products, q));
  }

  /** The rows that survive the filters and the cursor, in listing order. */
  function Candidates(db: Database, q: WineQuery, order: SortOrder): (s: seq<Product>)
    ensures Sorting.SortedBy(s, Listing(order))
    ensures forall p :: p in s <==> p in db.products.Values && Matches(p, q) && PastCursor(p, q)
    ensures ProductsOk(db.products) ==> Sorting.Distinct(s)
  {
    var selection := Selection(db.products, q);
    var sorted := SortProducts(selection, order);
    assert ProductsOk(db.products) ==> Sorting.Distinct(sorted) by {
      if ProductsOk(db.products) {
        SelectionDistinct(db.products, q);
        Sorting.DistinctSub(selection, sorted);
      }
    }
    AfterIdCursor(sorted, q, order)
  }

  /** `WHERE id > cursor` on the sorted rows, when the cursor is truthy. */
  function AfterIdCursor(sorted: seq<Product>, q: WineQuery, order: SortOrder): (r: seq<Product>)
    requires Sorting.SortedBy(sorted, Listing(order))
    ensures Sorting.SortedBy(r, Listing(order))
    ensures forall p :: p in r <==> p in sorted && PastCursor(p, q)
    ensures Sorting.Distinct(sorted) ==> Sorting.Distinct(r)
  {
    if NonZero(q.cursor) then
      var past := (p: Product) => p.id > q.cursor.value;
      Sorting.FilterKeepsSorted(sorted, past, Listing(order));
      assert Sorting.Distinct(sorted) ==> Sorting.Distinct(Sorting.Filter(sorted, past)) by {
        if Sorting.Distinct(sorted) {
          Sorting.DistinctSub(sorted, Sorting.Filter(sorted, past));
        }
      }
      Sorting.Filter(sorted, past)
    else sorted
  }

  /** `LIMIT n` on the listing. */
  function Limit(s: seq<Product>, n: nat, order: SortOrder): (items: seq<Product>)
    requires Sorting.SortedBy(s, Listing(order))
    ensures items == s[..if n < |s| then n else |s|]
    ensures Sorting.Distinct(s) ==> Sorting.Distinct(items)
    ensures |items| <= n
    ensures Sorting.SortedBy(items, Listing(order))
    ensures forall p | p in items :: p in s
    ensures forall i, p | 0 <= i < |items| && p in s && p !in items :: Precedes(order, items[i], p)
    ensures |items| < n ==> forall p | p in s :: p in items
  {
    Sorting.Take(s, n, Listing(order))
  }

  /** The page the listing answers for a valid sort and a non-negative
      limit: the first `limit` candidates, the filtered count, and the last
      id of a full page as the next cursor. */
  function ListingPage(db: Database, q: WineQuery, order: SortOrder, limit: nat): (page: WinePage)
    ensures var cands := Candidates(db, q, order);
            && page.items == cands[..if limit < |cands| then limit else |cands|]
            && (ProductsOk(db.products) ==> Sorting.Distinct(page.items))
            && page.total == |MatchingKeys(db.products, q)|
            && |page.items| <= limit
            && (forall p | p in page.items :: p in db.products.Values && Matches(p, q) && PastCursor(p, q))
            && Sorting.SortedBy(page.items, Listing(order))
            && (forall i, p | 0 <= i < |page.items| && p in cands && p !in page.items
                  :: Precedes(order, page.items[i], p))
            && (|page.items| < limit ==> forall p | p in cands :: p in page.items)
            && page.nextCursor == (if page.items != [] && |page.items| == limit
                                  then Some(page.items[|page.items| - 1].id) else None)
  {
    CountMatching(db.products, q);
    var items := Limit(Candidates(db, q, order), limit, order);
    var next := if items != [] && |items| == limit then Some(items[|items| - 1].id) else None;
    WinePage(items, |Selection(db.products, q)|, next)
  }

  /** `get_wines`: filter, count, sort, apply the cursor, then the limit. A
      `sort` outside the four values is refused, and a negative limit is
      refused by the database. */
  function GetWines(db: Database, q: WineQuery): (r: Result<WinePage>)
    ensures r == Err(InvalidSort) <==> ParseSort(q.sort).None?
    ensures r == Err(InternalServerError) <==> ParseSort(q.sort).Some? && q.limit < 0
    ensures r.Ok? ==>
              var page := r.value;
              var order := ParseSort(q.sort).value;
              var cands := Candidates(db, q, order);
              && page.items == cands[..if q.limit < |cands| then q.limit else |cands|]
              && (ProductsOk(db.products) ==> Sorting.Distinct(page.items))
              && page.total == |MatchingKeys(db.products, q)|
              && |page.items| <= q.limit
              && (forall p | p in page.items :: p in db.products.Values && Matches(p, q) && PastCursor(p, q))
              && Sorting.SortedBy(page.items, Listing(order))
              && (forall i, p | 0 <= i < |page.items| && p in cands && p !in page.items
                    :: Precedes(order, page.items[i], p))
              && (|page.items| < q.limit ==> forall p | p in cands :: p in page.items)
              && page.nextCursor == (if page.items != [] && |page.items| == q.limit
                                    then Some(page.items[|page.items| - 1].id) else None)
  {
    var order := ParseSort(q.sort);
    if order.None? then Err(InvalidSort)
    else if q.limit < 0 then Err(InternalServerError)
    else Ok(ListingPage(db, q, order.value, q.limit))
  }

  /** `get_wine`: the product stored under `id`, if any. */
  function GetWine(db: Database, id: int): (r: Option<Product>)
    requires ProductsOk(db.products)
    ensures r.Some? <==> id in db.products
    ensures r.Some? ==> r.value.id == id && r.value in db.products.Values
  {
    if id in db.products then Some(db.products[id]) else None
  }

  // ---------------------------------------------------------------------
  // Changes

  /** Some product is called `name`. */
  predicate NameUsed(products: map<int, Product>, name: string)
  {
    exists k | k in products :: products[k].name == name
  }

  /** Some product other than `id` is called `name`. */
  predicate NameUsedByOther(products: map<int, Product>, name: string, id: int)
  {
    exists k | k in products && k != id :: products[k].name == name
  }

  function NewProduct(w: ProductCreate, newId: int): Product
  {
    Product(newId, w.name, w.vintage, w.region, w.grapeVariety)
  }

  /** `create_wine`: a taken name is refused before anything is written;
      the column lengths are checked at commit. */
  function CreateWineSpec(db: Database, w: ProductCreate, newId: int): (out: Outcome<Product>)
    ensures out.result == Err(WineNameExists) <==> NameUsed(db.products, w.name)
    ensures out.result.Err? ==> out.after == db
    ensures out.result.Ok? ==> out.result.value == NewProduct(w, newId)
                               && out.after == db.(products := db.products[newId := NewProduct(w, newId)])
  {
    if NameUsed(db.products, w.name) then Outcome(Err(WineNameExists), db)
    else Committed(db, db.(products := db.products[newId := NewProduct(w, newId)]), NewProduct(w, newId))
  }

  /** A new name always keeps names unique, so the call succeeds exactly
      when the name is free and every text fits its column. */
  lemma CreateWineSucceeds(db: Database, w: ProductCreate, newId: int)
    requires SatisfiesConstraints(db) && newId !in db.products
    ensures CreateWineSpec(db, w, newId).result.Ok? <==> !NameUsed(db.products, w.name) && ProductFits(NewProduct(w, newId))
  {
    var pending := db.(products := db.products[newId := NewProduct(w, newId)]);
    if !NameUsed(db.products, w.name) && ProductFits(NewProduct(w, newId)) {
      assert forall k | k in db.stock :: StockRowOk(k, pending.stock[k], pending.products, pending.branches);
      assert ProductsOk(pending.products) by {
        forall i, j | i in pending.products && j in pending.products && pending.products[i].name == pending.products[j].name
          ensures i == j
        {
          if i != j && (i == newId || j == newId) {
            assert false;
          }
        }
      }
    } else if !NameUsed(db.products, w.name) {
      assert !ProductFits(pending.products[newId]);
    }
  }

  method CreateWine(db: Session, w: ProductCreate, newId: int) returns (r: Result<Product>)
    requires db.Valid()
    modifies db
    ensures db.Valid()
    ensures var out := CreateWineSpec(old(db.Snapshot()), w, newId);
            r == out.result && db.Snapshot() == out.after
  {
    var before := db.Snapshot();
    if NameUsed(db.products, w.name) {
      return Err(WineNameExists);
    }
    var p := NewProduct(w, newId);
    db.products := db.products[newId := p];
    var committed := db.Commit(before);
    if !committed {
      return Err(InternalServerError);
    }
    r := Ok(p);
  }

  /** The product with the sent columns written over it. */
  function ApplyUpdate(p: Product, u: ProductUpdate): (r: Product)
  {
    p.(name := Apply(u.name, p.name),
       vintage := Apply(u.vintage, p.vintage),
       region := Apply(u.region, p.region),
       grapeVariety := Apply(u.grapeVariety, p.grapeVariety))
  }

  /** A non-empty new name is checked against the other products; an empty
      one is not checked (it is falsy). */
  predicate NameClash(products: map<int, Product>, id: int, u: ProductUpdate)
  {
    u.name.Set? && u.name.value != "" && NameUsedByOther(products, u.name.value, id)
  }

  /** `update_wine`: None for an unknown id; a clashing name is refused;
      otherwise the sent columns are written and committed. */
  function UpdateWineSpec(db: Database, id: int, u: ProductUpdate): (out: Outcome<Option<Product>>)
    ensures id !in db.products ==> out == Outcome(Ok(None), db)
    ensures out.result == Err(WineNameExists) <==> id in db.products && NameClash(db.products, id, u)
    ensures out.result.Err? ==> out.after == db
    ensures out.result.Ok? && id in db.products
            ==> var p := ApplyUpdate(db.products[id], u);
                out.result.value == Some(p) && out.after == db.(products := db.products[id := p])
  {
    if id !in db.products then Outcome(Ok(None), db)
    else if NameClash(db.products, id, u) then Outcome(Err(WineNameExists), db)
    else
      var p := ApplyUpdate(db.products[id], u);
      Committed(db, db.(products := db.products[id := p]), Some(p))
  }

  /** Past the name check, the commit fails exactly when a text is too long
      for its column or the new name, being empty and so unchecked, is
      another product's. Keeping its own name is always allowed, and the id
      never changes. */
  lemma UpdateWineSucceeds(db: Database, id: int, u: ProductUpdate)
    requires SatisfiesConstraints(db) && id in db.products
    ensures var p := ApplyUpdate(db.products[id], u);
            var out := UpdateWineSpec(db, id, u);
            && (out.result.Ok?
                <==> !NameClash(db.products, id, u) && ProductFits(p) && !NameUsedByOther(db.products, p.name, id))
            && (out.result.Ok? ==> out.result.value.value.id == id)
  {
    var p := ApplyUpdate(db.products[id], u);
    var pending := db.(products := db.products[id := p]);
    assert forall k | k in db.stock :: StockRowOk(k, pending.stock[k], pending.products, pending.branches);
    if NameUsedByOther(db.products, p.name, id) {
      var k :| k in db.products && k != id && db.products[k].name == p.name;
      assert pending.products[k].name == pending.products[id].name;
    } else if ProductFits(p) {
      assert ProductsOk(pending.products);
    }
  }

  method UpdateWine(db: Session, id: int, u: ProductUpdate) returns (r: Result<Option<Product>>)
    requires db.Valid()
    modifies db
    ensures db.Valid()
    ensures var out := UpdateWineSpec(old(db.Snapshot()), id, u);
            r == out.result && db.Snapshot() == out.after
  {
    var before := db.Snapshot();
    if id !in db.products {
      return Ok(None);
    }
    if NameClash(db.products, id, u) {
      return Err(WineNameExists);
    }
    var p := db.products[id];
    if u.name.Set? {
      p := p.(name := u.name.value);
    }
    if u.vintage.Set? {
      p := p.(vintage := u.vintage.value);
    }
    if u.region.Set? {
      p := p.(region := u.region.value);
    }
    if u.grapeVariety.Set? {
      p := p.(grapeVariety := u.grapeVariety.value);
    }
    db.products := db.products[id := p];
    var committed := db.Commit(before);
    if !committed {
      return Err(InternalServerError);
    }
    r := Ok(Some(p));
  }

  /** Some stock row is of the product. */
  predicate Stocked(stock: map<int, StockRow>, id: int)
  {
    exists k | k in stock :: stock[k].productId == id
  }

  /** `delete_wine`: False for an unknown id; refused while a stock row
      names the product (movements are not checked). */
  function DeleteWineSpec(db: Database, id: int): (out: Outcome<bool>)
    ensures id !in db.products ==> out == Outcome(Ok(false), db)
    ensures out.result == Err(WineHasStock) <==> id in db.products && Stocked(db.stock, id)
    ensures out.result.Err? ==> out.after == db
    ensures out.result.Ok? && id in db.products ==> out.result.value && out.after == db.(products := db.products - {id})
  {
    if id !in db.products then Outcome(Ok(false), db)
    else if Stocked(db.stock, id) then Outcome(Err(WineHasStock), db)
    else Committed(db, db.(products := db.products - {id}), true)
  }

  /** A product no stock row names is always removed, and nothing else is. */
  lemma DeleteWineSucceeds(db: Database, id: int)
    requires SatisfiesConstraints(db)
    ensures var out := DeleteWineSpec(db, id);
            (out.result == Ok(true) <==> id in db.products && !Stocked(db.stock, id))
            && (out.result == Ok(true) ==> out.after == db.(products := db.products - {id}))
  {
    if id in db.products && !Stocked(db.stock, id) {
      var pending := db.(products := db.products - {id});
      forall k | k in db.stock ensures StockRowOk(k, pending.stock[k], pending.products, pending.branches) {
        assert db.stock[k].productId != id;
      }
    }
  }

  method DeleteWine(db: Session, id: int) returns (r: Result<bool>)
    requires db.Valid()
    modifies db
    ensures db.Valid()
    ensures var out := DeleteWineSpec(old(db.Snapshot()), id);
            r == out.result && db.Snapshot() == out.after
  {
    var before := db.Snapshot();
    if id !in db.products {
      return Ok(false);
    }
    if Stocked(db.stock, id) {
      return Err(WineHasStock);
    }
    db.products := db.products - {id};
    var committed := db.Commit(before);
    if !committed {
      return Err(InternalServerError);
    }
    r := Ok(true);
  }
}
