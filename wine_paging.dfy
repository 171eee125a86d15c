/** Cursor paging of the wine listing as written. `get_wines` sorts by name
    or vintage but pages with `id > cursor`, a condition on a different
    column than the sort key, so a wine whose id is below the cursor but
    whose sort key comes later is never listed. */
module CursorPaging {

  import opened Wrappers
  import opened Models
  import opened ProductCrud
  import Keys

  const Older := Product(1, "b", None, None, None)
  const Newer := Product(2, "a", None, None, None)

  function ByName(cursor: Option<int>): WineQuery
  {
    WineQuery(None, None, None, "name_asc", cursor, 1)
  }

  /** The products table holds exactly the two wines. */
  predicate HoldsTwoWines(db: Database)
  {
    db.products == map[1 := Older, 2 := Newer]
  }

  lemma OnlyTwoWines(db: Database, p: Product)
    requires HoldsTwoWines(db) && p in db.products.Values
    ensures p == Older || p == Newer
  {
    var k := Keys.StoredKey(db.products, p);
  }

  lemma BothMatch(db: Database, q: WineQuery)
    requires HoldsTwoWines(db) && q.name.None? && q.region.None? && q.vintage.None?
    ensures MatchingKeys(db.products, q) == {1, 2} && |MatchingKeys(db.products, q)| == 2
    ensures Older in db.products.Values && Newer in db.products.Values
    ensures Matches(Older, q) && Matches(Newer, q)
  {
    assert db.products[1] == Older && db.products[2] == Newer;
    assert MatchingKeys(db.products, q) == {1, 2};
    assert |{1, 2}| == 2;
  }

  lemma OlderNotFirst()
    ensures !Precedes(NameAsc, Older, Newer)
  {
    assert Older.name[0] > Newer.name[0];
  }

  /** Listing by name, one wine per page, without filters. */
  predicate OneByName(q: WineQuery)
  {
    q.name.None? && q.region.None? && q.vintage.None? && q.sort == "name_asc" && q.limit == 1
  }

  /** The first page holds exactly one stored wine. */
  lemma FirstPageHoldsOne(db: Database, q: WineQuery)
    requires HoldsTwoWines(db) && OneByName(q) && q.cursor.None?
    ensures GetWines(db, q).Ok?
    ensures var items := GetWines(db, q).value.items;
            |items| == 1 && (items[0] == Older || items[0] == Newer)
  {
    BothMatch(db, q);
    var items := GetWines(db, q).value.items;
    assert Older in Candidates(db, q, NameAsc);
    if items == [] {
      assert false;
    }
    assert items[0] in items;
    OnlyTwoWines(db, items[0]);
  }

  /** A one-wine prefix of a name listing that also holds "a" is "a". */
  lemma PrefixOfTwo(items: seq<Product>, cands: seq<Product>)
    requires |items| == 1 && (items[0] == Older || items[0] == Newer) && Newer in cands
    requires forall i, p | 0 <= i < |items| && p in cands && p !in items :: Precedes(NameAsc, items[i], p)
    ensures items == [Newer]
  {
    if items[0] == Older {
      assert Newer !in items;
      OlderNotFirst();
      assert false;
    }
  }

  /** That wine is "a": "b" sorts after it. */
  lemma FirstPageHoldsNewer(db: Database, q: WineQuery)
    requires HoldsTwoWines(db) && OneByName(q) && q.cursor.None?
    ensures GetWines(db, q).Ok? && GetWines(db, q).value.items == [Newer]
  {
    FirstPageHoldsOne(db, q);
    BothMatch(db, q);
    assert ParseSort(q.sort) == Some(NameAsc);
    PrefixOfTwo(GetWines(db, q).value.items, Candidates(db, q, NameAsc));
  }

  /** The first page holds "a" (id 2) alone and hands out cursor 2. */
  lemma FirstPageOfTwo(db: Database, q: WineQuery)
    requires HoldsTwoWines(db) && OneByName(q) && q.cursor.None?
    ensures GetWines(db, q) == Ok(WinePage([Newer], 2, Some(2)))
  {
    FirstPageHoldsNewer(db, q);
    BothMatch(db, q);
  }

  /** The page after cursor 2 holds nothing: every id is at most 2. */
  lemma SecondPageEmpty(db: Database, q: WineQuery)
    requires HoldsTwoWines(db) && OneByName(q) && q.cursor == Some(2)
    ensures GetWines(db, q).Ok? && GetWines(db, q).value.items == []
  {
    assert ParseSort(q.sort) == Some(NameAsc);
    var items := GetWines(db, q).value.items;
    if items != [] {
      assert items[0] in items;
      OnlyTwoWines(db, items[0]);
      assert false;
    }
  }

  /** So it is the last page, though it reports two matching wines. */
  lemma SecondPageOfTwo(db: Database, q: WineQuery)
    requires HoldsTwoWines(db) && OneByName(q) && q.cursor == Some(2)
    ensures GetWines(db, q) == Ok(WinePage([], 2, None))
  {
    SecondPageEmpty(db, q);
    BothMatch(db, q);
  }

  lemma TwoWinesAreLegal(db: Database)
    requires HoldsTwoWines(db)
    ensures ProductsOk(db.products)
  {
    assert db.products[1] == Older && db.products[2] == Newer;
    forall i, j | i in db.products && j in db.products && db.products[i].name == db.products[j].name ensures i == j {
      assert i == 1 || i == 2;
    }
  }

  /** On any store whose products are "b" (id 1) and "a" (id 2), paging by
      name one wine at a time lists "a" and then nothing, so "b", which is
      stored and matches, is never listed. */
  lemma CursorPagingSkipsWine(db: Database)
    requires HoldsTwoWines(db)
    ensures ProductsOk(db.products)
    ensures GetWines(db, ByName(None)) == Ok(WinePage([Newer], 2, Some(2)))
    ensures GetWines(db, ByName(Some(2))) == Ok(WinePage([], 2, None))
    ensures Older in db.products.Values && Matches(Older, ByName(None)) && Older != Newer
  {
    BothMatch(db, ByName(None));
    FirstPageOfTwo(db, ByName(None));
    SecondPageOfTwo(db, ByName(Some(2)));
    TwoWinesAreLegal(db);
  }
}

/** Keyset paging of the wine listing: ordered by the sort key with the id
    as tie-breaker, each page resuming strictly after the last wine of the
    previous one, so every matching wine is listed exactly once. */
module KeysetPaging {

  import opened Wrappers
  import opened Models
  import opened ProductCrud
  import Sorting
  import Keys

  /** `ORDER BY key, id`: `a` is listed no later than `b`. */
  predicate Ranks(order: SortOrder, a: Product, b: Product)
  {
    Precedes(order, a, b) && (!Precedes(order, b, a) || a.id <= b.id)
  }

  function Ranking(order: SortOrder): (Product, Product) -> bool
  {
    (a: Product, b: Product) => Ranks(order, a, b)
  }

  lemma RanksTotal(order: SortOrder, a: Product, b: Product)
    ensures Ranks(order, a, b) || Ranks(order, b, a)
  {
    PrecedesTotal(order, a, b);
  }

  lemma RanksTransitive(order: SortOrder, a: Product, b: Product, c: Product)
    requires Ranks(order, a, b) && Ranks(order, b, c)
    ensures Ranks(order, a, c)
  {
    PrecedesTransitive(order, a, b, c);
    if Precedes(order, c, a) {
      PrecedesTransitive(order, c, a, b);
      PrecedesTransitive(order, b, c, a);
    }
  }

  lemma RankingIsTotalPreorder(order: SortOrder)
    ensures Sorting.TotalPreorder(Ranking(order))
  {
    forall a: Product, b: Product ensures Ranks(order, a, b) || Ranks(order, b, a) {
      RanksTotal(order, a, b);
    }
    forall a: Product, b: Product, c: Product | Ranks(order, a, b) && Ranks(order, b, c)
      ensures Ranks(order, a, c)
    {
      RanksTransitive(order, a, b, c);
    }
  }

  /** Two stored rows that rank each other are the same row: ids are keys. */
  lemma RanksAntisymmetric(products: map<int, Product>, order: SortOrder, a: Product, b: Product)
    requires ProductsOk(products) && a in products.Values && b in products.Values
    requires Ranks(order, a, b) && Ranks(order, b, a)
    ensures a == b
  {
    var i := Keys.StoredKey(products, a);
    var j := Keys.StoredKey(products, b);
  }

  /** `ORDER BY key, id` on the selected rows: sorted, and the same rows. */
  function SortRanked(s: seq<Product>, order: SortOrder): (r: seq<Product>)
    ensures Sorting.SortedBy(r, Ranking(order))
    ensures multiset(r) == multiset(s)
    ensures forall p :: p in r <==> p in s
  {
    RankingIsTotalPreorder(order);
    var r := Sorting.InsertionSort(s, Ranking(order));
    assert forall p :: p in r <==> p in s by {
      forall p ensures p in r <==> p in s {
        assert p in r <==> p in multiset(r);
        assert p in s <==> p in multiset(s);
      }
    }
    r
  }

  /** The wine comes strictly after the cursor row. */
  predicate PastKey(p: Product, cursor: Option<Product>, order: SortOrder)
  {
    cursor.Some? ==> !Ranks(order, p, cursor.value)
  }

  function AfterCursor(cursor: Option<Product>, order: SortOrder): Product -> bool
  {
    (p: Product) => PastKey(p, cursor, order)
  }

  /** The matching wines past the cursor row, in keyset order. */
  function KeysetCandidates(db: Database, q: WineQuery, order: SortOrder, cursor: Option<Product>): (s: seq<Product>)
    ensures Sorting.SortedBy(s, Ranking(order))
    ensures forall p :: p in s <==> p in db.products.Values && Matches(p, q) && PastKey(p, cursor, order)
    ensures ProductsOk(db.products) ==> Sorting.Distinct(s)
  {
    var selection := Selection(db.products, q);
    var sorted := SortRanked(selection, order);
    assert ProductsOk(db.products) ==> Sorting.Distinct(sorted) by {
      if ProductsOk(db.products) {
        SelectionDistinct(db.products, q);
        Sorting.DistinctSub(selection, sorted);
      }
    }
    PastCursorRows(sorted, cursor, order)
  }

  /** The keyset condition on the sorted rows: strictly after the cursor row. */
  function PastCursorRows(sorted: seq<Product>, cursor: Option<Product>, order: SortOrder): (r: seq<Product>)
    requires Sorting.SortedBy(sorted, Ranking(order))
    ensures Sorting.SortedBy(r, Ranking(order))
    ensures forall p :: p in r <==> p in sorted && PastKey(p, cursor, order)
    ensures Sorting.Distinct(sorted) ==> Sorting.Distinct(r)
  {
    Sorting.FilterKeepsSorted(sorted, AfterCursor(cursor, order), Ranking(order));
    assert Sorting.Distinct(sorted) ==> Sorting.Distinct(Sorting.Filter(sorted, AfterCursor(cursor, order))) by {
      if Sorting.Distinct(sorted) {
        Sorting.DistinctSub(sorted, Sorting.Filter(sorted, AfterCursor(cursor, order)));
      }
    }
    Sorting.Filter(sorted, AfterCursor(cursor, order))
  }

  /** A page, the number of matching wines, and the cursor of the next page. */
  datatype Page = Page(items: seq<Product>, total: int, next: Option<Product>)

  /** `LIMIT n` on the keyset candidates. */
  function FirstRows(db: Database, q: WineQuery, order: SortOrder, cursor: Option<Product>, n: nat): (items: seq<Product>)
    ensures var cands := KeysetCandidates(db, q, order, cursor);
            items == cands[..if n < |cands| then n else |cands|]
    ensures ProductsOk(db.products) ==> Sorting.Distinct(items)
    ensures |items| <= n
    ensures Sorting.SortedBy(items, Ranking(order))
  {
    Sorting.Take(KeysetCandidates(db, q, order, cursor), n, Ranking(order))
  }

  /** The cursor a page hands out: its last wine, when the page is full. */
  function NextCursor(items: seq<Product>, limit: int): (c: Option<Product>)
    ensures c.Some? <==> items != [] && |items| == limit
    ensures c.Some? ==> c.value == items[|items| - 1]
  {
    if items != [] && |items| == limit then Some(items[|items| - 1]) else None
  }

  /** The listing with keyset paging: the cursor is the last wine of the
      previous page (its sort key and id), and the next cursor is the last
      wine of a full page. */
  function GetWinesKeyset(db: Database, q: WineQuery, cursor: Option<Product>): (r: Result<Page>)
    ensures r == Err(InvalidSort) <==> ParseSort(q.sort).None?
    ensures r == Err(InternalServerError) <==> ParseSort(q.sort).Some? && q.limit < 0
    ensures r.Ok? ==>
              var page := r.value;
              var order := ParseSort(q.sort).value;
              var cands := KeysetCandidates(db, q, order, cursor);
              && page.items == cands[..if q.limit < |cands| then q.limit else |cands|]
              && (ProductsOk(db.products) ==> Sorting.Distinct(page.items))
              && page.total == |MatchingKeys(db.products, q)|
              && |page.items| <= q.limit
              && Sorting.SortedBy(page.items, Ranking(order))
              && page.next == (if page.items != [] && |page.items| == q.limit
                                 then Some(page.items[|page.items| - 1]) else None)
  {
    var order := ParseSort(q.sort);
    if order.None? then Err(InvalidSort)
    else if q.limit < 0 then Err(InternalServerError)
    else
      CountMatching(db.products, q);
      var items := FirstRows(db, q, order.value, cursor, q.limit);
      Ok(Page(items, |Selection(db.products, q)|, NextCursor(items, q.limit)))
  }

  /** A remaining wine the page did not hold comes strictly after its last
      wine. */
  lemma LeftOutIsPastLast(products: map<int, Product>, order: SortOrder, last: Product, p: Product)
    requires ProductsOk(products) && last in products.Values && p in products.Values
    requires Ranks(order, last, p) && p != last
    ensures PastKey(p, Some(last), order)
  {
    if Ranks(order, p, last) {
      RanksAntisymmetric(products, order, p, last);
    }
  }

  /** A wine strictly after the last wine of a page is strictly after the
      cursor the page started from. */
  lemma PastLastIsPastCursor(order: SortOrder, cursor: Option<Product>, last: Product, p: Product)
    requires PastKey(last, cursor, order) && PastKey(p, Some(last), order)
    ensures PastKey(p, cursor, order)
  {
    if cursor.Some? && Ranks(order, p, cursor.value) {
      RanksTotal(order, p, last);
      RanksTransitive(order, last, p, cursor.value);
    }
  }

  /** No wine of a sorted page is strictly after its last wine. */
  lemma PageNotPastLast(items: seq<Product>, order: SortOrder, i: int)
    requires Sorting.SortedBy(items, Ranking(order)) && 0 <= i < |items|
    ensures !PastKey(items[i], Some(items[|items| - 1]), order)
  {
    if i < |items| - 1 {
      assert Ranking(order)(items[i], items[|items| - 1]);
    } else {
      RanksTotal(order, items[i], items[i]);
    }
  }

  /** One wine, against a page that is a sorted prefix of the candidates:
      it starts the next page exactly when it was a candidate the page did
      not hold. */
  lemma NextPageMember(db: Database, q: WineQuery, order: SortOrder, cursor: Option<Product>, items: seq<Product>, p: Product)
    requires ProductsOk(db.products) && items != []
    requires Sorting.SortedBy(items, Ranking(order))
    requires forall x | x in items :: x in KeysetCandidates(db, q, order, cursor)
    requires forall i, x | 0 <= i < |items| && x in KeysetCandidates(db, q, order, cursor) && x !in items
               :: Ranking(order)(items[i], x)
    ensures p in KeysetCandidates(db, q, order, Some(items[|items| - 1]))
        <==> p in KeysetCandidates(db, q, order, cursor) && p !in items
  {
    var last := items[|items| - 1];
    var cands := KeysetCandidates(db, q, order, cursor);
    assert last in cands;
    if p in cands && p !in items {
      assert Ranking(order)(last, p);
      LeftOutIsPastLast(db.products, order, last, p);
    }
    if p in KeysetCandidates(db, q, order, Some(last)) {
      PastLastIsPastCursor(order, cursor, last, p);
      if p in items {
        var i :| 0 <= i < |items| && items[i] == p;
        PageNotPastLast(items, order, i);
      }
    }
  }

  /** A page of the corrected listing is a prefix of the remaining wines,
      and the wines after its last one are exactly those it did not hold. */
  lemma FirstRowsContinue(db: Database, q: WineQuery, order: SortOrder, cursor: Option<Product>, n: nat)
    requires ProductsOk(db.products)
    ensures var items := FirstRows(db, q, order, cursor, n);
            var cands := KeysetCandidates(db, q, order, cursor);
            && (forall p | p in items :: p in cands)
            && (|items| < n ==> forall p | p in cands :: p in items)
            && (items != [] ==> forall p :: p in KeysetCandidates(db, q, order, Some(items[|items| - 1])) <==> p in cands && p !in items)
  {
    var items := FirstRows(db, q, order, cursor, n);
    var cands := KeysetCandidates(db, q, order, cursor);
    assert items == Sorting.Take(cands, n, Ranking(order));
    if items != [] {
      forall p ensures p in KeysetCandidates(db, q, order, Some(items[|items| - 1])) <==> p in cands && p !in items {
        NextPageMember(db, q, order, cursor, items, p);
      }
    }
  }

  /** The corrected paging loses nothing and repeats nothing: after a full
      page, the wines the next page starts from are exactly the remaining
      wines the page did not hold; a page shorter than the limit holds every
      remaining wine. */
  lemma KeysetPagingContinues(db: Database, q: WineQuery, cursor: Option<Product>)
    requires ProductsOk(db.products) && GetWinesKeyset(db, q, cursor).Ok?
    ensures var page := GetWinesKeyset(db, q, cursor).value;
            var order := ParseSort(q.sort).value;
            var cands := KeysetCandidates(db, q, order, cursor);
            && (forall p | p in page.items :: p in cands)
            && (|page.items| < q.limit ==> forall p | p in cands :: p in page.items)
            && (page.next.Some? ==> forall p :: p in KeysetCandidates(db, q, order, page.next) <==> p in cands && p !in page.items)
  {
    var order := ParseSort(q.sort).value;
    KeysetPageRows(db, q, cursor);
    FirstRowsContinue(db, q, order, cursor, q.limit);
  }

  /** A listed page holds the first rows, and its cursor is their last. */
  lemma KeysetPageRows(db: Database, q: WineQuery, cursor: Option<Product>)
    requires GetWinesKeyset(db, q, cursor).Ok?
    ensures var page := GetWinesKeyset(db, q, cursor).value;
            var items := FirstRows(db, q, ParseSort(q.sort).value, cursor, q.limit);
            page.items == items && (page.next.Some? ==> items != [] && page.next == Some(items[|items| - 1]))
  {
  }
}
