/** The stock ledger seen as quantities: how many units of a product the
    whole chain holds, and how that total moves when one row changes. */
module Ledger {

  import opened Models

  /** What one row adds to the total of `productId`. */
  function Contribution(row: StockRow, productId: int): int
  {
    if row.productId == productId then row.quantity else 0
  }

  lemma HasKey(stock: map<int, StockRow>)
    requires stock != map[]
    ensures exists k :: k in stock
  {
    if forall k :: k !in stock { assert false; }
  }

  /** The quantity of `productId` summed over every branch. */
  ghost function ProductTotal(stock: map<int, StockRow>, productId: int): int
    decreases |stock|
  {
    if stock == map[] then 0
    else
      HasKey(stock);
      var k :| k in stock;
      Contribution(stock[k], productId) + ProductTotal(stock - {k}, productId)
  }

  /** Any row can be taken out of the sum first. */
  lemma {:induction false} TotalWithout(stock: map<int, StockRow>, k: int, productId: int)
    requires k in stock
    ensures ProductTotal(stock, productId) == Contribution(stock[k], productId) + ProductTotal(stock - {k}, productId)
    decreases |stock|
  {
    HasKey(stock);
    var j :| j in stock && ProductTotal(stock, productId) == Contribution(stock[j], productId) + ProductTotal(stock - {j}, productId);
    if j != k {
      var rest := stock - {j} - {k};
      assert stock - {j} - {k} == stock - {k} - {j};
      TotalWithout(stock - {j}, k, productId);
      TotalWithout(stock - {k}, j, productId);
    }
  }

  /** Writing one row changes the total by the difference of the two rows'
      contributions (a new key contributes from nothing). */
  lemma TotalAfterWrite(stock: map<int, StockRow>, k: int, row: StockRow, productId: int)
    ensures ProductTotal(stock[k := row], productId)
         == ProductTotal(stock, productId)
          - (if k in stock then Contribution(stock[k], productId) else 0)
          + Contribution(row, productId)
  {
    var written := stock[k := row];
    TotalWithout(written, k, productId);
    assert written - {k} == stock - {k};
    if k in stock {
      TotalWithout(stock, k, productId);
    } else {
      assert stock - {k} == stock;
    }
  }
}
