/**
 * The HTTP endpoints of the inventory: the stock-update action, the alert
 * listing and manual alert scan, and the dashboard counters. Request
 * parsing, authentication and serialisation are not modelled; each endpoint
 * takes the state it reads (the product rows, the ledger, the alert table)
 * and the current day or instant as parameters.
 */
module Views {
  import opened Base
  import opened Models
  import opened Counting
  import opened Ledger
  import opened Alerts

  // ---------------------------------------------------------------------
  // ProductViewSet.update_stock
  // ---------------------------------------------------------------------

  datatype StockResponse =
    | Updated(product: Product)               // 200 with the updated product
    | NotFound                                // 404 from the listed-product lookup
    | Insufficient(availableStock: nat)       // 400 'Insufficient stock'
    | Rejected(attempted: int)                // 500: a column refuses the value

  /** The response the endpoint sends for the outcome of the shared protocol. */
  function ResponseFor(r: Result<Product, StockError>): (resp: StockResponse)
    ensures r.Success? <==> resp.Updated?
    ensures r.Success? ==> resp.product == r.value
    ensures r == Failure(ProductNotFound) <==> resp == NotFound
    ensures r.Failure? && r.error.InsufficientStock? <==> resp.Insufficient?
    ensures r.Failure? && r.error.InsufficientStock? ==> resp == Insufficient(r.error.available)
    ensures r.Failure? && r.error.StockOutOfRange? ==> resp == Rejected(r.error.attempted)
    ensures r.Failure? && r.error.QuantityOutOfRange? ==> resp == Rejected(r.error.quantity)
  {
    match r
    case Success(p) => Updated(p)
    case Failure(ProductNotFound) => NotFound
    case Failure(InsufficientStock(a)) => Insufficient(a)
    case Failure(StockOutOfRange(x)) => Rejected(x)
    case Failure(QuantityOutOfRange(q)) => Rejected(q)
  }

  /**
   * POST .../products/{id}/update_stock/. An OUT larger than the stock is a
   * 400 carrying the stock on hand, and nothing is written.
   */
  method UpdateStock(inv: Inventory, id: ProductId, kind: TxnKind, quantity: int, reason: string,
                     user: UserId, now: Instant)
    returns (resp: StockResponse)
    requires inv.Valid()
    modifies inv
    ensures inv.Valid()
    ensures old(inv.Ledgered()) ==> inv.Ledgered()
    ensures resp == ResponseFor(UpdateOutcome(old(inv.products), id, kind, quantity))
    ensures !resp.Updated? ==> inv.products == old(inv.products) && inv.transactions == old(inv.transactions)
    ensures resp.Updated? ==>
              && inv.products == old(inv.products)[id := resp.product]
              && inv.transactions == old(inv.transactions) + [StockTransaction(id, kind, quantity,
                   old(inv.products)[id].currentStock, resp.product.currentStock, reason, user, now)]
  {
    var r := inv.UpdateStock(id, kind, quantity, reason, user, now);
    resp := ResponseFor(r);
  }

  /**
   * What the endpoint answers: an OUT beyond the stock of a listed product is
   * refused with exactly that stock; IN and OUT of the same amount undo each
   * other; an ADJUSTMENT sets the stock whatever it was; EXPIRED keeps it.
   */
  lemma UpdateStockAnswers(products: map<ProductId, Product>, id: ProductId, quantity: int)
    requires ProductTableValid(products)
    requires id in products && Listed(products[id])
    ensures var p := products[id];
      quantity > p.currentStock ==>
        ResponseFor(UpdateOutcome(products, id, Out, quantity)) == Insufficient(p.currentStock)
    ensures var p := products[id];
      var r := UpdateOutcome(products, id, In, quantity);
      r.Success? ==> UpdateOutcome(products[id := r.value], id, Out, quantity) == Success(p)
    ensures FitsStock(quantity) ==> UpdateOutcome(products, id, Adjustment, quantity).value.currentStock == quantity
    ensures !FitsStock(products[id].currentStock + quantity) ==>
              ResponseFor(UpdateOutcome(products, id, In, quantity)) == Rejected(products[id].currentStock + quantity)
    ensures FitsQuantity(quantity) <==> UpdateOutcome(products, id, ExpiredRemoval, quantity) == Success(products[id])
    ensures !FitsQuantity(quantity) ==>
              ResponseFor(UpdateOutcome(products, id, ExpiredRemoval, quantity)) == Rejected(quantity)
  {
    var p := products[id];
    var r := UpdateOutcome(products, id, In, quantity);
    if r.Success? {
      InThenOutRestores(p.currentStock, quantity);
    }
  }

  // ---------------------------------------------------------------------
  // StockTransactionViewSet.get_queryset and the dashboard's recent list
  // ---------------------------------------------------------------------

  function Reversed(s: seq<StockTransaction>): (r: seq<StockTransaction>)
    ensures |r| == |s|
    ensures forall i :: 0 <= i < |s| ==> r[i] == s[|s| - 1 - i]
  {
    if s == [] then [] else Reversed(s[1..]) + [s[0]]
  }

  /** The ledger was written in clock order. */
  predicate TimeOrdered(txns: seq<StockTransaction>) {
    forall i :: 0 < i < |txns| ==> txns[i - 1].createdAt <= txns[i].createdAt
  }

  /**
   * The transactions, optionally of one product only, newest first: the
   * ledger read backwards.
   */
  function TransactionListing(txns: seq<StockTransaction>, product: Option<ProductId>): (r: seq<StockTransaction>)
    ensures forall t :: t in r <==> t in txns && (product.Some? ==> t.product == product.value)
  {
    var h := if product.Some? then History(txns, product.value) else txns;
    var r := Reversed(h);
    assert forall t :: t in r <==> t in h by {
      forall t ensures t in r <==> t in h {
        if t in h {
          var i :| 0 <= i < |h| && h[i] == t;
          assert r[|h| - 1 - i] == t;
        }
      }
    }
    r
  }

  /** Written in clock order, the ledger is listed newest first. */
  lemma {:induction false} ListingNewestFirst(txns: seq<StockTransaction>, product: Option<ProductId>)
    requires TimeOrdered(txns)
    ensures var r := TransactionListing(txns, product);
      forall i, j :: 0 <= i <= j < |r| ==> r[i].createdAt >= r[j].createdAt
  {
    var h := if product.Some? then History(txns, product.value) else txns;
    if product.Some? {
      HistoryTimeOrdered(txns, product.value);
    }
    TimeOrderedAll(h);
  }

  lemma {:induction false} HistoryTimeOrdered(txns: seq<StockTransaction>, pid: ProductId)
    requires TimeOrdered(txns)
    ensures TimeOrdered(History(txns, pid))
  {
    if txns != [] {
      var init, x := txns[..|txns| - 1], txns[|txns| - 1];
      assert txns == init + [x];
      HistoryTimeOrdered(init, pid);
      HistoryAppend(init, x, pid);
      var h := History(init, pid);
      if x.product == pid {
        if h != [] {
          assert h[|h| - 1] in init;
          TimeOrderedAll(init);
          assert init[|init| - 1] == txns[|txns| - 2];
        }
        TimeOrderedSnoc(h, x);
      }
    }
  }

  /** A transaction no older than the last one extends a time-ordered sequence. */
  lemma TimeOrderedSnoc(h: seq<StockTransaction>, x: StockTransaction)
    requires TimeOrdered(h)
    requires h != [] ==> h[|h| - 1].createdAt <= x.createdAt
    ensures TimeOrdered(h + [x])
  {
    var hx := h + [x];
    forall i | 0 < i < |hx| ensures hx[i - 1].createdAt <= hx[i].createdAt {
      if i < |h| {
        assert hx[i - 1] == h[i - 1] && hx[i] == h[i];
      }
    }
  }

  lemma {:induction false} TimeOrderedAll(s: seq<StockTransaction>)
    requires TimeOrdered(s)
    ensures forall i, j :: 0 <= i <= j < |s| ==> s[i].createdAt <= s[j].createdAt
    ensures forall t :: t in s ==> t.createdAt <= s[|s| - 1].createdAt
  {
    if s != [] {
      var init := s[..|s| - 1];
      TimeOrderedAll(init);
      assert forall i :: 0 <= i < |init| ==> init[i] == s[i];
    }
  }

  /** The ten newest transactions of the dashboard. */
  function RecentTransactions(txns: seq<StockTransaction>): (r: seq<StockTransaction>)
    ensures |r| == if |txns| < 10 then |txns| else 10
    ensures forall t :: t in r ==> t in txns
    ensures TimeOrdered(txns) ==> forall t :: t in txns && t !in r ==> forall u :: u in r ==> t.createdAt <= u.createdAt
  {
    var s := TransactionListing(txns, None);
    var r := Take(s, 10);
    if TimeOrdered(txns) then
      ListingNewestFirst(txns, None);
      assert forall t :: t in txns && t !in r ==> forall u :: u in r ==> t.createdAt <= u.createdAt by {
        forall t, u | t in txns && t !in r && u in r ensures t.createdAt <= u.createdAt {
          var j :| 0 <= j < |s| && s[j] == t;
          var i :| 0 <= i < |r| && r[i] == u;
          assert r == s[..|r|];
        }
      }
      r
    else
      r
  }

  // ---------------------------------------------------------------------
  // ExpiryAlertViewSet
  // ---------------------------------------------------------------------

  /** The alert list: unread alerts only, newest first. */
  ghost function AlertListing(t: AlertMap): (r: seq<AlertKey>)
    ensures NewestFirst(t, r)
    ensures forall k :: k in r <==> k in t && !t[k].isRead
    ensures |r| == |UnreadKeys(t)|
  {
    Newest(t, UnreadKeys(t), |UnreadKeys(t)|)
  }

  datatype GenerateAlertsResponse = GenerateAlertsResponse(alertsCreated: nat, expiringSoonCount: nat, expiredCount: nat)

  /**
   * POST .../alerts/generate_alerts/: the scan with the thirty-day horizon.
   * Reports how many alerts are new and how many products each query holds.
   */
  method GenerateAlerts(table: AlertTable, rows: seq<Product>, today: Day, now: Instant)
    returns (resp: GenerateAlertsResponse)
    modifies table
    ensures table.alerts == Scanned(old(table.alerts), rows, today, ExpiringSoonDays, now)
    ensures resp.alertsCreated == |table.alerts| - |old(table.alerts)|
    ensures resp.expiringSoonCount == |ExpiringRows(rows, today, ExpiringSoonDays)|
    ensures resp.expiredCount == |ExpiredRows(rows, today)|
  {
    var createdExpiring, createdExpired := table.Scan(rows, today, ExpiringSoonDays, now);
    resp := GenerateAlertsResponse(|createdExpiring| + |createdExpired|,
                                   |ExpiringRows(rows, today, ExpiringSoonDays)|,
                                   |ExpiredRows(rows, today)|);
  }

  // ---------------------------------------------------------------------
  // DashboardViewSet.stats
  // ---------------------------------------------------------------------

  /** Total stock value: current stock times cost price, summed; 0 for no rows. */
  function StockValue(rows: seq<Product>): nat {
    if rows == [] then 0
    else
      var last := rows[|rows| - 1];
      StockValue(rows[..|rows| - 1]) + last.currentStock * last.costPrice
  }

  /**
   * The total is zero when no row has both stock and a cost, and never less
   * than any one row's stock times cost price.
   */
  lemma {:induction false} StockValueBounds(rows: seq<Product>)
    ensures (forall i :: 0 <= i < |rows| ==> rows[i].currentStock == 0 || rows[i].costPrice == 0) ==>
              StockValue(rows) == 0
    ensures forall i :: 0 <= i < |rows| ==> rows[i].currentStock * rows[i].costPrice <= StockValue(rows)
  {
    if rows != [] {
      var init := rows[..|rows| - 1];
      StockValueBounds(init);
      assert forall i :: 0 <= i < |init| ==> init[i] == rows[i];
    }
  }

  lemma {:induction false} StockValueAppend(a: seq<Product>, b: seq<Product>)
    ensures StockValue(a + b) == StockValue(a) + StockValue(b)
  {
    if b == [] {
      assert a + b == a;
    } else {
      var b' := b[..|b| - 1];
      assert (a + b)[..|a + b| - 1] == a + b';
      assert (a + b)[|a + b| - 1] == b[|b| - 1];
      StockValueAppend(a, b');
    }
  }

  /**
   * A stock change of one row moves the total value by exactly that row's
   * change in stock times its cost price.
   */
  lemma StockValueUpdate(rows: seq<Product>, i: nat, q: Product)
    requires i < |rows| && q.costPrice == rows[i].costPrice
    ensures StockValue(rows[i := q]) + rows[i].currentStock * rows[i].costPrice
              == StockValue(rows) + q.currentStock * q.costPrice
  {
    var pre, post := rows[..i], rows[i + 1..];
    assert rows == pre + [rows[i]] + post;
    assert rows[i := q] == pre + [q] + post;
    StockValueAppend(pre + [rows[i]], post);
    StockValueAppend(pre + [q], post);
    StockValueAppend(pre, [rows[i]]);
    StockValueAppend(pre, [q]);
    assert [rows[i]][..0] == [] && [q][..0] == [];
  }

  /** Every dashboard counter of an empty product table is zero. */
  lemma StatsOfNoRows(today: Day)
    ensures Stats([], today) == DashboardStats(0, 0, 0, 0, 0, 0, 0, 0, 0, 0)
  {
  }

  /**
   * One more product row moves each counter by that row alone: an unlisted
   * row changes nothing, and a listed one adds one to the totals and to
   * every counter whose filter it passes, and its stock times cost price to
   * the stock value. With `StatsOfNoRows` and `BreakdownSnoc` this gives
   * every counter its value by induction over the table.
   */
  lemma StatsSnoc(rows: seq<Product>, p: Product, today: Day)
    ensures var before, after := Stats(rows, today), Stats(rows + [p], today);
      var one := if Listed(p) then 1 else 0;
      && after.totalProducts == before.totalProducts + one
      && after.totalHalalProducts == before.totalHalalProducts + one
      && after.lowStockProducts == before.lowStockProducts + (if Listed(p) && IsLowStock(p) then 1 else 0)
      && after.expiringSoonProducts == before.expiringSoonProducts +
           (if Listed(p) && p.expiryDate.Some? && today < p.expiryDate.value <= today + ExpiringSoonDays then 1 else 0)
      && after.expiredProducts == before.expiredProducts + (if Listed(p) && IsExpired(p, today) then 1 else 0)
      && after.totalStockValue == before.totalStockValue + (if Listed(p) then p.currentStock * p.costPrice else 0)
  {
    var products := Filter(rows, Listed);
    FilterSnoc(rows, p, Listed);
    var extra := if Listed(p) then [p] else [];
    assert Filter(rows + [p], Listed) == products + extra;
    CountAppend(products, extra, IsLowStock);
    StockValueAppend(products, extra);
    CountSnoc(rows, p, ExpiringTest(today, ExpiringSoonDays));
    CountSnoc(rows, p, ExpiredTest(today));
  }

  /** The same for the four buckets of the stock status breakdown. */
  lemma BreakdownSnoc(rows: seq<Product>, p: Product, today: Day)
    ensures var before, after := Stats(rows, today), Stats(rows + [p], today);
      && after.outOfStockCount == before.outOfStockCount + (if Listed(p) && p.currentStock == 0 then 1 else 0)
      && after.lowStockCount == before.lowStockCount +
           (if Listed(p) && 0 < p.currentStock <= p.minimumStock then 1 else 0)
      && after.normalStockCount == before.normalStockCount +
           (if Listed(p) && p.minimumStock < p.currentStock < p.maximumStock then 1 else 0)
      && after.overstockCount == before.overstockCount + (if Listed(p) && p.maximumStock <= p.currentStock then 1 else 0)
  {
    var products := Filter(rows, Listed);
    FilterSnoc(rows, p, Listed);
    var extra := if Listed(p) then [p] else [];
    assert Filter(rows + [p], Listed) == products + extra;
    CountAppend(products, extra, OutOfStockRow);
    CountAppend(products, extra, LowStockRow);
    CountAppend(products, extra, NormalStockRow);
    CountAppend(products, extra, OverstockRow);
  }

  /** The buckets of the stock status breakdown. */
  predicate OutOfStockRow(p: Product) { p.currentStock == 0 }
  predicate LowStockRow(p: Product) { 0 < p.currentStock <= p.minimumStock }
  predicate NormalStockRow(p: Product) { p.minimumStock < p.currentStock < p.maximumStock }
  predicate OverstockRow(p: Product) { p.maximumStock <= p.currentStock }
  predicate AnyRow(p: Product) { true }
  predicate BelowOverstockRow(p: Product) { OutOfStockRow(p) || LowStockRow(p) || NormalStockRow(p) }

  datatype DashboardStats = DashboardStats(
    totalProducts: nat,
    totalHalalProducts: nat,
    lowStockProducts: nat,
    expiringSoonProducts: nat,
    expiredProducts: nat,
    totalStockValue: nat,
    outOfStockCount: nat,
    lowStockCount: nat,
    normalStockCount: nat,
    overstockCount: nat)

  /**
   * The dashboard counters over the listed products on `today`. Low stock
   * counts the out-of-stock products too; the two expiry counters never
   * overlap; the first three buckets of the breakdown never overlap.
   */
  function Stats(rows: seq<Product>, today: Day): (s: DashboardStats)
    ensures s.totalHalalProducts == s.totalProducts <= |rows|
    ensures s.lowStockProducts == s.outOfStockCount + s.lowStockCount
    ensures s.expiringSoonProducts + s.expiredProducts <= s.totalProducts
    ensures s.outOfStockCount + s.lowStockCount + s.normalStockCount <= s.totalProducts
    ensures s.overstockCount <= s.totalProducts
  {
    var products := Filter(rows, Listed);
    CountSplit(products, IsLowStock, OutOfStockRow, LowStockRow);
    CountDisjointWithin(rows, ExpiringTest(today, ExpiringSoonDays), ExpiredTest(today), Listed);
    CountDisjointWithin(products, OutOfStockRow, LowStockRow, IsLowStock);
    CountDisjointWithin(products, IsLowStock, NormalStockRow, AnyRow);
    DashboardStats(
      |products|,
      |products|,
      Count(products, IsLowStock),
      |ExpiringRows(rows, today, ExpiringSoonDays)|,
      |ExpiredRows(rows, today)|,
      StockValue(products),
      Count(products, OutOfStockRow),
      Count(products, LowStockRow),
      Count(products, NormalStockRow),
      Count(products, OverstockRow))
  }

  /** Rows of one stock status, as a filter. */
  function HasStatus(st: StockStatus): Product -> bool {
    p => StockStatusOf(p) == st
  }

  /**
   * The breakdown against the product's own stock_status: the first three
   * buckets are exactly the products of that status, and the overstock bucket
   * holds at least the OVERSTOCK products.
   */
  lemma BreakdownVersusStatus(rows: seq<Product>, today: Day)
    ensures var s := Stats(rows, today);
      var products := Filter(rows, Listed);
      && s.outOfStockCount == Count(products, HasStatus(OutOfStock))
      && s.lowStockCount == Count(products, HasStatus(LowStock))
      && s.normalStockCount == Count(products, HasStatus(Normal))
      && s.overstockCount >= Count(products, HasStatus(Overstock))
  {
    var products := Filter(rows, Listed);
    CountSame(products, OutOfStockRow, HasStatus(OutOfStock));
    CountSame(products, LowStockRow, HasStatus(LowStock));
    CountSame(products, NormalStockRow, HasStatus(Normal));
    CountMonotone(products, HasStatus(Overstock), OverstockRow);
  }

  /**
   * When every listed product's minimum lies below its maximum, the four
   * buckets partition the listed products and the overstock bucket is the
   * OVERSTOCK status.
   */
  lemma BreakdownPartition(rows: seq<Product>, today: Day)
    requires forall p :: p in rows && Listed(p) ==> p.minimumStock < p.maximumStock
    ensures var s := Stats(rows, today);
      && s.overstockCount == Count(Filter(rows, Listed), HasStatus(Overstock))
      && s.outOfStockCount + s.lowStockCount + s.normalStockCount + s.overstockCount == s.totalProducts
  {
    var products := Filter(rows, Listed);
    forall x | x in products ensures x.minimumStock < x.maximumStock {
      assert x in rows && Listed(x);
    }
    CountSame(products, OverstockRow, HasStatus(Overstock));
    CountSplit(products, AnyRow, BelowOverstockRow, OverstockRow);
    CountSplit(products, BelowOverstockRow, IsLowStock, NormalStockRow);
    CountSplit(products, IsLowStock, OutOfStockRow, LowStockRow);
  }

  /**
   * Without that condition the buckets overlap: a product whose stock equals
   * both its minimum and its maximum is counted as low stock and as
   * overstock, so the buckets add up to more than the products.
   */
  lemma BreakdownOverlaps()
    ensures var p := Product(0, "SKU1", "", true, true, 100, 80, 5, 5, 5, None, None);
      var s := Stats([p], 0);
      s.lowStockCount == 1 && s.overstockCount == 1 && s.totalProducts == 1
  {
    var p := Product(0, "SKU1", "", true, true, 100, 80, 5, 5, 5, None, None);
    var products := Filter([p], Listed);
    assert Listed(p) && LowStockRow(p) && OverstockRow(p);
    assert |products| == 1;
    assert products[0] in products;
    assert products == [p];
    assert Count([p], LowStockRow) == 1;
    assert Count([p], OverstockRow) == 1;
  }

  /** The ten newest unread alerts of the dashboard. */
  ghost function RecentAlerts(t: AlertMap): (r: seq<AlertKey>)
    ensures |r| == if |UnreadKeys(t)| < 10 then |UnreadKeys(t)| else 10
    ensures forall k :: k in r ==> k in t && !t[k].isRead
    ensures forall k, i :: k in UnreadKeys(t) && k !in r && 0 <= i < |r| ==> t[k].createdAt <= t[r[i]].createdAt
  {
    Newest(t, UnreadKeys(t), 10)
  }

  // ---------------------------------------------------------------------
  // DashboardViewSet.alerts_summary
  // ---------------------------------------------------------------------

  datatype AlertsSummary = AlertsSummary(
    expiringCount: nat, expiringAlerts: seq<AlertKey>,
    expiredCount: nat, expiredAlerts: seq<AlertKey>,
    totalUnread: nat)

  /**
   * The five newest unread alerts of one kind (all of them when fewer),
   * newest first; no unread alert of that kind left out is newer than one
   * listed.
   */
  ghost function NewestFiveOfKind(t: AlertMap, kind: AlertKind): (r: seq<AlertKey>)
    ensures var n := |UnreadOfKind(t, kind)|; |r| == if n < 5 then n else 5
    ensures forall k :: k in r ==> k in t && !t[k].isRead && k.kind == kind
    ensures NewestFirst(t, r)
    ensures forall k, i :: k in UnreadOfKind(t, kind) && k !in r && 0 <= i < |r| ==> t[k].createdAt <= t[r[i]].createdAt
  {
    Newest(t, UnreadOfKind(t, kind), 5)
  }

  /**
   * The unread alerts by kind, each with its five newest; the total is every
   * unread alert.
   */
  ghost function Summary(t: AlertMap): (s: AlertsSummary)
    ensures s.totalUnread == |UnreadKeys(t)| == s.expiringCount + s.expiredCount
    ensures s.expiringCount == |UnreadOfKind(t, ExpiringSoon)| && s.expiredCount == |UnreadOfKind(t, Expired)|
    ensures |s.expiringAlerts| == if s.expiringCount < 5 then s.expiringCount else 5
    ensures |s.expiredAlerts| == if s.expiredCount < 5 then s.expiredCount else 5
    ensures forall k :: k in s.expiringAlerts ==> k in t && !t[k].isRead && k.kind == ExpiringSoon
    ensures forall k :: k in s.expiredAlerts ==> k in t && !t[k].isRead && k.kind == Expired
    ensures NewestFirst(t, s.expiringAlerts) && NewestFirst(t, s.expiredAlerts)
    ensures forall k, i :: k in UnreadOfKind(t, ExpiringSoon) && k !in s.expiringAlerts && 0 <= i < |s.expiringAlerts| ==>
              t[k].createdAt <= t[s.expiringAlerts[i]].createdAt
    ensures forall k, i :: k in UnreadOfKind(t, Expired) && k !in s.expiredAlerts && 0 <= i < |s.expiredAlerts| ==>
              t[k].createdAt <= t[s.expiredAlerts[i]].createdAt
  {
    var expiring, expired := UnreadOfKind(t, ExpiringSoon), UnreadOfKind(t, Expired);
    UnreadSplitsByKind(t);
    AlertsSummary(|expiring|, NewestFiveOfKind(t, ExpiringSoon), |expired|, NewestFiveOfKind(t, Expired),
                  |expiring| + |expired|)
  }
}
