/**
 * The background tasks: the expiry-alert scan with its configurable horizon,
 * the retention sweep of read alerts, the stock update by product and user
 * id, and the product report. Logging is not modelled; the settings value,
 * the user table and the clock are parameters.
 */
module Tasks {
  import opened Base
  import opened Models
  import opened Counting
  import opened Ledger
  import opened Alerts

  /** Horizon used when the settings do not name EXPIRY_ALERT_DAYS. */
  const DefaultExpiryAlertDays: int := 30

  /** Read alerts are kept for thirty days. */
  const RetentionDays: int := 30

  /** The retention cutoff: thirty days before now. */
  function RetentionCutoff(now: Instant): (c: Instant)
    ensures now - c == RetentionDays * SecondsPerDay
  {
    now - RetentionDays * SecondsPerDay
  }

  /**
   * generate_expiry_alerts: the scan with the configured horizon. Returns
   * the number of new alerts.
   */
  method GenerateExpiryAlerts(table: AlertTable, rows: seq<Product>, today: Day, alertDays: Option<int>, now: Instant)
    returns (alertsCreated: nat)
    modifies table
    ensures table.alerts == Scanned(old(table.alerts), rows, today, alertDays.GetOr(DefaultExpiryAlertDays), now)
    ensures alertsCreated == |table.alerts| - |old(table.alerts)|
  {
    var horizon := alertDays.GetOr(DefaultExpiryAlertDays);
    var createdExpiring, createdExpired := table.Scan(rows, today, horizon, now);
    alertsCreated := |createdExpiring| + |createdExpired|;
  }

  /** cleanup_old_alerts: delete the read alerts created before the cutoff. */
  method CleanupOldAlerts(table: AlertTable, now: Instant) returns (deletedCount: nat)
    modifies table
    ensures table.alerts == Swept(old(table.alerts), RetentionCutoff(now))
    ensures deletedCount == |old(table.alerts)| - |table.alerts|
  {
    deletedCount := table.DeleteReadBefore(RetentionCutoff(now));
  }

  /**
   * What the sweep keeps: every unread alert however old, every alert created
   * at or after the cutoff, unchanged; a second sweep at the same instant
   * deletes nothing.
   */
  lemma CleanupKeeps(t: AlertMap, now: Instant)
    ensures var r := Swept(t, RetentionCutoff(now));
      && (forall k :: k in t && !t[k].isRead ==> k in r && r[k] == t[k])
      && (forall k :: k in t && t[k].createdAt >= RetentionCutoff(now) ==> k in r && r[k] == t[k])
      && (forall k :: k in t && k !in r ==> t[k].isRead && t[k].createdAt < RetentionCutoff(now))
      && Swept(r, RetentionCutoff(now)) == r
  {
    SweepIdempotent(t, RetentionCutoff(now));
  }

  /**
   * The sweep by age: an alert goes exactly when it has been read and is more
   * than thirty days old; an alert exactly thirty days old stays.
   */
  lemma CleanupByAge(t: AlertMap, now: Instant, k: AlertKey)
    requires k in t
    ensures k !in Swept(t, RetentionCutoff(now)) <==>
              t[k].isRead && now - t[k].createdAt > RetentionDays * SecondsPerDay
    ensures now - t[k].createdAt == RetentionDays * SecondsPerDay ==> k in Swept(t, RetentionCutoff(now))
  {
  }

  // ---------------------------------------------------------------------
  // update_product_stock
  // ---------------------------------------------------------------------

  datatype TaskError =
    | ProductDoesNotExist
    | UserDoesNotExist
    | NotEnoughStock(available: nat, requested: int)
    | DatabaseError(attempted: int)

  /**
   * update_product_stock: the listed product is looked up first, then the
   * user; either missing raises before anything is written. An OUT beyond
   * the stock raises with the stock available and the quantity requested.
   */
  method UpdateProductStock(inv: Inventory, users: set<UserId>, productId: ProductId, kind: TxnKind,
                            quantity: int, userId: UserId, reason: string, now: Instant)
    returns (r: Result<Product, TaskError>)
    requires inv.Valid()
    modifies inv
    ensures inv.Valid()
    ensures old(inv.Ledgered()) ==> inv.Ledgered()
    ensures !(productId in old(inv.products) && Listed(old(inv.products)[productId])) ==>
              r == Failure(ProductDoesNotExist)
    ensures productId in old(inv.products) && Listed(old(inv.products)[productId]) && userId !in users ==>
              r == Failure(UserDoesNotExist)
    ensures userId in users ==>
              var o := UpdateOutcome(old(inv.products), productId, kind, quantity);
              && (o.Success? ==> r == Success(o.value))
              && (o.Failure? && o.error.InsufficientStock? ==> r == Failure(NotEnoughStock(o.error.available, quantity)))
              && (o.Failure? && o.error.StockOutOfRange? ==> r == Failure(DatabaseError(o.error.attempted)))
              && (o.Failure? && o.error.QuantityOutOfRange? ==> r == Failure(DatabaseError(o.error.quantity)))
    ensures r.Failure? ==> inv.products == old(inv.products) && inv.transactions == old(inv.transactions)
    ensures r.Success? ==>
              && inv.products == old(inv.products)[productId := r.value]
              && inv.transactions == old(inv.transactions) + [StockTransaction(productId, kind, quantity,
                   old(inv.products)[productId].currentStock, r.value.currentStock, reason, userId, now)]
  {
    if productId !in inv.products || !Listed(inv.products[productId]) {
      return Failure(ProductDoesNotExist);
    }
    if userId !in users {
      return Failure(UserDoesNotExist);
    }
    var o := inv.UpdateStock(productId, kind, quantity, reason, userId, now);
    match o
    case Success(p) => r := Success(p);
    case Failure(ProductNotFound) => r := Failure(ProductDoesNotExist);
    case Failure(InsufficientStock(a)) => r := Failure(NotEnoughStock(a, quantity));
    case Failure(StockOutOfRange(x)) => r := Failure(DatabaseError(x));
    case Failure(QuantityOutOfRange(q)) => r := Failure(DatabaseError(q));
  }

  // ---------------------------------------------------------------------
  // generate_product_report
  // ---------------------------------------------------------------------

  /** Listed products at or below their minimum stock. */
  predicate ListedLowStock(p: Product) {
    Listed(p) && IsLowStock(p)
  }

  datatype ProductReport = ProductReport(
    generatedAt: Day,
    totalProducts: nat,
    expiredProducts: nat,
    expiringSoon: nat,
    lowStockProducts: nat)

  /**
   * The four counts over the listed products on `today`, with the fixed
   * thirty-day horizon. Expired and expiring never overlap, so together
   * they stay within the listed products.
   */
  function GenerateProductReport(rows: seq<Product>, today: Day): (r: ProductReport)
    ensures r.generatedAt == today
    ensures r.expiredProducts + r.expiringSoon <= r.totalProducts <= |rows|
    ensures r.lowStockProducts <= r.totalProducts
  {
    CountDisjointWithin(rows, ExpiringTest(today, ExpiringSoonDays), ExpiredTest(today), Listed);
    CountMonotone(rows, ListedLowStock, Listed);
    ProductReport(
      today,
      Count(rows, Listed),
      |ExpiredRows(rows, today)|,
      |ExpiringRows(rows, today, ExpiringSoonDays)|,
      Count(rows, ListedLowStock))
  }

  /** The report of an empty product table counts nothing. */
  lemma ReportOfNoRows(today: Day)
    ensures GenerateProductReport([], today) == ProductReport(today, 0, 0, 0, 0)
  {
  }

  /**
   * One more product row moves each count by that row alone: an unlisted row
   * changes nothing, and a listed one adds one to the total and to each count
   * whose filter it passes. With `ReportOfNoRows` this gives every count its
   * value by induction over the table.
   */
  lemma ReportSnoc(rows: seq<Product>, p: Product, today: Day)
    ensures var before, after := GenerateProductReport(rows, today), GenerateProductReport(rows + [p], today);
      && after.generatedAt == before.generatedAt
      && after.totalProducts == before.totalProducts + (if Listed(p) then 1 else 0)
      && after.expiredProducts == before.expiredProducts + (if Listed(p) && IsExpired(p, today) then 1 else 0)
      && after.expiringSoon == before.expiringSoon +
           (if Listed(p) && p.expiryDate.Some? && today < p.expiryDate.value <= today + ExpiringSoonDays then 1 else 0)
      && after.lowStockProducts == before.lowStockProducts + (if Listed(p) && IsLowStock(p) then 1 else 0)
  {
    CountSnoc(rows, p, Listed);
    CountSnoc(rows, p, ListedLowStock);
    CountSnoc(rows, p, ExpiringTest(today, ExpiringSoonDays));
    CountSnoc(rows, p, ExpiredTest(today));
  }

  /** Adding a product without an expiry date moves neither expiry count. */
  lemma UndatedProductsNotCounted(rows: seq<Product>, p: Product, today: Day)
    requires p.expiryDate.None?
    ensures var before, after := GenerateProductReport(rows, today), GenerateProductReport(rows + [p], today);
      after.expiredProducts == before.expiredProducts && after.expiringSoon == before.expiringSoon
  {
    CountAppend(rows, [p], ExpiredTest(today));
    CountAppend(rows, [p], ExpiringTest(today, ExpiringSoonDays));
  }

  /** Listed products that are expiring soon by their own classification. */
  predicate ListedExpiringSoon(today: Day, p: Product) {
    Listed(p) && IsExpiringSoon(p, today)
  }

  /** Listed products that expire on `today`. */
  predicate ListedExpiringToday(today: Day, p: Product) {
    Listed(p) && p.expiryDate == Some(today)
  }

  /**
   * The report's expiring count misses exactly the listed products expiring
   * today, which the products' own is_expiring_soon counts.
   */
  lemma ReportVersusClassification(rows: seq<Product>, today: Day)
    ensures Count(rows, p => ListedExpiringSoon(today, p))
              == GenerateProductReport(rows, today).expiringSoon + Count(rows, p => ListedExpiringToday(today, p))
  {
    forall p | p in rows
      ensures ListedExpiringSoon(today, p) <==>
                ExpiringTest(today, ExpiringSoonDays)(p) || ListedExpiringToday(today, p)
      ensures !(ExpiringTest(today, ExpiringSoonDays)(p) && ListedExpiringToday(today, p))
    {
      QueriesVersusClassification(p, today, ExpiringSoonDays);
    }
    CountSplit(rows, p => ListedExpiringSoon(today, p), ExpiringTest(today, ExpiringSoonDays),
               p => ListedExpiringToday(today, p));
  }

  /**
   * The report's expired count is the number of listed products whose own
   * is_expired holds, and its low-stock count the number of listed products
   * whose stock_status is OUT_OF_STOCK or LOW_STOCK.
   */
  lemma ReportCountsAreClassifications(rows: seq<Product>, today: Day)
    ensures var r := GenerateProductReport(rows, today);
      && r.expiredProducts == Count(rows, p => Listed(p) && IsExpired(p, today))
      && r.lowStockProducts == Count(rows, p => Listed(p) && (StockStatusOf(p) == OutOfStock || StockStatusOf(p) == LowStock))
  {
    CountSame(rows, ExpiredTest(today), p => Listed(p) && IsExpired(p, today));
    CountSame(rows, ListedLowStock, p => Listed(p) && (StockStatusOf(p) == OutOfStock || StockStatusOf(p) == LowStock));
  }
}
