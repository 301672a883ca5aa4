# Halal inventory: stock ledger and expiry alerts

A Dafny model of the core of a Django inventory backend for halal-certified
products. Its core is a stock ledger, every change of which is logged as a
transaction, and expiry alerts raised when products near or pass their expiry
date. The model covers these parts:

- **Products and their classifications** (`models.dfy`):
  - the barcode that `Product.save` fills in;
  - expired, expiring soon, days until expiry;
  - low stock and the four-way stock status.
- **The stock ledger** (`ledger.dfy`):
  - the IN / OUT / ADJUSTMENT / EXPIRED arithmetic;
  - the `Inventory` class, whose product table and transaction log change in place;
  - proofs that every transaction's previous stock is the same product's prior new stock;
  - a proof that replaying a product's history reproduces its current stock.
- **The alert table** (`alerts.dfy`):
  - the `AlertTable` class, keyed by the (product, alert kind) pair, so the uniqueness constraint holds by construction;
  - the get-or-create scan, `mark_read`, `mark_all_read`, the forced wipe and the retention sweep;
  - the newest-first listings.
- **The endpoints** (`views.dfy`):
  - the stock update;
  - the transaction and alert listings;
  - the manual alert scan;
  - the dashboard counters and alert summary.
- **The background tasks** (`tasks.dfy`). The `cleanup_old_alerts` and `generate_product_report` management commands run the same queries as their tasks. Each pair is modelled once, in `Tasks`.
- **The `generate_alerts` management command** (`commands.dfy`).
- **The request validators** (`serializers.dfy`).
- **Shared helpers:**
  - `base.dfy` holds the shared types;
  - `counting.dfy` counts and filters product rows (`.filter(...).count()`).

How the model represents the system:

- Calendar dates are integer day numbers and timestamps are integer seconds. Money is in integer cents.
- "Today" and "now" are parameters.
- A product table that is only read is passed as the sequence of its rows.

Points where the model follows the code's actual behaviour:

- Quantities carry no sign check. The stock columns hold non-negative 32-bit integers and the quantity column signed 32-bit integers. A value outside its column is refused by the database, so nothing is logged. The model calls these errors "out of range".
- The EXPIRED transaction kind has no branch. It leaves the stock as it was and still logs a transaction.
- Scans select products expiring strictly after today. A product expiring today gets no alert, although its own `is_expiring_soon` holds. This is stated by `Alerts.QueriesVersusClassification` and `Tasks.ReportVersusClassification`.
- SKU and barcode are unique across the whole product table.
- Stock value is current stock times cost price.
- The point-of-sale validators only check the keys of each item.

## Model

| member | source | states |
|---|---|---|
| Models.SavedBarcode | inventory/models.py:86-87 | A blank barcode becomes "HALAL" followed by the SKU, and the SKU can be read back from it. Any other barcode is kept. The result is never blank. |
| Models.Saved | inventory/models.py:84-96 | The row `save` writes differs from the snapshot only in its barcode, which is never blank. |
| Models.SaveIdempotent | inventory/models.py:84-96 | Saving a row that was already saved changes nothing. |
| Models.DerivedBarcodeInjective | inventory/models.py:86-87 | Two SKUs derive the same barcode only when they are equal. |
| Models.ExpiredStaysExpired | inventory/models.py:147-152 | Expired means an expiry date before today, so once a product is expired it stays expired on every later day, and it becomes expired only on the day after its expiry date. |
| Models.IsExpiringSoon | inventory/models.py:154-160 | Expiring soon holds exactly when an expiry date exists and lies between today and today + 30, both included. |
| Models.DaysUntilExpiry | inventory/models.py:162-168 | Absent exactly when there is no expiry date. Otherwise it is expiry − today. It is negative exactly when expired, and in 0..30 exactly when expiring soon. |
| Models.ExpiryClassesExclusive | inventory/models.py:147-160 | Never expired and expiring soon together. Without a date the product is neither. An expiry of today counts as expiring soon. |
| Models.StockStatusOf | inventory/models.py:170-185 | Four if-and-only-if clauses: OUT_OF_STOCK iff stock is 0; LOW_STOCK iff 0 < stock ≤ minimum; OVERSTOCK iff minimum < stock and stock ≥ maximum; NORMAL iff minimum < stock < maximum. |
| Models.LowStockIsStatus | inventory/models.py:170-185 | is_low_stock holds exactly when stock_status is OUT_OF_STOCK or LOW_STOCK. |
| Ledger.StockAfter | inventory/views.py:153-178 | Per kind: IN adds the quantity. OUT subtracts it and fails with the available stock exactly when the quantity exceeds the stock. ADJUSTMENT sets the stock to the quantity. EXPIRED keeps the stock. It succeeds exactly when the new stock fits the non-negative 32-bit stock column and the quantity fits the signed 32-bit quantity column. A new stock that does not fit fails with that value; otherwise a quantity that does not fit fails with the quantity. |
| Ledger.QuantityCheckOnlyForExpired | inventory/views.py:153-178 | For a stored stock, only an EXPIRED update can be refused for its quantity alone: for the other kinds an unstorable quantity already makes the new stock unstorable. |
| Ledger.InThenOutRestores | inventory/views.py:155-163 | An IN followed by an OUT of the same quantity restores the stock. |
| Ledger.OutThenInRestores | inventory/views.py:155-163 | An OUT followed by an IN of the same quantity restores the stock. |
| Ledger.AdjustmentIsAbsolute | inventory/views.py:164-165 | An adjustment's result does not depend on the previous stock. |
| Ledger.History | inventory/views.py:224-226 | The transactions of one product: every one of them and no others. |
| Ledger.HistoryAppend | inventory/views.py:222-226 | A product's history is in ledger order: a new transaction of that product is appended at its end, and one of another product leaves it unchanged. |
| Ledger.AppendKeepsChained | inventory/views.py:153-178 | Appending a transaction whose previous stock is the product's last logged new stock keeps every product's history chained. |
| Ledger.ChainedConsecutive | inventory/views.py:153-178 | In a chained ledger, two consecutive transactions of one product chain: the later previous stock is the earlier new stock. |
| Ledger.ReplayReproduces | inventory/views.py:170-178 | Replaying a chained history of well-formed transactions from its first previous stock ends at its last new stock. |
| Ledger.StockIsReplayOfHistory | inventory/views.py:153-178 | In a consistent ledger, a product's current stock is the replay of its history. |
| Ledger.WriteKeepsTableValid | inventory/models.py:55-56 | Writing a row whose SKU and barcode clash with no other row keeps the table keyed, with unique SKUs and barcodes and no blank barcode. |
| Ledger.WriteKeepsLedger | inventory/models.py:84-96 | A save that keeps the stock keeps the ledger consistent. |
| Ledger.RecordKeepsLedger | inventory/views.py:167-178 | Saving the new stock and appending its transaction keeps the ledger consistent. |
| Ledger.UpdateOutcome | inventory/views.py:145-178 | Not found exactly when the product is missing or not listed. On success the row changes only in its stock, which is what StockAfter gives. Other failures (not enough stock, a value the columns refuse) are StockAfter's. |
| Ledger.Inventory.Save | inventory/models.py:55-96 | Writes the saved row exactly when no other row holds its SKU or barcode and its stock levels fit their columns, and otherwise changes nothing. Keeps the table valid. Keeps the ledger consistent when the stock is unchanged. |
| Ledger.Inventory.UpdateStock | inventory/views.py:153-178 | The result is UpdateOutcome. A failure writes nothing. A success writes the product and appends exactly one transaction holding the stock before and after. The table stays valid and the ledger consistent. |
| Alerts.ExpiringRows | inventory/tasks.py:23-28 | Exactly the rows that are listed and expire after today and within the horizon. |
| Alerts.ExpiredRows | inventory/tasks.py:31-35 | Exactly the rows that are listed and expired before today. |
| Alerts.QueriesVersusClassification | inventory/tasks.py:23-35 | The expired query is "listed and is_expired". The 30-day expiring query is "listed and is_expiring_soon" minus the products expiring today. The queries are disjoint. Their day counts lie in 1..horizon and ≥ 1. |
| Alerts.WithAlerts | inventory/tasks.py:38-57 | Get-or-create for a set of keys. Existing alerts are kept as they are, read or not. Each missing key gets a new unread alert created now. |
| Alerts.WithAlertsSize | inventory/tasks.py:44-45 | The number of alerts added is the number of keys that were missing. |
| Alerts.WithAlertsIdempotent | inventory/tasks.py:38-57 | A second get-or-create over the same keys changes nothing, at any later time. |
| Alerts.WithAlertsCompose | inventory/tasks.py:37-57 | The expiring pass followed by the expired pass is one pass over both key sets. |
| Alerts.ScannedContents | inventory/tasks.py:37-57 | After a scan: every old alert is unchanged; every new alert is unread and created now; each product in a query has its alert; every new alert belongs to a product in its kind's query. |
| Alerts.ScanIdempotent | inventory/tasks.py:20-60 | Rescanning the same rows on the same day leaves the table as it is. |
| Alerts.UnreadSplitsByKind | inventory/views.py:453 | The unread alerts are the unread EXPIRING_SOON alerts plus the unread EXPIRED alerts. |
| Alerts.AllRead | inventory/views.py:250 | Same keys, every alert read, creation times kept. |
| Alerts.Swept | inventory/tasks.py:76-79 | An alert is kept exactly when it is not both read and created before the cutoff. Kept alerts are unchanged. The number removed is the number of stale alerts. |
| Alerts.SweepKeeps | inventory/management/commands/cleanup_old_alerts.py:17-20 | Unread alerts, however old, and alerts created at or after the cutoff survive unchanged. |
| Alerts.SweepIdempotent | inventory/management/commands/cleanup_old_alerts.py:17-20 | After one sweep nothing is stale, so a second sweep deletes nothing. |
| Alerts.InsertByAge | inventory/models.py:223-224 | Inserting into a newest-first listing keeps it newest first and adds exactly that key. |
| Alerts.ListNewestFirst | inventory/models.py:223-224 | A newest-first listing that is a permutation of the given keys. |
| Alerts.NewestFirstOrdered | inventory/models.py:224 | In a newest-first listing, any earlier alert is at least as new as any later one. |
| Alerts.Newest | inventory/views.py:446-451 | The first n alerts of an ordered queryset: n or fewer, newest first, all from the given keys, all of them when n is large enough, and no alert left out newer than one listed. |
| Alerts.AlertTable.GetOrCreateEach | inventory/views.py:276-292 | The table becomes get-or-create over the rows' keys. The rows returned as created are exactly those whose key was missing: each one's key was absent before and is present after. Their number is the growth of the table. |
| Alerts.AlertTable.Scan | inventory/tasks.py:22-57 | The table becomes the scan of the rows. Each created row is in its query, and its alert of that kind was absent before and is present after. Their number is the growth of the table. |
| Alerts.AlertTable.MarkRead | inventory/views.py:238-245 | Only the named alert becomes read. A missing key is not found and changes nothing. |
| Alerts.AlertTable.MarkAllRead | inventory/views.py:247-251 | Every alert becomes read. The count returned is the number that were unread. |
| Alerts.AlertTable.DeleteAll | inventory/management/commands/generate_alerts.py:34-39 | The table is emptied. The count returned is its former size. |
| Alerts.AlertTable.DeleteReadBefore | inventory/management/commands/cleanup_old_alerts.py:17-20 | The table becomes the sweep with that cutoff. The count returned is the number of alerts removed. |
| Views.ResponseFor | inventory/views.py:153-186 | 200 exactly for a successful update, carrying the updated product. 404 exactly for a missing or unlisted product. 400 exactly when an OUT exceeds the stock, carrying the available stock. A value a column refuses is a 500 carrying that value. |
| Views.UpdateStock | inventory/views.py:142-186 | The response is that of UpdateOutcome. Anything but 200 writes nothing. 200 writes the product and appends one transaction with the stock before and after. |
| Views.UpdateStockAnswers | inventory/views.py:153-178 | An OUT beyond the stock of a listed product answers with exactly that stock. An IN then an OUT of the same amount restores the product. An adjustment to a storable level sets the stock. An IN past the column's maximum is refused with the sum. EXPIRED keeps the product exactly when the quantity fits its column, and is refused with the quantity otherwise. |
| Views.TransactionListing | inventory/views.py:222-227 | Exactly the transactions of the requested product, or all of them when none is given. |
| Views.ListingNewestFirst | inventory/views.py:222-227 | A ledger written in clock order is listed newest first. |
| Views.RecentTransactions | inventory/views.py:409 | At most ten transactions, all from the ledger. When the ledger is in clock order, no transaction left out is newer than a listed one. |
| Views.AlertListing | inventory/views.py:235-236 | Exactly the unread alerts, newest first. |
| Views.GenerateAlerts | inventory/views.py:253-298 | The table becomes the 30-day scan. Reports the number of new alerts and the sizes of the two queries. |
| Views.StockValueAppend | inventory/views.py:384-386 | The stock value of two tables together is the sum of their values. |
| Views.StockValueBounds | inventory/views.py:384-386 | The total stock value is zero when every row has no stock or no cost. Never less than any single row's stock times cost price. |
| Views.StockValueUpdate | inventory/views.py:384-386 | Changing one row's stock moves the total value by that change times its cost price. |
| Views.Stats | inventory/views.py:362-426 | How the counters relate: low stock = out of stock + low-stock bucket; expiring + expired ≤ listed products; the out-of-stock, low and normal buckets together ≤ listed products. |
| Views.StatsSnoc | inventory/views.py:369-386 | One more product row moves each counter by that row alone. An unlisted row changes nothing. A listed row adds one to the product totals, one to the low-stock count when stock ≤ minimum, one to the expiring count when today < expiry ≤ today + 30, and one to the expired count when expiry < today. It adds its stock times cost price to the stock value. With StatsOfNoRows this fixes every counter's value. |
| Views.StatsOfNoRows | inventory/views.py:369-386 | Every counter of an empty product table is zero, the stock value included (the `or 0` of the aggregate). |
| Views.BreakdownSnoc | inventory/views.py:393-406 | One more product row adds one to each breakdown bucket whose filter it passes if it is listed, and changes nothing otherwise. |
| Views.BreakdownVersusStatus | inventory/views.py:393-406 | The out-of-stock, low and normal buckets count exactly the products of that stock_status. The overstock bucket counts at least the OVERSTOCK products. |
| Views.BreakdownPartition | inventory/views.py:393-406 | When every minimum lies below its maximum, the four buckets partition the listed products. |
| Views.BreakdownOverlaps | inventory/views.py:395-405 | A product whose stock equals its minimum and its maximum is counted as low stock and as overstock. |
| Views.RecentAlerts | inventory/views.py:410 | At most ten unread alerts. No unread alert left out is newer than one listed. |
| Views.NewestFiveOfKind | inventory/views.py:434-453 | The five newest unread alerts of one kind, or all of them when fewer, newest first. No unread alert of that kind left out is newer than one listed. |
| Views.Summary | inventory/views.py:428-454 | Unread counts by kind, which add up to the unread total. For each kind, the five newest unread alerts (all of them when fewer), newest first, with no unread alert of that kind left out that is newer than one listed. |
| Tasks.CleanupByAge | inventory/tasks.py:67-86 | An alert is deleted exactly when it has been read and is more than thirty days old. An alert exactly thirty days old is kept. |
| Tasks.GenerateExpiryAlerts | inventory/tasks.py:10-64 | The horizon is the configured value, 30 when absent. The table becomes that scan, and the count is the number of new alerts. |
| Tasks.CleanupOldAlerts | inventory/tasks.py:67-86 | The table becomes the sweep at now − 30 days. The count is the number of alerts removed. |
| Tasks.CleanupKeeps | inventory/management/commands/cleanup_old_alerts.py:12-30 | Unread alerts and alerts at or after the cutoff are kept unchanged. Every deleted alert was read and older than the cutoff. A second run at the same instant deletes nothing. |
| Tasks.UpdateProductStock | inventory/tasks.py:89-130 | The product is looked up first, then the user. Either missing fails before any write. Otherwise the result is the shared protocol's: an OUT beyond the stock reports the available and requested amounts, and a value a column refuses is a database error carrying that value. |
| Tasks.GenerateProductReport | inventory/tasks.py:133-174 | expired + expiring ≤ listed products ≤ rows, and low stock ≤ listed products. |
| Tasks.ReportSnoc | inventory/tasks.py:139-159 | One more product row moves each count by that row alone. An unlisted row changes nothing. A listed row adds one to the total, one to the expired count when expiry < today, one to the expiring count when today < expiry ≤ today + 30, and one to the low-stock count when stock ≤ minimum. With ReportOfNoRows this fixes every count's value. |
| Tasks.ReportOfNoRows | inventory/tasks.py:139-159 | The report of an empty product table counts nothing and is dated today. |
| Tasks.UndatedProductsNotCounted | inventory/management/commands/generate_product_report.py:20-31 | A product without an expiry date changes neither expiry count. |
| Tasks.ReportVersusClassification | inventory/management/commands/generate_product_report.py:26-31 | The listed products that are expiring soon by is_expiring_soon number the report's expiring count plus those expiring today. |
| Tasks.ReportCountsAreClassifications | inventory/management/commands/generate_product_report.py:20-36 | The expired count is the number of listed products with is_expired. The low-stock count is the number of listed products with status OUT_OF_STOCK or LOW_STOCK. |
| GenerateAlertsCommand.ExpiringNotices | inventory/management/commands/generate_alerts.py:65-68 | One "expires in N days" notice per new expiring alert, in loop order, with N = expiry − today. |
| GenerateAlertsCommand.ExpiredNotices | inventory/management/commands/generate_alerts.py:77-80 | One "expired N days ago" notice per new expired alert, in loop order, with N = today − expiry. |
| GenerateAlertsCommand.NoticeDays | inventory/management/commands/generate_alerts.py:42-80 | Expiring notices give days in 1..days. Expired notices give days ≥ 1. |
| GenerateAlertsCommand.Handle | inventory/management/commands/generate_alerts.py:10-95 | The horizon is `--days`, 30 when absent. With force, the table is emptied first and afterwards holds only unread alerts of products in a query. Without force, old alerts are untouched. One notice per new alert, each naming an alert that is in the table afterwards and, without force, was not before. The summary holds the query sizes and the unread total. |
| GenerateAlertsCommand.NoticesNameNewAlerts | inventory/management/commands/generate_alerts.py:42-80 | Every notice printed names an alert of its kind that is missing before the run and present after it. |
| GenerateAlertsCommand.ForcedRunAllUnread | inventory/management/commands/generate_alerts.py:34-89 | After a forced run every alert is unread, so the unread total is the table size. |
| Serializers.ValidateProduct | inventory/serializers.py:37-51 | Accepted exactly when halal, minimum ≤ maximum (defaults 0 and 1000), and manufacture before expiry when both dates are given. An accepted request is returned unchanged. Otherwise the first failed check is reported: the stock-level error only for a halal product, the date error only for a halal product whose levels are in order. |
| Serializers.ProductDefaults | inventory/serializers.py:43-49 | A request missing either date is never rejected for dates. One without a minimum is never rejected for stock levels. One without a maximum is rejected exactly when its minimum exceeds 1000. |
| Serializers.ImportTargetAgainstStoreList | inventory/serializers.py:259-262 | Every target written as a one-entry target-store list passes the list check, and a multi-store request with complete product data and that list is accepted, whatever the target. The single-target import check accepts a strict subset: it refuses a substore with id 0 or a null id. The same single-target rule appears at lines 292-295 and 305-308. |
| Serializers.ValidateProductData | inventory/serializers.py:321-327 | Accepted exactly when all six required fields are present. Otherwise it names a missing required field. |
| Serializers.ValidateTargetStores | inventory/serializers.py:329-337 | Accepted exactly when every store has a type and an id and its type is supermarket or substore. A missing-field error points at a store lacking one. |
| Serializers.ValidateMultiStore | inventory/serializers.py:314-342 | The whole multi-store request: accepted exactly when the product data has the six required fields, every given target store is well formed, and add-to-all is set or the store list is non-empty; returned unchanged. Field errors are reported per field, and the missing-destination error only when both fields pass. The same destination check appears at lines 356-359 and 373-376. |
| Serializers.AcceptedMultiStoreHasDestination | inventory/serializers.py:314-342 | An accepted request names every required product field, and unless it asks for every store it names at least one well-formed target store. |
| Serializers.ValidateItems | inventory/serializers.py:403-410 | Accepted exactly when every item has every field. Otherwise it names a field missing from some item. |
| Serializers.ValidateUpdates | inventory/serializers.py:403-410 | Accepted exactly when every update has product_id and new_stock, and then returned unchanged. Otherwise the error names one of those two fields that some update lacks. |
| Serializers.ValidateSales | inventory/serializers.py:419-426 | Accepted exactly when every sale has product_id and quantity_sold, and then returned unchanged. Otherwise the error names one of those two fields that some sale lacks. |
| Serializers.ValidateItemsAppend | inventory/serializers.py:405-409 | A concatenated list passes exactly when both parts pass, so one bad item rejects the whole list. |
| Serializers.ValidateRegistration | inventory/serializers.py:188-196 | Refused for mismatched passwords exactly when they differ, checked first. Refused for a taken e-mail exactly when the passwords match and a user already has the e-mail as username. Accepted otherwise, returned unchanged. |
| Serializers.RegistrationNotRepeatable | inventory/auth_views.py:18-28 | Registration creates a user named by the e-mail, so after a successful registration the same request is refused as taken, while requests with other e-mails get the same answer as before. |

## Left out

- Barcode and QR image generation in `Product.save` (inventory/models.py:98-145): third-party image libraries and base64 encoding.
- QR scan parsing, ticket generation and the product list endpoints that read an unset `queryset` (inventory/views.py:73-140, 188-214).
- `bulk_update_products` (inventory/tasks.py:177-210): it sets arbitrary attributes by reflection and bypasses the ledger.
- Supermarket and substore scoping of queries, authentication, the admin site, the dashboard app, the seeding command and the deployment scripts.
- The category and supplier counters of the dashboard: those tables are not modelled.
- Concurrency. Each operation is one sequential step. In the code, the product save and the transaction insert are separate writes, and get-or-create can race.
- Field-level request parsing (UUIDs, choices, lengths) and the error dictionaries of the serializers. Inputs arrive already typed, so a transaction kind is always one of the four.
- Logging and console styling. Messages are modelled as the numbers they print.
- Ledger.Inventory.Save: the model keeps the ledger consistent only when a save leaves the stock as it was. The code's generic product update can change the stock without logging a transaction.
- Tasks.UpdateProductStock: only the four transaction kinds are modelled. The task accepts any string, and an unknown kind behaves like EXPIRED.
- Views.ResponseFor: a value a column refuses (a negative or too large stock, a quantity outside 32 bits) is modelled as a 500 answer carrying the value. The code raises an unhandled database error there.
- Ledger.Inventory.UpdateStock: for an EXPIRED update whose quantity does not fit its column, the code first saves the unchanged product row, which only refreshes its `updated_at`, and then fails on the transaction insert. The model writes nothing, since timestamps of rows are not modelled.
- Alerts.AlertTable.MarkRead: alerts are identified by their (product, kind) pair, not by the auto-increment primary key. After a wipe or a sweep and rescan, a stale key in the code finds nothing (404), while in the model it marks the re-created alert.
- Views.RecentTransactions: lists the ledger in reverse append order. This is newest first only when timestamps never decrease, which `Views.ListingNewestFirst` states; ordering by timestamp in general is not modelled.
- Alerts.ListNewestFirst: alerts created at the same instant may come in any order, as the database leaves ties unordered.
