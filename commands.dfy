/**
 * The generate_alerts management command: an optional wipe of the alert
 * table, then the scan with the `--days` horizon, reporting the new alerts
 * with their day counts and a summary of the table afterwards. Console
 * output is modelled as the report it prints.
 */
module GenerateAlertsCommand {
  import opened Base
  import opened Models
  import opened Alerts

  /** Default of the `--days` option. */
  const DefaultDays: int := 30

  /** One line printed for a new alert. */
  datatype Notice =
    | ExpiresIn(product: ProductId, days: int)   // "expires in N days"
    | ExpiredAgo(product: ProductId, days: int)  // "expired N days ago"

  datatype Report = Report(
    deleted: Option<nat>,
    alertsCreated: nat,
    notices: seq<Notice>,
    totalExpiring: nat,
    totalExpired: nat,
    totalUnread: nat)

  /** The notices for new alerts of the expiring query, in loop order. */
  function ExpiringNotices(created: seq<Product>, today: Day): (ns: seq<Notice>)
    requires forall p :: p in created ==> p.expiryDate.Some?
    ensures |ns| == |created|
    ensures forall i :: 0 <= i < |ns| ==>
              ns[i] == ExpiresIn(created[i].id, created[i].expiryDate.value - today)
  {
    if created == [] then []
    else [ExpiresIn(created[0].id, created[0].expiryDate.value - today)] + ExpiringNotices(created[1..], today)
  }

  /** The notices for new alerts of the expired query, in loop order. */
  function ExpiredNotices(created: seq<Product>, today: Day): (ns: seq<Notice>)
    requires forall p :: p in created ==> p.expiryDate.Some?
    ensures |ns| == |created|
    ensures forall i :: 0 <= i < |ns| ==>
              ns[i] == ExpiredAgo(created[i].id, today - created[i].expiryDate.value)
  {
    if created == [] then []
    else [ExpiredAgo(created[0].id, today - created[0].expiryDate.value)] + ExpiredNotices(created[1..], today)
  }

  /** The day counts printed for rows of the two queries. */
  lemma NoticeDays(createdExpiring: seq<Product>, createdExpired: seq<Product>, today: Day, days: int)
    requires forall p :: p in createdExpiring ==> InExpiringQuery(p, today, days) && p.expiryDate.Some?
    requires forall p :: p in createdExpired ==> InExpiredQuery(p, today) && p.expiryDate.Some?
    ensures var notices := ExpiringNotices(createdExpiring, today) + ExpiredNotices(createdExpired, today);
      && (forall n :: n in notices && n.ExpiresIn? ==> 1 <= n.days <= days)
      && (forall n :: n in notices && n.ExpiredAgo? ==> n.days >= 1)
  {
    var notices := ExpiringNotices(createdExpiring, today) + ExpiredNotices(createdExpired, today);
    forall n | n in notices && n.ExpiresIn? ensures 1 <= n.days <= days {
      var i :| 0 <= i < |notices| && notices[i] == n;
      assert createdExpiring[i] in createdExpiring;
    }
    forall n | n in notices && n.ExpiredAgo? ensures n.days >= 1 {
      var i :| 0 <= i < |notices| && notices[i] == n;
      var j := i - |createdExpiring|;
      assert createdExpired[j] in createdExpired;
    }
  }

  /** A forced run starts from an empty table, so every alert afterwards is new, unread and justified by a query. */
  lemma ForcedScanJustified(rows: seq<Product>, today: Day, days: int, now: Instant)
    ensures var t := Scanned(map[], rows, today, days, now);
      forall k :: k in t ==>
        && !t[k].isRead
        && exists p :: p in rows && p.id == k.product &&
             (if k.kind == ExpiringSoon then InExpiringQuery(p, today, days) else InExpiredQuery(p, today))
  {
    ScannedContents(map[], rows, today, days, now);
  }

  /** A scan without the wipe leaves every existing alert as it was. */
  lemma ScanKeepsExisting(t: AlertMap, rows: seq<Product>, today: Day, days: int, now: Instant)
    ensures var r := Scanned(t, rows, today, days, now);
      forall k :: k in t ==> k in r && r[k] == t[k]
  {
    ScannedContents(t, rows, today, days, now);
  }

  /** The alert a notice reports: its product's alert of the notice's kind. */
  function NoticeKey(n: Notice): AlertKey {
    AlertKey(n.product, if n.ExpiresIn? then ExpiringSoon else Expired)
  }

  /** Every notice reports an alert that the run created: missing before, present after. */
  lemma NoticesNameNewAlerts(createdExpiring: seq<Product>, createdExpired: seq<Product>, today: Day,
                             start: AlertMap, t: AlertMap)
    requires forall p :: p in createdExpiring ==>
               p.expiryDate.Some? && AlertKey(p.id, ExpiringSoon) !in start && AlertKey(p.id, ExpiringSoon) in t
    requires forall p :: p in createdExpired ==>
               p.expiryDate.Some? && AlertKey(p.id, Expired) !in start && AlertKey(p.id, Expired) in t
    ensures forall n :: n in ExpiringNotices(createdExpiring, today) + ExpiredNotices(createdExpired, today) ==>
              NoticeKey(n) !in start && NoticeKey(n) in t
  {
    var notices := ExpiringNotices(createdExpiring, today) + ExpiredNotices(createdExpired, today);
    forall n | n in notices ensures NoticeKey(n) !in start && NoticeKey(n) in t {
      var i :| 0 <= i < |notices| && notices[i] == n;
      if i < |createdExpiring| {
        assert createdExpiring[i] in createdExpiring;
      } else {
        assert createdExpired[i - |createdExpiring|] in createdExpired;
      }
    }
  }

  /**
   * Command.handle. With `force` every alert is deleted first, so the table
   * afterwards holds only unread alerts of products in one of the two
   * queries; without it the existing alerts, read or not, are untouched.
   * The day count of an expiring notice lies in 1..days, that of an expired
   * notice is at least 1, and each notice reports an alert the run created.
   * The horizon, which the command prints first, is `--days`, thirty when
   * the option is absent.
   */
  method Handle(table: AlertTable, rows: seq<Product>, today: Day, daysOption: Option<int>, force: bool, now: Instant)
    returns (alertDays: int, report: Report)
    modifies table
    ensures alertDays == daysOption.GetOr(DefaultDays)
    ensures var start := if force then map[] else old(table.alerts);
      && table.alerts == Scanned(start, rows, today, alertDays, now)
      && report.alertsCreated == |table.alerts| - |start|
    ensures force <==> report.deleted.Some?
    ensures force ==> report.deleted.value == |old(table.alerts)|
    ensures !force ==> forall k :: k in old(table.alerts) ==> k in table.alerts && table.alerts[k] == old(table.alerts)[k]
    ensures force ==> forall k :: k in table.alerts ==>
              && !table.alerts[k].isRead
              && exists p :: p in rows && p.id == k.product &&
                   (if k.kind == ExpiringSoon then InExpiringQuery(p, today, alertDays) else InExpiredQuery(p, today))
    ensures |report.notices| == report.alertsCreated
    ensures forall n :: n in report.notices ==>
              NoticeKey(n) in table.alerts && (!force ==> NoticeKey(n) !in old(table.alerts))
    ensures forall n :: n in report.notices && n.ExpiresIn? ==> 1 <= n.days <= alertDays
    ensures forall n :: n in report.notices && n.ExpiredAgo? ==> n.days >= 1
    ensures report.totalExpiring == |ExpiringRows(rows, today, alertDays)|
    ensures report.totalExpired == |ExpiredRows(rows, today)|
    ensures report.totalUnread == |UnreadKeys(table.alerts)|
  {
    alertDays := daysOption.GetOr(DefaultDays);
    var deleted: Option<nat> := None;
    if force {
      var n := table.DeleteAll();
      deleted := Some(n);
    }
    ghost var start := table.alerts;
    assert !force ==> start == old(table.alerts);
    var createdExpiring, createdExpired := table.Scan(rows, today, alertDays, now);
    if force {
      ForcedScanJustified(rows, today, alertDays, now);
    } else {
      ScanKeepsExisting(start, rows, today, alertDays, now);
    }
    var notices := ExpiringNotices(createdExpiring, today) + ExpiredNotices(createdExpired, today);
    NoticeDays(createdExpiring, createdExpired, today, alertDays);
    NoticesNameNewAlerts(createdExpiring, createdExpired, today, start, table.alerts);
    report := Report(deleted, |createdExpiring| + |createdExpired|, notices,
                     |ExpiringRows(rows, today, alertDays)|, |ExpiredRows(rows, today)|,
                     |UnreadKeys(table.alerts)|);
  }

  /**
   * After a forced run every alert is unread, so the reported unread total is
   * the number of alerts, which is the number created.
   */
  lemma ForcedRunAllUnread(rows: seq<Product>, today: Day, days: int, now: Instant)
    ensures var t := Scanned(map[], rows, today, days, now);
      UnreadKeys(t) == t.Keys && |UnreadKeys(t)| == |t|
  {
    var t := Scanned(map[], rows, today, days, now);
    ScannedContents(map[], rows, today, days, now);
    assert UnreadKeys(t) == t.Keys;
  }
}
