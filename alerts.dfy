/**
 * The expiry-alert table, keyed by (product, alert kind) so that at most one
 * alert per pair exists, and the operations on it that the endpoints, tasks
 * and management commands share: the get-or-create scan, marking read, and
 * the filtered deletes.
 */
module Alerts {
  import opened Base
  import opened Models
  import opened Counting

  datatype AlertKind = ExpiringSoon | Expired

  /** The unique pair of an alert; it also serves as the alert's primary key. */
  datatype AlertKey = AlertKey(product: ProductId, kind: AlertKind)

  datatype Alert = Alert(isRead: bool, createdAt: Instant)

  type AlertMap = map<AlertKey, Alert>

  // ---------------------------------------------------------------------
  // The product queries of the scans
  // ---------------------------------------------------------------------

  /** Listed products whose expiry lies after today and at most `horizon` days ahead. */
  predicate InExpiringQuery(p: Product, today: Day, horizon: int) {
    Listed(p) && p.expiryDate.Some? && today < p.expiryDate.value <= today + horizon
  }

  /** Listed products whose expiry lies before today. */
  predicate InExpiredQuery(p: Product, today: Day) {
    Listed(p) && p.expiryDate.Some? && p.expiryDate.value < today
  }

  /** The two queries as row filters, so that every count of a query names the same filter. */
  function ExpiringTest(today: Day, horizon: int): Product -> bool {
    p => InExpiringQuery(p, today, horizon)
  }

  function ExpiredTest(today: Day): Product -> bool {
    p => InExpiredQuery(p, today)
  }

  /** The expiring query over the product table, in table order. */
  function ExpiringRows(rows: seq<Product>, today: Day, horizon: int): (r: seq<Product>)
    ensures forall p :: p in r <==> p in rows && InExpiringQuery(p, today, horizon)
    ensures |r| == Count(rows, ExpiringTest(today, horizon)) <= |rows|
  {
    Filter(rows, ExpiringTest(today, horizon))
  }

  /** The expired query over the product table, in table order. */
  function ExpiredRows(rows: seq<Product>, today: Day): (r: seq<Product>)
    ensures forall p :: p in r <==> p in rows && InExpiredQuery(p, today)
    ensures |r| == Count(rows, ExpiredTest(today)) <= |rows|
  {
    Filter(rows, ExpiredTest(today))
  }

  /**
   * How the scan queries relate to the product's own classification: the
   * expired query is exactly "listed and expired"; the expiring query with
   * the thirty-day horizon is "listed and expiring soon" minus the products
   * that expire today, which no scan reports; the two queries never overlap.
   */
  lemma QueriesVersusClassification(p: Product, today: Day, horizon: int)
    ensures InExpiredQuery(p, today) <==> Listed(p) && IsExpired(p, today)
    ensures Listed(p) && IsExpiringSoon(p, today) <==>
              InExpiringQuery(p, today, ExpiringSoonDays) || (Listed(p) && p.expiryDate == Some(today))
    ensures !(InExpiringQuery(p, today, horizon) && InExpiredQuery(p, today))
    ensures p.expiryDate == Some(today) ==> !InExpiringQuery(p, today, horizon) && !InExpiredQuery(p, today)
    ensures InExpiringQuery(p, today, horizon) ==> 1 <= p.expiryDate.value - today <= horizon
    ensures InExpiredQuery(p, today) ==> today - p.expiryDate.value >= 1
  {
  }

  // ---------------------------------------------------------------------
  // Get-or-create
  // ---------------------------------------------------------------------

  /** The alert keys of one kind for a list of products. */
  function KeysFor(rows: seq<Product>, kind: AlertKind): (ks: set<AlertKey>)
    ensures forall k :: k in ks ==> k.kind == kind
  {
    set p | p in rows :: AlertKey(p.id, kind)
  }

  /**
   * get_or_create for every key: existing alerts, read or not, stay as they
   * are; each missing key gets a new unread alert created now.
   */
  function WithAlerts(t: AlertMap, keys: set<AlertKey>, now: Instant): (r: AlertMap)
    ensures r.Keys == t.Keys + keys
    ensures forall k :: k in t ==> r[k] == t[k]
    ensures forall k :: k in r && k !in t ==> r[k] == Alert(false, now)
  {
    map k | k in t.Keys + keys :: if k in t then t[k] else Alert(false, now)
  }

  /** The number of alerts get-or-create adds is the number of keys that were missing. */
  lemma WithAlertsSize(t: AlertMap, keys: set<AlertKey>, now: Instant)
    ensures |WithAlerts(t, keys, now)| == |t| + |keys - t.Keys|
  {
    var r := WithAlerts(t, keys, now);
    assert r.Keys == t.Keys + (keys - t.Keys);
    assert t.Keys !! (keys - t.Keys);
    assert |r.Keys| == |t.Keys| + |keys - t.Keys|;
  }

  /** Running get-or-create again over the same keys changes nothing, whatever the clock says. */
  lemma WithAlertsIdempotent(t: AlertMap, keys: set<AlertKey>, now: Instant, later: Instant)
    ensures WithAlerts(WithAlerts(t, keys, now), keys, later) == WithAlerts(t, keys, now)
  {
  }

  /** Two get-or-create passes are one pass over both key sets. */
  lemma WithAlertsCompose(t: AlertMap, k1: set<AlertKey>, k2: set<AlertKey>, now: Instant)
    ensures WithAlerts(WithAlerts(t, k1, now), k2, now) == WithAlerts(t, k1 + k2, now)
  {
  }

  lemma KeysForSnoc(rows: seq<Product>, p: Product, kind: AlertKind)
    ensures KeysFor(rows + [p], kind) == KeysFor(rows, kind) + {AlertKey(p.id, kind)}
  {
  }

  /** Adding one key to get-or-create adds at most that one alert. */
  lemma WithAlertsAdd(t: AlertMap, keys: set<AlertKey>, k: AlertKey, now: Instant)
    ensures var r := WithAlerts(t, keys, now);
      WithAlerts(t, keys + {k}, now) == if k in r then r else r[k := Alert(false, now)]
  {
  }

  /** The keys of a one-longer prefix gain the key of the next row. */
  lemma KeysForPrefix(rows: seq<Product>, i: nat, kind: AlertKind)
    requires i < |rows|
    ensures KeysFor(rows[..i + 1], kind) == KeysFor(rows[..i], kind) + {AlertKey(rows[i].id, kind)}
  {
    assert rows[..i + 1] == rows[..i] + [rows[i]];
    KeysForSnoc(rows[..i], rows[i], kind);
  }

  /**
   * One iteration of the get-or-create loop: with `keys` handled so far and
   * `created` the rows whose alert was new, handling one more row keeps both
   * facts.
   */
  lemma GetOrCreateStep(t0: AlertMap, t: AlertMap, created: seq<Product>, keys: set<AlertKey>,
                        p: Product, kind: AlertKind, now: Instant)
    requires t == WithAlerts(t0, keys, now)
    requires |created| == |t| - |t0|
    requires KeysFor(created, kind) == keys - t0.Keys
    ensures AlertKey(p.id, kind) in t ==>
              && t == WithAlerts(t0, keys + {AlertKey(p.id, kind)}, now)
              && KeysFor(created, kind) == (keys + {AlertKey(p.id, kind)}) - t0.Keys
    ensures AlertKey(p.id, kind) !in t ==>
              && t[AlertKey(p.id, kind) := Alert(false, now)] == WithAlerts(t0, keys + {AlertKey(p.id, kind)}, now)
              && |created + [p]| == |t[AlertKey(p.id, kind) := Alert(false, now)]| - |t0|
              && KeysFor(created + [p], kind) == (keys + {AlertKey(p.id, kind)}) - t0.Keys
  {
    var key := AlertKey(p.id, kind);
    WithAlertsAdd(t0, keys, key, now);
    if key !in t {
      KeysForSnoc(created, p, kind);
    }
  }

  /** Every product of `created` is a row of `rows`. */
  predicate Within(created: seq<Product>, rows: seq<Product>) {
    forall p :: p in created ==> p in rows
  }

  /** Appending a row of the table to rows of the table gives rows of the table. */
  lemma SnocWithin(created: seq<Product>, rows: seq<Product>, i: nat)
    requires i < |rows| && Within(created, rows)
    ensures Within(created + [rows[i]], rows)
  {
  }

  /**
   * The state of the get-or-create loop after the first i rows: the table is
   * get-or-create over their keys, and `created` lists the rows whose alert
   * was new.
   */
  ghost predicate EachInvariant(start: AlertMap, t: AlertMap, created: seq<Product>, rows: seq<Product>,
                                i: nat, kind: AlertKind, now: Instant) {
    && i <= |rows|
    && t == WithAlerts(start, KeysFor(rows[..i], kind), now)
    && |created| == |t| - |start|
    && KeysFor(created, kind) == KeysFor(rows[..i], kind) - start.Keys
    && Within(created, rows)
  }

  /** The rows reported as created are rows whose key was missing before. */
  lemma CreatedKeysNew(created: seq<Product>, rows: seq<Product>, kind: AlertKind, start: AlertMap)
    requires KeysFor(created, kind) == KeysFor(rows, kind) - start.Keys
    ensures forall p :: p in created ==>
              AlertKey(p.id, kind) !in start && AlertKey(p.id, kind) in KeysFor(rows, kind)
  {
    forall p | p in created
      ensures AlertKey(p.id, kind) !in start && AlertKey(p.id, kind) in KeysFor(rows, kind)
    {
      assert AlertKey(p.id, kind) in KeysFor(created, kind);
    }
  }

  /** Handling row i, creating its alert only when missing, keeps the loop state. */
  lemma EachStep(start: AlertMap, t: AlertMap, created: seq<Product>, rows: seq<Product>,
                 i: nat, kind: AlertKind, now: Instant, t': AlertMap, created': seq<Product>)
    requires i < |rows| && EachInvariant(start, t, created, rows, i, kind, now)
    requires AlertKey(rows[i].id, kind) in t ==> t' == t && created' == created
    requires AlertKey(rows[i].id, kind) !in t ==>
               t' == t[AlertKey(rows[i].id, kind) := Alert(false, now)] && created' == created + [rows[i]]
    ensures EachInvariant(start, t', created', rows, i + 1, kind, now)
  {
    KeysForPrefix(rows, i, kind);
    GetOrCreateStep(start, t, created, KeysFor(rows[..i], kind), rows[i], kind, now);
    if AlertKey(rows[i].id, kind) !in t {
      SnocWithin(created, rows, i);
    }
  }

  /** The alerts after a scan of the product table (`rows`) on `today`. */
  function Scanned(t: AlertMap, rows: seq<Product>, today: Day, horizon: int, now: Instant): AlertMap {
    WithAlerts(t, ScanKeys(rows, today, horizon), now)
  }

  function ScanKeys(rows: seq<Product>, today: Day, horizon: int): set<AlertKey> {
    KeysFor(ExpiringRows(rows, today, horizon), ExpiringSoon) + KeysFor(ExpiredRows(rows, today), Expired)
  }

  /**
   * What a scan leaves behind: every existing alert unchanged, every new
   * alert unread, and an alert of each kind for every product in that kind's
   * query.
   */
  lemma {:induction false} ScannedContents(t: AlertMap, rows: seq<Product>, today: Day, horizon: int, now: Instant)
    ensures var r := Scanned(t, rows, today, horizon, now);
      && (forall k :: k in t ==> k in r && r[k] == t[k])
      && (forall k :: k in r && k !in t ==> !r[k].isRead && r[k].createdAt == now)
      && (forall p :: p in rows && InExpiringQuery(p, today, horizon) ==> AlertKey(p.id, ExpiringSoon) in r)
      && (forall p :: p in rows && InExpiredQuery(p, today) ==> AlertKey(p.id, Expired) in r)
      && (forall k :: k in r && k !in t ==>
            exists p :: p in rows && p.id == k.product &&
              (if k.kind == ExpiringSoon then InExpiringQuery(p, today, horizon) else InExpiredQuery(p, today)))
  {
    var r := Scanned(t, rows, today, horizon, now);
    forall p | p in rows && InExpiringQuery(p, today, horizon)
      ensures AlertKey(p.id, ExpiringSoon) in r
    {
      assert p in ExpiringRows(rows, today, horizon);
    }
    forall p | p in rows && InExpiredQuery(p, today)
      ensures AlertKey(p.id, Expired) in r
    {
      assert p in ExpiredRows(rows, today);
    }
  }

  /** A second scan with nothing changed creates no alert and leaves the table as it is. */
  lemma ScanIdempotent(t: AlertMap, rows: seq<Product>, today: Day, horizon: int, now: Instant, later: Instant)
    ensures Scanned(Scanned(t, rows, today, horizon, now), rows, today, horizon, later)
              == Scanned(t, rows, today, horizon, now)
  {
    WithAlertsIdempotent(t, ScanKeys(rows, today, horizon), now, later);
  }

  // ---------------------------------------------------------------------
  // Read state, listings and deletes
  // ---------------------------------------------------------------------

  function UnreadKeys(t: AlertMap): set<AlertKey> {
    set k | k in t && !t[k].isRead
  }

  function UnreadOfKind(t: AlertMap, kind: AlertKind): set<AlertKey> {
    set k | k in t && !t[k].isRead && k.kind == kind
  }

  /** Unread alerts split into the two kinds. */
  lemma UnreadSplitsByKind(t: AlertMap)
    ensures |UnreadKeys(t)| == |UnreadOfKind(t, ExpiringSoon)| + |UnreadOfKind(t, Expired)|
  {
    var a, b := UnreadOfKind(t, ExpiringSoon), UnreadOfKind(t, Expired);
    assert UnreadKeys(t) == a + b;
    assert a !! b;
  }

  /** Every alert marked read, creation times kept. */
  function AllRead(t: AlertMap): (r: AlertMap)
    ensures r.Keys == t.Keys
    ensures forall k :: k in r ==> r[k] == Alert(true, t[k].createdAt)
  {
    map k | k in t :: t[k].(isRead := true)
  }

  /** Read alerts created strictly before the cutoff. */
  function StaleKeys(t: AlertMap, cutoff: Instant): set<AlertKey> {
    set k | k in t && t[k].isRead && t[k].createdAt < cutoff
  }

  /** The table after deleting the stale alerts. */
  function Swept(t: AlertMap, cutoff: Instant): (r: AlertMap)
    ensures forall k :: k in r <==> k in t && !(t[k].isRead && t[k].createdAt < cutoff)
    ensures forall k :: k in r ==> r[k] == t[k]
    ensures |r| == |t| - |StaleKeys(t, cutoff)|
  {
    var stale := StaleKeys(t, cutoff);
    var r := t - stale;
    assert r.Keys == t.Keys - stale;
    assert t.Keys == r.Keys + stale && r.Keys !! stale;
    r
  }

  /** A sweep keeps every unread alert, however old, and every alert created at or after the cutoff. */
  lemma SweepKeeps(t: AlertMap, cutoff: Instant, k: AlertKey)
    requires k in t && (!t[k].isRead || t[k].createdAt >= cutoff)
    ensures k in Swept(t, cutoff) && Swept(t, cutoff)[k] == t[k]
  {
  }

  /** Sweeping twice with the same cutoff deletes nothing the second time. */
  lemma SweepIdempotent(t: AlertMap, cutoff: Instant)
    ensures StaleKeys(Swept(t, cutoff), cutoff) == {}
    ensures Swept(Swept(t, cutoff), cutoff) == Swept(t, cutoff)
  {
  }

  // ---------------------------------------------------------------------
  // Newest-first listing (`order_by('-created_at')`)
  // ---------------------------------------------------------------------

  /** Listed alerts exist, and each is no newer than the one before it. */
  ghost predicate NewestFirst(t: AlertMap, s: seq<AlertKey>) {
    (forall k :: k in s ==> k in t)
    && forall i :: 0 < i < |s| ==> t[s[i - 1]].createdAt >= t[s[i]].createdAt
  }

  /** Insert k before the first listed alert that is older. */
  function InsertByAge(t: AlertMap, s: seq<AlertKey>, k: AlertKey): (r: seq<AlertKey>)
    requires k in t && NewestFirst(t, s)
    ensures NewestFirst(t, r)
    ensures multiset(r) == multiset(s) + multiset{k}
    ensures r != [] && (r[0] == k || (s != [] && r[0] == s[0]))
  {
    if s == [] then [k]
    else if t[s[0]].createdAt <= t[k].createdAt then
      NewestFirstCons(t, k, s);
      [k] + s
    else
      NewestFirstTail(t, s);
      var rest := InsertByAge(t, s[1..], k);
      assert s == [s[0]] + s[1..];
      NewestFirstCons(t, s[0], rest);
      [s[0]] + rest
  }

  lemma NewestFirstCons(t: AlertMap, k: AlertKey, s: seq<AlertKey>)
    requires k in t && NewestFirst(t, s)
    requires s != [] ==> t[k].createdAt >= t[s[0]].createdAt
    ensures NewestFirst(t, [k] + s)
  {
    var r := [k] + s;
    forall i | 0 < i < |r| ensures t[r[i - 1]].createdAt >= t[r[i]].createdAt {
      if i > 1 {
        assert r[i - 1] == s[i - 2] && r[i] == s[i - 1];
      }
    }
  }

  lemma NewestFirstTail(t: AlertMap, s: seq<AlertKey>)
    requires s != [] && NewestFirst(t, s)
    ensures NewestFirst(t, s[1..])
  {
    forall i | 0 < i < |s[1..]| ensures t[s[1..][i - 1]].createdAt >= t[s[1..][i]].createdAt {
      assert s[1..][i - 1] == s[i] && s[1..][i] == s[i + 1];
    }
  }

  /** The alerts with the given keys, newest first; ties in any order. */
  ghost function ListNewestFirst(t: AlertMap, keys: set<AlertKey>): (r: seq<AlertKey>)
    requires keys <= t.Keys
    ensures NewestFirst(t, r)
    ensures multiset(r) == multiset(keys)
    decreases |keys|
  {
    if keys == {} then []
    else
      var k :| k in keys;
      var rest := ListNewestFirst(t, keys - {k});
      assert multiset(keys - {k}) + multiset{k} == multiset(keys);
      InsertByAge(t, rest, k)
  }

  /** The first n elements of s (a query slice `[:n]`). */
  function Take<T>(s: seq<T>, n: nat): (r: seq<T>)
    ensures |r| == if n < |s| then n else |s|
    ensures r <= s
  {
    if n < |s| then s[..n] else s
  }

  /** Adjacent ordering extends to any two positions of a newest-first listing. */
  lemma {:induction false} NewestFirstOrdered(t: AlertMap, s: seq<AlertKey>, i: nat, j: nat)
    requires NewestFirst(t, s) && i <= j < |s|
    ensures t[s[i]].createdAt >= t[s[j]].createdAt
    decreases j - i
  {
    if i < j {
      NewestFirstOrdered(t, s, i, j - 1);
    }
  }

  /**
   * The first n alerts with the given keys in `-created_at` order: a slice of
   * an ordered queryset. No alert left out is newer than one listed.
   */
  ghost function Newest(t: AlertMap, keys: set<AlertKey>, n: nat): (r: seq<AlertKey>)
    requires keys <= t.Keys
    ensures |r| == if n < |keys| then n else |keys|
    ensures NewestFirst(t, r)
    ensures forall k :: k in r ==> k in keys
    ensures n >= |keys| ==> forall k :: k in keys ==> k in r
    ensures forall k, i :: k in keys && k !in r && 0 <= i < |r| ==> t[k].createdAt <= t[r[i]].createdAt
  {
    var s := ListNewestFirst(t, keys);
    assert |s| == |multiset(s)| == |multiset(keys)| == |keys|;
    forall k ensures k in s <==> k in keys {
      assert k in s <==> k in multiset(s);
    }
    var r := Take(s, n);
    NewestFirstPrefix(t, s, r);
    assert n >= |keys| ==> r == s;
    r
  }

  /** A prefix of a newest-first listing is newest first, and nothing after it is newer. */
  lemma NewestFirstPrefix(t: AlertMap, s: seq<AlertKey>, r: seq<AlertKey>)
    requires NewestFirst(t, s) && r <= s
    ensures NewestFirst(t, r)
    ensures forall k, i :: k in s && k !in r && 0 <= i < |r| ==> t[k].createdAt <= t[r[i]].createdAt
  {
    forall i | 0 < i < |r| ensures t[r[i - 1]].createdAt >= t[r[i]].createdAt {
      assert r[i - 1] == s[i - 1] && r[i] == s[i];
    }
    forall k, i | k in s && k !in r && 0 <= i < |r| ensures t[k].createdAt <= t[r[i]].createdAt {
      var j :| 0 <= j < |s| && s[j] == k;
      assert r[i] == s[i];
      NewestFirstOrdered(t, s, i, j);
    }
  }

  // ---------------------------------------------------------------------
  // The alert table
  // ---------------------------------------------------------------------

  class AlertTable {
    var alerts: AlertMap

    constructor ()
      ensures alerts == map[]
    {
      alerts := map[];
    }

    /**
     * The loop `for product in rows: get_or_create(product, kind)`. Returns
     * the products whose alert was created, in loop order.
     */
    method GetOrCreateEach(rows: seq<Product>, kind: AlertKind, now: Instant) returns (created: seq<Product>)
      modifies this
      ensures alerts == WithAlerts(old(alerts), KeysFor(rows, kind), now)
      ensures |created| == |alerts| - |old(alerts)|
      ensures KeysFor(created, kind) == KeysFor(rows, kind) - old(alerts).Keys
      ensures forall p :: p in created ==> p in rows
      ensures forall p :: p in created ==> AlertKey(p.id, kind) !in old(alerts) && AlertKey(p.id, kind) in alerts
    {
      var start, t := alerts, alerts;
      created := [];
      var i := 0;
      while i < |rows|
        invariant EachInvariant(start, t, created, rows, i, kind, now)
      {
        var key := AlertKey(rows[i].id, kind);
        ghost var t0, created0 := t, created;
        if key !in t {
          t := t[key := Alert(false, now)];
          created := created + [rows[i]];
        }
        EachStep(start, t0, created0, rows, i, kind, now, t, created);
        i := i + 1;
      }
      assert rows[..i] == rows;
      alerts := t;
      assert rows[..i] == rows;
      CreatedKeysNew(created, rows, kind, start);
    }

    /**
     * The alert scan shared by the endpoint, the task and the command:
     * get-or-create an EXPIRING_SOON alert for every product of the expiring
     * query, then an EXPIRED alert for every product of the expired query.
     */
    method Scan(rows: seq<Product>, today: Day, horizon: int, now: Instant)
      returns (createdExpiring: seq<Product>, createdExpired: seq<Product>)
      modifies this
      ensures alerts == Scanned(old(alerts), rows, today, horizon, now)
      ensures |createdExpiring| + |createdExpired| == |alerts| - |old(alerts)|
      ensures forall p :: p in createdExpiring ==> p in rows && InExpiringQuery(p, today, horizon)
      ensures forall p :: p in createdExpired ==> p in rows && InExpiredQuery(p, today)
      ensures forall p :: p in createdExpiring ==>
                AlertKey(p.id, ExpiringSoon) !in old(alerts) && AlertKey(p.id, ExpiringSoon) in alerts
      ensures forall p :: p in createdExpired ==> AlertKey(p.id, Expired) !in old(alerts) && AlertKey(p.id, Expired) in alerts
    {
      var expiring := ExpiringRows(rows, today, horizon);
      var expired := ExpiredRows(rows, today);
      createdExpiring := GetOrCreateEach(expiring, ExpiringSoon, now);
      createdExpired := GetOrCreateEach(expired, Expired, now);
      WithAlertsCompose(old(alerts), KeysFor(expiring, ExpiringSoon), KeysFor(expired, Expired), now);
    }

    /** `mark_read`: the alert with this key becomes read; a missing key is not found. */
    method MarkRead(key: AlertKey) returns (found: bool)
      modifies this
      ensures found == (key in old(alerts))
      ensures found ==> alerts == old(alerts)[key := Alert(true, old(alerts)[key].createdAt)]
      ensures !found ==> alerts == old(alerts)
    {
      found := key in alerts;
      if found {
        alerts := alerts[key := alerts[key].(isRead := true)];
      }
    }

    /** `filter(is_read=False).update(is_read=True)`: returns how many alerts were unread. */
    method MarkAllRead() returns (updated: nat)
      modifies this
      ensures updated == |UnreadKeys(old(alerts))|
      ensures alerts == AllRead(old(alerts))
    {
      updated := |UnreadKeys(alerts)|;
      alerts := AllRead(alerts);
    }

    /** `ExpiryAlert.objects.all().delete()`: returns how many alerts were deleted. */
    method DeleteAll() returns (deleted: nat)
      modifies this
      ensures deleted == |old(alerts)|
      ensures alerts == map[]
    {
      deleted := |alerts|;
      alerts := map[];
    }

    /** `filter(is_read=True, created_at__lt=cutoff).delete()`: returns how many were deleted. */
    method DeleteReadBefore(cutoff: Instant) returns (deleted: nat)
      modifies this
      ensures deleted == |StaleKeys(old(alerts), cutoff)| == |old(alerts)| - |alerts|
      ensures alerts == Swept(old(alerts), cutoff)
    {
      deleted := |StaleKeys(alerts, cutoff)|;
      alerts := Swept(alerts, cutoff);
    }
  }
}
