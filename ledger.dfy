/**
 * The stock ledger: the arithmetic of the four transaction kinds, the
 * per-product history of stock transactions and what chaining and replaying
 * it mean, and the product and transaction tables that the stock update
 * changes together.
 */
module Ledger {
  import opened Base
  import opened Models

  /** The transaction kinds the stock-update request accepts. */
  datatype TxnKind = In | Out | Adjustment | ExpiredRemoval

  /** One row of the stock-transaction table; both stock values are snapshots. */
  datatype StockTransaction = StockTransaction(
    product: ProductId,
    kind: TxnKind,
    quantity: int,
    previousStock: nat,
    newStock: nat,
    reason: string,
    user: UserId,
    createdAt: Instant)

  datatype StockError =
    | ProductNotFound
    | InsufficientStock(available: nat)
    | StockOutOfRange(attempted: int)
    | QuantityOutOfRange(quantity: int)

  /**
   * The stock columns are Django `PositiveIntegerField`s and the quantity
   * column an `IntegerField`: 32-bit integer columns, whose values Django
   * documents as safe from 0 (or -2147483648) up to 2147483647.
   */
  const MaxStoredInt: int := 2147483647
  const MinStoredInt: int := -2147483648

  predicate FitsStock(n: int) {
    0 <= n <= MaxStoredInt
  }

  predicate FitsQuantity(q: int) {
    MinStoredInt <= q <= MaxStoredInt
  }

  /**
   * The stock a transaction kind leaves behind, before any check: IN adds,
   * OUT subtracts, ADJUSTMENT sets the absolute value, and EXPIRED has no
   * branch of its own, so the stock stays as it was.
   */
  function Effect(kind: TxnKind, previous: int, quantity: int): int {
    match kind
    case In => previous + quantity
    case Out => previous - quantity
    case Adjustment => quantity
    case ExpiredRemoval => previous
  }

  /**
   * The new stock of one update, or why it fails: OUT of more than the
   * stock is refused and reports the stock available; a new stock the stock
   * column cannot hold fails the product save; a quantity the quantity
   * column cannot hold fails the transaction insert that follows it.
   */
  function StockAfter(kind: TxnKind, previous: nat, quantity: int): (r: Result<nat, StockError>)
    ensures kind == Out ==> (r == Failure(InsufficientStock(previous)) <==> quantity > previous)
    ensures r.Success? <==> (kind == Out ==> quantity <= previous)
                            && FitsStock(Effect(kind, previous, quantity)) && FitsQuantity(quantity)
    ensures r.Success? ==> r.value == Effect(kind, previous, quantity)
    ensures kind == In && r.Success? ==> r.value == previous + quantity
    ensures kind == Out && r.Success? ==> r.value + quantity == previous
    ensures kind == Adjustment && r.Success? ==> r.value == quantity
    ensures kind == ExpiredRemoval && r.Success? ==> r.value == previous
    ensures r == Failure(StockOutOfRange(Effect(kind, previous, quantity))) <==>
              (kind == Out ==> quantity <= previous) && !FitsStock(Effect(kind, previous, quantity))
    ensures r.Failure? && r.error.QuantityOutOfRange? ==> r.error.quantity == quantity && !FitsQuantity(quantity)
  {
    if kind == Out && previous < quantity then Failure(InsufficientStock(previous))
    else
      var n := Effect(kind, previous, quantity);
      if !FitsStock(n) then Failure(StockOutOfRange(n))
      else if !FitsQuantity(quantity) then Failure(QuantityOutOfRange(quantity))
      else Success(n)
  }

  /**
   * Only EXPIRED, which leaves the stock as it was, can reach the quantity
   * check: for every other kind an unstorable quantity already makes the new
   * stock unstorable or exceed the stock.
   */
  lemma QuantityCheckOnlyForExpired(kind: TxnKind, previous: nat, quantity: int)
    requires previous <= MaxStoredInt
    requires StockAfter(kind, previous, quantity).Failure?
    requires StockAfter(kind, previous, quantity).error.QuantityOutOfRange?
    ensures kind == ExpiredRemoval
  {
  }

  /** IN followed by OUT of the same quantity restores the stock. */
  lemma InThenOutRestores(previous: nat, quantity: int)
    requires previous <= MaxStoredInt
    requires StockAfter(In, previous, quantity).Success?
    ensures StockAfter(Out, StockAfter(In, previous, quantity).value, quantity) == Success(previous)
  {
  }

  /** OUT followed by IN of the same quantity restores the stock. */
  lemma OutThenInRestores(previous: nat, quantity: int)
    requires previous <= MaxStoredInt
    requires StockAfter(Out, previous, quantity).Success?
    ensures StockAfter(In, StockAfter(Out, previous, quantity).value, quantity) == Success(previous)
  {
  }

  /** ADJUSTMENT does not depend on the stock before it, so repeating it changes nothing. */
  lemma AdjustmentIsAbsolute(previous1: nat, previous2: nat, quantity: int)
    ensures StockAfter(Adjustment, previous1, quantity) == StockAfter(Adjustment, previous2, quantity)
  {
  }

  // ---------------------------------------------------------------------
  // Per-product history
  // ---------------------------------------------------------------------

  /** The transactions of one product, in creation order. */
  function History(txns: seq<StockTransaction>, pid: ProductId): (h: seq<StockTransaction>)
    ensures |h| <= |txns|
    ensures forall t :: t in h ==> t in txns && t.product == pid
    ensures forall t :: t in txns && t.product == pid ==> t in h
  {
    if txns == [] then []
    else
      var init, x := txns[..|txns| - 1], txns[|txns| - 1];
      assert txns == init + [x];
      History(init, pid) + (if x.product == pid then [x] else [])
  }

  lemma HistoryAppend(txns: seq<StockTransaction>, x: StockTransaction, pid: ProductId)
    ensures History(txns + [x], pid) == History(txns, pid) + (if x.product == pid then [x] else [])
  {
    assert (txns + [x])[..|txns + [x]| - 1] == txns;
  }

  /** Each transaction of the history starts from the stock the previous one left. */
  ghost predicate ChainedHistory(h: seq<StockTransaction>) {
    forall i :: 0 < i < |h| ==> h[i].previousStock == h[i - 1].newStock
  }

  ghost predicate Chained(txns: seq<StockTransaction>) {
    forall pid :: ChainedHistory(History(txns, pid))
  }

  /** The recorded new stock is what the kind makes of the recorded previous stock. */
  predicate WellFormed(t: StockTransaction) {
    t.newStock == Effect(t.kind, t.previousStock, t.quantity)
  }

  /**
   * The two tables agree: every transaction belongs to a product and is well
   * formed, histories chain, and the last transaction of each product ends
   * at the product's current stock.
   */
  ghost predicate LedgerConsistent(products: map<ProductId, Product>, txns: seq<StockTransaction>) {
    && RecordsKnown(products, txns)
    && Chained(txns)
    && EndsAtStock(products, txns)
  }

  ghost predicate RecordsKnown(products: map<ProductId, Product>, txns: seq<StockTransaction>) {
    forall t :: t in txns ==> t.product in products && WellFormed(t)
  }

  /** The new stock of a product's last transaction, if it has one. */
  function LastStock(txns: seq<StockTransaction>, id: ProductId): Option<nat> {
    var h := History(txns, id);
    if h == [] then None else Some(h[|h| - 1].newStock)
  }

  ghost predicate EndsAtStock(products: map<ProductId, Product>, txns: seq<StockTransaction>) {
    forall id :: id in products && LastStock(txns, id).Some? ==> LastStock(txns, id).value == products[id].currentStock
  }

  /** Appending a transaction that starts where its product's history ends keeps the ledger chained. */
  lemma AppendKeepsChained(txns: seq<StockTransaction>, x: StockTransaction)
    requires Chained(txns)
    requires LastStock(txns, x.product).Some? ==> LastStock(txns, x.product).value == x.previousStock
    ensures Chained(txns + [x])
  {
    forall pid ensures ChainedHistory(History(txns + [x], pid)) {
      HistoryAppend(txns, x, pid);
      var h := History(txns, pid);
      assert ChainedHistory(h);
      if x.product == pid {
        ChainedSnoc(h, x);
      }
    }
  }

  /** A transaction starting where a chained history ends extends it. */
  lemma ChainedSnoc(h: seq<StockTransaction>, x: StockTransaction)
    requires ChainedHistory(h)
    requires h != [] ==> x.previousStock == h[|h| - 1].newStock
    ensures ChainedHistory(h + [x])
  {
    var hx := h + [x];
    forall i | 0 < i < |hx| ensures hx[i].previousStock == hx[i - 1].newStock {
      if i < |h| {
        assert hx[i] == h[i] && hx[i - 1] == h[i - 1];
      }
    }
  }

  /** Dropping the newest transaction keeps the ledger chained. */
  lemma ChainedInit(txns: seq<StockTransaction>)
    requires txns != [] && Chained(txns)
    ensures Chained(txns[..|txns| - 1])
  {
    var init, x := txns[..|txns| - 1], txns[|txns| - 1];
    assert txns == init + [x];
    forall pid ensures ChainedHistory(History(init, pid)) {
      HistoryAppend(init, x, pid);
      var h, hx := History(init, pid), History(txns, pid);
      assert ChainedHistory(hx);
      forall i | 0 < i < |h| ensures h[i].previousStock == h[i - 1].newStock {
        assert hx[i] == h[i] && hx[i - 1] == h[i - 1];
      }
    }
  }

  /** The last transaction of a product is the last one in the ledger that names it. */
  lemma {:induction false} LastOfHistory(txns: seq<StockTransaction>, i: nat)
    requires i < |txns|
    requires forall k :: i < k < |txns| ==> txns[k].product != txns[i].product
    ensures var h := History(txns, txns[i].product); h != [] && h[|h| - 1] == txns[i]
  {
    var init, x := txns[..|txns| - 1], txns[|txns| - 1];
    var pid := txns[i].product;
    assert History(txns, pid) == History(init, pid) + (if x.product == pid then [x] else []);
    if i < |txns| - 1 {
      assert init[i] == txns[i];
      assert forall k :: i < k < |init| ==> init[k] == txns[k];
      LastOfHistory(init, i);
    }
  }

  /**
   * The ledger chains: when transactions i < j name the same product and no
   * transaction between them does, j starts from the stock i left.
   */
  lemma {:induction false} ChainedConsecutive(txns: seq<StockTransaction>, i: nat, j: nat)
    requires Chained(txns)
    requires i < j < |txns| && txns[i].product == txns[j].product
    requires forall k :: i < k < j ==> txns[k].product != txns[i].product
    ensures txns[j].previousStock == txns[i].newStock
  {
    var init, x := txns[..|txns| - 1], txns[|txns| - 1];
    assert txns == init + [x];
    if j == |txns| - 1 {
      var pid := x.product;
      HistoryAppend(init, x, pid);
      assert init[i] == txns[i];
      LastOfHistory(init, i);
      var h, hx := History(init, pid), History(txns, pid);
      assert hx == h + [x];
      assert ChainedHistory(hx);
      assert hx[|hx| - 1] == x && hx[|hx| - 2] == h[|h| - 1] == txns[i];
    } else {
      ChainedInit(txns);
      ChainedConsecutive(init, i, j);
    }
  }

  // ---------------------------------------------------------------------
  // Replay
  // ---------------------------------------------------------------------

  /** The stock obtained by applying a history's transactions, in order, to s. */
  function Replay(h: seq<StockTransaction>, s: int): int {
    if h == [] then s
    else
      var t := h[|h| - 1];
      Effect(t.kind, Replay(h[..|h| - 1], s), t.quantity)
  }

  /** Replaying a chained, well-formed history from its first snapshot ends at its last one. */
  lemma {:induction false} ReplayReproduces(h: seq<StockTransaction>)
    requires h != [] && ChainedHistory(h)
    requires forall t :: t in h ==> WellFormed(t)
    ensures Replay(h, h[0].previousStock) == h[|h| - 1].newStock
  {
    var init, t := h[..|h| - 1], h[|h| - 1];
    if init == [] {
      assert h[0] == t && t in h;
      assert Replay(h, h[0].previousStock) == Effect(t.kind, Replay([], h[0].previousStock), t.quantity);
    } else {
      assert forall u :: u in init ==> u in h;
      assert ChainedHistory(init) by {
        forall i | 0 < i < |init| ensures init[i].previousStock == init[i - 1].newStock {
          assert init[i] == h[i] && init[i - 1] == h[i - 1];
        }
      }
      ReplayReproduces(init);
      assert init[0] == h[0] && init[|init| - 1] == h[|h| - 2];
      assert t.previousStock == init[|init| - 1].newStock;
      assert t in h && WellFormed(t);
      assert Replay(h, h[0].previousStock) == Effect(t.kind, Replay(init, h[0].previousStock), t.quantity);
    }
  }

  /** In a consistent ledger, a product's current stock is the replay of its history. */
  lemma StockIsReplayOfHistory(products: map<ProductId, Product>, txns: seq<StockTransaction>, id: ProductId)
    requires LedgerConsistent(products, txns)
    requires id in products && History(txns, id) != []
    ensures var h := History(txns, id); products[id].currentStock == Replay(h, h[0].previousStock)
  {
    var h := History(txns, id);
    assert ChainedHistory(h);
    assert LastStock(txns, id).Some?;
    ReplayReproduces(h);
  }

  // ---------------------------------------------------------------------
  // The product and stock-transaction tables
  // ---------------------------------------------------------------------

  /** The three stock columns of a row hold its values. */
  predicate Storable(p: Product) {
    FitsStock(p.currentStock) && FitsStock(p.minimumStock) && FitsStock(p.maximumStock)
  }

  /**
   * Rows are keyed by their id, were saved, and fit their columns; SKU and
   * barcode are unique columns.
   */
  ghost predicate ProductTableValid(products: map<ProductId, Product>) {
    && (forall id :: id in products ==> products[id].id == id && products[id].barcode != [] && Storable(products[id]))
    && (forall a, b :: a in products && b in products && a != b ==>
          products[a].sku != products[b].sku && products[a].barcode != products[b].barcode)
  }

  /** The unique columns admit row q next to the other rows. */
  predicate NoClash(products: map<ProductId, Product>, q: Product) {
    forall id :: id in products && id != q.id ==> products[id].sku != q.sku && products[id].barcode != q.barcode
  }

  /** Writing a saved row that clashes with no other row keeps the table valid. */
  lemma WriteKeepsTableValid(products: map<ProductId, Product>, q: Product)
    requires ProductTableValid(products) && NoClash(products, q) && q.barcode != [] && Storable(q)
    ensures ProductTableValid(products[q.id := q])
  {
  }

  /**
   * Writing a product row without changing the stock of an existing product
   * keeps the ledger consistent; a new product has no history yet.
   */
  lemma WriteKeepsLedger(products: map<ProductId, Product>, txns: seq<StockTransaction>, q: Product)
    requires LedgerConsistent(products, txns)
    requires q.id in products ==> q.currentStock == products[q.id].currentStock
    ensures LedgerConsistent(products[q.id := q], txns)
  {
    var ps := products[q.id := q];
    assert RecordsKnown(ps, txns);
    assert EndsAtStock(ps, txns);
  }

  /** Recording a well-formed update that starts at the product's stock keeps the ledger consistent. */
  lemma RecordKeepsLedger(products: map<ProductId, Product>, txns: seq<StockTransaction>, q: Product, t: StockTransaction)
    requires LedgerConsistent(products, txns)
    requires q.id in products && t.product == q.id && WellFormed(t)
    requires t.previousStock == products[q.id].currentStock && t.newStock == q.currentStock
    ensures LedgerConsistent(products[q.id := q], txns + [t])
  {
    AppendKeepsChained(txns, t);
    RecordEndsAtStock(products, txns, q, t);
    RecordKnown(products, txns, q, t);
  }

  lemma RecordEndsAtStock(products: map<ProductId, Product>, txns: seq<StockTransaction>, q: Product, t: StockTransaction)
    requires EndsAtStock(products, txns)
    requires q.id in products && t.product == q.id && t.newStock == q.currentStock
    ensures EndsAtStock(products[q.id := q], txns + [t])
  {
    var ps, txns' := products[q.id := q], txns + [t];
    forall id | id in ps && LastStock(txns', id).Some?
      ensures LastStock(txns', id).value == ps[id].currentStock
    {
      HistoryAppend(txns, t, id);
      if id != q.id {
        assert LastStock(txns', id) == LastStock(txns, id);
      }
    }
  }

  lemma RecordKnown(products: map<ProductId, Product>, txns: seq<StockTransaction>, q: Product, t: StockTransaction)
    requires RecordsKnown(products, txns)
    requires q.id in products && t.product == q.id && WellFormed(t)
    ensures RecordsKnown(products[q.id := q], txns + [t])
  {
    var ps, txns' := products[q.id := q], txns + [t];
    forall u | u in txns' ensures u.product in ps && WellFormed(u) {
      if u != t {
        assert u in txns;
      }
    }
  }

  /**
   * The answer of a stock update against the product table `products`: the
   * listed product with its new stock, or why there is none.
   */
  function UpdateOutcome(products: map<ProductId, Product>, id: ProductId, kind: TxnKind, quantity: int)
    : (r: Result<Product, StockError>)
    ensures r == Failure(ProductNotFound) <==> !(id in products && Listed(products[id]))
    ensures r.Success? ==> id in products && r.value == products[id].(currentStock := r.value.currentStock)
    ensures r.Success? ==> StockAfter(kind, products[id].currentStock, quantity) == Success(r.value.currentStock)
    ensures r.Failure? && r.error != ProductNotFound ==>
              StockAfter(kind, products[id].currentStock, quantity) == Failure(r.error)
  {
    if id !in products || !Listed(products[id]) then Failure(ProductNotFound)
    else
      match StockAfter(kind, products[id].currentStock, quantity)
      case Success(s) => Success(products[id].(currentStock := s))
      case Failure(e) => Failure(e)
  }

  class Inventory {
    var products: map<ProductId, Product>
    var transactions: seq<StockTransaction>

    ghost predicate Valid()
      reads this
    {
      ProductTableValid(products)
    }

    ghost predicate Ledgered()
      reads this
    {
      LedgerConsistent(products, transactions)
    }

    constructor ()
      ensures Valid() && Ledgered()
      ensures products == map[] && transactions == []
    {
      products := map[];
      transactions := [];
    }

    /**
     * Product.save: fill in the barcode, then write the row; the write fails
     * when another product already has the SKU or the barcode, or when a
     * stock level does not fit its column.
     */
    method Save(p: Product) returns (ok: bool)
      requires Valid()
      modifies this
      ensures Valid()
      ensures transactions == old(transactions)
      ensures ok == (NoClash(old(products), Saved(p)) && Storable(p))
      ensures ok ==> products == old(products)[p.id := Saved(p)]
      ensures !ok ==> products == old(products)
      ensures (old(Ledgered()) && (p.id in old(products) ==> p.currentStock == old(products)[p.id].currentStock))
                ==> Ledgered()
    {
      var q := Saved(p);
      ok := Storable(p) && forall id | id in products && id != q.id :: products[id].sku != q.sku && products[id].barcode != q.barcode;
      if ok {
        WriteKeepsTableValid(products, q);
        if Ledgered() && (p.id in products ==> p.currentStock == products[p.id].currentStock) {
          WriteKeepsLedger(products, transactions, q);
        }
        products := products[p.id := q];
      }
    }

    /**
     * The stock-update protocol shared by the stock endpoint and the stock
     * task: look up the listed product, compute the new stock from the kind,
     * save the product, then append one transaction holding the stock before
     * and after. A failed update changes neither table.
     */
    method UpdateStock(id: ProductId, kind: TxnKind, quantity: int, reason: string, user: UserId, now: Instant)
      returns (r: Result<Product, StockError>)
      requires Valid()
      modifies this
      ensures Valid()
      ensures old(Ledgered()) ==> Ledgered()
      ensures r == UpdateOutcome(old(products), id, kind, quantity)
      ensures !(id in old(products) && Listed(old(products)[id])) ==> r == Failure(ProductNotFound)
      ensures id in old(products) && Listed(old(products)[id]) ==>
                var p := old(products)[id];
                var s := StockAfter(kind, p.currentStock, quantity);
                && (s.Failure? ==> r == Failure(s.error))
                && (s.Success? ==> r == Success(p.(currentStock := s.value)))
      ensures r.Failure? ==> products == old(products) && transactions == old(transactions)
      ensures r.Success? ==> products == old(products)[id := r.value]
      ensures r.Success? ==>
                transactions == old(transactions) + [StockTransaction(id, kind, quantity,
                  old(products)[id].currentStock, r.value.currentStock, reason, user, now)]
    {
      if id !in products || !Listed(products[id]) {
        return Failure(ProductNotFound);
      }
      var p := products[id];
      var previousStock := p.currentStock;
      var s := StockAfter(kind, previousStock, quantity);
      if s.Failure? {
        return Failure(s.error);
      }
      var q := Saved(p.(currentStock := s.value));
      assert q == p.(currentStock := s.value);
      var t := StockTransaction(id, kind, quantity, previousStock, q.currentStock, reason, user, now);
      assert NoClash(products, q);
      WriteKeepsTableValid(products, q);
      if Ledgered() {
        RecordKeepsLedger(products, transactions, q, t);
      }
      products := products[id := q];
      transactions := transactions + [t];
      r := Success(q);
    }
  }
}
