/**
 * The product record of the inventory and the classifications derived from it:
 * the barcode Product.save fills in, expiry status relative to a given day,
 * and stock status relative to the minimum and maximum stock levels.
 */
module Models {
  import opened Base

  /** One row of the product table. Money is in cents; dates are day numbers. */
  datatype Product = Product(
    id: ProductId,
    sku: string,
    barcode: string,
    isHalal: bool,
    isActive: bool,
    price: nat,
    costPrice: nat,
    currentStock: nat,
    minimumStock: nat,
    maximumStock: nat,
    manufacturingDate: Option<Day>,
    expiryDate: Option<Day>)

  /** Every query of the stock and alert logic only sees certified, active products. */
  predicate Listed(p: Product) {
    p.isHalal && p.isActive
  }

  const BarcodePrefix: string := "HALAL"

  /**
   * The barcode that Product.save stores: a blank barcode is replaced by the
   * prefix followed by the SKU, any other barcode is kept.
   */
  function SavedBarcode(barcode: string, sku: string): (r: string)
    ensures barcode != [] ==> r == barcode
    ensures barcode == [] ==> |r| == |BarcodePrefix| + |sku|
    ensures barcode == [] ==> r[..|BarcodePrefix|] == BarcodePrefix && r[|BarcodePrefix|..] == sku
    ensures r != []
  {
    if barcode == [] then BarcodePrefix + sku else barcode
  }

  /** The row Product.save writes for the snapshot p. */
  function Saved(p: Product): (q: Product)
    ensures q.barcode != []
    ensures q.barcode == SavedBarcode(p.barcode, p.sku)
    ensures q.(barcode := p.barcode) == p
  {
    p.(barcode := SavedBarcode(p.barcode, p.sku))
  }

  /** Saving a row that was already saved leaves it as it is. */
  lemma SaveIdempotent(p: Product)
    ensures Saved(Saved(p)) == Saved(p)
  {
  }

  /** Two SKUs give the same derived barcode only when they are equal. */
  lemma DerivedBarcodeInjective(sku1: string, sku2: string)
    ensures SavedBarcode([], sku1) == SavedBarcode([], sku2) ==> sku1 == sku2
  {
    var b1, b2 := SavedBarcode([], sku1), SavedBarcode([], sku2);
    if b1 == b2 {
      assert sku1 == b1[|BarcodePrefix|..] == b2[|BarcodePrefix|..] == sku2;
    }
  }

  // ---------------------------------------------------------------------
  // Expiry classification (the product's properties, evaluated on `today`)
  // ---------------------------------------------------------------------

  /** Fixed look-ahead of is_expiring_soon. */
  const ExpiringSoonDays: int := 30

  /** Expired: there is an expiry date and it lies before today. */
  predicate IsExpired(p: Product, today: Day) {
    p.expiryDate.Some? && p.expiryDate.value < today
  }

  /** Expiring soon: expiry at most thirty days ahead and not already expired. */
  predicate IsExpiringSoon(p: Product, today: Day)
    ensures IsExpiringSoon(p, today) <==>
              p.expiryDate.Some? && today <= p.expiryDate.value <= today + ExpiringSoonDays
  {
    p.expiryDate.Some? && p.expiryDate.value <= today + ExpiringSoonDays && !IsExpired(p, today)
  }

  /** Signed number of days from today to the expiry date, absent without one. */
  function DaysUntilExpiry(p: Product, today: Day): (d: Option<int>)
    ensures d.None? <==> p.expiryDate.None?
    ensures d.Some? ==> p.expiryDate.value == today + d.value
    ensures d.Some? ==> (d.value < 0 <==> IsExpired(p, today))
    ensures d.Some? ==> (0 <= d.value <= ExpiringSoonDays <==> IsExpiringSoon(p, today))
  {
    match p.expiryDate
    case None => None
    case Some(e) => Some(e - today)
  }

  /**
   * Expiry only moves one way: a product expired on some day is expired on
   * every later day, and one not expired today was not expired before.
   */
  lemma ExpiredStaysExpired(p: Product, today: Day, later: Day)
    requires today <= later
    ensures IsExpired(p, today) ==> IsExpired(p, later)
    ensures IsExpired(p, later) && !IsExpired(p, today) ==> today <= p.expiryDate.value < later
  {
  }

  /** A product is in at most one of the two expiry classes; without a date, in neither. */
  lemma ExpiryClassesExclusive(p: Product, today: Day)
    ensures !(IsExpired(p, today) && IsExpiringSoon(p, today))
    ensures p.expiryDate.None? ==> !IsExpired(p, today) && !IsExpiringSoon(p, today)
    ensures p.expiryDate == Some(today) ==> IsExpiringSoon(p, today)
  {
  }

  // ---------------------------------------------------------------------
  // Stock classification
  // ---------------------------------------------------------------------

  /** Low stock: at or below the minimum level. */
  predicate IsLowStock(p: Product) {
    p.currentStock <= p.minimumStock
  }

  datatype StockStatus = OutOfStock | LowStock | Overstock | Normal

  /**
   * The low-stock flag and the stock status agree: a product is low on stock
   * exactly when its status is out of stock or low stock.
   */
  lemma LowStockIsStatus(p: Product)
    ensures IsLowStock(p) <==> StockStatusOf(p) == OutOfStock || StockStatusOf(p) == LowStock
  {
  }

  /**
   * Stock status, decided in the order: zero stock, low stock, at or above
   * the maximum, otherwise normal.
   */
  function StockStatusOf(p: Product): (s: StockStatus)
    ensures s == OutOfStock <==> p.currentStock == 0
    ensures s == LowStock <==> 0 < p.currentStock <= p.minimumStock
    ensures s == Overstock <==> p.minimumStock < p.currentStock && p.maximumStock <= p.currentStock
    ensures s == Normal <==> p.minimumStock < p.currentStock < p.maximumStock
  {
    if p.currentStock == 0 then OutOfStock
    else if IsLowStock(p) then LowStock
    else if p.currentStock >= p.maximumStock then Overstock
    else Normal
  }
}
