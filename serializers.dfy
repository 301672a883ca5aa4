/**
 * The request validators: each accepts its input unchanged or rejects it
 * with the first check that fails, in the order the checks are written.
 * Field-level parsing (types, lengths, choices) happens before these run
 * and is reflected in the types of the inputs.
 */
module Serializers {
  import opened Base

  // ---------------------------------------------------------------------
  // ProductSerializer.validate
  // ---------------------------------------------------------------------

  /** The fields of a product request that validation looks at; absent ones are None. */
  datatype ProductInput = ProductInput(
    isHalal: Option<bool>,
    minimumStock: Option<nat>,
    maximumStock: Option<nat>,
    manufacturingDate: Option<Day>,
    expiryDate: Option<Day>)

  datatype ProductRejection = NotHalal | MinimumAboveMaximum | ManufacturedAfterExpiry

  /** Defaults the checks use for an absent minimum and maximum. */
  const DefaultMinimumStock: nat := 0
  const DefaultMaximumStock: nat := 1000

  /** The three conditions on an acceptable product request. */
  predicate AcceptableProduct(d: ProductInput) {
    && d.isHalal == Some(true)
    && d.minimumStock.GetOr(DefaultMinimumStock) <= d.maximumStock.GetOr(DefaultMaximumStock)
    && (d.manufacturingDate.Some? && d.expiryDate.Some? ==> d.manufacturingDate.value < d.expiryDate.value)
  }

  /**
   * Halal first, then the stock levels, then the dates; an accepted request
   * comes back unchanged.
   */
  function ValidateProduct(d: ProductInput): (r: Result<ProductInput, ProductRejection>)
    ensures r.Success? <==> AcceptableProduct(d)
    ensures r.Success? ==> r.value == d
    ensures r == Failure(NotHalal) <==> d.isHalal != Some(true)
    ensures r == Failure(ManufacturedAfterExpiry) ==>
              && d.isHalal == Some(true)
              && d.minimumStock.GetOr(DefaultMinimumStock) <= d.maximumStock.GetOr(DefaultMaximumStock)
              && d.manufacturingDate.Some? && d.expiryDate.Some? && d.manufacturingDate.value >= d.expiryDate.value
    ensures r == Failure(MinimumAboveMaximum) <==>
              d.isHalal == Some(true) && d.minimumStock.GetOr(DefaultMinimumStock) > d.maximumStock.GetOr(DefaultMaximumStock)
  {
    if d.isHalal != Some(true) then Failure(NotHalal)
    else if d.minimumStock.GetOr(DefaultMinimumStock) > d.maximumStock.GetOr(DefaultMaximumStock) then
      Failure(MinimumAboveMaximum)
    else if d.manufacturingDate.Some? && d.expiryDate.Some? && d.manufacturingDate.value >= d.expiryDate.value then
      Failure(ManufacturedAfterExpiry)
    else Success(d)
  }

  /**
   * The defaults: a request missing either date is never rejected for its
   * dates, one without a minimum never for its stock levels, and one without
   * a maximum is rejected for them exactly when its minimum exceeds 1000.
   */
  lemma ProductDefaults(d: ProductInput)
    requires d.isHalal == Some(true)
    ensures d.manufacturingDate.None? || d.expiryDate.None? ==> ValidateProduct(d) != Failure(ManufacturedAfterExpiry)
    ensures d.minimumStock.None? ==> ValidateProduct(d) != Failure(MinimumAboveMaximum)
    ensures d.minimumStock.Some? && d.maximumStock.None? ==>
              (ValidateProduct(d) == Failure(MinimumAboveMaximum) <==> d.minimumStock.value > 1000)
  {
  }

  // ---------------------------------------------------------------------
  // Import target checks (Excel, image and bulk imports)
  // ---------------------------------------------------------------------

  datatype StoreKind = Supermarket | Substore

  /** Python truth of an optional integer: None and 0 are false. */
  predicate Truthy(v: Option<int>) {
    v.Some? && v.value != 0
  }

  /**
   * An import into a substore needs a truthy substore id; an import into the
   * supermarket needs none.
   */
  function ValidateImportTarget(target: StoreKind, substoreId: Option<int>): (ok: bool)
    ensures ok <==> target == Supermarket || (substoreId.Some? && substoreId.value != 0)
  {
    !(target == Substore && !Truthy(substoreId))
  }

  // ---------------------------------------------------------------------
  // ProductMultiStoreCreateSerializer
  // ---------------------------------------------------------------------

  /** A request dictionary value; only what the checks compare is kept. */
  datatype Value = Text(s: string) | Number(n: int) | Other

  type Dict = map<string, Value>

  const RequiredProductFields: seq<string> := ["name", "category", "supplier", "sku", "price", "cost_price"]

  /** The first of `fields` missing from the dictionary's keys, if any. */
  function FirstMissing(fields: seq<string>, keys: set<string>): (m: Option<string>)
    ensures m.None? <==> forall f :: f in fields ==> f in keys
    ensures m.Some? ==> m.value in fields && m.value !in keys
    ensures m.Some? ==> exists i :: 0 <= i < |fields| && fields[i] == m.value && forall j :: 0 <= j < i ==> fields[j] in keys
  {
    if fields == [] then None
    else if fields[0] !in keys then Some(fields[0])
    else
      var m := FirstMissing(fields[1..], keys);
      assert forall f :: f in fields ==> f == fields[0] || f in fields[1..];
      if m.Some? then
        var i :| 0 <= i < |fields[1..]| && fields[1..][i] == m.value && forall j :: 0 <= j < i ==> fields[1..][j] in keys;
        assert fields[i + 1] == m.value && forall j :: 0 <= j < i + 1 ==> fields[j] in keys;
        m
      else m
  }

  /** validate_product_data: the error names the first required field that is missing. */
  function ValidateProductData(value: Dict): (r: Result<Dict, string>)
    ensures r.Success? <==> forall f :: f in RequiredProductFields ==> f in value
    ensures r.Success? ==> r.value == value
    ensures r.Failure? ==> r.error in RequiredProductFields && r.error !in value
  {
    match FirstMissing(RequiredProductFields, value.Keys)
    case None => Success(value)
    case Some(f) => Failure(f)
  }

  datatype StoreRejection = MissingTypeOrId | UnknownStoreType

  /** One target store: a `type` and an `id`, the type naming a known kind of store. */
  predicate WellFormedStore(store: Dict) {
    "type" in store && "id" in store && store["type"] in [Text("supermarket"), Text("substore")]
  }

  /** validate_target_stores: the first bad store decides the error; an empty list passes. */
  function ValidateTargetStores(stores: seq<Dict>): (r: Result<seq<Dict>, StoreRejection>)
    ensures r.Success? <==> forall i :: 0 <= i < |stores| ==> WellFormedStore(stores[i])
    ensures r.Success? ==> r.value == stores
    ensures r == Failure(MissingTypeOrId) ==> exists i :: 0 <= i < |stores| && !("type" in stores[i] && "id" in stores[i])
  {
    if stores == [] then Success(stores)
    else
      var s := stores[0];
      if "type" !in s || "id" !in s then Failure(MissingTypeOrId)
      else if s["type"] !in [Text("supermarket"), Text("substore")] then Failure(UnknownStoreType)
      else
        var rest := ValidateTargetStores(stores[1..]);
        assert forall i :: 1 <= i < |stores| ==> stores[i] == stores[1..][i - 1];
        if rest.Success? then Success(stores)
        else
          assert rest.error == MissingTypeOrId ==>
            exists i :: 1 <= i < |stores| && !("type" in stores[i] && "id" in stores[i]) by {
            if rest.error == MissingTypeOrId {
              var i :| 0 <= i < |stores[1..]| && !("type" in stores[1..][i] && "id" in stores[1..][i]);
              assert stores[i + 1] == stores[1..][i];
            }
          }
          rest
  }

  /**
   * The multi-store and enhanced import `validate`: a request must either
   * ask for every store or name at least one target store.
   */
  function ValidateStoreChoice(addToAllStores: bool, targetStores: Option<seq<Dict>>): (ok: bool)
    ensures ok <==> addToAllStores || (targetStores.Some? && targetStores.value != [])
  {
    addToAllStores || (targetStores.Some? && |targetStores.value| > 0)
  }

  /** A ProductMultiStoreCreateSerializer request; an absent `add_to_all_stores` is false. */
  datatype MultiStoreRequest = MultiStoreRequest(
    productData: Dict,
    targetStores: Option<seq<Dict>>,
    addToAllStores: bool)

  /**
   * Field errors are collected per field, and `validate` runs only when no
   * field has one.
   */
  datatype MultiStoreRejection =
    | FieldErrors(productData: Option<string>, targetStores: Option<StoreRejection>)
    | NoTargetStore

  /**
   * The whole multi-store request: each field's validator (the target-store
   * one only when the field is present), then `validate` on the cleaned data.
   */
  function ValidateMultiStore(req: MultiStoreRequest): (r: Result<MultiStoreRequest, MultiStoreRejection>)
    ensures r.Success? <==>
              && (forall f :: f in RequiredProductFields ==> f in req.productData)
              && (req.targetStores.Some? ==>
                    forall i :: 0 <= i < |req.targetStores.value| ==> WellFormedStore(req.targetStores.value[i]))
              && (req.addToAllStores || (req.targetStores.Some? && req.targetStores.value != []))
    ensures r.Success? ==> r.value == req
    ensures r.Failure? && r.error.FieldErrors? ==>
              && (r.error.productData.Some? <==> ValidateProductData(req.productData).Failure?)
              && (r.error.targetStores.Some? <==>
                    req.targetStores.Some? && ValidateTargetStores(req.targetStores.value).Failure?)
    ensures r == Failure(NoTargetStore) ==>
              && ValidateProductData(req.productData).Success?
              && (req.targetStores.Some? ==> ValidateTargetStores(req.targetStores.value).Success?)
              && !ValidateStoreChoice(req.addToAllStores, req.targetStores)
  {
    var data := ValidateProductData(req.productData);
    var stores := if req.targetStores.Some? then ValidateTargetStores(req.targetStores.value) else Success([]);
    if data.Failure? || stores.Failure? then
      Failure(FieldErrors(if data.Failure? then Some(data.error) else None,
                          if stores.Failure? then Some(stores.error) else None))
    else if !ValidateStoreChoice(req.addToAllStores, req.targetStores) then Failure(NoTargetStore)
    else Success(req)
  }

  /**
   * What acceptance guarantees the view: the product data names every
   * required field, and the product goes to every store or to at least one
   * well-formed target store.
   */
  lemma AcceptedMultiStoreHasDestination(req: MultiStoreRequest)
    requires ValidateMultiStore(req).Success?
    ensures forall f :: f in RequiredProductFields ==> f in req.productData
    ensures !req.addToAllStores ==>
              req.targetStores.Some? && exists i :: 0 <= i < |req.targetStores.value| && WellFormedStore(req.targetStores.value[i])
  {
    if !req.addToAllStores {
      assert WellFormedStore(req.targetStores.value[0]);
    }
  }

  /** The single target of an import, written as an entry of a target-store list. */
  function StoreEntry(target: StoreKind, substoreId: Option<int>): Dict {
    map["type" := Text(if target == Supermarket then "supermarket" else "substore"),
        "id" := if substoreId.Some? then Number(substoreId.value) else Other]
  }

  /**
   * The single-target import check against the target-store list check. The
   * list check accepts every target written as a one-entry list, so a
   * multi-store request with complete product data and that list goes
   * through whatever the target; the import check accepts a strict subset of
   * these, refusing a substore whose id is 0 or null.
   */
  lemma ImportTargetAgainstStoreList(target: StoreKind, substoreId: Option<int>, productData: Dict)
    requires forall f :: f in RequiredProductFields ==> f in productData
    ensures var stores := [StoreEntry(target, substoreId)];
      && ValidateTargetStores(stores) == Success(stores)
      && ValidateMultiStore(MultiStoreRequest(productData, Some(stores), false)).Success?
    ensures !ValidateImportTarget(Substore, Some(0)) && !ValidateImportTarget(Substore, None)
    ensures ValidateImportTarget(target, substoreId) ==> target == Supermarket || substoreId.Some?
  {
    var stores := [StoreEntry(target, substoreId)];
    assert WellFormedStore(stores[0]);
  }

  // ---------------------------------------------------------------------
  // Point-of-sale payloads
  // ---------------------------------------------------------------------

  const UpdateFields: seq<string> := ["product_id", "new_stock"]
  const SaleFields: seq<string> := ["product_id", "quantity_sold"]

  /**
   * Every item must have all the fields; the error names the first field
   * missing from the first item that lacks one, and one bad item rejects the
   * whole list.
   */
  function ValidateItems(items: seq<Dict>, fields: seq<string>): (r: Result<seq<Dict>, string>)
    ensures r.Success? <==> forall i, f :: 0 <= i < |items| && f in fields ==> f in items[i]
    ensures r.Success? ==> r.value == items
    ensures r.Failure? ==> r.error in fields && exists i :: 0 <= i < |items| && r.error !in items[i]
  {
    if items == [] then Success(items)
    else
      match FirstMissing(fields, items[0].Keys)
      case Some(f) => Failure(f)
      case None =>
        var rest := ValidateItems(items[1..], fields);
        assert forall i :: 1 <= i < |items| ==> items[i] == items[1..][i - 1];
        if rest.Success? then Success(items)
        else
          assert exists i :: 1 <= i < |items| && rest.error !in items[i] by {
            var i :| 0 <= i < |items[1..]| && rest.error !in items[1..][i];
            assert items[i + 1] == items[1..][i];
          }
          rest
  }

  /** For a two-field list, having every field is having both. */
  lemma HasBothFields(items: seq<Dict>, fields: seq<string>)
    requires |fields| == 2
    ensures (forall i, f :: 0 <= i < |items| && f in fields ==> f in items[i]) <==>
              forall i :: 0 <= i < |items| ==> fields[0] in items[i] && fields[1] in items[i]
  {
    assert fields[0] in fields && fields[1] in fields;
    if forall i :: 0 <= i < |items| ==> fields[0] in items[i] && fields[1] in items[i] {
      forall i, f | 0 <= i < |items| && f in fields ensures f in items[i] {
        assert f == fields[0] || f == fields[1];
      }
    }
  }

  /** POSStockUpdateSerializer.validate_updates. */
  function ValidateUpdates(updates: seq<Dict>): (r: Result<seq<Dict>, string>)
    ensures r.Success? <==> forall i :: 0 <= i < |updates| ==> "product_id" in updates[i] && "new_stock" in updates[i]
    ensures r.Success? ==> r.value == updates
    ensures r.Failure? ==> r.error in UpdateFields && exists i :: 0 <= i < |updates| && r.error !in updates[i]
  {
    HasBothFields(updates, UpdateFields);
    ValidateItems(updates, UpdateFields)
  }

  /** POSSalesDataSerializer.validate_sales. */
  function ValidateSales(sales: seq<Dict>): (r: Result<seq<Dict>, string>)
    ensures r.Success? <==> forall i :: 0 <= i < |sales| ==> "product_id" in sales[i] && "quantity_sold" in sales[i]
    ensures r.Success? ==> r.value == sales
    ensures r.Failure? ==> r.error in SaleFields && exists i :: 0 <= i < |sales| && r.error !in sales[i]
  {
    HasBothFields(sales, SaleFields);
    ValidateItems(sales, SaleFields)
  }

  /** Validating a list is validating its parts: a concatenation passes exactly when both parts do. */
  lemma {:induction false} ValidateItemsAppend(a: seq<Dict>, b: seq<Dict>, fields: seq<string>)
    ensures ValidateItems(a + b, fields).Success? <==>
              ValidateItems(a, fields).Success? && ValidateItems(b, fields).Success?
  {
    var ab := a + b;
    assert forall i :: 0 <= i < |a| ==> ab[i] == a[i];
    assert forall i :: 0 <= i < |b| ==> ab[|a| + i] == b[i];
  }

  // ---------------------------------------------------------------------
  // SupermarketRegistrationSerializer.validate
  // ---------------------------------------------------------------------

  datatype Registration = Registration(email: string, password: string, confirmPassword: string)

  datatype RegistrationRejection = PasswordsDontMatch | EmailTaken

  /**
   * The password and its confirmation must agree, and no user may already
   * have the e-mail as username; the passwords are compared first.
   * `usernames` is the user table's username column.
   */
  function ValidateRegistration(d: Registration, usernames: set<string>): (r: Result<Registration, RegistrationRejection>)
    ensures r.Success? <==> d.password == d.confirmPassword && d.email !in usernames
    ensures r.Success? ==> r.value == d
    ensures r == Failure(PasswordsDontMatch) <==> d.password != d.confirmPassword
    ensures r == Failure(EmailTaken) <==> d.password == d.confirmPassword && d.email in usernames
  {
    if d.password != d.confirmPassword then Failure(PasswordsDontMatch)
    else if d.email in usernames then Failure(EmailTaken)
    else Success(d)
  }

  /**
   * Registration creates a user whose username is the e-mail, so the same
   * request is refused afterwards, while a request with another e-mail gets
   * the answer it got before.
   */
  lemma RegistrationNotRepeatable(d: Registration, usernames: set<string>, other: Registration)
    requires ValidateRegistration(d, usernames).Success?
    ensures ValidateRegistration(d, usernames + {d.email}) == Failure(EmailTaken)
    ensures other.email != d.email ==>
              ValidateRegistration(other, usernames + {d.email}) == ValidateRegistration(other, usernames)
  {
  }
}
