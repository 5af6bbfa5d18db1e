/** The declared bounds of the stored-document models and request schemas
    (`app/models`, `app/schemas`, `app/models.py`), and how what the
    handlers store relates to them. */
module Schemas {
  import opened Wrappers
  import opened ObjectIds
  import opened Collections
  import opened Documents
  import opened Ordering
  import Settings
  import Listing
  import RootApi
  import TaskApi
  import DraftApi

  // ---------------------------------------------------------------------
  // Stored documents

  /** `ProductDocument`: a name of 1..200 characters, a positive price, a
      size of 1..50 characters; category and brand, when present, of 1..100
      characters; stock, when present, not negative. */
  predicate ProductDocumentValid(p: Product) {
    && 1 <= |p.name| <= 200
    && p.price > 0.0
    && p.size.Some? && 1 <= |p.size.value| <= 50
    && (p.category.Some? ==> 1 <= |p.category.value| <= 100)
    && (p.brand.Some? ==> 1 <= |p.brand.value| <= 100)
    && (p.stockQuantity.Some? ==> p.stockQuantity.value >= 0)
  }

  /** `OrderItemDocument`: a well-formed product id and 1..100 units; the
      snapshot fields are optional. */
  predicate ItemDocumentValid(l: Line) {
    IsValid(l.productId) && 0 < l.quantity <= Settings.MaxItemQuantity
  }

  /** `OrderDocument`: a non-empty user id, 1..50 valid items and a total
      that is not negative.  The status is one of the seven states by
      construction, "pending" when absent. */
  predicate OrderDocumentValid(o: Order) {
    && |o.userId| >= 1
    && 1 <= |o.items| <= Settings.MaxOrderItems
    && (forall i :: 0 <= i < |o.items| ==> ItemDocumentValid(o.items[i]))
    && o.totalAmount >= 0.0
  }

  // ---------------------------------------------------------------------
  // Requests

  /** `OrderItemRequest` / `OrderItem` and `CreateOrderRequest` of the
      package: a well-formed id, 1..100 units, a non-empty user id and 1..50
      items. */
  predicate OrderRequestValid(req: OrderRequest) {
    && |req.userId| >= 1
    && 1 <= |req.items| <= Settings.MaxOrderItems
    && forall i :: 0 <= i < |req.items| ==>
         IsValid(req.items[i].productId) && 0 < req.items[i].quantity <= Settings.MaxItemQuantity
  }

  /** The package's order schemas accept what `app/main.py` accepts, and the
      top-level service accepts only requests they accept as well. */
  lemma OrderRequestSchemasAgree(req: OrderRequest)
    ensures TaskApi.ValidOrderRequest(req) <==> OrderRequestValid(req)
    ensures RootApi.ValidOrderRequest(req) ==> OrderRequestValid(req)
  {
  }

  /** The page bounds of `OrderQueryParams` and `ProductQueryParams` accept
      their defaults. */
  lemma PageDefaultsValid()
    ensures Listing.ValidPage(Settings.DefaultPageSize, 0)
  {
  }

  /** `CreateProductRequest` of the package (and of `app/main.py`). */
  datatype NewProduct = NewProduct(name: string, price: real, size: string, description: Option<string>)

  predicate NewProductValid(r: NewProduct) {
    1 <= |r.name| <= 200 && r.price > 0.0 && 1 <= |r.size| <= 50
  }

  /** The document `app/main.py`'s `create_product` stores. */
  function StoredProduct(r: NewProduct, now: Time): Product {
    Product(r.name, r.description, r.price, Some(r.size), None, None, None, None, None, now, None)
  }

  /** A request the schema accepts is stored as a valid product document. */
  lemma StoredProductValid(r: NewProduct, now: Time)
    requires NewProductValid(r)
    ensures ProductDocumentValid(StoredProduct(r, now))
  {
  }

  /** `UpdateProductRequest` of the package: the top-level update's fields
      plus an optional `size` of 1..50 characters. */
  datatype PackageUpdate = PackageUpdate(fields: RootApi.ProductUpdate, size: Option<string>)

  predicate PackageUpdateValid(u: PackageUpdate) {
    RootApi.ValidProductUpdate(u.fields) && RootApi.LengthIn(u.size, 1, 50)
  }

  /** The `$set` such an update describes when it is built the way the
      top-level `update_product` builds its own: every field given replaces
      the stored one, `size` included; every field absent is kept;
      `updated_at` is stamped and `created_at` kept. */
  function ApplyPackageUpdate(p: Product, u: PackageUpdate, now: Time): (r: Product)
    ensures r.name == (if u.fields.name.Some? then u.fields.name.value else p.name)
    ensures r.description == (if u.fields.description.Some? then u.fields.description else p.description)
    ensures r.price == (if u.fields.price.Some? then u.fields.price.value else p.price)
    ensures r.size == (if u.size.Some? then u.size else p.size)
    ensures r.category == (if u.fields.category.Some? then u.fields.category else p.category)
    ensures r.brand == (if u.fields.brand.Some? then u.fields.brand else p.brand)
    ensures u.fields.attributes.Some? ==> r.attributes == Some(RootApi.AttributeMap(u.fields.attributes.value))
    ensures u.fields.attributes.None? ==> r.attributes == p.attributes
    ensures r.stockQuantity == (if u.fields.stockQuantity.Some? then u.fields.stockQuantity else p.stockQuantity)
    ensures r.images == (if u.fields.images.Some? then u.fields.images else p.images)
    ensures r.createdAt == p.createdAt && r.updatedAt == Some(now)
  {
    RootApi.Merge(p, u.fields, now).(size := if u.size.Some? then u.size else p.size)
  }

  /** Without a size, the package update is the top-level update. */
  lemma PackageUpdateWithoutSize(p: Product, f: RootApi.ProductUpdate, now: Time)
    ensures ApplyPackageUpdate(p, PackageUpdate(f, None), now) == RootApi.Merge(p, f, now)
  {
  }

  /** An update the package schema accepts keeps a product a valid product
      document; the size bound is what keeps `size` within 1..50. */
  lemma PackageUpdateKeepsProductValid(p: Product, u: PackageUpdate, now: Time)
    requires ProductDocumentValid(p) && PackageUpdateValid(u)
    ensures ProductDocumentValid(ApplyPackageUpdate(p, u, now))
  {
  }

  /** Without the size bound an update could store an empty size. */
  lemma EmptySizeBreaksProduct(p: Product, now: Time)
    requires ProductDocumentValid(p)
    ensures var u := PackageUpdate(RootApi.NoChange, Some(""));
            !PackageUpdateValid(u) && !ProductDocumentValid(ApplyPackageUpdate(p, u, now))
  {
  }

  /** `ProductQueryParams`: prices, when given, not negative; limit 1..100;
      offset not negative. */
  predicate ProductQueryParamsValid(minPrice: Option<real>, maxPrice: Option<real>, limit: int, offset: int) {
    && (minPrice.Some? ==> minPrice.value >= 0.0)
    && (maxPrice.Some? ==> maxPrice.value >= 0.0)
    && Listing.ValidPage(limit, offset)
  }

  /** Every query the top-level listing accepts is within the package's
      query bounds; the package also admits a zero `max_price`, which the
      listing refuses. */
  lemma ListingQueryWithinParams(q: RootApi.ProductQuery)
    ensures RootApi.ValidProductQuery(q) ==> ProductQueryParamsValid(q.minPrice, q.maxPrice, q.limit, q.offset)
    ensures ProductQueryParamsValid(q.minPrice, Some(0.0), q.limit, q.offset) ==>
              !RootApi.ValidProductQuery(q.(maxPrice := Some(0.0)))
  {
  }

  // ---------------------------------------------------------------------
  // What the handlers store

  /** `app/main.py` stores valid order documents as long as catalogue prices
      are not negative. */
  lemma TaskOrderValid(db: Db, req: OrderRequest, newId: ObjectId, now: Time)
    requires TaskApi.CreateOrder(db, req, newId, now).Success?
    requires forall k :: 0 <= k < |db.products| ==> db.products[k].doc.price >= 0.0
    ensures OrderDocumentValid(TaskApi.CreateOrder(db, req, newId, now).value.1.doc)
  {
    var o := TaskApi.CreateOrder(db, req, newId, now).value.1.doc;
    assert TaskApi.ValidOrderRequest(req);
    assert o.userId == req.userId && |o.items| == |req.items|;
    forall i | 0 <= i < |o.items| ensures ItemDocumentValid(o.items[i]) {
      assert TaskApi.ValidItem(req.items[i]);
    }
    TaskApi.CatalogTotalNonNegative(db.products, req.items);
  }

  /** The top-level service stores valid order documents as long as
      catalogue prices are not negative. */
  lemma RootOrderValid(db: Db, req: OrderRequest, newId: ObjectId, now: Time)
    requires RootApi.CreateOrder(db, req, newId, now).Success?
    requires forall k :: 0 <= k < |db.products| ==> db.products[k].doc.price >= 0.0
    ensures OrderDocumentValid(RootApi.CreateOrder(db, req, newId, now).value.1.doc)
  {
    var o := RootApi.CreateOrder(db, req, newId, now).value.1.doc;
    assert RootApi.ValidOrderRequest(req);
    assert o.userId == req.userId && |o.items| == |req.items|;
    forall i | 0 <= i < |o.items| ensures ItemDocumentValid(o.items[i]) {
      RootApi.CreateOrderLinePrices(db, req, newId, now, i);
      assert RootApi.ValidItem(req.items[i]);
    }
    RootApi.CreateOrderTotal(db, req, newId, now);
    forall i | 0 <= i < |o.items| ensures o.items[i].totalPrice.GetOr(0.0) >= 0.0 {
      RootApi.CreateOrderLinePrices(db, req, newId, now, i);
      CostNonNegative(o.items[i].pricePerItem.value, o.items[i].quantity);
    }
    LineTotalNonNegative(o.items);
  }

  /** The draft service can store an order that is not a valid order
      document: its schema lets 101 units through. */
  lemma DraftOrderMayBeInvalid(p: Product, newId: ObjectId, now: Time)
    requires p.stockQuantity == Some(1000)
    ensures var id := seq(24, i => 'a');
            var db := Db([Keyed(ObjectId(id), p)], []);
            var req := OrderRequest("", [ItemRequest(id, 101, Some(1.0))], map[], "");
            DraftApi.CreateOrder(db, req, newId, now).Success? &&
            !OrderDocumentValid(DraftApi.CreateOrder(db, req, newId, now).value.1.doc)
  {
    DraftApi.LargeQuantityAccepted(p, newId, now);
  }

  /** A status update keeps every order document valid. */
  lemma StatusUpdateKeepsOrdersValid(db: Db, orderId: string, status: string, now: Time)
    requires forall k :: 0 <= k < |db.orders| ==> OrderDocumentValid(db.orders[k].doc)
    requires RootApi.StoreOrderStatus(db, orderId, status, now).Success?
    ensures var after := RootApi.StoreOrderStatus(db, orderId, status, now).value;
            forall k :: 0 <= k < |after.orders| ==> OrderDocumentValid(after.orders[k].doc)
  {
  }

  /** A valid partial update keeps a product a valid product document. */
  lemma UpdateKeepsProductValid(p: Product, u: RootApi.ProductUpdate, now: Time)
    requires ProductDocumentValid(p) && RootApi.ValidProductUpdate(u)
    ensures ProductDocumentValid(RootApi.Merge(p, u, now))
  {
  }

  /** With the aggregate stock check, an order keeps every valid product
      document valid. */
  lemma CheckedOrderKeepsProductsValid(db: Db, req: OrderRequest, newId: ObjectId, now: Time)
    requires forall k :: 0 <= k < |db.products| ==> ProductDocumentValid(db.products[k].doc)
    requires RootApi.CreateOrderChecked(db, req, newId, now).Success?
    ensures var after := RootApi.CreateOrderChecked(db, req, newId, now).value.0.products;
            forall k :: 0 <= k < |after| ==> ProductDocumentValid(after[k].doc)
  {
    var ps := db.products;
    var after := RootApi.CreateOrderChecked(db, req, newId, now).value.0.products;
    assert after == RootApi.CreateOrder(db, req, newId, now).value.0.products;
    assert StockNonNegative(ps);
    RootApi.CheckedKeepsStockNonNegative(db, req, newId, now);
    RootApi.CreateOrderStock(db, req, newId, now);
    forall k | 0 <= k < |after| ensures ProductDocumentValid(after[k].doc) {
      assert Level(after[k].doc) >= 0;
      if IsFirst(ps, k) && Referenced(req.items, ps[k].id) {
        assert after[k].doc == Consume(ps[k].doc, QtyFor(req.items, ps[k].id), Some(now));
      } else {
        assert after[k].doc == ps[k].doc;
      }
    }
  }

  /** As written, the top-level service can leave a product that was a
      valid document with negative stock. */
  lemma OverdrawInvalidatesProduct(p: Product, newId: ObjectId, now: Time)
    requires ProductDocumentValid(p) && p.stockQuantity == Some(1)
    ensures var id := seq(24, i => 'a');
            var item := ItemRequest(id, 1, None);
            var address := map["street" := "s", "city" := "c", "state" := "s", "zip_code" := "z", "country" := "c"];
            var db := Db([Keyed(ObjectId(id), p)], []);
            var r := RootApi.CreateOrder(db, OrderRequest("u", [item, item], address, "cod"), newId, now);
            r.Success? && !ProductDocumentValid(r.value.0.products[0].doc)
  {
    RootApi.OverdrawExample(p, newId, now);
  }
}
