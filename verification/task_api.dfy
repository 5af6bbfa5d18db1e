/** The service in `app/main.py`: catalogue-priced orders that never touch
    stock, listings in `_id` order, and a user's orders.  Its status update
    is the same code as the top-level service's. */
module TaskApi {
  import opened Wrappers
  import Text
  import opened ObjectIds
  import opened Collections
  import opened Documents
  import opened Ordering
  import OrderStatus
  import Settings
  import Dependencies
  import opened Listing
  import RootApi

  // ---------------------------------------------------------------------
  // Order creation

  /** `OrderItem`: a well-formed product id and 1..100 units.  The schema
      has no price field; a price the client sends is dropped. */
  predicate ValidItem(item: ItemRequest) {
    IsValid(item.productId) && 0 < item.quantity <= Settings.MaxItemQuantity
  }

  /** `CreateOrderRequest`: a non-empty user id and 1..50 valid items. */
  predicate ValidOrderRequest(req: OrderRequest) {
    |req.userId| >= 1 &&
    1 <= |req.items| <= Settings.MaxOrderItems &&
    forall i :: 0 <= i < |req.items| ==> ValidItem(req.items[i])
  }

  /** The catalogue price of the first record stored under `oid`. */
  function CatalogPrice(ps: seq<Keyed<Product>>, oid: ObjectId): real {
    match Find(ps, oid)
    case Some(p) => p.price
    case None => 0.0
  }

  /** Reference definition of the order total: catalogue price times
      quantity, summed over the requested lines. */
  function CatalogTotal(ps: seq<Keyed<Product>>, items: seq<ItemRequest>): real {
    if |items| == 0 then 0.0
    else Cost(CatalogPrice(ps, Target(items[0])), items[0].quantity) + CatalogTotal(ps, items[1..])
  }

  /** One pass of the loop body: the id check (400), the lookup (404), the
      line stored as just `product_id` and `quantity`, and the catalogue
      `item_total`. */
  function CatalogLine(ps: seq<Keyed<Product>>, item: ItemRequest): (r: Result<Priced, Error>)
    ensures !IsValid(item.productId) ==> r == Failure(InvalidId("product", item.productId))
    ensures IsValid(item.productId) && !Dependencies.Stored(ps, Target(item)) ==>
              r == Failure(NotFound("product", item.productId))
    ensures r.Success? <==> IsValid(item.productId) && Dependencies.Stored(ps, Target(item))
    ensures r.Success? ==> r.value.line == Line(item.productId, item.quantity, None, None, None)
    ensures r.Success? ==> r.value.amount == Cost(CatalogPrice(ps, Target(item)), item.quantity)
  {
    var p :- Dependencies.VerifyProductExists(ps, item.productId);
    Success(Priced(Line(item.productId, item.quantity, None, None, None), Cost(p.price, item.quantity)))
  }

  /** The running total of the loop is the reference total. */
  lemma {:induction false} RunningTotalIsCatalogTotal(ps: seq<Keyed<Product>>, items: seq<ItemRequest>, s: seq<Priced>)
    requires |s| == |items|
    requires forall i :: 0 <= i < |items| ==> CatalogLine(ps, items[i]).Success? && s[i] == CatalogLine(ps, items[i]).value
    ensures Total(s) == CatalogTotal(ps, items)
  {
    if |items| > 0 {
      RunningTotalIsCatalogTotal(ps, items[1..], s[1..]);
    }
  }

  /** `create_order`: 422 for a request outside its schema, then the lines
      in request order (first bad line decides the error); the order is
      inserted with the catalogue total and the products are not touched. */
  function CreateOrder(db: Db, req: OrderRequest, newId: ObjectId, now: Time): (r: Result<(Db, Keyed<Order>), Error>)
    ensures !ValidOrderRequest(req) ==> r == Failure(Unprocessable)
    ensures r.Success? <==>
              ValidOrderRequest(req) && forall i :: 0 <= i < |req.items| ==> Dependencies.Stored(db.products, Target(req.items[i]))
    ensures ValidOrderRequest(req) && r.Failure? ==>
              exists i :: 0 <= i < |req.items| && !Dependencies.Stored(db.products, Target(req.items[i])) &&
                (forall j :: 0 <= j < i ==> Dependencies.Stored(db.products, Target(req.items[j]))) &&
                r.error == NotFound("product", req.items[i].productId)
    ensures r.Success? ==>
              var (after, created) := r.value;
              && after.products == db.products
              && after.orders == db.orders + [created]
              && created.id == newId
              && created.doc.userId == req.userId
              && created.doc.status.None? && created.doc.shippingAddress.None? && created.doc.paymentMethod.None?
              && created.doc.createdAt == now && created.doc.updatedAt.None?
              && |created.doc.items| == |req.items|
              && (forall i :: 0 <= i < |req.items| ==>
                    created.doc.items[i] == Line(req.items[i].productId, req.items[i].quantity, None, None, None))
              && created.doc.totalAmount == CatalogTotal(db.products, req.items)
  {
    if !ValidOrderRequest(req) then Failure(Unprocessable)
    else
      var priced :- PriceItems(db.products, req.items, CatalogLine);
      RunningTotalIsCatalogTotal(db.products, req.items, priced.0);
      var created := Keyed(newId, Order(req.userId, Lines(priced.0), priced.1, None, None, None, now, None));
      Success((db.(orders := db.orders + [created]), created))
  }

  /** The client cannot influence the order: requests that agree on the
      user and on each line's product and quantity give the same result,
      whatever prices, address or payment method they carry. */
  lemma ClientPriceIgnored(db: Db, a: OrderRequest, b: OrderRequest, newId: ObjectId, now: Time)
    requires a.userId == b.userId && |a.items| == |b.items|
    requires forall i :: 0 <= i < |a.items| ==>
               a.items[i].productId == b.items[i].productId && a.items[i].quantity == b.items[i].quantity
    ensures CreateOrder(db, a, newId, now) == CreateOrder(db, b, newId, now)
  {
    forall i | 0 <= i < |a.items| ensures CatalogLine(db.products, a.items[i]) == CatalogLine(db.products, b.items[i]) {
    }
    PriceItemsPointwise(db.products, a.items, b.items, CatalogLine);
    assert ValidOrderRequest(a) <==> ValidOrderRequest(b) by {
      assert (forall i :: 0 <= i < |a.items| ==> ValidItem(a.items[i])) <==>
             (forall i :: 0 <= i < |b.items| ==> ValidItem(b.items[i]));
    }
  }

  /** With non-negative catalogue prices the total is non-negative. */
  lemma {:induction false} CatalogTotalNonNegative(ps: seq<Keyed<Product>>, items: seq<ItemRequest>)
    requires forall k :: 0 <= k < |ps| ==> ps[k].doc.price >= 0.0
    requires forall i :: 0 <= i < |items| ==> items[i].quantity >= 0
    ensures CatalogTotal(ps, items) >= 0.0
  {
    if |items| > 0 {
      var oid := Target(items[0]);
      assert CatalogPrice(ps, oid) >= 0.0 by {
        if Find(ps, oid).Some? {
          var k :| 0 <= k < |ps| && ps[k].id == oid && IsFirst(ps, k) && ps[k].doc == Find(ps, oid).value;
        }
      }
      CatalogTotalNonNegative(ps, items[1..]);
    }
  }

  // ---------------------------------------------------------------------
  // Order status

  /** What `app/main.py`'s `OrderResponse` needs of an order this service
      created, and never finds there: an order stored by its own
      `create_order` has no shipping address, so its status update is
      written and then answered with a 500. */
  lemma OwnOrderStatusUpdateFails(db: Db, req: OrderRequest, newId: ObjectId, now: Time, status: string, later: Time)
    requires Canonical(newId) && !Dependencies.Stored(db.orders, newId)
    requires CreateOrder(db, req, newId, now).Success?
    requires OrderStatus.Parse(status).Some?
    ensures var db1 := CreateOrder(db, req, newId, now).value.0;
            var r := RootApi.UpdateOrderStatus(db1, newId.hex, status, later);
            r.1 == Failure(Internal) &&
            Find(r.0.orders, newId) == Some(CreateOrder(db, req, newId, now).value.1.doc.(status := OrderStatus.Parse(status), updatedAt := Some(later)))
  {
    var (db1, created) := CreateOrder(db, req, newId, now).value;
    var k := |db.orders|;
    assert db1.orders[k] == created;
    forall j | 0 <= j < k ensures db1.orders[j].id != newId {
      assert db1.orders[j] == db.orders[j];
    }
    assert IsFirst(db1.orders, k);
    IndexOfFirst(db1.orders, k);
    assert IsValid(newId.hex) && Text.Lower(newId.hex) == newId.hex by {
      ParsePrinted(newId);
    }
    var after := RootApi.StoreOrderStatus(db1, newId.hex, status, later).value;
    SameIdsSameFirst(after.orders, db1.orders, k);
    IndexOfFirst(after.orders, k);
  }

  /** The response the status endpoint evidently means to send for the
      orders this service stores: `app/schemas/order.py`'s `OrderResponse`,
      where address, payment method and line snapshots are optional. */
  predicate OrderRenderable(o: Order) {
    o.status.Some?
  }

  /** `update_order_status` answering with a response shape that fits the
      stored orders: the write as before, and the updated order returned. */
  function UpdateOrderStatusFixed(db: Db, orderId: string, status: string, now: Time): (r: (Db, Result<Order, Error>))
    ensures r.0 == (if RootApi.StoreOrderStatus(db, orderId, status, now).Success?
                    then RootApi.StoreOrderStatus(db, orderId, status, now).value else db)
    ensures r.1.Success? <==> RootApi.StoreOrderStatus(db, orderId, status, now).Success?
    ensures r.1.Failure? ==> r.1 == Failure(RootApi.StoreOrderStatus(db, orderId, status, now).error)
    ensures r.1.Success? ==>
              OrderRenderable(r.1.value) &&
              r.1.value == Find(db.orders, ObjectId(Text.Lower(orderId))).value.(status := OrderStatus.Parse(status), updatedAt := Some(now))
  {
    match RootApi.StoreOrderStatus(db, orderId, status, now)
    case Failure(e) => (db, Failure(e))
    case Success(after) =>
      var oid := ObjectId(Text.Lower(orderId));
      var k :| 0 <= k < |db.orders| && db.orders[k].id == oid && IsFirst(db.orders, k);
      IndexOfFirst(db.orders, k);
      SameIdsSameFirst(after.orders, db.orders, k);
      IndexOfFirst(after.orders, k);
      (after, Success(Find(after.orders, oid).value))
  }

  /** With that response shape, an order this service created can have its
      status updated, and the answer carries the new status. */
  lemma OwnOrderStatusUpdateFixed(db: Db, req: OrderRequest, newId: ObjectId, now: Time, status: string, later: Time)
    requires Canonical(newId) && !Dependencies.Stored(db.orders, newId)
    requires CreateOrder(db, req, newId, now).Success?
    requires OrderStatus.Parse(status).Some?
    ensures var db1 := CreateOrder(db, req, newId, now).value.0;
            var r := UpdateOrderStatusFixed(db1, newId.hex, status, later);
            r.1.Success? && r.1.value.status == OrderStatus.Parse(status) && r.1.value.userId == req.userId
  {
    var (db1, created) := CreateOrder(db, req, newId, now).value;
    var k := |db.orders|;
    assert db1.orders[k] == created;
    forall j | 0 <= j < k ensures db1.orders[j].id != newId {
      assert db1.orders[j] == db.orders[j];
    }
    IndexOfFirst(db1.orders, k);
    ParsePrinted(newId);
  }

  // ---------------------------------------------------------------------
  // Listings

  /** The query of `GET /products`. */
  datatype ProductQuery = ProductQuery(name: Option<string>, size: Option<string>, limit: int, offset: int)

  /** The filter document: a case-insensitive name substring and an exact
      top-level `size`, each only when given. */
  predicate Matches(q: ProductQuery, p: Product) {
    && (Given(q.name) ==> Text.ContainsIgnoringCase(p.name, q.name.value))
    && (Given(q.size) ==> p.size == Some(q.size.value))
  }

  /** The filter a query stands for; the page bounds play no part in it, so
      every page of one search shares it. */
  function MatchesQuery(q: ProductQuery): Keyed<Product> -> bool {
    var f := q.(limit := 0, offset := 0);
    (r: Keyed<Product>) => Matches(f, r.doc)
  }

  /** The answer `{"products", "total", "limit", "previous"}`. */
  datatype ProductPage = ProductPage(products: seq<Keyed<Product>>, total: nat, limit: int, previous: int)

  /** `list_products`: all matches counted, the page taken in `_id` order
      after skipping `offset`. */
  function ListProducts(ps: seq<Keyed<Product>>, q: ProductQuery): (r: Result<ProductPage, Error>)
    ensures r.Success? <==> ValidPage(q.limit, q.offset)
    ensures r.Failure? ==> r.error == Unprocessable
    ensures r.Success? ==> r.value.total == Count(ps, MatchesQuery(q)) && r.value.limit == q.limit && r.value.previous == q.offset
    ensures r.Success? ==> |r.value.products| == Min(q.limit, Max(0, r.value.total - q.offset))
    ensures r.Success? ==>
              forall i :: 0 <= i < |r.value.products| ==> r.value.products[i] in ps && Matches(q, r.value.products[i].doc)
    ensures r.Success? ==>
              forall i, j :: 0 <= i < j < |r.value.products| ==> Rank(r.value.products[i].id) <= Rank(r.value.products[j].id)
  {
    if !ValidPage(q.limit, q.offset) then Failure(Unprocessable)
    else
      var page := FilteredPage(ps, MatchesQuery(q), ByIdOrder, q.offset, q.limit);
      assert forall i :: 0 <= i < |page| ==> MatchesQuery(q)(page[i]);
      assert SortedBy(page, ByIdOrder);
      Success(ProductPage(page, Count(ps, MatchesQuery(q)), q.limit, q.offset))
  }

  /** The listed products are the matches at positions `offset, ...` of
      the matches in `_id` order. */
  lemma ListedPageAt(ps: seq<Keyed<Product>>, q: ProductQuery)
    requires ListProducts(ps, q).Success?
    ensures PageAt(ListProducts(ps, q).value.products, ps, MatchesQuery(q), ByIdOrder, q.offset)
  {
    FilteredPageAt(ps, MatchesQuery(q), ByIdOrder, q.offset, q.limit);
  }

  /** In a collection the store could hold, the listing is the only run of
      matches of its length at that offset: nothing else could be shown. */
  lemma ListingDetermined(ps: seq<Keyed<Product>>, q: ProductQuery, r: seq<Keyed<Product>>)
    requires IdsUnique(ps) && ListProducts(ps, q).Success?
    requires |r| == |ListProducts(ps, q).value.products|
    requires PageAt(r, ps, MatchesQuery(q), ByIdOrder, q.offset)
    ensures r == ListProducts(ps, q).value.products
  {
    IdOrderDistinct(ps, MatchesQuery(q));
    PageDetermined(ps, MatchesQuery(q), ByIdOrder, q.offset, q.limit, r);
  }

  /** The page right after a page continues it: asking for both at once
      gives the two one after the other. */
  lemma ConsecutivePages(ps: seq<Keyed<Product>>, q: ProductQuery, more: int)
    requires ValidPage(q.limit, q.offset) && 1 <= more && q.limit + more <= Settings.MaxPageSize
    ensures ListProducts(ps, q.(limit := q.limit + more)).value.products ==
            ListProducts(ps, q).value.products + ListProducts(ps, q.(offset := q.offset + q.limit, limit := more)).value.products
  {
    var next := q.(offset := q.offset + q.limit, limit := more);
    var both := q.(limit := q.limit + more);
    assert MatchesQuery(next) == MatchesQuery(q) && MatchesQuery(both) == MatchesQuery(q);
    FilteredPagesTile(ps, MatchesQuery(q), ByIdOrder, q.offset, q.limit, more);
  }

  function ForUser(userId: string): Keyed<Order> -> bool {
    (r: Keyed<Order>) => r.doc.userId == userId
  }

  /** The answer `{"orders", "total", "limit", "offset", "user_id"}`. */
  datatype OrderPage = OrderPage(orders: seq<Keyed<Order>>, total: nat, limit: int, offset: int, userId: string)

  /** `get_user_orders`: the user's orders counted, the page taken in `_id`
      order after skipping `offset`. */
  function GetUserOrders(os: seq<Keyed<Order>>, userId: string, limit: int, offset: int): (r: Result<OrderPage, Error>)
    ensures r.Success? <==> ValidPage(limit, offset)
    ensures r.Failure? ==> r.error == Unprocessable
    ensures r.Success? ==> r.value.total == Count(os, ForUser(userId)) && r.value.limit == limit && r.value.offset == offset && r.value.userId == userId
    ensures r.Success? ==> |r.value.orders| == Min(limit, Max(0, r.value.total - offset))
    ensures r.Success? ==>
              forall i :: 0 <= i < |r.value.orders| ==> r.value.orders[i] in os && r.value.orders[i].doc.userId == userId
    ensures r.Success? ==>
              forall i, j :: 0 <= i < j < |r.value.orders| ==> Rank(r.value.orders[i].id) <= Rank(r.value.orders[j].id)
  {
    if !ValidPage(limit, offset) then Failure(Unprocessable)
    else
      var page := FilteredPage(os, ForUser(userId), ByIdOrder, offset, limit);
      assert forall i :: 0 <= i < |page| ==> ForUser(userId)(page[i]);
      assert SortedBy(page, ByIdOrder);
      Success(OrderPage(page, Count(os, ForUser(userId)), limit, offset, userId))
  }

  /** The page holds the user's orders at positions `offset, ...` of their
      orders in `_id` order. */
  lemma UserOrdersPageAt(os: seq<Keyed<Order>>, userId: string, limit: int, offset: int)
    requires GetUserOrders(os, userId, limit, offset).Success?
    ensures PageAt(GetUserOrders(os, userId, limit, offset).value.orders, os, ForUser(userId), ByIdOrder, offset)
  {
    FilteredPageAt(os, ForUser(userId), ByIdOrder, offset, limit);
  }

  /** In a collection the store could hold, the page is the only run of the
      user's orders of its length at that offset. */
  lemma UserOrdersDetermined(os: seq<Keyed<Order>>, userId: string, limit: int, offset: int, r: seq<Keyed<Order>>)
    requires IdsUnique(os) && GetUserOrders(os, userId, limit, offset).Success?
    requires |r| == |GetUserOrders(os, userId, limit, offset).value.orders|
    requires PageAt(r, os, ForUser(userId), ByIdOrder, offset)
    ensures r == GetUserOrders(os, userId, limit, offset).value.orders
  {
    IdOrderDistinct(os, ForUser(userId));
    PageDetermined(os, ForUser(userId), ByIdOrder, offset, limit, r);
  }

  /** Two consecutive pages of a user's orders make up the page as long as
      both together. */
  lemma ConsecutiveUserOrderPages(os: seq<Keyed<Order>>, userId: string, limit: int, offset: int, more: int)
    requires ValidPage(limit, offset) && 1 <= more && limit + more <= Settings.MaxPageSize
    ensures GetUserOrders(os, userId, limit + more, offset).value.orders ==
            GetUserOrders(os, userId, limit, offset).value.orders + GetUserOrders(os, userId, more, offset + limit).value.orders
  {
    FilteredPagesTile(os, ForUser(userId), ByIdOrder, offset, limit, more);
  }

  /** When all of a user's orders fit on the first page, the page holds
      every one of them. */
  lemma FirstPageHoldsAllUserOrders(os: seq<Keyed<Order>>, userId: string, limit: int, k: int)
    requires ValidPage(limit, 0) && Count(os, ForUser(userId)) <= limit
    requires 0 <= k < |os| && os[k].doc.userId == userId
    ensures os[k] in GetUserOrders(os, userId, limit, 0).value.orders
  {
    FilteredPageComplete(os, ForUser(userId), ByIdOrder, limit, os[k]);
  }
}
