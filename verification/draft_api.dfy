/** The draft service in `tempCodeRunnerFile.py`: orders priced by the
    client with a stock check and decrement, listings in natural order, and
    a user's orders newest first. */
module DraftApi {
  import opened Wrappers
  import Text
  import opened ObjectIds
  import opened Collections
  import opened Documents
  import opened Ordering
  import opened Listing
  import Settings

  // ---------------------------------------------------------------------
  // Order creation

  /** `OrderItem`: more than zero units and a positive client price; the id
      is not checked by the schema and there is no upper bound. */
  predicate ValidItem(item: ItemRequest) {
    item.quantity > 0 && item.pricePerItem.Some? && item.pricePerItem.value > 0.0
  }

  /** `CreateOrderRequest`: at least one valid item; no bound on the user id
      or on the number of items. */
  predicate ValidOrderRequest(req: OrderRequest) {
    |req.items| >= 1 && forall i :: 0 <= i < |req.items| ==> ValidItem(req.items[i])
  }

  /** The client's price of a line. */
  function ClientPrice(item: ItemRequest): real {
    item.pricePerItem.GetOr(0.0)
  }

  /** Reference definition of the order total: the client's price times
      quantity, summed over the lines; the catalogue plays no part. */
  function ClientTotal(items: seq<ItemRequest>): real {
    if |items| == 0 then 0.0 else Cost(ClientPrice(items[0]), items[0].quantity) + ClientTotal(items[1..])
  }

  /** One pass of the loop body.  `ObjectId(item.product_id)` raises on a
      malformed id and a missing or null `stock_quantity` raises on the
      comparison; both surface as a 500.  Otherwise the lookup (404) and
      the stock check against the stored level (400) decide, and the line
      is stored with the client's price. */
  function ClientLine(ps: seq<Keyed<Product>>, item: ItemRequest): (r: Result<Priced, Error>)
    ensures !IsValid(item.productId) ==> r == Failure(Internal)
    ensures IsValid(item.productId) && Find(ps, Target(item)).None? ==> r == Failure(NotFound("product", item.productId))
    ensures IsValid(item.productId) && Find(ps, Target(item)).Some? && Find(ps, Target(item)).value.stockQuantity.None? ==>
              r == Failure(Internal)
    ensures IsValid(item.productId) && Find(ps, Target(item)).Some? && Find(ps, Target(item)).value.stockQuantity.Some? &&
            Find(ps, Target(item)).value.stockQuantity.value < item.quantity ==>
              r == Failure(InsufficientStock(item.productId, Find(ps, Target(item)).value.stockQuantity.value, item.quantity))
    ensures r.Success? <==>
              IsValid(item.productId) && Find(ps, Target(item)).Some? &&
              Find(ps, Target(item)).value.stockQuantity.Some? &&
              item.quantity <= Find(ps, Target(item)).value.stockQuantity.value
    ensures r.Success? ==> r.value.amount == Cost(ClientPrice(item), item.quantity)
    ensures r.Success? ==>
              r.value.line == Line(item.productId, item.quantity, None, item.pricePerItem, Some(r.value.amount))
  {
    match Parse(item.productId)
    case None => Failure(Internal)
    case Some(oid) =>
      match Find(ps, oid)
      case None => Failure(NotFound("product", item.productId))
      case Some(p) =>
        match p.stockQuantity
        case None => Failure(Internal)
        case Some(stock) =>
          if stock < item.quantity then Failure(InsufficientStock(item.productId, stock, item.quantity))
          else
            var amount := Cost(ClientPrice(item), item.quantity);
            Success(Priced(Line(item.productId, item.quantity, None, item.pricePerItem, Some(amount)), amount))
  }

  /** The running total of the loop is the reference total. */
  lemma {:induction false} RunningTotalIsClientTotal(ps: seq<Keyed<Product>>, items: seq<ItemRequest>, s: seq<Priced>)
    requires |s| == |items|
    requires forall i :: 0 <= i < |items| ==> ClientLine(ps, items[i]).Success? && s[i] == ClientLine(ps, items[i]).value
    ensures Total(s) == ClientTotal(items)
  {
    if |items| > 0 {
      RunningTotalIsClientTotal(ps, items[1..], s[1..]);
    }
  }

  /** `create_order`: 422 for a request outside its schema, then the lines
      in request order (first bad line decides the error); the order is
      inserted as pending with the client total, then every line's product
      loses its units (without an `updated_at` stamp). */
  function CreateOrder(db: Db, req: OrderRequest, newId: ObjectId, now: Time): (r: Result<(Db, Keyed<Order>), Error>)
    ensures !ValidOrderRequest(req) ==> r == Failure(Unprocessable)
    ensures r.Success? <==>
              ValidOrderRequest(req) && forall i :: 0 <= i < |req.items| ==> ClientLine(db.products, req.items[i]).Success?
    ensures ValidOrderRequest(req) && r.Failure? ==>
              exists i :: FirstFailure(db.products, req.items, ClientLine, i) && r.error == ClientLine(db.products, req.items[i]).error
    ensures r.Success? ==>
              var (after, created) := r.value;
              && after.orders == db.orders + [created]
              && created.id == newId
              && created.doc.userId == req.userId
              && created.doc.status == Some(Pending)
              && created.doc.shippingAddress == Some(req.shippingAddress)
              && created.doc.paymentMethod == Some(req.paymentMethod)
              && created.doc.createdAt == now && created.doc.updatedAt == Some(now)
              && |created.doc.items| == |req.items|
              && (forall i :: 0 <= i < |req.items| ==> created.doc.items[i] == ClientLine(db.products, req.items[i]).value.line)
              && created.doc.totalAmount == ClientTotal(req.items)
              && after.products == DecrementAll(db.products, req.items, None)
  {
    if !ValidOrderRequest(req) then Failure(Unprocessable)
    else
      var priced :- PriceItems(db.products, req.items, ClientLine);
      RunningTotalIsClientTotal(db.products, req.items, priced.0);
      var created := Keyed(newId, Order(req.userId, Lines(priced.0), priced.1, Some(Pending),
                                        Some(req.shippingAddress), Some(req.paymentMethod), now, Some(now)));
      Success((Db(DecrementAll(db.products, req.items, None), db.orders + [created]), created))
  }

  /** The catalogue price never enters the order: two catalogues that differ
      only in prices yield the same order and the same stock. */
  lemma CatalogPriceIgnored(db: Db, prices: seq<real>, req: OrderRequest, newId: ObjectId, now: Time)
    requires |prices| == |db.products|
    ensures var db2 := db.(products := seq(|db.products|, k requires 0 <= k < |db.products| =>
                                              Keyed(db.products[k].id, db.products[k].doc.(price := prices[k]))));
            CreateOrder(db2, req, newId, now).Success? == CreateOrder(db, req, newId, now).Success? &&
            (CreateOrder(db, req, newId, now).Success? ==>
               CreateOrder(db2, req, newId, now).value.1 == CreateOrder(db, req, newId, now).value.1)
  {
    var db2 := db.(products := seq(|db.products|, k requires 0 <= k < |db.products| =>
                                    Keyed(db.products[k].id, db.products[k].doc.(price := prices[k]))));
    forall item | true ensures ClientLine(db2.products, item) == ClientLine(db.products, item) {
      SamePricelessFind(db.products, db2.products, Target(item));
    }
    assert forall i :: 0 <= i < |req.items| ==> ClientLine(db2.products, req.items[i]) == ClientLine(db.products, req.items[i]);
    PriceItemsSameStep(db.products, db2.products, req.items);
  }

  /** Two catalogues with the same ids and the same stock levels look the
      same to a line lookup, up to price. */
  lemma SamePricelessFind(a: seq<Keyed<Product>>, b: seq<Keyed<Product>>, oid: ObjectId)
    requires |a| == |b| && forall k :: 0 <= k < |a| ==> b[k].id == a[k].id && b[k].doc.stockQuantity == a[k].doc.stockQuantity
    ensures Find(b, oid).Some? == Find(a, oid).Some?
    ensures Find(a, oid).Some? ==> Find(b, oid).value.stockQuantity == Find(a, oid).value.stockQuantity
  {
    if Find(a, oid).Some? {
      var k :| 0 <= k < |a| && a[k].id == oid && IsFirst(a, k) && a[k].doc == Find(a, oid).value;
      assert IsFirst(b, k);
      IndexOfFirst(b, k);
      IndexOfFirst(a, k);
    } else {
      assert forall k :: 0 <= k < |b| ==> b[k].id != oid;
    }
  }

  /** The loop over two catalogues the step cannot tell apart. */
  lemma {:induction false} PriceItemsSameStep(a: seq<Keyed<Product>>, b: seq<Keyed<Product>>, items: seq<ItemRequest>)
    requires forall i :: 0 <= i < |items| ==> ClientLine(a, items[i]) == ClientLine(b, items[i])
    ensures PriceItems(a, items, ClientLine) == PriceItems(b, items, ClientLine)
    decreases |items|
  {
    if |items| > 0 {
      var init := items[..|items| - 1];
      forall i | 0 <= i < |init| ensures ClientLine(a, init[i]) == ClientLine(b, init[i]) {
        assert init[i] == items[i];
      }
      PriceItemsSameStep(a, b, init);
    }
  }

  /** On success each product's first record has lost exactly the units
      ordered for it over all lines and keeps its `updated_at` (`Consume`
      with no time); no other record changes. */
  lemma DraftStockEffect(db: Db, req: OrderRequest, newId: ObjectId, now: Time)
    ensures var r := CreateOrder(db, req, newId, now);
            r.Success? ==>
              && SameIds(r.value.0.products, db.products)
              && forall k :: 0 <= k < |db.products| ==>
                   r.value.0.products[k].doc ==
                   (if IsFirst(db.products, k) && Referenced(req.items, db.products[k].id)
                    then Consume(db.products[k].doc, QtyFor(req.items, db.products[k].id), None)
                    else db.products[k].doc)
  {
    DecrementAllEffect(db.products, req.items, None);
  }

  /** Without a time, `Consume` changes the stock field only. */
  lemma ConsumeKeepsUpdatedAt(p: Product, q: int)
    ensures Consume(p, q, None) == p.(stockQuantity := Some(Level(p) - q))
  {
  }

  /** The schema puts no upper bound on a line's quantity: 101 units of a
      well-stocked product are accepted. */
  lemma LargeQuantityAccepted(p: Product, newId: ObjectId, now: Time)
    requires p.stockQuantity == Some(1000)
    ensures var id := seq(24, i => 'a');
            var db := Db([Keyed(ObjectId(id), p)], []);
            var req := OrderRequest("", [ItemRequest(id, 101, Some(1.0))], map[], "");
            CreateOrder(db, req, newId, now).Success?
  {
    var id := seq(24, i => 'a');
    Text.LowerOfLower(id);
    var db := Db([Keyed(ObjectId(id), p)], []);
    var item := ItemRequest(id, 101, Some(1.0));
    assert Target(item) == ObjectId(id);
    assert ClientLine(db.products, item).Success?;
  }

  // ---------------------------------------------------------------------
  // Listings

  /** The query of `GET /products`. */
  datatype ProductQuery = ProductQuery(name: Option<string>, size: Option<string>, limit: int, offset: int)

  /** The filter document: a case-insensitive name substring and an exact
      `attributes.size`, each only when given. */
  predicate Matches(q: ProductQuery, p: Product) {
    && (Given(q.name) ==> Text.ContainsIgnoringCase(p.name, q.name.value))
    && (Given(q.size) ==> HasAttribute(p, "size", q.size.value))
  }

  /** The filter a query stands for; the page bounds play no part in it, so
      every page of one search shares it. */
  function MatchesQuery(q: ProductQuery): Keyed<Product> -> bool {
    var f := q.(limit := 0, offset := 0);
    (r: Keyed<Product>) => Matches(f, r.doc)
  }

  /** This service's `ProductResponse` can be built from the document: the
      required fields are there, and so is `attributes`, which the listing
      reads with `product["attributes"]` and no default. */
  predicate Presentable(p: Product) {
    HasResponseFields(p) && p.attributes.Some?
  }

  /** A fetched record whose document can be rendered. */
  predicate PresentableRecord(r: Keyed<Product>) {
    Presentable(r.doc)
  }

  /** The documents a valid query puts on its page, before rendering. */
  function ProductWindow(ps: seq<Keyed<Product>>, q: ProductQuery): seq<Keyed<Product>>
    requires ValidPage(q.limit, q.offset)
  {
    FilteredWindow(ps, MatchesQuery(q), q.offset, q.limit)
  }

  /** The `ProductsListResponse` of this service (no `has_more`). */
  datatype ProductList = ProductList(products: seq<Keyed<Product>>, totalCount: nat, limit: int, offset: int)

  /** `list_products`: all matches counted; the page is taken in natural
      order (there is no `sort`); a page document that cannot be rendered
      turns the answer into a 500. */
  function ListProducts(ps: seq<Keyed<Product>>, q: ProductQuery): (r: Result<ProductList, Error>)
    ensures !ValidPage(q.limit, q.offset) ==> r == Failure(Unprocessable)
    ensures r.Success? <==>
              ValidPage(q.limit, q.offset) && forall i :: 0 <= i < |ProductWindow(ps, q)| ==> Presentable(ProductWindow(ps, q)[i].doc)
    ensures r.Failure? ==> r.error == Unprocessable || r.error == Internal
    ensures r.Failure? && r.error == Internal ==>
              exists k :: 0 <= k < |ps| && Matches(q, ps[k].doc) && !Presentable(ps[k].doc)
    ensures r.Success? ==> r.value.totalCount == Count(ps, MatchesQuery(q)) && r.value.limit == q.limit && r.value.offset == q.offset
    ensures r.Success? ==> |r.value.products| == Min(q.limit, Max(0, r.value.totalCount - q.offset))
    ensures r.Success? ==>
              forall i :: 0 <= i < |r.value.products| ==> r.value.products[i] in ps && Matches(q, r.value.products[i].doc)
    ensures r.Success? ==>
              forall i :: 0 <= i < |r.value.products| ==> r.value.products[i] == Filter(ps, MatchesQuery(q))[q.offset + i]
  {
    if !ValidPage(q.limit, q.offset) then Failure(Unprocessable)
    else
      var page := ProductWindow(ps, q);
      assert forall i :: 0 <= i < |page| ==> page[i] in ps && Matches(q, page[i].doc) by {
        forall i | 0 <= i < |page| ensures page[i] in ps && Matches(q, page[i].doc) {
          assert MatchesQuery(q)(page[i]);
        }
      }
      if forall i :: 0 <= i < |page| ==> Presentable(page[i].doc) then
        Success(ProductList(page, Count(ps, MatchesQuery(q)), q.limit, q.offset))
      else
        assert exists k :: 0 <= k < |ps| && Matches(q, ps[k].doc) && !Presentable(ps[k].doc) by {
          var i :| 0 <= i < |page| && !Presentable(page[i].doc);
          var k :| 0 <= k < |ps| && ps[k] == page[i];
        }
        Failure(Internal)
  }

  /** The window right after a window continues it: asking for both at
      once gives the two one after the other, and succeeds exactly when both
      do. */
  lemma ConsecutivePages(ps: seq<Keyed<Product>>, q: ProductQuery, more: int)
    requires ValidPage(q.limit, q.offset) && 1 <= more && q.limit + more <= Settings.MaxPageSize
    ensures var next := q.(offset := q.offset + q.limit, limit := more);
            var both := q.(limit := q.limit + more);
            && (ListProducts(ps, both).Success? <==> ListProducts(ps, q).Success? && ListProducts(ps, next).Success?)
            && (ListProducts(ps, q).Success? && ListProducts(ps, next).Success? ==>
                  && ListProducts(ps, both).Success?
                  && ListProducts(ps, both).value.products == ListProducts(ps, q).value.products + ListProducts(ps, next).value.products)
  {
    var next := q.(offset := q.offset + q.limit, limit := more);
    var both := q.(limit := q.limit + more);
    WindowsJoin(ps, q, more);
    AllConcat(ProductWindow(ps, q), ProductWindow(ps, next), PresentableRecord);
  }

  lemma WindowsJoin(ps: seq<Keyed<Product>>, q: ProductQuery, more: nat)
    requires ValidPage(q.limit, q.offset) && 1 <= more && q.limit + more <= Settings.MaxPageSize
    ensures ProductWindow(ps, q.(limit := q.limit + more)) == ProductWindow(ps, q) + ProductWindow(ps, q.(offset := q.offset + q.limit, limit := more))
  {
    var next := q.(offset := q.offset + q.limit, limit := more);
    var both := q.(limit := q.limit + more);
    assert MatchesQuery(next) == MatchesQuery(q) && MatchesQuery(both) == MatchesQuery(q);
    FilteredWindowsTile(ps, MatchesQuery(q), q.offset, q.limit, more);
  }

  function ForUser(userId: string): Keyed<Order> -> bool {
    (r: Keyed<Order>) => r.doc.userId == userId
  }

  /** `sort("created_at", -1)`: newest first. */
  function Newest(r: Keyed<Order>): int {
    -r.doc.createdAt
  }

  /** This service's `OrderResponse`: lines need their price and total, the
      order its address, payment method, status and `updated_at`. */
  predicate OrderRenderable(o: Order) {
    && o.shippingAddress.Some? && o.paymentMethod.Some? && o.status.Some? && o.updatedAt.Some?
    && forall i :: 0 <= i < |o.items| ==> o.items[i].pricePerItem.Some? && o.items[i].totalPrice.Some?
  }

  /** The `OrdersListResponse` of this service. */
  datatype OrderList = OrderList(orders: seq<Keyed<Order>>, totalCount: nat, limit: int, offset: int)

  /** A fetched order that can be rendered. */
  predicate RenderableRecord(r: Keyed<Order>) {
    OrderRenderable(r.doc)
  }

  /** The orders a valid request puts on its page, before rendering. */
  function OrdersPage(os: seq<Keyed<Order>>, userId: string, limit: int, offset: int): seq<Keyed<Order>>
    requires ValidPage(limit, offset)
  {
    FilteredPage(os, ForUser(userId), Newest, offset, limit)
  }

  /** `get_user_orders`: the user's orders counted; the page is taken newest
      first after skipping `offset`; an order that cannot be rendered turns
      the answer into a 500. */
  function GetUserOrders(os: seq<Keyed<Order>>, userId: string, limit: int, offset: int): (r: Result<OrderList, Error>)
    ensures !ValidPage(limit, offset) ==> r == Failure(Unprocessable)
    ensures r.Success? <==>
              ValidPage(limit, offset)
              && forall i :: 0 <= i < |OrdersPage(os, userId, limit, offset)| ==> OrderRenderable(OrdersPage(os, userId, limit, offset)[i].doc)
    ensures r.Failure? ==> r.error == Unprocessable || r.error == Internal
    ensures r.Failure? && r.error == Internal ==>
              exists k :: 0 <= k < |os| && os[k].doc.userId == userId && !OrderRenderable(os[k].doc)
    ensures r.Success? ==> r.value.totalCount == Count(os, ForUser(userId)) && r.value.limit == limit && r.value.offset == offset
    ensures r.Success? ==> |r.value.orders| == Min(limit, Max(0, r.value.totalCount - offset))
    ensures r.Success? ==>
              forall i :: 0 <= i < |r.value.orders| ==> r.value.orders[i] in os && r.value.orders[i].doc.userId == userId
    ensures r.Success? ==>
              forall i, j :: 0 <= i < j < |r.value.orders| ==> r.value.orders[i].doc.createdAt >= r.value.orders[j].doc.createdAt
  {
    if !ValidPage(limit, offset) then Failure(Unprocessable)
    else
      var page := OrdersPage(os, userId, limit, offset);
      assert forall i :: 0 <= i < |page| ==> ForUser(userId)(page[i]);
      assert SortedBy(page, Newest);
      if forall i :: 0 <= i < |page| ==> OrderRenderable(page[i].doc) then
        Success(OrderList(page, Count(os, ForUser(userId)), limit, offset))
      else
        assert exists k :: 0 <= k < |os| && os[k].doc.userId == userId && !OrderRenderable(os[k].doc) by {
          var i :| 0 <= i < |page| && !OrderRenderable(page[i].doc);
          var k :| 0 <= k < |os| && os[k] == page[i];
        }
        Failure(Internal)
  }

  /** The page holds the user's orders at positions `offset, ...` of their
      orders newest first. */
  lemma UserOrdersPageAt(os: seq<Keyed<Order>>, userId: string, limit: int, offset: int)
    requires GetUserOrders(os, userId, limit, offset).Success?
    ensures PageAt(GetUserOrders(os, userId, limit, offset).value.orders, os, ForUser(userId), Newest, offset)
  {
    FilteredPageAt(os, ForUser(userId), Newest, offset, limit);
  }

  /** Where no two of the user's orders were created at the same moment, the
      page is the only run of their orders of its length at that offset. */
  lemma UserOrdersDetermined(os: seq<Keyed<Order>>, userId: string, limit: int, offset: int, r: seq<Keyed<Order>>)
    requires KeysDistinct(os, ForUser(userId), Newest) && GetUserOrders(os, userId, limit, offset).Success?
    requires |r| == |GetUserOrders(os, userId, limit, offset).value.orders|
    requires PageAt(r, os, ForUser(userId), Newest, offset)
    ensures r == GetUserOrders(os, userId, limit, offset).value.orders
  {
    PageDetermined(os, ForUser(userId), Newest, offset, limit, r);
  }

  /** Where no two of the user's orders were created at the same moment,
      two consecutive pages of them make up the page as long as both
      together, which succeeds exactly when both do.  With tied creation
      times the store does not fix the order of the ties between queries. */
  lemma ConsecutiveUserOrderPages(os: seq<Keyed<Order>>, userId: string, limit: int, offset: int, more: int)
    requires ValidPage(limit, offset) && 1 <= more && limit + more <= Settings.MaxPageSize
    requires KeysDistinct(os, ForUser(userId), Newest)
    ensures && (GetUserOrders(os, userId, limit + more, offset).Success? <==>
                  GetUserOrders(os, userId, limit, offset).Success? && GetUserOrders(os, userId, more, offset + limit).Success?)
            && (GetUserOrders(os, userId, limit, offset).Success? && GetUserOrders(os, userId, more, offset + limit).Success? ==>
                  && GetUserOrders(os, userId, limit + more, offset).Success?
                  && GetUserOrders(os, userId, limit + more, offset).value.orders ==
                     GetUserOrders(os, userId, limit, offset).value.orders + GetUserOrders(os, userId, more, offset + limit).value.orders)
  {
    OrderPagesJoin(os, userId, limit, offset, more);
    AllConcat(OrdersPage(os, userId, limit, offset), OrdersPage(os, userId, more, offset + limit), RenderableRecord);
  }

  lemma OrderPagesJoin(os: seq<Keyed<Order>>, userId: string, limit: int, offset: int, more: int)
    requires ValidPage(limit, offset) && 1 <= more && limit + more <= Settings.MaxPageSize
    requires KeysDistinct(os, ForUser(userId), Newest)
    ensures OrdersPage(os, userId, limit + more, offset) == OrdersPage(os, userId, limit, offset) + OrdersPage(os, userId, more, offset + limit)
  {
    FilteredPagesTile(os, ForUser(userId), Newest, offset, limit, more);
  }

  /** Every order this service creates renders in its own listing. */
  lemma CreatedOrderRenderable(db: Db, req: OrderRequest, newId: ObjectId, now: Time)
    requires CreateOrder(db, req, newId, now).Success?
    ensures OrderRenderable(CreateOrder(db, req, newId, now).value.1.doc)
  {
  }
}
