/** The service in the repository's top-level `main.py`: order creation with
    stock checks and optional client prices, order-status updates, product
    listing with filters, and partial product updates. */
module RootApi {
  import opened Wrappers
  import Text
  import opened ObjectIds
  import opened Collections
  import opened Documents
  import opened Ordering
  import OrderStatus
  import Settings
  import Dependencies
  import opened Listing

  const PaymentMethods: seq<string> := ["credit_card", "debit_card", "paypal", "upi", "cod"]
  const AddressFields: seq<string> := ["street", "city", "state", "zip_code", "country"]

  // ---------------------------------------------------------------------
  // Order creation

  /** `OrderItem`: a well-formed product id, 1..100 units, and a positive
      price when one is given. */
  predicate ValidItem(item: ItemRequest) {
    IsValid(item.productId) &&
    0 < item.quantity <= Settings.MaxItemQuantity &&
    (item.pricePerItem.Some? ==> item.pricePerItem.value > 0.0)
  }

  /** `CreateOrderRequest`: a non-empty user id, 1..50 valid items, an
      address naming the five required fields, and a known payment method in
      any letter case. */
  predicate ValidOrderRequest(req: OrderRequest) {
    |req.userId| >= 1 &&
    1 <= |req.items| <= Settings.MaxOrderItems &&
    (forall i :: 0 <= i < |req.items| ==> ValidItem(req.items[i])) &&
    (forall f :: f in AddressFields ==> f in req.shippingAddress) &&
    Text.Lower(req.paymentMethod) in PaymentMethods
  }

  /** Request validation: the request with its payment method lower-cased,
      or a 422. */
  function ValidateOrderRequest(req: OrderRequest): (r: Result<OrderRequest, Error>)
    ensures r.Success? <==> ValidOrderRequest(req)
    ensures r.Failure? ==> r.error == Unprocessable
    ensures r.Success? ==> r.value.paymentMethod == Text.Lower(req.paymentMethod) && Text.IsLower(r.value.paymentMethod)
    ensures r.Success? ==> r.value.(paymentMethod := req.paymentMethod) == req
  {
    Text.LowerIsLower(req.paymentMethod);
    if ValidOrderRequest(req) then Success(req.(paymentMethod := Text.Lower(req.paymentMethod)))
    else Failure(Unprocessable)
  }

  /** Validation is idempotent: a validated request validates to itself. */
  lemma ValidateOrderRequestIdempotent(req: OrderRequest)
    requires ValidateOrderRequest(req).Success?
    ensures ValidateOrderRequest(ValidateOrderRequest(req).value) == ValidateOrderRequest(req)
  {
    var v := ValidateOrderRequest(req).value;
    Text.LowerOfLower(v.paymentMethod);
  }

  /** The stock check and pricing of one line once its product `p` is
      found: a line asking for more than the stock on hand is refused (400;
      a product with no stock field raises, 500); the price is the client's
      when given, else the catalogue price; the product's name is
      snapshotted. */
  function PriceFound(p: Product, item: ItemRequest): (r: Result<Priced, Error>)
    ensures p.stockQuantity.None? ==> r == Failure(Internal)
    ensures p.stockQuantity.Some? && p.stockQuantity.value < item.quantity ==>
              r == Failure(InsufficientStock(item.productId, p.stockQuantity.value, item.quantity))
    ensures r.Success? <==> p.stockQuantity.Some? && item.quantity <= p.stockQuantity.value
    ensures r.Success? ==>
              r.value.line.productId == item.productId && r.value.line.quantity == item.quantity &&
              r.value.line.productName == Some(p.name)
    ensures r.Success? ==> r.value.line.pricePerItem == Some(item.pricePerItem.GetOr(p.price))
    ensures r.Success? ==> r.value.amount == Cost(item.pricePerItem.GetOr(p.price), item.quantity)
    ensures r.Success? ==> r.value.line.totalPrice == Some(r.value.amount)
  {
    match p.stockQuantity
    case None => Failure(Internal)
    case Some(stock) =>
      if stock < item.quantity then Failure(InsufficientStock(item.productId, stock, item.quantity))
      else
        var price := item.pricePerItem.GetOr(p.price);
        var itemTotal := Cost(price, item.quantity);
        Success(Priced(Line(item.productId, item.quantity, Some(p.name), Some(price), Some(itemTotal)), itemTotal))
  }

  /** One pass of the pricing loop: `product_exists` (400 / 404), then the
      stock check and pricing against the product found. */
  function PriceLine(ps: seq<Keyed<Product>>, item: ItemRequest): (r: Result<Priced, Error>)
    ensures Dependencies.VerifyProductExists(ps, item.productId).Failure? ==>
              r == Failure(Dependencies.VerifyProductExists(ps, item.productId).error)
    ensures Dependencies.VerifyProductExists(ps, item.productId).Success? ==>
              r == PriceFound(Dependencies.VerifyProductExists(ps, item.productId).value, item)
    ensures r.Success? ==>
              && r.value.line.productId == item.productId
              && r.value.line.quantity == item.quantity
              && r.value.line.totalPrice == Some(r.value.amount)
              && r.value.line.pricePerItem.Some?
              && r.value.amount == Cost(r.value.line.pricePerItem.value, item.quantity)
  {
    var p :- Dependencies.VerifyProductExists(ps, item.productId);
    PriceFound(p, item)
  }

  /** `create_order`: validate the request, price every line (the first
      failing line aborts, before anything is written), insert the order
      with status "pending", then decrement each line's product and stamp
      its `updated_at`. */
  function CreateOrder(db: Db, req: OrderRequest, newId: ObjectId, now: Time): (r: Result<(Db, Keyed<Order>), Error>)
    ensures !ValidOrderRequest(req) ==> r == Failure(Unprocessable)
    ensures r.Success? <==>
              ValidOrderRequest(req) && forall i :: 0 <= i < |req.items| ==> PriceLine(db.products, req.items[i]).Success?
    ensures ValidOrderRequest(req) && r.Failure? ==>
              exists i :: FirstFailure(db.products, req.items, PriceLine, i) && r.error == PriceLine(db.products, req.items[i]).error
    ensures r.Success? ==>
              var created := r.value.1;
              && created.id == newId
              && r.value.0.orders == db.orders + [created]
              && created.doc.userId == req.userId
              && created.doc.status == Some(Pending)
              && created.doc.shippingAddress == Some(req.shippingAddress)
              && created.doc.paymentMethod == Some(Text.Lower(req.paymentMethod))
              && created.doc.createdAt == now && created.doc.updatedAt == Some(now)
              && |created.doc.items| == |req.items|
              && (forall i :: 0 <= i < |req.items| ==> created.doc.items[i] == PriceLine(db.products, req.items[i]).value.line)
              && created.doc.totalAmount == Total(PriceItems(db.products, req.items, PriceLine).value.0)
    ensures r.Success? ==> r.value.0.products == DecrementAll(db.products, req.items, Some(now))
  {
    var valid :- ValidateOrderRequest(req);
    assert valid.items == req.items;
    var priced :- PriceItems(db.products, req.items, PriceLine);
    var lines := Lines(priced.0);
    assert forall i :: 0 <= i < |req.items| ==> lines[i] == PriceLine(db.products, req.items[i]).value.line;
    var order := Order(req.userId, lines, priced.1, Some(Pending),
                       Some(req.shippingAddress), Some(valid.paymentMethod), now, Some(now));
    var created := Keyed(newId, order);
    Success((Db(DecrementAll(db.products, req.items, Some(now)), db.orders + [created]), created))
  }

  /** Every stored line is priced at the client's price when given, else at
      the catalogue price of the product it names (the first record with
      that identity), carries that product's name, and asked for no more
      than its stock before the order. */
  lemma CreateOrderLinePrices(db: Db, req: OrderRequest, newId: ObjectId, now: Time, i: int)
    requires CreateOrder(db, req, newId, now).Success? && 0 <= i < |req.items|
    ensures var line := CreateOrder(db, req, newId, now).value.1.doc.items[i];
            exists k :: 0 <= k < |db.products| && IsFirst(db.products, k) && db.products[k].id == Target(req.items[i])
              && line.productId == req.items[i].productId
              && line.quantity == req.items[i].quantity
              && line.productName == Some(db.products[k].doc.name)
              && line.pricePerItem == Some(req.items[i].pricePerItem.GetOr(db.products[k].doc.price))
              && req.items[i].quantity <= Level(db.products[k].doc)
  {
    var item := req.items[i];
    assert PriceLine(db.products, item).Success?;
    var found := Dependencies.VerifyProductExists(db.products, item.productId);
    var k :| 0 <= k < |db.products| && db.products[k].id.hex == Text.Lower(item.productId) && IsFirst(db.products, k) && db.products[k].doc == found.value;
    assert db.products[k].id == Target(item);
  }

  /** Each priced line records its amount as its total, and that amount is
      its price times its quantity. */
  lemma PricedLineTotals(ps: seq<Keyed<Product>>, items: seq<ItemRequest>)
    requires PriceItems(ps, items, PriceLine).Success?
    ensures var priced := PriceItems(ps, items, PriceLine).value.0;
            forall i :: 0 <= i < |priced| ==>
              && priced[i].line.totalPrice == Some(priced[i].amount)
              && priced[i].line.pricePerItem.Some?
              && priced[i].amount == Cost(priced[i].line.pricePerItem.value, priced[i].line.quantity)
  {
    var r := PriceItems(ps, items, PriceLine);
    var priced := r.value.0;
    forall i | 0 <= i < |priced|
      ensures && priced[i].line.totalPrice == Some(priced[i].amount)
              && priced[i].line.pricePerItem.Some?
              && priced[i].amount == Cost(priced[i].line.pricePerItem.value, priced[i].line.quantity)
    {
      var x := PriceLine(ps, items[i]);
      assert x.Success?;
      assert priced[i] == x.value;
    }
  }

  /** The stored total is the sum of the stored line totals, and each line
      total is the line's price times its quantity. */
  lemma CreateOrderTotal(db: Db, req: OrderRequest, newId: ObjectId, now: Time)
    ensures var r := CreateOrder(db, req, newId, now);
            r.Success? ==>
              && r.value.1.doc.totalAmount == LineTotal(r.value.1.doc.items)
              && forall i :: 0 <= i < |r.value.1.doc.items| ==>
                   var line := r.value.1.doc.items[i];
                   line.pricePerItem.Some? && line.totalPrice == Some(Cost(line.pricePerItem.value, line.quantity))
  {
    var r := CreateOrder(db, req, newId, now);
    if r.Success? {
      var priced := PriceItems(db.products, req.items, PriceLine).value.0;
      PricedLineTotals(db.products, req.items);
      TotalIsLineTotal(priced);
      assert Lines(priced) == r.value.1.doc.items;
    }
  }

  /** Stock after a successful order: the first record of each product the
      order names has lost exactly the units ordered over all its lines and
      carries the order time as `updated_at`; every other record is
      unchanged. */
  lemma CreateOrderStock(db: Db, req: OrderRequest, newId: ObjectId, now: Time)
    ensures var r := CreateOrder(db, req, newId, now);
            r.Success? ==>
              && SameIds(r.value.0.products, db.products)
              && forall k :: 0 <= k < |db.products| ==>
                   r.value.0.products[k].doc ==
                   (if IsFirst(db.products, k) && Referenced(req.items, db.products[k].id)
                    then Consume(db.products[k].doc, QtyFor(req.items, db.products[k].id), Some(now))
                    else db.products[k].doc)
  {
    DecrementAllEffect(db.products, req.items, Some(now));
  }

  /** Finding, as written: every line is checked against the stock the
      product had before the order, so two lines for the same product that
      each fit, but together do not, are accepted and leave the stock
      negative. */
  lemma RepeatedLineOverdraws(db: Db, req: OrderRequest, newId: ObjectId, now: Time)
    requires ValidOrderRequest(req) && |req.items| == 2 && req.items[0] == req.items[1]
    requires |db.products| > 0 && db.products[0].id == Target(req.items[0])
    requires db.products[0].doc.stockQuantity.Some?
    requires req.items[0].quantity <= db.products[0].doc.stockQuantity.value < 2 * req.items[0].quantity
    ensures CreateOrder(db, req, newId, now).Success?
    ensures CreateOrder(db, req, newId, now).value.0.products[0].doc.stockQuantity ==
              Some(db.products[0].doc.stockQuantity.value - 2 * req.items[0].quantity)
    ensures Level(CreateOrder(db, req, newId, now).value.0.products[0].doc) < 0
  {
    var ps := db.products;
    var item := req.items[0];
    assert req.items == [item, item];
    assert IsFirst(ps, 0);
    assert Dependencies.Stored(ps, ObjectId(Text.Lower(item.productId)));
    assert PriceLine(ps, item).Success?;
    assert forall i :: 0 <= i < |req.items| ==> PriceLine(ps, req.items[i]).Success?;
    var r := CreateOrder(db, req, newId, now);
    assert r.Success?;
    assert r.value.0.products == DecrementAll(ps, req.items, Some(now));
    QtyForPair(item);
    assert Referenced(req.items, ps[0].id) by { assert Target(req.items[0]) == ps[0].id; }
    DecrementAllEffect(ps, req.items, Some(now));
  }

  /** A concrete instance: one product with 1 unit, ordered on two lines of
      one unit each. */
  lemma OverdrawExample(p: Product, newId: ObjectId, now: Time)
    requires p.stockQuantity == Some(1)
    ensures var id := seq(24, i => 'a');
            var item := ItemRequest(id, 1, None);
            var address := map["street" := "s", "city" := "c", "state" := "s", "zip_code" := "z", "country" := "c"];
            var db := Db([Keyed(ObjectId(id), p)], []);
            var r := CreateOrder(db, OrderRequest("u", [item, item], address, "cod"), newId, now);
            r.Success? && r.value.0.products[0].doc.stockQuantity == Some(-1)
  {
    var id := seq(24, i => 'a');
    var item := ItemRequest(id, 1, None);
    var address := map["street" := "s", "city" := "c", "state" := "s", "zip_code" := "z", "country" := "c"];
    var db := Db([Keyed(ObjectId(id), p)], []);
    var req := OrderRequest("u", [item, item], address, "cod");
    assert IsValid(id);
    Text.LowerOfLower(id);
    Text.LowerOfLower("cod");
    assert Text.Lower(req.paymentMethod) in PaymentMethods;
    assert ValidOrderRequest(req);
    RepeatedLineOverdraws(db, req, newId, now);
  }

  /** Line `i` fits the stock when the units requested over all lines for its
      product do not exceed that product's stock. */
  predicate Covered(ps: seq<Keyed<Product>>, items: seq<ItemRequest>, i: int)
    requires 0 <= i < |items|
  {
    match Dependencies.VerifyProductExists(ps, items[i].productId)
    case Failure(_) => true
    case Success(p) => QtyFor(items, Target(items[i])) <= Level(p)
  }

  /** The aggregate stock check, line by line from `from`: the first line
      whose product cannot cover the whole order's demand is refused. */
  function CheckDemand(ps: seq<Keyed<Product>>, items: seq<ItemRequest>, from: nat): (r: Result<(), Error>)
    requires from <= |items|
    ensures r.Success? <==> forall i :: from <= i < |items| ==> Covered(ps, items, i)
    ensures r.Failure? ==> r.error.InsufficientStock?
    decreases |items| - from
  {
    if from == |items| then Success(())
    else if Covered(ps, items, from) then
      var rest := CheckDemand(ps, items, from + 1);
      assert rest.Success? ==> forall i :: from <= i < |items| ==> Covered(ps, items, i);
      rest
    else
      var p := Dependencies.VerifyProductExists(ps, items[from].productId).value;
      Failure(InsufficientStock(items[from].productId, Level(p), QtyFor(items, Target(items[from]))))
  }

  /** `create_order` corrected: besides the per-line check, each product must
      cover the units requested for it over the whole order. */
  function CreateOrderChecked(db: Db, req: OrderRequest, newId: ObjectId, now: Time): (r: Result<(Db, Keyed<Order>), Error>)
    ensures r.Success? <==>
              CreateOrder(db, req, newId, now).Success? &&
              forall i :: 0 <= i < |req.items| ==> Covered(db.products, req.items, i)
    ensures r.Success? ==> r == CreateOrder(db, req, newId, now)
    ensures CreateOrder(db, req, newId, now).Failure? ==> r == CreateOrder(db, req, newId, now)
  {
    var out :- CreateOrder(db, req, newId, now);
    var _ :- CheckDemand(db.products, req.items, 0);
    Success(out)
  }

  /** Two first records with one identity are the same record. */
  lemma FirstIsUnique<T>(c: seq<Keyed<T>>, a: int, b: int)
    requires 0 <= a < |c| && 0 <= b < |c| && IsFirst(c, a) && IsFirst(c, b) && c[a].id == c[b].id
    ensures a == b
  {
  }

  /** A covered line's product, read as its first record, holds at least
      the units the order requests for it. */
  lemma CoveredFirstRecord(ps: seq<Keyed<Product>>, items: seq<ItemRequest>, i: int, k: int)
    requires 0 <= i < |items| && 0 <= k < |ps|
    requires PriceLine(ps, items[i]).Success? && Covered(ps, items, i)
    requires IsFirst(ps, k) && ps[k].id == Target(items[i])
    ensures QtyFor(items, ps[k].id) <= Level(ps[k].doc)
  {
    var found := Dependencies.VerifyProductExists(ps, items[i].productId);
    assert found.Success?;
    var m :| 0 <= m < |ps| && ps[m].id.hex == Text.Lower(items[i].productId) && IsFirst(ps, m) && ps[m].doc == found.value;
    FirstIsUnique(ps, m, k);
  }

  /** The corrected order creation never drives a stock level negative. */
  lemma CheckedKeepsStockNonNegative(db: Db, req: OrderRequest, newId: ObjectId, now: Time)
    requires StockNonNegative(db.products)
    ensures CreateOrderChecked(db, req, newId, now).Success? ==>
              StockNonNegative(CreateOrderChecked(db, req, newId, now).value.0.products)
  {
    var r := CreateOrderChecked(db, req, newId, now);
    if r.Success? {
      var ps := db.products;
      var after := DecrementAll(ps, req.items, Some(now));
      assert r.value.0.products == after;
      assert forall i :: 0 <= i < |req.items| ==> PriceLine(ps, req.items[i]).Success? && Covered(ps, req.items, i);
      DecrementAllEffect(ps, req.items, Some(now));
      forall k | 0 <= k < |after| ensures Level(after[k].doc) >= 0 {
        if IsFirst(ps, k) && Referenced(req.items, ps[k].id) {
          var i :| 0 <= i < |req.items| && Target(req.items[i]) == ps[k].id;
          CoveredFirstRecord(ps, req.items, i, k);
        }
      }
    }
  }

  /** When no two lines name the same product, the corrected and the
      as-written order creation agree. */
  lemma CheckedAgreesWhenDistinct(db: Db, req: OrderRequest, newId: ObjectId, now: Time)
    requires forall i, j :: 0 <= i < j < |req.items| ==> Target(req.items[i]) != Target(req.items[j])
    ensures CreateOrderChecked(db, req, newId, now) == CreateOrder(db, req, newId, now)
  {
    if CreateOrder(db, req, newId, now).Success? {
      forall i | 0 <= i < |req.items| ensures Covered(db.products, req.items, i) {
        forall j | 0 <= j < |req.items| && j != i ensures Target(req.items[j]) != Target(req.items[i]) {
          if j < i { assert Target(req.items[j]) != Target(req.items[i]); }
          else { assert Target(req.items[i]) != Target(req.items[j]); }
        }
        QtyForSingle(req.items, i);
        assert PriceLine(db.products, req.items[i]).Success?;
      }
    }
  }

  // ---------------------------------------------------------------------
  // Order status

  /** The `$set` of `update_order_status`. */
  function SetStatus(s: Status, now: Time): Order -> Order {
    (o: Order) => o.(status := Some(s), updatedAt := Some(now))
  }

  /** The write of `update_order_status`: the body's status is validated
      first (422), then the order id (400) and the order's existence (404);
      the first record with that id gets the lower-cased status and the
      update time, and nothing else changes. */
  function StoreOrderStatus(db: Db, orderId: string, status: string, now: Time): (r: Result<Db, Error>)
    ensures OrderStatus.Parse(status).None? ==> r == Failure(Unprocessable)
    ensures OrderStatus.Parse(status).Some? && !IsValid(orderId) ==> r == Failure(InvalidId("order", orderId))
    ensures OrderStatus.Parse(status).Some? && IsValid(orderId) && !Dependencies.Stored(db.orders, ObjectId(Text.Lower(orderId))) ==>
              r == Failure(NotFound("order", orderId))
    ensures r.Success? <==>
              OrderStatus.Parse(status).Some? && IsValid(orderId) && Dependencies.Stored(db.orders, ObjectId(Text.Lower(orderId)))
    ensures r.Success? ==> r.value.products == db.products && SameIds(r.value.orders, db.orders)
    ensures r.Success? ==>
              forall k :: 0 <= k < |db.orders| ==>
                r.value.orders[k].doc ==
                (if IsFirst(db.orders, k) && db.orders[k].id == ObjectId(Text.Lower(orderId))
                 then db.orders[k].doc.(status := OrderStatus.Parse(status), updatedAt := Some(now))
                 else db.orders[k].doc)
  {
    match OrderStatus.Parse(status)
    case None => Failure(Unprocessable)
    case Some(s) =>
      var _ :- Dependencies.VerifyOrderExists(db.orders, orderId);
      Success(db.(orders := UpdateFirst(db.orders, ObjectId(Text.Lower(orderId)), SetStatus(s, now))))
  }

  /** Repeating a status update (same order, status and time) changes
      nothing further. */
  lemma StoreOrderStatusIdempotent(db: Db, orderId: string, status: string, now: Time)
    requires StoreOrderStatus(db, orderId, status, now).Success?
    ensures StoreOrderStatus(StoreOrderStatus(db, orderId, status, now).value, orderId, status, now) ==
            StoreOrderStatus(db, orderId, status, now)
  {
    var s := OrderStatus.Parse(status).value;
    var oid := ObjectId(Text.Lower(orderId));
    var once := StoreOrderStatus(db, orderId, status, now).value;
    assert once.orders == UpdateFirst(db.orders, oid, SetStatus(s, now));
    var k :| 0 <= k < |db.orders| && db.orders[k].id == oid;
    assert once.orders[k].id == oid;
    UpdateFirstIdempotent(db.orders, oid, SetStatus(s, now));
  }

  /** An `OrderItemResponse` needs the three snapshot fields. */
  predicate LinePresentable(l: Line) {
    l.productName.Some? && l.pricePerItem.Some? && l.totalPrice.Some?
  }

  /** The document carries every field `OrderResponse` declares as
      required; building the response from any other document raises. */
  predicate OrderPresentable(o: Order) {
    && o.shippingAddress.Some? && o.paymentMethod.Some? && o.status.Some? && o.updatedAt.Some?
    && forall i :: 0 <= i < |o.items| ==> LinePresentable(o.items[i])
  }

  /** `update_order_status` as answered: the write above, then the updated
      order rendered as an `OrderResponse`.  The write is not undone when
      the rendering raises, so an order lacking response fields is updated
      and reported as a 500. */
  function UpdateOrderStatus(db: Db, orderId: string, status: string, now: Time): (r: (Db, Result<Order, Error>))
    ensures StoreOrderStatus(db, orderId, status, now).Failure? ==>
              r == (db, Failure(StoreOrderStatus(db, orderId, status, now).error))
    ensures StoreOrderStatus(db, orderId, status, now).Success? ==>
              r.0 == StoreOrderStatus(db, orderId, status, now).value &&
              (r.1.Failure? ==> r.1.error == Internal)
    ensures r.1.Success? <==>
              && StoreOrderStatus(db, orderId, status, now).Success?
              && var o := Find(db.orders, ObjectId(Text.Lower(orderId))).value;
                 o.shippingAddress.Some? && o.paymentMethod.Some? &&
                 forall i :: 0 <= i < |o.items| ==> LinePresentable(o.items[i])
    ensures r.1.Success? ==>
              r.1.value == Find(db.orders, ObjectId(Text.Lower(orderId))).value.(status := OrderStatus.Parse(status), updatedAt := Some(now))
  {
    match StoreOrderStatus(db, orderId, status, now)
    case Failure(e) => (db, Failure(e))
    case Success(after) =>
      var oid := ObjectId(Text.Lower(orderId));
      var s := OrderStatus.Parse(status).value;
      assert after.orders == UpdateFirst(db.orders, oid, SetStatus(s, now));
      FindUpdateFirst(db.orders, oid, SetStatus(s, now));
      var updated := Find(after.orders, oid).value;
      (after, if OrderPresentable(updated) then Success(updated) else Failure(Internal))
  }

  /** Every order this service creates can have its status updated: it
      carries all the fields the response needs. */
  lemma CreatedOrderPresentable(db: Db, req: OrderRequest, newId: ObjectId, now: Time)
    requires CreateOrder(db, req, newId, now).Success?
    ensures OrderPresentable(CreateOrder(db, req, newId, now).value.1.doc)
  {
    var o := CreateOrder(db, req, newId, now).value.1.doc;
    forall i | 0 <= i < |o.items| ensures LinePresentable(o.items[i]) {
      assert PriceLine(db.products, req.items[i]).Success?;
    }
  }

  // ---------------------------------------------------------------------
  // Product listing

  /** The query parameters of `GET /products`. */
  datatype ProductQuery = ProductQuery(
    name: Option<string>,
    category: Option<string>,
    brand: Option<string>,
    size: Option<string>,
    minPrice: Option<real>,
    maxPrice: Option<real>,
    inStock: Option<bool>,
    limit: int,
    offset: int)

  /** The declared bounds of the query parameters. */
  predicate ValidProductQuery(q: ProductQuery) {
    && ValidPage(q.limit, q.offset)
    && (q.minPrice.Some? ==> q.minPrice.value >= 0.0)
    && (q.maxPrice.Some? ==> q.maxPrice.value > 0.0)
  }

  /** A case-insensitive substring match on a field the document may lack; a
      missing field never matches. */
  predicate FieldContains(field: Option<string>, needle: string) {
    field.Some? && Text.ContainsIgnoringCase(field.value, needle)
  }

  /** The filter document `list_products` builds, as a predicate. */
  predicate Matches(q: ProductQuery, p: Product) {
    && (Given(q.name) ==> Text.ContainsIgnoringCase(p.name, q.name.value))
    && (Given(q.category) ==> FieldContains(p.category, q.category.value))
    && (Given(q.brand) ==> FieldContains(p.brand, q.brand.value))
    && (Given(q.size) ==> HasAttribute(p, "size", q.size.value))
    && (q.minPrice.Some? ==> q.minPrice.value <= p.price)
    && (q.maxPrice.Some? ==> p.price <= q.maxPrice.value)
    && (q.inStock == Some(true) ==> p.stockQuantity.Some? && p.stockQuantity.value > 0)
    && (q.inStock == Some(false) ==> p.stockQuantity == Some(0))
  }

  /** The filter of a query as a predicate on records; the page parameters
      take no part, so every page of one search shares it. */
  function MatchesQuery(q: ProductQuery): Keyed<Product> -> bool {
    var f := q.(limit := 0, offset := 0);
    (r: Keyed<Product>) => Matches(f, r.doc)
  }

  /** `sort("created_at", -1)`: newest first. */
  function NewestFirst(r: Keyed<Product>): int {
    -r.doc.createdAt
  }

  /** This service's `ProductResponse` can be built from the document: the
      required fields are there, and every stored attribute (an absent field
      reads as none) becomes a `ProductAttribute`, whose name and value must
      not be empty. */
  predicate Presentable(p: Product) {
    && HasResponseFields(p)
    && forall k :: k in AttributesOrEmpty(p) ==> |k| >= 1 && |AttributesOrEmpty(p)[k]| >= 1
  }

  /** The `ProductsListResponse`. */
  datatype ProductList = ProductList(products: seq<Keyed<Product>>, totalCount: nat, limit: int, offset: int, hasMore: bool)

  /** A fetched record whose document can be rendered. */
  predicate PresentableRecord(r: Keyed<Product>) {
    Presentable(r.doc)
  }

  /** The documents `list_products` fetches. */
  function ProductPage(ps: seq<Keyed<Product>>, q: ProductQuery): seq<Keyed<Product>>
    requires ValidProductQuery(q)
  {
    FilteredPage(ps, MatchesQuery(q), NewestFirst, q.offset, q.limit)
  }

  /** `list_products`: count every match, then return the page of matches,
      newest first, after skipping `offset` and taking at most `limit`.  A
      page document that cannot be rendered turns the answer into a 500. */
  function ListProducts(ps: seq<Keyed<Product>>, q: ProductQuery): (r: Result<ProductList, Error>)
    ensures !ValidProductQuery(q) ==> r == Failure(Unprocessable)
    ensures r.Failure? ==> r.error == Unprocessable || r.error == Internal
    ensures r.Failure? && r.error == Internal ==>
              exists k :: 0 <= k < |ps| && Matches(q, ps[k].doc) && !Presentable(ps[k].doc)
    ensures r.Success? <==>
              ValidProductQuery(q) && forall i :: 0 <= i < |ProductPage(ps, q)| ==> Presentable(ProductPage(ps, q)[i].doc)
    ensures r.Success? ==> r.value.totalCount == Count(ps, MatchesQuery(q)) && r.value.limit == q.limit && r.value.offset == q.offset
    ensures r.Success? ==> |r.value.products| == Min(q.limit, Max(0, r.value.totalCount - q.offset))
    ensures r.Success? ==>
              forall i :: 0 <= i < |r.value.products| ==> r.value.products[i] in ps && Matches(q, r.value.products[i].doc)
    ensures r.Success? ==>
              forall i, j :: 0 <= i < j < |r.value.products| ==>
                r.value.products[i].doc.createdAt >= r.value.products[j].doc.createdAt
    ensures r.Success? ==> r.value.hasMore == (q.offset + q.limit < r.value.totalCount)
  {
    if !ValidProductQuery(q) then Failure(Unprocessable)
    else
      var total := Count(ps, MatchesQuery(q));
      var page := ProductPage(ps, q);
      assert forall i :: 0 <= i < |page| ==> MatchesQuery(q)(page[i]);
      assert SortedBy(page, NewestFirst);
      if forall i :: 0 <= i < |page| ==> Presentable(page[i].doc) then
        Success(ProductList(page, total, q.limit, q.offset, q.offset + q.limit < total))
      else
        assert exists k :: 0 <= k < |ps| && Matches(q, ps[k].doc) && !Presentable(ps[k].doc) by {
          var i :| 0 <= i < |page| && !Presentable(page[i].doc);
          var k :| 0 <= k < |ps| && ps[k] == page[i];
          assert MatchesQuery(q)(page[i]);
        }
        Failure(Internal)
  }

  /** The listed products are the matches at positions `offset, ...` of
      the matches newest first, each at most as often as it is stored. */
  lemma ListedPageAt(ps: seq<Keyed<Product>>, q: ProductQuery)
    requires ListProducts(ps, q).Success?
    ensures PageAt(ListProducts(ps, q).value.products, ps, MatchesQuery(q), NewestFirst, q.offset)
  {
    FilteredPageAt(ps, MatchesQuery(q), NewestFirst, q.offset, q.limit);
  }

  /** Where no two matches were created at the same moment, the listing is
      the only run of matches of its length at that offset. */
  lemma ListingDetermined(ps: seq<Keyed<Product>>, q: ProductQuery, r: seq<Keyed<Product>>)
    requires KeysDistinct(ps, MatchesQuery(q), NewestFirst) && ListProducts(ps, q).Success?
    requires |r| == |ListProducts(ps, q).value.products|
    requires PageAt(r, ps, MatchesQuery(q), NewestFirst, q.offset)
    ensures r == ListProducts(ps, q).value.products
  {
    PageDetermined(ps, MatchesQuery(q), NewestFirst, q.offset, q.limit, r);
  }

  /** Where no two matches were created at the same moment, the page right
      after a page continues it: asking for both at once gives the two one
      after the other, and succeeds exactly when both do.  With tied
      creation times the store may order the ties differently from one
      query to the next, so separate pages can repeat or skip a record. */
  lemma ConsecutivePages(ps: seq<Keyed<Product>>, q: ProductQuery, more: int)
    requires ValidProductQuery(q) && 1 <= more && q.limit + more <= Settings.MaxPageSize
    requires KeysDistinct(ps, MatchesQuery(q), NewestFirst)
    ensures var next := q.(offset := q.offset + q.limit, limit := more);
            var both := q.(limit := q.limit + more);
            && (ListProducts(ps, both).Success? <==> ListProducts(ps, q).Success? && ListProducts(ps, next).Success?)
            && (ListProducts(ps, q).Success? && ListProducts(ps, next).Success? ==>
                  && ListProducts(ps, both).Success?
                  && ListProducts(ps, both).value.products == ListProducts(ps, q).value.products + ListProducts(ps, next).value.products)
  {
    var next := q.(offset := q.offset + q.limit, limit := more);
    var both := q.(limit := q.limit + more);
    PagesJoin(ps, q, more);
    AllConcat(ProductPage(ps, q), ProductPage(ps, next), PresentableRecord);
  }

  lemma PagesJoin(ps: seq<Keyed<Product>>, q: ProductQuery, more: nat)
    requires ValidProductQuery(q) && 1 <= more && q.limit + more <= Settings.MaxPageSize
    requires KeysDistinct(ps, MatchesQuery(q), NewestFirst)
    ensures ProductPage(ps, q.(limit := q.limit + more)) == ProductPage(ps, q) + ProductPage(ps, q.(offset := q.offset + q.limit, limit := more))
  {
    var next := q.(offset := q.offset + q.limit, limit := more);
    var both := q.(limit := q.limit + more);
    assert MatchesQuery(next) == MatchesQuery(q) && MatchesQuery(both) == MatchesQuery(q);
    FilteredPagesTile(ps, MatchesQuery(q), NewestFirst, q.offset, q.limit, more);
  }

  /** `has_more` holds exactly when matches remain beyond the page returned. */
  lemma HasMoreIffMatchesRemain(ps: seq<Keyed<Product>>, q: ProductQuery)
    requires ListProducts(ps, q).Success?
    ensures var l := ListProducts(ps, q).value;
            l.hasMore <==> q.offset + |l.products| < l.totalCount
  {
  }

  /** An empty text filter is no filter. */
  lemma EmptyFiltersIgnored(q: ProductQuery, p: Product)
    ensures Matches(q.(name := Some(""), category := Some(""), brand := Some(""), size := Some("")), p) ==
            Matches(q.(name := None, category := None, brand := None, size := None), p)
  {
  }

  // ---------------------------------------------------------------------
  // Product update

  /** A `ProductAttribute` of a request: one name/value pair. */
  datatype Attribute = Attribute(name: string, value: string)

  /** `UpdateProductRequest`: every field optional. */
  datatype ProductUpdate = ProductUpdate(
    name: Option<string>,
    description: Option<string>,
    price: Option<real>,
    category: Option<string>,
    brand: Option<string>,
    attributes: Option<seq<Attribute>>,
    stockQuantity: Option<int>,
    images: Option<seq<string>>)

  /** The update that supplies no field at all. */
  const NoChange := ProductUpdate(None, None, None, None, None, None, None, None)

  predicate ValidAttribute(a: Attribute) {
    |a.name| >= 1 && |a.value| >= 1
  }

  /** The text field, when given, has a length in `lo..hi`. */
  predicate LengthIn(f: Option<string>, lo: nat, hi: nat) {
    f.Some? ==> lo <= |f.value| <= hi
  }

  /** The declared bounds of `UpdateProductRequest`: each field that is given
      meets the bound it would have on creation; images are unbounded. */
  predicate ValidProductUpdate(u: ProductUpdate) {
    && LengthIn(u.name, 1, 200)
    && LengthIn(u.description, 10, 2000)
    && (u.price.Some? ==> u.price.value > 0.0)
    && LengthIn(u.category, 1, 100)
    && LengthIn(u.brand, 1, 100)
    && (u.attributes.Some? ==> forall i :: 0 <= i < |u.attributes.value| ==> ValidAttribute(u.attributes.value[i]))
    && (u.stockQuantity.Some? ==> u.stockQuantity.value >= 0)
  }

  /** `{attr.name: attr.value for attr in attributes}`. */
  function AttributeMap(attrs: seq<Attribute>): (m: map<string, string>)
    ensures m.Keys == set i | 0 <= i < |attrs| :: attrs[i].name
  {
    var pairs := seq(|attrs|, i requires 0 <= i < |attrs| => (attrs[i].name, attrs[i].value));
    var m := ToMap(pairs);
    ToMapKeys(pairs);
    assert KeysOf(pairs) == (set i | 0 <= i < |attrs| :: attrs[i].name) by {
      forall i | 0 <= i < |attrs| ensures pairs[i].0 == attrs[i].name { }
    }
    m
  }

  /** `Some(x)` overrides, `None` keeps. */
  function Override<T>(given: Option<T>, current: T): T {
    if given.Some? then given.value else current
  }

  /** The `$set` document of `update_product` applied to a stored product:
      the supplied fields replace the stored ones, `updated_at` is `now`. */
  function Merge(p: Product, u: ProductUpdate, now: Time): Product {
    p.(name := Override(u.name, p.name),
       description := Override(if u.description.Some? then Some(u.description) else None, p.description),
       price := Override(u.price, p.price),
       category := Override(if u.category.Some? then Some(u.category) else None, p.category),
       brand := Override(if u.brand.Some? then Some(u.brand) else None, p.brand),
       attributes := if u.attributes.Some? then Some(AttributeMap(u.attributes.value)) else p.attributes,
       stockQuantity := Override(if u.stockQuantity.Some? then Some(u.stockQuantity) else None, p.stockQuantity),
       images := if u.images.Some? then u.images else p.images,
       updatedAt := Some(now))
  }

  /** The update as it is sent: fields given replace, fields absent are kept,
      `updated_at` is `now`, `created_at` never changes. */
  lemma MergeFields(p: Product, u: ProductUpdate, now: Time)
    ensures var m := Merge(p, u, now);
            && m.name == (if u.name.Some? then u.name.value else p.name)
            && m.description == (if u.description.Some? then u.description else p.description)
            && m.price == (if u.price.Some? then u.price.value else p.price)
            && m.category == (if u.category.Some? then u.category else p.category)
            && m.brand == (if u.brand.Some? then u.brand else p.brand)
            && (u.attributes.Some? ==> m.attributes == Some(AttributeMap(u.attributes.value)))
            && (u.attributes.None? ==> m.attributes == p.attributes)
            && m.stockQuantity == (if u.stockQuantity.Some? then u.stockQuantity else p.stockQuantity)
            && m.images == (if u.images.Some? then u.images else p.images)
            && m.size == p.size && m.createdAt == p.createdAt && m.updatedAt == Some(now)
  {
  }

  /** Applying the same update twice is applying it once. */
  lemma MergeIdempotent(p: Product, u: ProductUpdate, now: Time)
    ensures Merge(Merge(p, u, now), u, now) == Merge(p, u, now)
  {
  }

  /** An update that supplies nothing only stamps `updated_at`. */
  lemma NoChangeOnlyStamps(p: Product, now: Time)
    ensures Merge(p, NoChange, now) == p.(updatedAt := Some(now))
  {
  }

  /** Two successive updates; the later one wins field by field. */
  function Then(u1: ProductUpdate, u2: ProductUpdate): ProductUpdate {
    ProductUpdate(
      if u2.name.Some? then u2.name else u1.name,
      if u2.description.Some? then u2.description else u1.description,
      if u2.price.Some? then u2.price else u1.price,
      if u2.category.Some? then u2.category else u1.category,
      if u2.brand.Some? then u2.brand else u1.brand,
      if u2.attributes.Some? then u2.attributes else u1.attributes,
      if u2.stockQuantity.Some? then u2.stockQuantity else u1.stockQuantity,
      if u2.images.Some? then u2.images else u1.images)
  }

  /** Two updates in a row amount to their field-wise combination. */
  lemma MergeTwice(p: Product, u1: ProductUpdate, u2: ProductUpdate, t1: Time, t2: Time)
    ensures Merge(Merge(p, u1, t1), u2, t2) == Merge(p, Then(u1, u2), t2)
  {
  }

  /** The bounds `CreateProductRequest` puts on a stored product. */
  predicate CreatedShape(p: Product) {
    && 1 <= |p.name| <= 200
    && p.description.Some? && 10 <= |p.description.value| <= 2000
    && p.price > 0.0
    && p.category.Some? && 1 <= |p.category.value| <= 100
    && p.brand.Some? && 1 <= |p.brand.value| <= 100
    && p.attributes.Some? && (forall k :: k in p.attributes.value ==> |k| >= 1 && |p.attributes.value[k]| >= 1)
    && p.stockQuantity.Some? && p.stockQuantity.value >= 0
    && p.images.Some? && |p.images.value| <= 10
  }

  /** A valid update keeps a product within its creation bounds, provided it
      does not bring more than ten images. */
  lemma MergeKeepsCreatedShape(p: Product, u: ProductUpdate, now: Time)
    requires CreatedShape(p) && ValidProductUpdate(u)
    requires u.images.Some? ==> |u.images.value| <= 10
    ensures CreatedShape(Merge(p, u, now))
  {
    var m := Merge(p, u, now);
    if u.attributes.Some? {
      AttributeMapShape(u.attributes.value);
      assert m.attributes == Some(AttributeMap(u.attributes.value));
    } else {
      assert m.attributes == p.attributes;
    }
    assert m.description.Some? && 10 <= |m.description.value| <= 2000;
    assert m.category.Some? && 1 <= |m.category.value| <= 100;
    assert m.brand.Some? && 1 <= |m.brand.value| <= 100;
    assert m.stockQuantity.Some? && m.stockQuantity.value >= 0;
  }

  /** The attribute map of well-formed attributes has non-empty keys and
      values. */
  lemma AttributeMapShape(attrs: seq<Attribute>)
    requires forall i :: 0 <= i < |attrs| ==> ValidAttribute(attrs[i])
    ensures forall k :: k in AttributeMap(attrs) ==> |k| >= 1 && |AttributeMap(attrs)[k]| >= 1
  {
    var m := AttributeMap(attrs);
    forall k | k in m ensures |k| >= 1 && |m[k]| >= 1 {
      AttributeValues(attrs, k);
      var i :| 0 <= i < |attrs| && attrs[i].name == k && attrs[i].value == m[k];
      assert ValidAttribute(attrs[i]);
    }
  }

  /** Every value of the attribute map is the value of a requested
      attribute with that name. */
  lemma AttributeValues(attrs: seq<Attribute>, k: string)
    requires k in AttributeMap(attrs)
    ensures exists i :: 0 <= i < |attrs| && attrs[i].name == k && attrs[i].value == AttributeMap(attrs)[k]
  {
    var pairs := seq(|attrs|, i requires 0 <= i < |attrs| => (attrs[i].name, attrs[i].value));
    assert AttributeMap(attrs) == ToMap(pairs);
    ToMapEntryFrom(pairs, k);
    var i :| 0 <= i < |pairs| && pairs[i] == (k, ToMap(pairs)[k]);
    assert attrs[i].name == k && attrs[i].value == AttributeMap(attrs)[k];
  }

  /** The update request checks no image count, so an update can give a
      product more images than creation allows. */
  lemma UpdateCanExceedImageLimit(p: Product, now: Time)
    requires CreatedShape(p)
    ensures var u := NoChange.(images := Some(seq(11, i => "img")));
            ValidProductUpdate(u) && !CreatedShape(Merge(p, u, now))
  {
  }

  /** `update_product`: 422 for a body outside its bounds, 400/404 from the
      existence check, otherwise the first record with that id is merged
      and returned.  The write happens before the response is built, so a
      merged document that cannot be rendered is stored and reported as a
      500. */
  function UpdateProduct(db: Db, productId: string, u: ProductUpdate, now: Time): (r: (Db, Result<Product, Error>))
    ensures !ValidProductUpdate(u) ==> r == (db, Failure(Unprocessable))
    ensures ValidProductUpdate(u) && !IsValid(productId) ==> r == (db, Failure(InvalidId("product", productId)))
    ensures ValidProductUpdate(u) && IsValid(productId) && !Dependencies.Stored(db.products, ObjectId(Text.Lower(productId))) ==>
              r == (db, Failure(NotFound("product", productId)))
    ensures r.1.Success? <==>
              && ValidProductUpdate(u) && IsValid(productId)
              && Dependencies.Stored(db.products, ObjectId(Text.Lower(productId)))
              && Presentable(Merge(Find(db.products, ObjectId(Text.Lower(productId))).value, u, now))
    ensures r.1.Success? ==> r.1.value == Merge(Find(db.products, ObjectId(Text.Lower(productId))).value, u, now)
    ensures r.1.Success? || r.1.error == Internal ==>
              && r.0.orders == db.orders && SameIds(r.0.products, db.products)
              && Find(r.0.products, ObjectId(Text.Lower(productId))) == Some(Merge(Find(db.products, ObjectId(Text.Lower(productId))).value, u, now))
              && forall k :: 0 <= k < |db.products| && !(IsFirst(db.products, k) && db.products[k].id == ObjectId(Text.Lower(productId))) ==>
                   r.0.products[k] == db.products[k]
  {
    if !ValidProductUpdate(u) then (db, Failure(Unprocessable))
    else match Dependencies.VerifyProductExists(db.products, productId)
      case Failure(e) => (db, Failure(e))
      case Success(p) =>
        var oid := ObjectId(Text.Lower(productId));
        var ps := UpdateFirst(db.products, oid, (x: Product) => Merge(x, u, now));
        var k :| 0 <= k < |db.products| && db.products[k].id == oid && IsFirst(db.products, k) && db.products[k].doc == p;
        IndexOfFirst(db.products, k);
        SameIdsSameFirst(ps, db.products, k);
        IndexOfFirst(ps, k);
        var updated := Find(ps, oid).value;
        (db.(products := ps), if Presentable(updated) then Success(updated) else Failure(Internal))
  }

  /** A product stored by `create_product` stays renderable after any valid
      update, so the 500 path above needs an incomplete document. */
  lemma UpdateOfCreatedSucceeds(db: Db, productId: string, u: ProductUpdate, now: Time)
    requires ValidProductUpdate(u) && IsValid(productId)
    requires forall k :: 0 <= k < |db.products| ==> CreatedShape(db.products[k].doc)
    requires Dependencies.Stored(db.products, ObjectId(Text.Lower(productId)))
    ensures UpdateProduct(db, productId, u, now).1.Success?
  {
    var oid := ObjectId(Text.Lower(productId));
    var found := Find(db.products, oid);
    assert found.Some?;
    var k :| 0 <= k < |db.products| && db.products[k].id == oid && IsFirst(db.products, k) && db.products[k].doc == found.value;
    assert CreatedShape(found.value);
    UpdatedPresentable(found.value, u, now);
  }

  /** A valid update of a product in its creation bounds leaves a document
      this service can render. */
  lemma UpdatedPresentable(p: Product, u: ProductUpdate, now: Time)
    requires CreatedShape(p) && ValidProductUpdate(u)
    ensures Presentable(Merge(p, u, now))
  {
    var m := Merge(p, u, now);
    if u.attributes.Some? {
      AttributeMapShape(u.attributes.value);
      assert m.attributes == Some(AttributeMap(u.attributes.value));
    } else {
      assert m.attributes == p.attributes;
    }
    assert HasResponseFields(m);
  }
}
