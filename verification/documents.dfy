/** The stored documents of the two collections, `products` and `orders`,
    and the errors the handlers raise. */
module Documents {
  import opened Wrappers
  import opened ObjectIds
  import opened Collections

  /** Timestamps (`datetime.utcnow()`), opaque apart from their order. */
  type Time = int

  /** A product document.  Fields some variants never write are optional,
      `attributes` and `images` included: a document stored without them
      lacks the field rather than holding an empty one. */
  datatype Product = Product(
    name: string,
    description: Option<string>,
    price: real,
    size: Option<string>,
    category: Option<string>,
    brand: Option<string>,
    attributes: Option<map<string, string>>,
    stockQuantity: Option<int>,
    images: Option<seq<string>>,
    createdAt: Time,
    updatedAt: Option<Time>)

  /** The document carries every field a `ProductResponse` declares as
      required apart from `attributes`, which each service reads in its own
      way; building the response from a document without them raises. */
  predicate HasResponseFields(p: Product) {
    && p.description.Some? && p.category.Some? && p.brand.Some? && p.stockQuantity.Some?
    && p.images.Some? && p.updatedAt.Some?
  }

  /** `product.get("attributes", {})`: an absent field reads as empty. */
  function AttributesOrEmpty(p: Product): map<string, string> {
    p.attributes.GetOr(map[])
  }

  /** The stored attribute `key`, if the document has that attribute. */
  predicate HasAttribute(p: Product, key: string, value: string) {
    p.attributes.Some? && key in p.attributes.value && p.attributes.value[key] == value
  }

  /** The seven order states. */
  datatype Status = Pending | Confirmed | Processing | Shipped | Delivered | Cancelled | Refunded

  /** One order line.  The snapshot fields are written by some variants only. */
  datatype Line = Line(
    productId: string,
    quantity: int,
    productName: Option<string>,
    pricePerItem: Option<real>,
    totalPrice: Option<real>)

  /** An order document. */
  datatype Order = Order(
    userId: string,
    items: seq<Line>,
    totalAmount: real,
    status: Option<Status>,
    shippingAddress: Option<map<string, string>>,
    paymentMethod: Option<string>,
    createdAt: Time,
    updatedAt: Option<Time>)

  /** The database: both collections in natural order. */
  datatype Db = Db(products: seq<Keyed<Product>>, orders: seq<Keyed<Order>>)

  /** What a handler raises instead of answering. */
  datatype Error =
    | Unprocessable                      // request rejected by its declared schema (422)
    | InvalidId(resource: string, id: string)   // malformed identifier (400)
    | NotFound(resource: string, id: string)    // no document with that identifier (404)
    | ProductsNotFound(missing: set<string>)    // batch lookup with absent identifiers (404)
    | InsufficientStock(productId: string, available: int, requested: int)  // (400)
    | LimitOutOfRange                    // pagination limit outside 1..100 (400)
    | NegativeOffset                     // pagination offset below 0 (400)
    | Internal                           // any other exception, caught and reported (500)

  /** Units on hand as `$inc` sees them: an absent field counts as 0. */
  function Level(p: Product): int {
    p.stockQuantity.GetOr(0)
  }
}
