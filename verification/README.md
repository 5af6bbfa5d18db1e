# A verified model of a small FastAPI/MongoDB order service

The repository is a REST service for a product catalogue and its orders,
backed by two MongoDB collections, `products` and `orders`. It exists in
three near-identical variants that differ in their order-creation rules:

- the top-level `main.py` checks stock, honours an optional client price,
  snapshots the product's name and price, and decrements stock;
- `app/main.py` prices every line from the catalogue and never touches
  stock;
- the draft `tempCodeRunnerFile.py` requires a client price, checks stock
  and decrements it.

Around them sit shared helpers (`app/utils/dependencies.py`,
`app/utils/serializers.py`) and declared request and document schemas
(`app/schemas`, `app/models`, `app/models.py`).

This project models that core as pure functions over an immutable database
value and proves what each handler promises.

- **The store.** `Db` holds both collections as sequences of
  `Keyed(id, doc)` in natural (insertion) order. `find_one` on `_id` is the
  first record with that id. `update_one` rewrites that first record. A
  filtered, sorted and windowed `find` is `FilteredPage` or
  `FilteredWindow`.
- **Which records a page holds.** `PageAt(r, s, p, key, offset)` says that
  `r` is drawn from `s` (as a sub-multiset) and that its record at position
  `i` is a match whose rank among the matches in key order is `offset + i`.
  "Rank n" means at most n matches have a smaller key and more than n
  have a key no larger. With equal keys several records share a rank
  range, so a page is fixed only up to the order of ties; where no two
  matches share a key (`KeysDistinct`) it is fixed outright.
- **Errors.** Every handler answers `Result<_, Error>`. The error values
  stand for the handler's HTTP outcomes:
  - `Unprocessable`: a request outside its declared schema (422);
  - `InvalidId`: a malformed identifier (400);
  - `NotFound` and `ProductsNotFound`: an absent document (404);
  - `InsufficientStock`, `LimitOutOfRange` and `NegativeOffset`: refused
    requests (400);
  - `Internal`: any other exception, caught and reported (500).
- **Writes followed by rendering.** Some handlers write first and build the
  response after. The status update and the product update return the new
  `Db` together with the answer, so a write that is kept while the answer
  is a 500 is visible.
- **Identifiers.** An `ObjectId` is its printed form: 24 lower-case hex
  digits. `ObjectId.is_valid` accepts 24 hex digits in either case.
  `ObjectId(s)` lower-cases them.
- **Untyped values.** The serialisers work on a JSON-like `Value` datatype.

## Model

| member | source | states |
|---|---|---|
| ObjectIds.Parse | app/utils/dependencies.py:48-53 | `ObjectId(s)` exists exactly for the strings `is_valid` accepts, and is their lower-case printed form |
| ObjectIds.ParsePrinted | app/utils/dependencies.py:132 | printing a stored identity (`str(oid)`) and reading it back gives the same identity |
| ObjectIds.ParseIgnoresCase | main.py:238 | two spellings that differ only in letter case name the same document |
| ObjectIds.RankInjective | app/main.py:213 | two real identities with the same place in the `_id` order are the same identity |
| ObjectIds.PrintedFormIsInput | app/utils/dependencies.py:132-135 | a valid id string equals its printed form exactly when it has no upper-case letter |
| Collections.Find | main.py:238 | `find_one` on `_id` finds a document exactly when some record has that id, and returns the first such record |
| Collections.UpdateFirst | main.py:627-635 | `update_one` rewrites only the first record with the id; ids, length and every other record are kept |
| Collections.FindUpdateFirst | main.py:626-637 | `find_one` after `update_one` on the same `_id` returns the rewritten first record, and nothing when there was none |
| Collections.UpdateFirstIdempotent | main.py:627-635 | repeating an `update_one` whose rewrite is idempotent leaves the collection as the first call left it |
| Collections.Filter | app/utils/dependencies.py:128-129 | a filtered `find` returns only matching records, as many as `count_documents` counts |
| Collections.FilterMultiplicity | app/utils/dependencies.py:128-129 | each matching record is kept exactly as often as it occurs in the collection, and nothing else is kept |
| Collections.FilterConcat | tempCodeRunnerFile.py:192 | filtering keeps natural order: the matches of two stretches of the collection are the matches of the first followed by those of the second |
| Collections.FilterMembership | app/utils/dependencies.py:128 | a record is in the filtered result iff it is in the collection and matches |
| Collections.Window | tempCodeRunnerFile.py:192 | `.skip(offset).limit(limit)` returns the `min(limit, n - offset)` records from position `offset` on |
| Collections.SortBy | app/main.py:213 | `.sort(key, 1)` returns a key-ordered permutation of its input |
| Collections.InsertSorted | app/main.py:213 | inserting into a key-ordered sequence keeps it key-ordered |
| Collections.InsertMultiset | app/main.py:213 | insertion adds exactly the one element and loses none |
| Collections.FilteredPage | main.py:368-372 | a sorted, skipped and limited `find` returns `min(limit, count - offset)` matching records from the collection, in key order |
| Collections.FilteredPageComplete | app/main.py:292-293 | with no offset and a limit at least the number of matches, the page holds every match |
| Collections.FilteredWindow | tempCodeRunnerFile.py:189-193 | an unsorted page is exactly the matches from position `offset` on, in natural order |
| Collections.RanksFromIff | main.py:371 | the page predicate holds exactly when every position `i` of the page holds a match of rank `offset + i` in key order |
| Collections.FilteredPageAt | main.py:371 | the sorted page is the run of matches at ranks `offset, offset + 1, …` in key order, drawn from the collection |
| Collections.PageDetermined | app/main.py:213 | where no two matches share a key, any run of matches of the page's length at the page's ranks is the page itself |
| Collections.IdOrderDistinct | app/main.py:213 | in a collection whose `_id`s are real and distinct, no two records share a place in the `_id` order |
| Collections.WindowConcat | tempCodeRunnerFile.py:192 | `.skip(o).limit(a)` followed by `.skip(o + a).limit(b)` gives `.skip(o).limit(a + b)` |
| Collections.FilteredPagesTile | main.py:371 | two consecutive sorted pages together are the sorted page as long as both, for the model's one fixed order of tied keys |
| Collections.FilteredWindowsTile | tempCodeRunnerFile.py:192 | two consecutive unsorted pages together are the unsorted page as long as both |
| Collections.AllConcat | main.py:376-381 | a per-record condition, such as being renderable, holds along a run of records iff it holds along both its parts |
| Collections.FilteredPageAll | app/main.py:292 | a first page with room for every match is a key-ordered permutation of the matches |
| Collections.ToMapEntryFrom | app/utils/dependencies.py:132 | every entry of a dict comprehension is one of its pairs |
| Collections.ToMapKeys | app/utils/dependencies.py:132 | a dict comprehension has exactly the keys of its pairs |
| Collections.ToMapLast | app/utils/dependencies.py:132 | in a dict comprehension a later pair overwrites an earlier one: each key holds the value of the last pair carrying it |
| Dependencies.ValidateObjectId | app/utils/dependencies.py:48-53 | fails with a 400 naming the resource iff the id is malformed; otherwise returns the canonical identity |
| Dependencies.LookupById | app/utils/dependencies.py:70-79 | validate-then-find: malformed is 400, absent is 404, otherwise the first stored document with that id |
| Dependencies.VerifyProductExists | app/utils/dependencies.py:70-79 | a 400 for a malformed id before any lookup, a 404 for an absent product, otherwise the product found |
| Dependencies.VerifyOrderExists | app/utils/dependencies.py:96-105 | the same for orders: 400, then 404, otherwise the order found |
| Dependencies.ValidateAll | app/utils/dependencies.py:123-125 | every id is validated before any query; the first malformed id decides the 400 |
| Dependencies.VerifyProductsExist | app/utils/dependencies.py:108-142 | a malformed id gives 400 even when others are missing; otherwise 404 with the requested strings not among the printed ids found; on success the key set is the set of requested ids (duplicates collapse) and each value is the document stored under the id its key prints |
| Dependencies.FoundValues | app/utils/dependencies.py:128-132 | each value of the found map is the stored document whose printed id is its key |
| Dependencies.MissingIsMissingAsWritten | app/utils/dependencies.py:135-136 | the set difference is exactly the requested strings that are not printed ids of stored products |
| Dependencies.FoundKeys | app/utils/dependencies.py:128-132 | a requested string is a key of the map iff it is the printed id of a stored product; every key comes from a request |
| Dependencies.FoundRecord | app/utils/dependencies.py:128-129 | every document the `$in` query returns is a stored record whose id was asked for |
| Dependencies.VerifyProductsExistFixed | app/utils/dependencies.py:116-121 | corrected batch lookup: succeeds iff every single lookup succeeds, keyed by the requested strings, each value the single lookup's document |
| Dependencies.UppercaseIdReportedMissing | app/utils/dependencies.py:132-140 | an upper-case spelling of a stored id passes the single lookup but is reported missing by the batch lookup (the corrected one accepts it) |
| Dependencies.UppercaseIdExample | app/utils/dependencies.py:132-140 | concrete instance: the id `"AAA…A"` of a product stored as `"aaa…a"` |
| Dependencies.ValidatePaginationParams | app/utils/dependencies.py:159-171 | succeeds iff 1 ≤ limit ≤ 100 and offset ≥ 0, returning both unchanged; a bad limit is reported first |
| Listing.ValidPageAgreesWithPaginationCheck | main.py:333-334 | the `Query(ge=1, le=100)` / `Query(ge=0)` bounds accept exactly what `validate_pagination_params` accepts |
| OrderStatus.Parse | main.py:213-217 | a status string denotes a state iff its lower-case form is one of the seven names, and the state's name is that form |
| OrderStatus.ParseName | main.py:214 | every state's stored name reads back as that state, so the names are distinct |
| OrderStatus.ValidateStatus | app/schemas/order.py:36-41 | accepts iff the lower-case form is one of the seven statuses, returning that form; otherwise 422 |
| OrderStatus.ValidateStatusIdempotent | app/schemas/order.py:39-41 | validating a validated status returns it unchanged |
| OrderStatus.ValidateStatusAgreesWithParse | app/main.py:380-385 | the validator accepts exactly the strings that name a state, and returns that state's name |
| OrderStatus.DocumentStatus | app/models/order.py:49-72 | an absent status defaults to pending; a given one is accepted iff it names a state, and is stored lower-case |
| OrderStatus.MixedCaseShipped | main.py:213-217 | `"Shipped"` is accepted and becomes `"shipped"` |
| OrderStatus.UnknownRejected | main.py:213-217 | `"unknown"` is rejected |
| Ordering.PriceItems | main.py:498-526 | the pricing loop: success iff every line prices, then the lines in request order with the running total as their sum; otherwise the error of the first failing line |
| Ordering.PriceItemsPointwise | app/main.py:238-253 | the loop depends on the lines only through what the step makes of each |
| Ordering.DecrementAll | main.py:537-544 | the decrement loop keeps every record's id and position |
| Ordering.DecrementAllEffect | main.py:537-544 | after the loop, the first record of each ordered product has lost exactly the units ordered over all its lines; all other records are unchanged |
| Ordering.StockAfterDecrement | main.py:537-544 | each product's stock falls by exactly the units ordered for it (none when not ordered) |
| Ordering.TotalIsLineTotal | main.py:511-519 | when each stored line records its own amount, the running total equals the sum of the line totals |
| Ordering.QtyForSingle | main.py:503 | when only one line names a product, the units ordered for it are that line's quantity |
| RootApi.ValidateOrderRequest | main.py:149-179 | accepts iff the id is valid, quantities are 1..100, prices when given are positive, there are 1..50 items, the user id is non-empty, the address has the five fields and the payment method is known in any case; the method comes back lower-cased |
| RootApi.ValidateOrderRequestIdempotent | main.py:175-179 | validating a validated request returns it unchanged |
| RootApi.PriceFound | main.py:503-519 | more units than the stock is a 400 with the available and requested counts; no stock field is a 500; otherwise the price is the client's when given else the catalogue's, the total is price × quantity, and the name is snapshotted |
| RootApi.PriceLine | main.py:500-519 | one pass: the existence check's 400/404 first, then the stock check and pricing of the product found |
| RootApi.CreateOrder | main.py:490-556 | 422 for a bad request; success iff every line prices; otherwise the first failing line's error and nothing written; on success the order is pending, its lines are in request order, its address and lower-cased method are stored, and its total is the sum of the line amounts; products are decremented |
| RootApi.CreateOrderLinePrices | main.py:510-520 | every stored line carries the client's price or the product's catalogue price, the product's name, and asked for no more than the stock before the order |
| RootApi.PricedLineTotals | main.py:510-519 | every priced line's total is its price times its quantity |
| RootApi.CreateOrderTotal | main.py:510-526 | the stored total equals the sum of the stored line totals, and each line total is price × quantity |
| RootApi.CreateOrderStock | main.py:537-544 | after an order, each ordered product has lost exactly its ordered units and carries the order time; unordered products are unchanged |
| RootApi.RepeatedLineOverdraws | main.py:503-544 | as written: two lines for the same product, each within stock but together not, are accepted and leave the stock negative |
| RootApi.OverdrawExample | main.py:503-544 | concrete instance: stock 1, two lines of 1 unit, stock becomes -1 |
| RootApi.CheckDemand | main.py:503-507 | the aggregate check passes iff every line's product covers the whole order's demand for it; a failure is an insufficient-stock error |
| RootApi.CreateOrderChecked | main.py:490-556 | corrected creation: succeeds iff the original succeeds and every product covers its total demand, and then gives the same result |
| RootApi.CoveredFirstRecord | main.py:503 | a covered line's product, read as its first record, holds at least the units ordered for it |
| RootApi.CheckedKeepsStockNonNegative | main.py:107 | the corrected creation never drives any stock below zero |
| RootApi.CheckedAgreesWhenDistinct | main.py:503-507 | when no two lines name the same product, corrected and as-written creation agree |
| RootApi.StoreOrderStatus | main.py:614-635 | 422 for an unknown status, then 400 for a malformed id and 404 for an absent order; on success only the first record with the id gets the lower-case status and the update time; products and all other orders are unchanged |
| RootApi.StoreOrderStatusIdempotent | main.py:627-635 | repeating the same status update changes nothing further |
| RootApi.UpdateOrderStatus | main.py:614-647 | the write above, then rendering: the answer is the updated order iff the order has an address, a payment method and full line snapshots; otherwise 500, with the write kept |
| RootApi.CreatedOrderPresentable | main.py:188-200 | every order this service creates has every field its `OrderResponse` requires |
| RootApi.ListProducts | main.py:324-395 | 422 outside the query bounds; success iff the query is valid and every document on the page can be rendered (else 500); `total_count` counts all matches; the page holds `min(limit, total - offset)` matching stored products, newest first; `has_more` is `offset + limit < total_count` |
| RootApi.ListedPageAt | main.py:370-372 | the listed products are the matches at ranks `offset, offset + 1, …` newest first |
| RootApi.ListingDetermined | main.py:370-372 | where no two matches share a creation time, nothing but the listing is such a run |
| RootApi.ConsecutivePages | main.py:370-383 | where no two matches share a creation time, asking for two consecutive pages at once gives the first followed by the second, and succeeds exactly when both do |
| RootApi.PagesJoin | main.py:370-372 | where no two matches share a creation time, the documents of two consecutive pages make up the documents of the page as long as both |
| RootApi.HasMoreIffMatchesRemain | main.py:383 | `has_more` holds iff matches remain beyond the returned page |
| RootApi.EmptyFiltersIgnored | main.py:342-352 | an empty name, category, brand or size filter is no filter |
| RootApi.AttributeMap | main.py:442 | the stored attribute map has exactly the request's attribute names as keys |
| RootApi.MergeFields | main.py:425-448 | supplied fields replace the stored ones, absent fields keep their values, `updated_at` is set, `created_at` is kept |
| RootApi.MergeIdempotent | main.py:425-448 | applying the same update twice equals applying it once |
| RootApi.NoChangeOnlyStamps | main.py:425 | an update that supplies nothing only sets `updated_at` |
| RootApi.MergeTwice | main.py:425-448 | two successive updates equal one update with the later fields winning |
| RootApi.MergeKeepsCreatedShape | main.py:100-124 | a valid update with at most ten images keeps a product within its creation bounds |
| RootApi.AttributeValues | main.py:442 | every value in the attribute map is the value of a requested attribute with that name |
| RootApi.AttributeMapShape | main.py:442 | the attribute map of attributes with non-empty names and values has only non-empty keys and values |
| RootApi.UpdateCanExceedImageLimit | main.py:110-124 | the update schema has no image bound, so an update can give a product eleven images |
| RootApi.UpdateProduct | main.py:417-466 | 422, then 400, then 404, with nothing written; otherwise the first record is merged, no other record or order changes, and the answer is the merged product, or a 500 with the write kept when it lacks a response field |
| RootApi.UpdatedPresentable | main.py:451-460 | a product within its creation bounds can still be rendered after any valid update |
| RootApi.UpdateOfCreatedSucceeds | main.py:290-301 | a product stored by `create_product` is answered, not refused with a 500, after any valid update |
| TaskApi.CatalogLine | app/main.py:238-253 | 400 for a malformed id, 404 for an absent product; otherwise the stored line is just id and quantity, and its amount is the catalogue price × quantity |
| TaskApi.RunningTotalIsCatalogTotal | app/main.py:247-248 | the running total equals the reference sum of catalogue price × quantity |
| TaskApi.CreateOrder | app/main.py:230-275 | 422 for a bad request; success iff every line's product is stored; otherwise a 404 for the first absent product; products are unchanged; lines are id and quantity in request order; the total is the catalogue total |
| TaskApi.ClientPriceIgnored | app/main.py:102-114 | requests that agree on the user and on each line's product and quantity give the same result, whatever prices they carry |
| TaskApi.CatalogTotalNonNegative | app/main.py:247-248 | with non-negative catalogue prices, the total is non-negative |
| TaskApi.OwnOrderStatusUpdateFails | app/main.py:512-545 | as written: for an order this service created, the status update stores the new status and then answers 500 |
| TaskApi.UpdateOrderStatusFixed | app/schemas/order.py:73-85 | corrected status update: the same write and errors, and success whenever the write succeeds, returning the updated order |
| TaskApi.OwnOrderStatusUpdateFixed | app/schemas/order.py:73-85 | with the corrected response, an order this service created has its status updated and returned |
| TaskApi.ListProducts | app/main.py:190-228 | `total` counts all matches; the page holds `min(limit, total - offset)` matching stored products in `_id` order; `previous` echoes the offset |
| TaskApi.GetUserOrders | app/main.py:277-308 | `total` counts the user's orders; the page holds only that user's orders, at most `limit` of them, in `_id` order |
| TaskApi.ListedPageAt | app/main.py:212-214 | the listed products are the matches at ranks `offset, offset + 1, …` in `_id` order |
| TaskApi.ListingDetermined | app/main.py:212-214 | in a collection the store could hold, nothing but the listing is such a run of matches |
| TaskApi.ConsecutivePages | app/main.py:212-214 | asking for two consecutive pages at once gives the first followed by the second |
| TaskApi.UserOrdersPageAt | app/main.py:291-293 | the page holds the user's orders at ranks `offset, offset + 1, …` in `_id` order |
| TaskApi.UserOrdersDetermined | app/main.py:291-293 | in a collection the store could hold, nothing but the page is such a run of the user's orders |
| TaskApi.ConsecutiveUserOrderPages | app/main.py:291-293 | two consecutive pages of a user's orders make up the page as long as both |
| TaskApi.FirstPageHoldsAllUserOrders | app/main.py:289-293 | when all of a user's orders fit on the first page, the page holds every one of them |
| DraftApi.ClientLine | tempCodeRunnerFile.py:224-245 | a malformed id is a 500; an absent product is a 404; a missing stock field is a 500; more units than the stock is a 400; otherwise the line stores the client's price and price × quantity |
| DraftApi.RunningTotalIsClientTotal | tempCodeRunnerFile.py:237-238 | the running total equals the reference sum of client price × quantity |
| DraftApi.CreateOrder | tempCodeRunnerFile.py:214-276 | 422 for a bad request; success iff every line passes; otherwise the first failing line's error; on success the order is pending, its total is the client total, and each line's product is decremented |
| DraftApi.CatalogPriceIgnored | tempCodeRunnerFile.py:237-245 | catalogues that differ only in prices yield the same success and the same order |
| DraftApi.SamePricelessFind | tempCodeRunnerFile.py:226-231 | catalogues with the same ids and stock give the same lookup result up to price |
| DraftApi.PriceItemsSameStep | tempCodeRunnerFile.py:224-245 | the loop gives the same result over catalogues the per-line step cannot tell apart |
| DraftApi.DraftStockEffect | tempCodeRunnerFile.py:261-266 | each ordered product has lost exactly its ordered units, with `updated_at` untouched; other products are unchanged |
| DraftApi.ConsumeKeepsUpdatedAt | tempCodeRunnerFile.py:263-266 | the draft's `$inc` changes the stock field only |
| DraftApi.LargeQuantityAccepted | tempCodeRunnerFile.py:82-91 | the draft schema has no quantity cap: 101 units of a well-stocked product are accepted |
| DraftApi.ListProducts | tempCodeRunnerFile.py:167-212 | success iff the query is valid and every document in the window has its response fields and an `attributes` field (else 500); `total_count` counts all matches; the page is the matches from position `offset` on in natural order, at most `limit` |
| DraftApi.ConsecutivePages | tempCodeRunnerFile.py:191-201 | asking for two consecutive windows at once gives the first followed by the second, and succeeds exactly when both do |
| DraftApi.WindowsJoin | tempCodeRunnerFile.py:191-193 | the documents of two consecutive windows make up the window as long as both |
| DraftApi.GetUserOrders | tempCodeRunnerFile.py:278-307 | success iff the page is valid and every order on it can be rendered (else 500); the page holds only the user's orders, `min(limit, total - offset)` of them, newest first |
| DraftApi.UserOrdersPageAt | tempCodeRunnerFile.py:293-295 | the page holds the user's orders at ranks `offset, offset + 1, …` newest first |
| DraftApi.UserOrdersDetermined | tempCodeRunnerFile.py:293-295 | where no two of the user's orders share a creation time, nothing but the page is such a run |
| DraftApi.ConsecutiveUserOrderPages | tempCodeRunnerFile.py:293-297 | where no two of the user's orders share a creation time, two consecutive pages of them make up the page as long as both, which succeeds exactly when both do |
| DraftApi.OrderPagesJoin | tempCodeRunnerFile.py:293-295 | where no two of the user's orders share a creation time, the orders of two consecutive pages make up the page as long as both |
| DraftApi.CreatedOrderRenderable | tempCodeRunnerFile.py:93-108 | every order the draft creates has every field its `OrderResponse` requires |
| Serializers.SerializeDoc | app/utils/serializers.py:8-28 | `None` stays `None`; otherwise the same keys in order, every field other than `_id` unchanged, and an ObjectId `_id` printed |
| Serializers.SerializeDocIdempotent | app/utils/serializers.py:25-28 | serialising twice is serialising once |
| Serializers.Present | app/utils/serializers.py:41 | dropping `None`s never lengthens the list |
| Serializers.SerializeDocs | app/utils/serializers.py:31-41 | one serialised document for each document present, each the serialisation of the present document at that position (which documents are present, and in what order, is `PresentMembers` and `PresentConcat`) |
| Serializers.PresentConcat | app/utils/serializers.py:41 | dropping `None`s keeps order: the documents present in two lists one after the other are those of the first followed by those of the second |
| Serializers.PresentMembers | app/utils/serializers.py:41 | a document is kept exactly when the list holds it, so nothing but the `None`s is dropped |
| Serializers.SerializeDocsConcat | app/utils/serializers.py:31-41 | serialising a list in two parts and joining the results is serialising it whole |
| Serializers.SerializeDocsNoGaps | app/utils/serializers.py:41 | a list without `None`s serialises entry by entry |
| Serializers.SerializeDocsAllAbsent | app/utils/serializers.py:41 | a list of only `None`s serialises to the empty list |
| Serializers.ConvertFields | app/utils/serializers.py:55-61 | the dict comprehension keeps the keys and their order |
| Serializers.ConvertItems | app/utils/serializers.py:62-63 | the list comprehension keeps the length |
| Serializers.ConvertFieldsAt | app/utils/serializers.py:55-61 | each converted field is the original key with the converted value |
| Serializers.ConvertItemsAt | app/utils/serializers.py:62-63 | each converted item is the converted original |
| Serializers.ConvertRemovesOids | app/utils/serializers.py:44-67 | no ObjectId is left at any depth, and the shape is kept: same keys, same list lengths, other scalars equal |
| Serializers.ConvertOidFree | app/utils/serializers.py:64-67 | a value without ObjectIds comes back unchanged |
| Serializers.ConvertIdempotent | app/utils/serializers.py:44-67 | converting twice is converting once |
| Serializers.SerializeDocIsConvert | app/utils/serializers.py:22-63 | for a document whose only ObjectId is its `_id`, the shallow and deep serialisations agree |
| Schemas.OrderRequestSchemasAgree | app/schemas/order.py:13-28 | the package's order schemas (the same bounds as app/models.py) accept exactly what `app/main.py` accepts; the top-level service accepts only such requests |
| Schemas.PageDefaultsValid | app/schemas/order.py:48-49 | the default page (limit 10, offset 0) is within the bounds |
| Schemas.StoredProductValid | app/main.py:166-176 | a product request the schema accepts is stored as a valid `ProductDocument` |
| Schemas.TaskOrderValid | app/models/order.py:38-46 | `app/main.py` stores valid `OrderDocument`s as long as catalogue prices are non-negative |
| Schemas.RootOrderValid | app/models/order.py:44-46 | the top-level service stores valid `OrderDocument`s (total ≥ 0) as long as catalogue prices are non-negative |
| Schemas.DraftOrderMayBeInvalid | app/models/order.py:11-14 | the draft can store an order line of 101 units, which `OrderItemDocument` forbids |
| Schemas.StatusUpdateKeepsOrdersValid | app/models/order.py:44-49 | a status update keeps every order document valid |
| Schemas.UpdateKeepsProductValid | app/models/product.py:23-34 | a valid partial update keeps a valid product document valid |
| Schemas.CheckedOrderKeepsProductsValid | app/models/product.py:34 | with the aggregate stock check, an order keeps every product's stock at or above zero |
| Schemas.OverdrawInvalidatesProduct | app/models/product.py:34 | as written, the top-level service can turn a valid product document into one with negative stock |
| Schemas.ApplyPackageUpdate | app/schemas/product.py:21-31 | the package's update schema applied field by field: every field given (`size` included) replaces the stored one, every field absent is kept, `updated_at` is stamped and `created_at` kept |
| Schemas.PackageUpdateWithoutSize | app/schemas/product.py:21-31 | a package update without a size is exactly the top-level service's update |
| Schemas.PackageUpdateKeepsProductValid | app/schemas/product.py:21-31 | an update the package schema accepts keeps a product document valid |
| Schemas.EmptySizeBreaksProduct | app/schemas/product.py:26 | an empty size is refused by the schema and would break the document's size bound |
| Schemas.ListingQueryWithinParams | app/schemas/product.py:34-43 | every query the top-level listing accepts is within `ProductQueryParams`; that schema also admits `max_price = 0`, which the listing refuses |

## Left out

- MongoDB and Motor I/O, the lifespan hooks, index creation, `get_database`'s 503, and the root and health endpoints. The store is the `Db` value.
- FastAPI routing, JSON encoding, status codes and message strings. Errors are the `Error` datatype.
- Timestamps. `datetime.utcnow()` is the parameter `now`, and each handler uses one value for all its stamps.
- The identity of a new document (`inserted_id`). It is a parameter `newId`.
- Floating point. Prices and totals are real numbers, so rounding (e.g. 19.99 × 2) is not modelled.
- `$regex` with `re.escape` and option `i`. It is modelled as an ASCII case-insensitive substring test, and `str.lower` as ASCII lower-casing.
- `ObjectId.is_valid` on non-string arguments, and whitespace tolerance in `bytes.fromhex`.
- Shipping addresses. They are maps from strings to strings rather than arbitrary JSON.
- The response models' conversion of the attribute map to a list, and the field types they check. Whether a response can be built is modelled by `RootApi.Presentable`, `DraftApi.Presentable` and the orders' `OrderRenderable`, as the presence of the fields they require (and, for the top-level service, non-empty attribute names and values).
- The relative order of records with equal sort keys. The store does not fix it, and may order ties differently from one query to the next; the model's insertion sort fixes one order. The listings claim only key order (`PageAt`). The lemmas that join consecutive newest-first pages (`RootApi.ConsecutivePages`, `RootApi.PagesJoin`, `DraftApi.ConsecutiveUserOrderPages`, `DraftApi.OrderPagesJoin`) require distinct creation times, where the order is forced. The `_id` order of `app/main.py` never ties in a collection the store could hold (`Collections.IdOrderDistinct`), so its page-joining lemmas need no such hypothesis. `Collections.FilteredPagesTile` is a fact about the model's sort.
- The non-atomic insert-then-decrement sequence and concurrent requests. Requests run one at a time, and the in-memory decrement cannot fail half-way.
- `main.py`'s `create_product`, `get_product`, `delete_product`, `get_order` and `get_user_orders`, and `app/main.py`'s `get_product`, `delete_product` and `get_order`. They are plain reads and writes outside the core. `Schemas.StoredProduct` gives the document `app/main.py`'s `create_product` writes. `app/main.py`'s `update_product` is the same code, over the same schema, as `main.py`'s and is modelled by `RootApi.UpdateProduct`.
- A handler for the package's `UpdateProductRequest`. No handler in the repository applies that schema; `Schemas.ApplyPackageUpdate` gives the `$set` it would describe when built as `main.py:425-448` builds its own.
- The duplicate-name check in `create_product`.
- DraftApi.CreateOrder: the repeated-product overdraw of `RootApi.RepeatedLineOverdraws` applies to the draft too. It is stated and corrected only for the top-level service.
- The top-level service's products carry no top-level `size`, so they are not `ProductDocument`s. The document invariants are stated against `Schemas.ProductDocumentValid` only where a handler stores one.
- The request schemas of `app/schemas/common.py` and the package `__init__` re-exports.

## Findings

| source | as written | input that shows it | evidently intended | confidence | as-written member | corrected member |
|---|---|---|---|---|---|---|
| app/utils/dependencies.py:132-136 | the found map is keyed by `str(ObjectId)`, which is lower-case, and is compared with the requested strings as given | an existing product requested as `"AAAAAAAAAAAAAAAAAAAAAAAA"` (stored as `"aaa…a"`): `verify_product_exists` finds it, `verify_products_exist` answers 404 | every id that the single lookup finds is found, keyed by the requested string | not executed | Dependencies.UppercaseIdReportedMissing | Dependencies.VerifyProductsExistFixed |
| main.py:503-507 | each line is checked against the stock the product had before the order | stock 1, two lines of the same product with quantity 1: the order is accepted and the stock becomes -1 | the order is refused unless the product covers the units of all its lines | not executed | RootApi.RepeatedLineOverdraws | RootApi.CreateOrderChecked |
| app/main.py:512-545 | the status update renders the order with an `OrderResponse` that requires address, payment method and line snapshots; this file's `create_order` writes none of them | create an order through `app/main.py`, then `PATCH` its status to `"shipped"`: the status is stored and the answer is a 500 | answer with the package's `OrderResponse` (app/schemas/order.py:73-85), where those fields are optional | not executed | TaskApi.OwnOrderStatusUpdateFails | TaskApi.UpdateOrderStatusFixed |
