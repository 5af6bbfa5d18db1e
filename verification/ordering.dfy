/** What the three order-creation handlers share: the request shape, the
    loop that prices each requested line in request order while keeping a
    running total, and the stock decrements applied after the insert. */
module Ordering {
  import opened Wrappers
  import Text
  import opened ObjectIds
  import opened Collections
  import opened Documents

  /** One requested line.  `pricePerItem` is `None` where the client gave
      none or where the handler's schema has no such field. */
  datatype ItemRequest = ItemRequest(productId: string, quantity: int, pricePerItem: Option<real>)

  /** An order request.  Handlers whose schema has no address or payment
      method never read those fields. */
  datatype OrderRequest = OrderRequest(
    userId: string,
    items: seq<ItemRequest>,
    shippingAddress: map<string, string>,
    paymentMethod: string)

  /** A priced line: the line to store and the `item_total` added to the
      running `total_amount`. */
  datatype Priced = Priced(line: Line, amount: real)

  /** `price * quantity`: the `item_total` of a line. */
  function Cost(price: real, quantity: int): real {
    price * quantity as real
  }

  lemma CostNonNegative(price: real, quantity: int)
    requires price >= 0.0 && quantity >= 0
    ensures Cost(price, quantity) >= 0.0
  {
  }

  /** How one handler prices one requested line against the catalogue. */
  type Step = (seq<Keyed<Product>>, ItemRequest) -> Result<Priced, Error>

  /** Sum of the amounts. */
  function Total(s: seq<Priced>): real {
    if |s| == 0 then 0.0 else s[0].amount + Total(s[1..])
  }

  lemma {:induction false} TotalSnoc(s: seq<Priced>, p: Priced)
    ensures Total(s + [p]) == Total(s) + p.amount
  {
    if |s| == 0 {
      assert s + [p] == [p];
      assert [p][1..] == [];
    } else {
      assert (s + [p])[1..] == s[1..] + [p];
      TotalSnoc(s[1..], p);
    }
  }

  /** The stored lines of the priced lines. */
  function Lines(s: seq<Priced>): (r: seq<Line>)
    ensures |r| == |s| && forall i :: 0 <= i < |s| ==> r[i] == s[i].line
  {
    seq(|s|, i requires 0 <= i < |s| => s[i].line)
  }

  /** Item `i` is the first item the step rejects. */
  predicate FirstFailure(ps: seq<Keyed<Product>>, items: seq<ItemRequest>, step: Step, i: int) {
    0 <= i < |items| && step(ps, items[i]).Failure? &&
    forall j :: 0 <= j < i ==> step(ps, items[j]).Success?
  }

  /** The pricing loop (`for item in order.items: ... total_amount +=
      item_total; order_items.append(...)`): the priced lines in request
      order with their running total, or the error of the first line the
      step rejects. */
  function PriceItems(ps: seq<Keyed<Product>>, items: seq<ItemRequest>, step: Step): (r: Result<(seq<Priced>, real), Error>)
    ensures r.Success? <==> forall i :: 0 <= i < |items| ==> step(ps, items[i]).Success?
    ensures r.Success? ==> |r.value.0| == |items| && forall i :: 0 <= i < |items| ==> r.value.0[i] == step(ps, items[i]).value
    ensures r.Success? ==> r.value.1 == Total(r.value.0)
    ensures r.Failure? ==> exists i :: FirstFailure(ps, items, step, i) && r.error == step(ps, items[i]).error
    decreases |items|
  {
    if |items| == 0 then Success(([], 0.0))
    else
      var init := items[..|items| - 1];
      assert forall j :: 0 <= j < |init| ==> init[j] == items[j];
      var acc :- PriceItems(ps, init, step);
      var p :- step(ps, items[|items| - 1]);
      TotalSnoc(acc.0, p);
      Success((acc.0 + [p], acc.1 + p.amount))
  }

  /** The pricing loop depends on the requested lines only through what the
      step makes of each of them. */
  lemma {:induction false} PriceItemsPointwise(ps: seq<Keyed<Product>>, a: seq<ItemRequest>, b: seq<ItemRequest>, step: Step)
    requires |a| == |b| && forall i :: 0 <= i < |a| ==> step(ps, a[i]) == step(ps, b[i])
    ensures PriceItems(ps, a, step) == PriceItems(ps, b, step)
    decreases |a|
  {
    if |a| > 0 {
      var ia := a[..|a| - 1];
      var ib := b[..|b| - 1];
      forall i | 0 <= i < |ia| ensures step(ps, ia[i]) == step(ps, ib[i]) {
        assert ia[i] == a[i] && ib[i] == b[i];
      }
      PriceItemsPointwise(ps, ia, ib, step);
    }
  }

  /** The `_id` a requested line addresses: `ObjectId(item.product_id)`. */
  function Target(item: ItemRequest): ObjectId {
    ObjectId(Text.Lower(item.productId))
  }

  /** Some line of `items` addresses `oid`. */
  predicate Referenced(items: seq<ItemRequest>, oid: ObjectId) {
    exists i :: 0 <= i < |items| && Target(items[i]) == oid
  }

  /** Units of `oid` requested over all lines. */
  function QtyFor(items: seq<ItemRequest>, oid: ObjectId): int
    decreases |items|
  {
    if |items| == 0 then 0
    else
      var last := items[|items| - 1];
      QtyFor(items[..|items| - 1], oid) + (if Target(last) == oid then last.quantity else 0)
  }

  lemma {:induction false} QtyForUnreferenced(items: seq<ItemRequest>, oid: ObjectId)
    requires !Referenced(items, oid)
    ensures QtyFor(items, oid) == 0
    decreases |items|
  {
    if |items| > 0 {
      var init := items[..|items| - 1];
      assert !Referenced(init, oid) by {
        forall i | 0 <= i < |init| ensures Target(init[i]) != oid {
          assert init[i] == items[i];
        }
      }
      QtyForUnreferenced(init, oid);
    }
  }

  /** Two lines naming the same product ask for both quantities. */
  lemma QtyForPair(item: ItemRequest)
    ensures QtyFor([item, item], Target(item)) == 2 * item.quantity
  {
    assert [item, item][..1] == [item];
    assert [item][..0] == [];
    assert QtyFor([item], Target(item)) == item.quantity;
  }

  /** A product after `{"$inc": {"stock_quantity": -q}}`, with `updated_at`
      set as well when `touch` carries a time.  An absent stock field is
      created, as `$inc` does. */
  function Consume(p: Product, q: int, touch: Option<Time>): Product {
    p.(stockQuantity := Some(Level(p) - q), updatedAt := if touch.Some? then touch else p.updatedAt)
  }

  /** The decrement loop run after the insert: one `update_one` per line, in
      request order. */
  function DecrementAll(ps: seq<Keyed<Product>>, items: seq<ItemRequest>, touch: Option<Time>): (r: seq<Keyed<Product>>)
    ensures SameIds(r, ps)
    decreases |items|
  {
    if |items| == 0 then ps
    else
      var last := items[|items| - 1];
      UpdateFirst(DecrementAll(ps, items[..|items| - 1], touch), Target(last), (p: Product) => Consume(p, last.quantity, touch))
  }

  /** The net effect of the decrement loop: the first
      record of each product the order names has lost exactly the units
      ordered over all its lines (and carries the update time, if any);
      every other record is unchanged. */
  lemma {:induction false} DecrementAllEffect(ps: seq<Keyed<Product>>, items: seq<ItemRequest>, touch: Option<Time>)
    ensures forall k :: 0 <= k < |ps| ==>
              DecrementAll(ps, items, touch)[k].doc ==
              (if IsFirst(ps, k) && Referenced(items, ps[k].id)
               then Consume(ps[k].doc, QtyFor(items, ps[k].id), touch)
               else ps[k].doc)
    decreases |items|
  {
    if |items| > 0 {
      var init := items[..|items| - 1];
      var last := items[|items| - 1];
      var mid := DecrementAll(ps, init, touch);
      DecrementAllEffect(ps, init, touch);
      var r := DecrementAll(ps, items, touch);
      forall k | 0 <= k < |ps|
        ensures r[k].doc ==
                (if IsFirst(ps, k) && Referenced(items, ps[k].id)
                 then Consume(ps[k].doc, QtyFor(items, ps[k].id), touch)
                 else ps[k].doc)
      {
        SameIdsSameFirst(mid, ps, k);
        var id := ps[k].id;
        assert Referenced(items, id) <==> Referenced(init, id) || Target(last) == id by {
          if Referenced(items, id) {
            var i :| 0 <= i < |items| && Target(items[i]) == id;
            if i < |init| { assert init[i] == items[i]; }
          }
          if Referenced(init, id) {
            var i :| 0 <= i < |init| && Target(init[i]) == id;
            assert items[i] == init[i];
          }
        }
        if IsFirst(ps, k) && Target(last) == id && !Referenced(init, id) {
          QtyForUnreferenced(init, id);
        }
      }
    }
  }

  /** Stock view of the same effect: the first record of every product has
      lost exactly the units ordered for it (none, when the order does not
      name it). */
  lemma StockAfterDecrement(ps: seq<Keyed<Product>>, items: seq<ItemRequest>, touch: Option<Time>, k: int)
    requires 0 <= k < |ps| && IsFirst(ps, k)
    ensures Level(DecrementAll(ps, items, touch)[k].doc) == Level(ps[k].doc) - QtyFor(items, ps[k].id)
  {
    DecrementAllEffect(ps, items, touch);
    if !Referenced(items, ps[k].id) {
      QtyForUnreferenced(items, ps[k].id);
    }
  }

  /** No stored product has negative stock (an absent field reads as 0). */
  predicate StockNonNegative(ps: seq<Keyed<Product>>) {
    forall k :: 0 <= k < |ps| ==> Level(ps[k].doc) >= 0
  }

  /** Sum of the stored line totals (`total_price`, absent counting as 0). */
  function LineTotal(lines: seq<Line>): real {
    if |lines| == 0 then 0.0 else lines[0].totalPrice.GetOr(0.0) + LineTotal(lines[1..])
  }

  /** Line totals that are all non-negative sum to a non-negative amount. */
  lemma {:induction false} LineTotalNonNegative(lines: seq<Line>)
    requires forall i :: 0 <= i < |lines| ==> lines[i].totalPrice.GetOr(0.0) >= 0.0
    ensures LineTotal(lines) >= 0.0
  {
    if |lines| > 0 {
      LineTotalNonNegative(lines[1..]);
    }
  }

  /** When every stored line records its own amount as `total_price`, the
      running total equals the sum of the stored line totals. */
  lemma {:induction false} TotalIsLineTotal(s: seq<Priced>)
    requires forall i :: 0 <= i < |s| ==> s[i].line.totalPrice == Some(s[i].amount)
    ensures Total(s) == LineTotal(Lines(s))
  {
    if |s| > 0 {
      assert Lines(s)[1..] == Lines(s[1..]);
      TotalIsLineTotal(s[1..]);
    }
  }

  /** When exactly one line addresses `oid`, the units requested for it are
      that line's quantity. */
  lemma {:induction false} QtyForSingle(items: seq<ItemRequest>, i: int)
    requires 0 <= i < |items|
    requires forall j :: 0 <= j < |items| && j != i ==> Target(items[j]) != Target(items[i])
    ensures QtyFor(items, Target(items[i])) == items[i].quantity
    decreases |items|
  {
    var init := items[..|items| - 1];
    if i == |items| - 1 {
      assert !Referenced(init, Target(items[i])) by {
        forall j | 0 <= j < |init| ensures Target(init[j]) != Target(items[i]) {
          assert init[j] == items[j];
        }
      }
      QtyForUnreferenced(init, Target(items[i]));
    } else {
      assert init[i] == items[i];
      forall j | 0 <= j < |init| && j != i ensures Target(init[j]) != Target(init[i]) {
        assert init[j] == items[j];
      }
      QtyForSingle(init, i);
    }
  }
}
