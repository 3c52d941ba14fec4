/** The order store of food.js: placing an order against the menu, looking an
    order up with its items resolved, and the scheduled status advance. */
module Orders {
  import opened Js
  import opened Menu
  import opened OrderStatus

  /** An order keeps the item ids exactly as they arrived in the request;
      `createdAt` is an opaque timestamp supplied by the caller. */
  datatype Order = Order(id: int, items: seq<Value>, status: Status, createdAt: string)

  /** The body of `POST /orders`. */
  datatype OrderRequest = OrderRequest(items: Option<Value>)

  const ItemsError := "Items must be an array of menu item IDs."
  const NotFoundError := "Order not found."

  /** How the `POST /orders` handler ends: 400 for a missing or non-array
      `items`, 400 listing the unknown ids, or 201 with the new order's id. */
  datatype PlaceResult = BadItems(error: string) | InvalidIds(ids: seq<Value>) | Placed(orderId: int)

  /** The requested item ids that name no menu item, in request order with
      duplicates kept: the list the rejection of an order reports. */
  function InvalidItems(menu: seq<MenuItem>, items: seq<Value>): (r: seq<Value>)
    ensures forall x :: multiset(r)[x] == if Known(menu, x) then 0 else multiset(items)[x]
    ensures r == [] <==> forall j | 0 <= j < |items| :: Known(menu, items[j])
  {
    FilterCount(items, (v: Value) => !Known(menu, v));
    FilterEmpty(items, (v: Value) => !Known(menu, v));
    Filter(items, (v: Value) => !Known(menu, v))
  }

  /** The unknown ids of a concatenation are those of its parts, in the same
      order, so the list follows the order of the request. */
  lemma InvalidItemsConcat(menu: seq<MenuItem>, a: seq<Value>, b: seq<Value>)
    ensures InvalidItems(menu, a + b) == InvalidItems(menu, a) + InvalidItems(menu, b)
  {
    FilterConcat(a, b, (v: Value) => !Known(menu, v));
  }

  /** A single requested id is reported exactly when the menu does not know it. */
  lemma InvalidItemsSingle(menu: seq<MenuItem>, x: Value)
    ensures InvalidItems(menu, [x]) == if Known(menu, x) then [] else [x]
  {
  }

  /** The order at position `i` has id `i + 1`. */
  predicate IdsSequential(orders: seq<Order>) {
    forall i | 0 <= i < |orders| :: orders[i].id == i + 1
  }

  /** Every item id of the order names an item of the menu. */
  predicate RefsKnown(menu: seq<MenuItem>, order: Order) {
    forall x | x in order.items :: Known(menu, x)
  }

  /** The `POST /orders` handler on the two collections: reject a missing or
      non-array `items`, reject when any id is unknown (listing all of them),
      else append an order with the next id in state `Preparing`. */
  function Place(menu: seq<MenuItem>, orders: seq<Order>, req: OrderRequest, now: string)
    : (r: (seq<Order>, PlaceResult))
    ensures !(req.items.Some? && req.items.value.Arr?) ==> r == (orders, BadItems(ItemsError))
    ensures req.items.Some? && req.items.value.Arr? ==>
      var items := req.items.value.elems;
      && ((exists j | 0 <= j < |items| :: !Known(menu, items[j])) ==>
            r == (orders, InvalidIds(InvalidItems(menu, items))))
      && ((forall j | 0 <= j < |items| :: Known(menu, items[j])) ==>
            && r == (orders + [Order(|orders| + 1, items, Preparing, now)], Placed(|orders| + 1))
            && RefsKnown(menu, r.0[|orders|]))
    ensures r.1.InvalidIds? ==> r.1.ids != [] && forall x | x in r.1.ids :: !Known(menu, x)
  {
    if !Truthy(req.items) || !IsArray(req.items) then (orders, BadItems(ItemsError))
    else
      var items := req.items.value.elems;
      var invalid := InvalidItems(menu, items);
      if |invalid| > 0 then (orders, InvalidIds(invalid))
      else (orders + [Order(|orders| + 1, items, Preparing, now)], Placed(|orders| + 1))
  }

  /** `findOrderById`: the first order whose id is `id`. */
  function FindOrder(orders: seq<Order>, id: int): (r: Option<nat>)
    ensures r.Some? ==> r.value < |orders| && orders[r.value].id == id
    ensures r.Some? ==> forall j | 0 <= j < r.value :: orders[j].id != id
    ensures r.None? <==> forall j | 0 <= j < |orders| :: orders[j].id != id
  {
    FindIndex(orders, (o: Order) => o.id == id)
  }

  /** With sequential ids, order `id` sits at position `id - 1`. */
  lemma FindOrderSequential(orders: seq<Order>, id: int)
    requires IdsSequential(orders)
    ensures FindOrder(orders, id) == if 1 <= id <= |orders| then Some(id - 1) else None
  {
    if 1 <= id <= |orders| {
      assert orders[id - 1].id == id;
    }
  }

  /** The body of a `GET /orders/:id` reply; an unknown item id resolves to an
      empty slot. */
  datatype OrderDetails = OrderDetails(id: int, status: Status, createdAt: string, items: seq<Option<MenuItem>>)

  /** 404 with a message, or 200 with the details. */
  datatype DetailsResult = NotFound(error: string) | Found(details: OrderDetails)

  /** The `GET /orders/:id` handler: the order's id, status, timestamp and its
      item ids looked up in the current menu, in order. */
  function Details(menu: seq<MenuItem>, orders: seq<Order>, id: int): (r: DetailsResult)
    ensures r.NotFound? <==> forall j | 0 <= j < |orders| :: orders[j].id != id
    ensures r.NotFound? ==> r.error == NotFoundError
    ensures r.Found? ==>
      exists k | 0 <= k < |orders| && orders[k].id == id ::
        && (forall j | 0 <= j < k :: orders[j].id != id)
        && r.details.id == id
        && r.details.status == orders[k].status
        && r.details.createdAt == orders[k].createdAt
        && |r.details.items| == |orders[k].items|
        && forall j | 0 <= j < |orders[k].items| ::
             r.details.items[j] == FindById(menu, orders[k].items[j])
  {
    match FindOrder(orders, id)
    case None => NotFound(NotFoundError)
    case Some(k) =>
      var order := orders[k];
      Found(OrderDetails(order.id, order.status, order.createdAt,
                         seq(|order.items|, j requires 0 <= j < |order.items| => FindById(menu, order.items[j]))))
  }

  /** When every item id of the order is known, no resolved slot is empty. */
  lemma DetailsResolveAll(menu: seq<MenuItem>, orders: seq<Order>, id: int)
    requires forall k | 0 <= k < |orders| :: RefsKnown(menu, orders[k])
    requires Details(menu, orders, id).Found?
    ensures forall j | 0 <= j < |Details(menu, orders, id).details.items| ::
              Details(menu, orders, id).details.items[j].Some?
  {
  }

  /** One firing of the scheduled job: every order not yet `Delivered` moves
      one step along `statuses`; nothing but the status changes. */
  function AdvanceAll(orders: seq<Order>): (r: seq<Order>)
    ensures |r| == |orders|
    ensures forall i | 0 <= i < |orders| ::
      && r[i].id == orders[i].id
      && r[i].items == orders[i].items
      && r[i].createdAt == orders[i].createdAt
    ensures forall i | 0 <= i < |orders| ::
      IndexOf(r[i].status) == Min(IndexOf(orders[i].status) + 1, |Statuses| - 1)
    ensures forall i | 0 <= i < |orders| :: orders[i].status == Delivered ==> r[i] == orders[i]
  {
    seq(|orders|, i requires 0 <= i < |orders| =>
      var order := orders[i];
      if order.status != Delivered then order.(status := Next(order.status)) else order)
  }

  /** `n` firings of the scheduled job. */
  function Fire(orders: seq<Order>, n: nat): seq<Order>
    decreases n
  {
    if n == 0 then orders else Fire(AdvanceAll(orders), n - 1)
  }

  /** After `n` firings each order is the same order with its status advanced
      `n` steps. */
  lemma {:induction false} FireClosedForm(orders: seq<Order>, n: nat)
    ensures |Fire(orders, n)| == |orders|
    ensures forall i | 0 <= i < |orders| ::
      Fire(orders, n)[i] == orders[i].(status := Advance(orders[i].status, n))
    decreases n
  {
    if n > 0 {
      var next := AdvanceAll(orders);
      FireClosedForm(next, n - 1);
      forall i | 0 <= i < |orders|
        ensures Fire(orders, n)[i] == orders[i].(status := Advance(orders[i].status, n))
      {
        assert next[i].status == Next(orders[i].status);
        assert next[i] == orders[i].(status := Next(orders[i].status));
      }
    }
  }
}
