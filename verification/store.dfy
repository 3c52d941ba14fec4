/** The whole in-memory state of food.js, `menu` and `orders`, with each
    request handler and each firing of the scheduled job as one atomic
    transition, and the invariant every reachable state keeps. */
module Store {
  import opened Js
  import opened Menu
  import opened OrderStatus
  import opened Orders

  datatype State = State(menu: seq<MenuItem>, orders: seq<Order>)

  /** Both collections start empty. */
  const Initial := State([], [])

  /** Ids match positions in both collections, menu names are distinct, and
      every order refers only to menu items that exist. */
  predicate Valid(st: State) {
    && Menu.Wellformed(st.menu)
    && Orders.IdsSequential(st.orders)
    && forall k | 0 <= k < |st.orders| :: RefsKnown(st.menu, st.orders[k])
  }

  /** `POST /menu`: only the menu may change, and a rejected body changes nothing. */
  function PostMenu(st: State, req: MenuRequest): (r: (State, UpsertResult))
    ensures r.0.orders == st.orders
    ensures r.1.Rejected? <==> Validate(req).Some?
    ensures r.1.Rejected? ==> r.0 == st
    ensures r.1.Added? ==> r.1.id == |st.menu| + 1 && |r.0.menu| == |st.menu| + 1
    ensures r.1.Updated? ==> |r.0.menu| == |st.menu|
  {
    var (menu, result) := Upsert(st.menu, req);
    (st.(menu := menu), result)
  }

  /** `POST /orders`: only the orders may change, and only on success, by one
      order appended with the next id. */
  function PostOrder(st: State, req: OrderRequest, now: string): (r: (State, PlaceResult))
    ensures r.0.menu == st.menu
    ensures !r.1.Placed? ==> r.0 == st
    ensures r.1.Placed? ==>
      && r.1.orderId == |st.orders| + 1
      && |r.0.orders| == |st.orders| + 1
      && r.0.orders[|st.orders|].id == |st.orders| + 1
      && r.0.orders[..|st.orders|] == st.orders
      && r.0.orders[|st.orders|].status == Preparing
      && r.0.orders[|st.orders|].createdAt == now
      && Some(Arr(r.0.orders[|st.orders|].items)) == req.items
  {
    var (orders, result) := Place(st.menu, st.orders, req, now);
    assert result.Placed? ==> orders[..|st.orders|] == st.orders;
    (st.(orders := orders), result)
  }

  /** One firing of the scheduled job: the menu, the number of orders and each
      order's id, items and timestamp stay as they were. */
  function Tick(st: State): (r: State)
    ensures r.menu == st.menu
    ensures |r.orders| == |st.orders|
    ensures forall i | 0 <= i < |st.orders| ::
      r.orders[i] == st.orders[i].(status := Next(st.orders[i].status))
  {
    st.(orders := AdvanceAll(st.orders))
  }

  /** The empty state satisfies the invariant. */
  lemma InitialValid()
    ensures Valid(Initial)
  {
  }

  /** `POST /menu` keeps the invariant: ids stay positional, names distinct, and no stored item id stops naming an item. */
  lemma PostMenuValid(st: State, req: MenuRequest)
    requires Valid(st)
    ensures Valid(PostMenu(st, req).0)
  {
  }

  /** `POST /orders` keeps the invariant: the new order has the next id and only known item ids. */
  lemma PostOrderValid(st: State, req: OrderRequest, now: string)
    requires Valid(st)
    ensures Valid(PostOrder(st, req, now).0)
  {
  }

  /** A firing keeps the invariant, since it touches statuses only. */
  lemma TickValid(st: State)
    requires Valid(st)
    ensures Valid(Tick(st))
  {
  }

  /** Everything that can happen to the state: a request that mutates it, or a
      firing of the scheduled job. Reads (`GET /menu`, `GET /orders/:id`) leave
      it unchanged. */
  datatype Event =
    | AddMenuItem(menuRequest: MenuRequest)
    | PlaceOrder(orderRequest: OrderRequest, now: string)
    | Firing

  function Step(st: State, e: Event): State {
    match e
    case AddMenuItem(req) => PostMenu(st, req).0
    case PlaceOrder(req, now) => PostOrder(st, req, now).0
    case Firing => Tick(st)
  }

  function Run(st: State, events: seq<Event>): State
    decreases |events|
  {
    if events == [] then st else Run(Step(st, events[0]), events[1..])
  }

  /** Every state reachable from the empty one keeps the invariant, so ids are
      unique and increasing and every stored item id still names a menu item. */
  lemma {:induction false} RunValid(st: State, events: seq<Event>)
    requires Valid(st)
    ensures Valid(Run(st, events))
    decreases |events|
  {
    if events != [] {
      var next := Step(st, events[0]);
      match events[0] {
        case AddMenuItem(req) => PostMenuValid(st, req);
        case PlaceOrder(req, now) => PostOrderValid(st, req, now);
        case Firing => TickValid(st);
      }
      RunValid(next, events[1..]);
    }
  }

  /** In a valid state menu ids and order ids are strictly increasing, hence
      unique. */
  lemma ValidIdsIncreasing(st: State)
    requires Valid(st)
    ensures forall i, j | 0 <= i < j < |st.menu| :: st.menu[i].id < st.menu[j].id
    ensures forall i, j | 0 <= i < j < |st.orders| :: st.orders[i].id < st.orders[j].id
  {
  }

  /** In a valid state every item of a found order resolves to a menu item. */
  lemma ValidDetailsResolve(st: State, id: int)
    requires Valid(st)
    requires Details(st.menu, st.orders, id).Found?
    ensures forall j | 0 <= j < |Details(st.menu, st.orders, id).details.items| ::
              Details(st.menu, st.orders, id).details.items[j].Some?
  {
  }

  /** An order placed now and then left to `n` firings is at
      `statuses[min(n, 2)]`, whatever else the orders hold. */
  lemma {:induction false} PlacedThenFired(st: State, req: OrderRequest, now: string, n: nat)
    requires PostOrder(st, req, now).1.Placed?
    ensures
      var orders := PostOrder(st, req, now).0.orders;
      |Fire(orders, n)| == |orders| && Fire(orders, n)[|st.orders|].status == Statuses[Min(n, 2)]
  {
    var orders := PostOrder(st, req, now).0.orders;
    FireClosedForm(orders, n);
    FreshOrderAfter(n);
  }

  /** Adding "Pizza" assigns id 1; posting it again at a new price updates it
      in place. */
  lemma PizzaScenario()
    ensures
      var first := MenuRequest(Some(Str("Pizza")), Some(Num(10.0)), Some(Str("Main Course")));
      var again := MenuRequest(Some(Str("Pizza")), Some(Num(12.0)), Some(Str("Main Course")));
      var (s1, r1) := PostMenu(Initial, first);
      var (s2, r2) := PostMenu(s1, again);
      && r1 == Added(1)
      && r2 == Updated
      && s2.menu == [MenuItem(1, "Pizza", 12.0, MainCourse)]
  {
  }

  /** An order for item 1 is placed as order 1 and then goes Preparing, Out for
      Delivery, Delivered, Delivered over three firings. */
  lemma OrderLifecycleScenario(menu: seq<MenuItem>, now: string)
    requires Menu.Wellformed(menu) && |menu| == 1
    ensures
      var (s1, r1) := PostOrder(State(menu, []), OrderRequest(Some(Arr([Num(1.0)]))), now);
      && r1 == Placed(1)
      && s1.orders[0].status == Preparing
      && Tick(s1).orders[0].status == OutForDelivery
      && Tick(Tick(s1)).orders[0].status == Delivered
      && Tick(Tick(Tick(s1))).orders[0].status == Delivered
  {
    assert HasId(menu[0], Num(1.0));
    assert Known(menu, Num(1.0));
  }

  /** An order naming item 999 of a one-item menu is refused with 999 listed,
      and no order is stored. */
  lemma UnknownItemScenario(menu: seq<MenuItem>, now: string)
    requires Menu.Wellformed(menu) && |menu| == 1
    ensures
      var st := State(menu, []);
      PostOrder(st, OrderRequest(Some(Arr([Num(999.0)]))), now) == (st, InvalidIds([Num(999.0)]))
  {
    assert !Known(menu, Num(999.0));
    var invalid := InvalidItems(menu, [Num(999.0)]);
    assert multiset(invalid)[Num(999.0)] == 1;
    forall x | x in invalid
      ensures x == Num(999.0)
    {
      assert multiset(invalid)[x] > 0;
    }
    assert |invalid| <= 1;
    assert invalid == [Num(999.0)];
  }
}
