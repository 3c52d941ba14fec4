# Food-ordering backend: menu, orders and delivery-status machine

A Dafny model of the in-memory core of `food.js`, a small food-ordering
service. The state is two sequences, `menu` and `orders`. Each request handler
and each firing of the scheduled job is a pure transition from one state to the
next, returning a result datatype that stands for the HTTP reply:

- `POST /menu` validates the body and then inserts or updates a menu item,
  matching it by name (`Menu.Upsert`, `Store.PostMenu`).
  Results: `Rejected` is 400, `Updated` is 200, `Added` is 201.
- `POST /orders` checks `items` and collects every unknown item id. It then
  appends an order in state `Preparing` (`Orders.Place`, `Store.PostOrder`).
  Results: `BadItems` and `InvalidIds` are 400, `Placed` is 201.
- `GET /orders/:id` looks an order up and resolves its item ids against the
  current menu (`Orders.Details`). Results: `NotFound` is 404, `Found` is 200.
- The scheduled job moves every order that is not `Delivered` one step along
  `Preparing`, `Out for Delivery`, `Delivered` (`Orders.AdvanceAll`, `Store.Tick`).

Request bodies are JSON, so each field is an `Option<Js.Value>`. `None` means
the field is absent. A `Value` is a string, a number, an array, or some other
value, and for the other values only their truthiness is kept. This is enough
to write the source's `!x`, `typeof` and `Array.isArray` checks literally.
`Array.prototype.find` and `filter` are modelled once, in module `Js`.
Categories and statuses are enumerations. They are mapped to the exact
literals (`'Main Course'`, `'Out for Delivery'`) by `Menu.CategoryName` and
`OrderStatus.Name`.

The invariant `Store.Valid` holds in every reachable state (`Store.RunValid`).
It says three things:

- the item or order at position `i` has id `i + 1`;
- menu names are distinct;
- every menu item has a non-empty name and a price above 0;
- every item id stored in an order names an existing menu item.

The code assigns ids as `length + 1` rather than from a separate counter. The
model does the same, because nothing is ever deleted and so the two agree.
The handler for `POST /menu` replies with a message only, not with the item.
The model returns the outcome, and for an addition it also returns the new
item's id. The reply does not carry that id; the model keeps it so that
contracts can state which id was assigned.

## Model

| member | source | states |
|---|---|---|
| Js.Truthy | food.js:18-20 | an absent field is falsy; every array, even an empty one, is truthy; a string is truthy exactly when non-empty and a number exactly when non-zero |
| Js.IsString | food.js:18 | a string is neither a number nor an array, and an absent field is not a string; which values pass is fixed by the body, a type tag test, and checked through `Menu.Validate`'s contract |
| Js.IsNumber | food.js:19 | a number is not an array, and an absent field is not a number; which values pass is fixed by the body, a type tag test, and checked through `Menu.Validate`'s contract |
| Js.IsArray | food.js:66 | an absent field is not an array, and the empty array is one; which other values pass is fixed by the body, a type tag test, and checked through `Orders.Place`'s contract |
| Js.Includes | food.js:20 | a value is included exactly when it strictly equals one of the listed string literals, so only strings can be |
| Js.FindIndex | food.js:40 | the position returned holds the first element satisfying the predicate; `None` exactly when no element does |
| Js.Find | food.js:98 | the element returned is the first one in the sequence satisfying the predicate; `None` exactly when no element does |
| Js.Filter | food.js:70 | the result is no longer than the input and every kept element satisfies the predicate |
| Js.FilterCount | food.js:70 | each value occurs in the result as often as in the input if it satisfies the predicate, and not at all otherwise |
| Js.FilterConcat | food.js:70 | filtering distributes over concatenation, so kept elements stay in their original order |
| Js.FilterEmpty | food.js:70-71 | the filtered list is empty exactly when no element satisfies the predicate |
| Menu.CategoryName | food.js:20 | every category prints as one of the four accepted literals |
| Menu.ParseCategory | food.js:20 | a string parses exactly when it is one of the four literals, and then prints back to itself |
| Menu.ParseCategoryName | food.js:20 | parsing a printed category gives the category back |
| Menu.Validate | food.js:17-24 | no message exactly when the name is a non-empty string, the price a number above 0 and the category one of the four literals; otherwise the message of the first failing check, in the order name, price, category |
| Menu.Fields | food.js:39 | an accepted body yields a non-empty name, a positive price and the category whose literal was sent |
| Menu.HasId | food.js:70 | an item's id matches only the number equal to it, which is whole; a string or other value never matches |
| Menu.Known | food.js:70 | no id is known in an empty menu, only numbers can be known, and every item's own id is known; that nothing else is known is fixed by the body, an existential over items, and stated through `Menu.FindById`'s contract |
| Menu.FindById | food.js:98 | the item found is the first item carrying the looked-up id; nothing is found exactly when no item has that id |
| Menu.FindByName | food.js:40 | the position found holds the first item with that exact name; nothing is found exactly when no item has it |
| Menu.Upsert | food.js:33-56 | a rejected body leaves the menu unchanged; a known name updates only the price and category of the first item with that name, leaving length and all other items unchanged; a new name appends one item with id `length + 1`; ids and names of existing items never change |
| Menu.FirstNamedUnique | food.js:40-46 | when names are distinct, the first item with a name is the only one |
| Menu.UpsertWellformed | food.js:40-54 | upsert keeps ids equal to position plus one, names distinct and non-empty, and prices above 0 |
| Menu.AddedIdIsFresh | food.js:48-54 | an added item's id exceeds every earlier id |
| Menu.FindByIdSequential | food.js:70 | with sequential ids, a value names an item exactly when it is a whole number from 1 to the menu length, and it names the item at position `value - 1` |
| Menu.UpsertKeepsKnown | food.js:40-54 | an id that names a menu item still does after any upsert |
| OrderStatus.Name | food.js:14 | each status's literal is the entry of `['Preparing', 'Out for Delivery', 'Delivered']` at that status's position in `statuses` |
| OrderStatus.NameInjective | food.js:14 | distinct statuses have distinct literals |
| OrderStatus.IndexOf | food.js:107 | every status is found in `statuses`, at the index returned |
| OrderStatus.Next | food.js:105-109 | one step moves the index up by one, clamped at `Delivered`; only `Delivered` stays put |
| OrderStatus.AdvanceClosedForm | food.js:104-110 | after `n` firings the status is `statuses[min(index + n, 2)]` |
| OrderStatus.FreshOrderAfter | food.js:78 | an order starting at `Preparing` is at `statuses[min(n, 2)]` after `n` firings |
| OrderStatus.AdvanceMonotone | food.js:105-109 | more firings never give an earlier status, and `Delivered` is never left |
| Orders.InvalidItems | food.js:70 | each item id that names no menu item is kept with its multiplicity and every known one is dropped; the list is empty exactly when all ids are known |
| Orders.InvalidItemsConcat | food.js:70-72 | the unknown ids of a concatenated request are those of the first part followed by those of the second, so the reported list keeps request order |
| Orders.InvalidItemsSingle | food.js:70 | a single requested id is reported exactly when the menu does not know it |
| Orders.Place | food.js:64-83 | a missing or non-array `items` is rejected with no change; any unknown id rejects with the list of unknown ids and no change; otherwise one order is appended with id `length + 1`, the items as sent and status `Preparing`, all of whose ids are known |
| Orders.FindOrder | food.js:26-28 | the position found holds the first order with that id; nothing is found exactly when no order has it |
| Orders.FindOrderSequential | food.js:75-81 | with sequential order ids, order `id` is found at position `id - 1` when `1 <= id <= length`, and nothing is found otherwise |
| Orders.Details | food.js:86-101 | not found exactly when no order has the id; otherwise, for the first order with that id, its id, status and timestamp, plus one entry per stored item id, in order, each the menu item with that id or an empty slot |
| Orders.DetailsResolveAll | food.js:94-99 | when every stored item id is known, no resolved slot is empty |
| Orders.AdvanceAll | food.js:105-110 | one firing keeps the number of orders and each order's id, items and timestamp; each status moves one step, clamped at `Delivered`; `Delivered` orders are untouched |
| Orders.FireClosedForm | food.js:104-110 | after `n` firings each order is unchanged except that its status has advanced `n` steps |
| Store.PostMenu | food.js:33-56 | orders are untouched; a body fails validation exactly when it is rejected, and then nothing changes; an addition grows the menu by one with id `length + 1`; an update keeps the length |
| Store.PostOrder | food.js:64-83 | the menu is untouched; every failure leaves the state unchanged; a success appends exactly one order with the next id, status `Preparing`, the given timestamp and the items as sent, keeping earlier orders |
| Store.Tick | food.js:104-112 | the menu and order count are kept, and each order only has its status stepped |
| Store.InitialValid | food.js:12-13 | the empty state satisfies the invariant |
| Store.PostMenuValid | food.js:40-54 | `POST /menu` preserves the invariant, including that stored item ids stay known |
| Store.PostOrderValid | food.js:70-81 | `POST /orders` preserves the invariant |
| Store.TickValid | food.js:105-110 | a firing preserves the invariant |
| Store.RunValid | food.js:33-110 | every sequence of requests and firings from a valid state ends in a valid state |
| Store.ValidIdsIncreasing | food.js:49-76 | in a valid state menu ids and order ids are strictly increasing, hence unique |
| Store.ValidDetailsResolve | food.js:94-99 | in a valid state every item of a found order resolves to a menu item |
| Store.PlacedThenFired | food.js:75-109 | an order just placed is at `statuses[min(n, 2)]` after `n` firings |
| Store.PizzaScenario | food.js:33-56 | adding "Pizza" at 10 gives id 1; posting it again at 12 updates that same item in place |
| Store.OrderLifecycleScenario | food.js:64-110 | an order for item 1 becomes order 1 and goes Preparing, Out for Delivery, Delivered, Delivered over three firings |
| Store.UnknownItemScenario | food.js:64-73 | an order naming 999 on a one-item menu is refused, listing 999, and nothing is stored |

## Left out

- HTTP wiring is not modelled: Express and body-parser setup, route registration, status codes and JSON serialisation (food.js:1-9, 115-117). The result datatypes stand for the replies.
- `GET /menu` (food.js:59-61) returns the menu sequence unchanged. It is the `menu` field of `Store.State` and needs no member of its own.
- The job's schedule of once a minute and its log line (food.js:104, 111) are not modelled. One firing is one `Store.Tick`.
- The `createdAt` timestamp (food.js:79) reads the wall clock. It is passed in as an opaque string `now`.
- `parseInt` of the route parameter (food.js:87) is not modelled; the lookup takes an `int`. A parse that gives `NaN` matches no order, which is the same as an id no order has.
- JavaScript numbers are modelled as unbounded reals. `NaN`, infinities, `-0` and floating-point rounding are not modelled.
- Orders.Place: the invalid-id error carries the offending values themselves. Their formatting into the text `Invalid item IDs: <ids joined by ', '>` (food.js:72) is not modelled, because number-to-string conversion is not part of the model.
- Concurrency is not modelled. The source runs on a single-threaded event loop, and each handler and each firing is one atomic transition.
