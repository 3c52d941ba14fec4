/** The menu store of food.js: validation of a `POST /menu` body, the
    insert-or-update keyed by name, and the lookups by name and by id. */
module Menu {
  import opened Js

  datatype Category = Starter | MainCourse | Dessert | Beverage

  /** The category literals the validator accepts, in the order it lists them. */
  const CategoryNames: seq<string> := ["Starter", "Main Course", "Dessert", "Beverage"]

  /** The literal under which a category travels in JSON. */
  function CategoryName(c: Category): (s: string)
    ensures s in CategoryNames
  {
    match c
    case Starter => "Starter"
    case MainCourse => "Main Course"
    case Dessert => "Dessert"
    case Beverage => "Beverage"
  }

  /** Reads a category literal; only the exact, case-sensitive literals parse. */
  function ParseCategory(s: string): (r: Option<Category>)
    ensures r.Some? <==> s in CategoryNames
    ensures r.Some? ==> CategoryName(r.value) == s
  {
    if s == "Starter" then Some(Starter)
    else if s == "Main Course" then Some(MainCourse)
    else if s == "Dessert" then Some(Dessert)
    else if s == "Beverage" then Some(Beverage)
    else None
  }

  /** Parsing undoes printing, so storing the category as an enumeration loses
      nothing the JSON literal carried. */
  lemma ParseCategoryName(c: Category)
    ensures ParseCategory(CategoryName(c)) == Some(c)
  {
  }

  datatype MenuItem = MenuItem(id: int, name: string, price: real, category: Category)

  /** The body of `POST /menu`; each field may be absent or of any JSON type. */
  datatype MenuRequest = MenuRequest(name: Option<Value>, price: Option<Value>, category: Option<Value>)

  const NameError := "Name is required and must be a string."
  const PriceError := "Price must be a positive number."
  const CategoryError := "Category must be one of Starter, Main Course, Dessert, or Beverage."

  /** The name is a non-empty string. */
  predicate NameOk(req: MenuRequest) {
    match req.name
    case Some(Str(s)) => |s| > 0
    case _ => false
  }

  /** The price is a number greater than zero. */
  predicate PriceOk(req: MenuRequest) {
    match req.price
    case Some(Num(p)) => p > 0.0
    case _ => false
  }

  /** The category is one of the four literals. */
  predicate CategoryOk(req: MenuRequest) {
    match req.category
    case Some(Str(s)) => s in CategoryNames
    case _ => false
  }

  /** `validateMenuItem`: `None` (the source's `null`) when the body is
      acceptable, otherwise the message of the first failing check, taken in the
      order name, price, category. */
  function Validate(req: MenuRequest): (r: Option<string>)
    ensures r == None <==> NameOk(req) && PriceOk(req) && CategoryOk(req)
    ensures !NameOk(req) ==> r == Some(NameError)
    ensures NameOk(req) && !PriceOk(req) ==> r == Some(PriceError)
    ensures NameOk(req) && PriceOk(req) && !CategoryOk(req) ==> r == Some(CategoryError)
  {
    if !Truthy(req.name) || !IsString(req.name) then Some(NameError)
    else if !Truthy(req.price) || !IsNumber(req.price) || req.price.value.n <= 0.0 then Some(PriceError)
    else if !Truthy(req.category) || !Includes(CategoryNames, req.category) then Some(CategoryError)
    else None
  }

  /** The fields of an accepted body, as the handler destructures them. */
  function Fields(req: MenuRequest): (f: (string, real, Category))
    requires Validate(req).None?
    ensures Some(Str(f.0)) == req.name && |f.0| > 0
    ensures Some(Num(f.1)) == req.price && f.1 > 0.0
    ensures Some(Str(CategoryName(f.2))) == req.category
  {
    (req.name.value.s, req.price.value.n, ParseCategory(req.category.value.s).value)
  }

  /** Strict equality of an item's id with a JSON value: only the number equal
      to the id matches, so a string such as "1" never does. */
  predicate HasId(item: MenuItem, v: Value)
    ensures HasId(item, v) ==> v.Num? && v.n.Floor == item.id && v.n == v.n.Floor as real
    ensures v == Num(item.id as real) ==> HasId(item, v)
  {
    v == Num(item.id as real)
  }

  /** Some item of the menu has id `v`: an empty menu knows no id, and every
      item's own id is known. */
  predicate Known(menu: seq<MenuItem>, v: Value)
    ensures menu == [] ==> !Known(menu, v)
    ensures Known(menu, v) ==> v.Num?
    ensures forall i | 0 <= i < |menu| :: HasId(menu[i], v) ==> Known(menu, v)
  {
    exists i | 0 <= i < |menu| :: HasId(menu[i], v)
  }

  /** The first item whose id is `v`, or `None`; the lookup that resolves an
      order's stored item ids. */
  function FindById(menu: seq<MenuItem>, v: Value): (r: Option<MenuItem>)
    ensures r.Some? ==> r.value in menu && HasId(r.value, v)
    ensures r.Some? ==>
      exists i | 0 <= i < |menu| :: r.value == menu[i] && forall j | 0 <= j < i :: !HasId(menu[j], v)
    ensures r.None? <==> !Known(menu, v)
  {
    Find(menu, (item: MenuItem) => HasId(item, v))
  }

  /** Position `i` holds the first item called `name`, the one the update by
      name finds and changes. */
  predicate FirstNamed(menu: seq<MenuItem>, name: string, i: int) {
    && 0 <= i < |menu|
    && menu[i].name == name
    && forall j | 0 <= j < i :: menu[j].name != name
  }

  /** The position of the item called `name`, if any. */
  function FindByName(menu: seq<MenuItem>, name: string): (r: Option<nat>)
    ensures r.Some? ==> FirstNamed(menu, name, r.value)
    ensures r.None? <==> forall i | 0 <= i < |menu| :: menu[i].name != name
  {
    FindIndex(menu, (item: MenuItem) => item.name == name)
  }

  /** Ids are assigned as the menu's length plus one and nothing is deleted, so the item
      at position `i` has id `i + 1`. */
  predicate IdsSequential(menu: seq<MenuItem>) {
    forall i | 0 <= i < |menu| :: menu[i].id == i + 1
  }

  /** Upsert matches by name, so no two items share one. */
  predicate NamesDistinct(menu: seq<MenuItem>) {
    forall i, j | 0 <= i < j < |menu| :: menu[i].name != menu[j].name
  }

  /** Items enter and change only after validation, so every name is
      non-empty and every price positive. */
  predicate ItemsOk(menu: seq<MenuItem>) {
    forall i | 0 <= i < |menu| :: |menu[i].name| > 0 && menu[i].price > 0.0
  }

  /** The invariant every reachable menu satisfies. */
  predicate Wellformed(menu: seq<MenuItem>) {
    IdsSequential(menu) && NamesDistinct(menu) && ItemsOk(menu)
  }

  /** How the `POST /menu` handler ends: 400 with the validation message, 200
      after an update by name, 201 after adding an item. */
  datatype UpsertResult = Rejected(error: string) | Updated | Added(id: int)

  /** The `POST /menu` handler on the menu alone: validate, then update the
      first item with the same name in place (price and category only), or
      append a new item with the next id. */
  function Upsert(menu: seq<MenuItem>, req: MenuRequest): (r: (seq<MenuItem>, UpsertResult))
    ensures Validate(req).Some? ==> r == (menu, Rejected(Validate(req).value))
    ensures Validate(req).None? ==>
      var (name, price, category) := Fields(req);
      && (r.1 == Updated <==> exists i | 0 <= i < |menu| :: menu[i].name == name)
      && (r.1 == Updated ==>
            && |r.0| == |menu|
            && forall i | 0 <= i < |menu| ::
                 r.0[i] == if FirstNamed(menu, name, i)
                           then menu[i].(price := price, category := category)
                           else menu[i])
      && (r.1 != Updated ==>
            r == (menu + [MenuItem(|menu| + 1, name, price, category)], Added(|menu| + 1)))
    // Items are never removed, and their ids and names never change.
    ensures |menu| <= |r.0|
    ensures forall i | 0 <= i < |menu| :: r.0[i].id == menu[i].id && r.0[i].name == menu[i].name
  {
    match Validate(req)
    case Some(error) => (menu, Rejected(error))
    case None =>
      var (name, price, category) := Fields(req);
      match FindByName(menu, name)
      case Some(k) =>
        (menu[k := menu[k].(price := price, category := category)], Updated)
      case None =>
        (menu + [MenuItem(|menu| + 1, name, price, category)], Added(|menu| + 1))
  }

  /** With distinct names, the first item with a name is the only one. */
  lemma FirstNamedUnique(menu: seq<MenuItem>, name: string, i: int)
    requires NamesDistinct(menu)
    requires 0 <= i < |menu|
    ensures FirstNamed(menu, name, i) <==> menu[i].name == name
  {
  }

  /** Upsert keeps ids sequential, names distinct, names non-empty and
      prices positive. */
  lemma UpsertWellformed(menu: seq<MenuItem>, req: MenuRequest)
    requires Wellformed(menu)
    ensures Wellformed(Upsert(menu, req).0)
  {
  }

  /** An added item's id is strictly greater than every id assigned before it. */
  lemma AddedIdIsFresh(menu: seq<MenuItem>, req: MenuRequest)
    requires IdsSequential(menu)
    requires Upsert(menu, req).1.Added?
    ensures forall i | 0 <= i < |menu| :: menu[i].id < Upsert(menu, req).1.id
    ensures Upsert(menu, req).1.id == Upsert(menu, req).0[|menu|].id
  {
  }

  /** In a menu with sequential ids, `v` names an item exactly when it is a
      whole number between 1 and the menu's length, and then it names the item
      at position `v - 1`. */
  lemma FindByIdSequential(menu: seq<MenuItem>, v: Value)
    requires IdsSequential(menu)
    ensures Known(menu, v) <==> v.Num? && v.n == v.n.Floor as real && 1 <= v.n.Floor <= |menu|
    ensures Known(menu, v) ==> FindById(menu, v) == Some(menu[v.n.Floor - 1])
  {
    if v.Num? && v.n == v.n.Floor as real && 1 <= v.n.Floor <= |menu| {
      assert HasId(menu[v.n.Floor - 1], v);
    }
    if Known(menu, v) {
      var i :| 0 <= i < |menu| && HasId(menu[i], v);
      assert v.n == (i + 1) as real;
      assert v.n.Floor == i + 1;
      var r := FindById(menu, v);
      var k :| 0 <= k < |menu| && menu[k] == r.value;
      assert k == i;
    }
  }

  /** An id that names an item keeps naming an item with the same id once the
      menu has grown or been updated by an upsert. */
  lemma UpsertKeepsKnown(menu: seq<MenuItem>, req: MenuRequest, v: Value)
    requires Known(menu, v)
    ensures Known(Upsert(menu, req).0, v)
  {
  }
}
