/** The slice of JavaScript that the food-ordering handlers rely on: the shape of
    a JSON request value, truthiness, `typeof`, and the array methods `find` and
    `filter`, each written once and used by the menu and order modules. */
module Js {

  /** `None` stands for `undefined` (an absent request field, a `find` that
      matched nothing) and for the `null` a validator returns on success. */
  datatype Option<+T> = None | Some(value: T)

  /** A JSON value as the handlers can tell it apart. `Other` covers booleans,
      `null` and plain objects, remembering only whether the value is truthy. */
  datatype Value =
    | Str(s: string)
    | Num(n: real)
    | Arr(elems: seq<Value>)
    | Other(truthy: bool)

  /** JavaScript truthiness of a possibly absent field: an absent field, the
      empty string and zero are falsy, and every array is truthy, even an
      empty one. */
  predicate Truthy(v: Option<Value>)
    ensures v.None? ==> !Truthy(v)
    ensures IsArray(v) ==> Truthy(v)
    ensures IsString(v) ==> (Truthy(v) <==> v.value.s != "")
    ensures IsNumber(v) ==> (Truthy(v) <==> v.value.n != 0.0)
  {
    match v
    case None => false
    case Some(Str(s)) => s != ""
    case Some(Num(n)) => n != 0.0
    case Some(Arr(_)) => true
    case Some(Other(t)) => t
  }

  /** The `typeof` test for a string. A value has one type only, and an
      absent field is not a string. */
  predicate IsString(v: Option<Value>)
    ensures IsString(v) ==> !IsNumber(v) && !IsArray(v)
    ensures v.None? ==> !IsString(v)
  {
    v.Some? && v.value.Str?
  }

  /** The `typeof` test for a number. */
  predicate IsNumber(v: Option<Value>)
    ensures IsNumber(v) ==> !IsArray(v)
    ensures v.None? ==> !IsNumber(v)
  {
    v.Some? && v.value.Num?
  }

  /** The array test; the empty array passes it. */
  predicate IsArray(v: Option<Value>)
    ensures v.None? ==> !IsArray(v)
    ensures v == Some(Arr([])) ==> IsArray(v)
  {
    v.Some? && v.value.Arr?
  }

  /** Membership of a value in a list of string literals under strict
      equality: each literal is found, and a value of another type never is. */
  predicate Includes(list: seq<string>, v: Option<Value>)
    ensures Includes(list, v) <==> exists i | 0 <= i < |list| :: v == Some(Str(list[i]))
    ensures Includes(list, v) ==> IsString(v)
  {
    v.Some? && v.value.Str? && v.value.s in list
  }

  /** The first position at or after `k` whose element satisfies `p`. */
  function FindIndexFrom<T>(s: seq<T>, p: T -> bool, k: nat): (r: Option<nat>)
    requires k <= |s|
    ensures r.Some? ==> k <= r.value < |s| && p(s[r.value])
    ensures r.Some? ==> forall j | k <= j < r.value :: !p(s[j])
    ensures r.None? ==> forall j | k <= j < |s| :: !p(s[j])
    decreases |s| - k
  {
    if k == |s| then None
    else if p(s[k]) then Some(k)
    else FindIndexFrom(s, p, k + 1)
  }

  /** The position of the first element satisfying `p`, as `Array.prototype.find`
      scans for it; `None` when no element does. */
  function FindIndex<T>(s: seq<T>, p: T -> bool): (r: Option<nat>)
    ensures r.Some? ==> r.value < |s| && p(s[r.value])
    ensures r.Some? ==> forall j | 0 <= j < r.value :: !p(s[j])
    ensures r.None? <==> forall j | 0 <= j < |s| :: !p(s[j])
  {
    FindIndexFrom(s, p, 0)
  }

  /** The first element satisfying `p`, or `None` when there is none. */
  function Find<T>(s: seq<T>, p: T -> bool): (r: Option<T>)
    ensures r.Some? ==> r.value in s && p(r.value)
    ensures r.Some? ==>
      exists i | 0 <= i < |s| :: r.value == s[i] && forall j | 0 <= j < i :: !p(s[j])
    ensures r.None? <==> forall j | 0 <= j < |s| :: !p(s[j])
  {
    match FindIndex(s, p)
    case None => None
    case Some(i) => Some(s[i])
  }

  /** The elements satisfying `p`, in their original order. */
  function Filter<T>(s: seq<T>, p: T -> bool): (r: seq<T>)
    ensures |r| <= |s|
    ensures forall x | x in r :: p(x)
  {
    if s == [] then []
    else (if p(s[0]) then [s[0]] else []) + Filter(s[1..], p)
  }

  /** Filtering keeps duplicates: a value occurs in the result as often as in
      the input when it satisfies `p`, and not at all otherwise. */
  lemma {:induction false} FilterCount<T(!new)>(s: seq<T>, p: T -> bool)
    ensures forall x :: multiset(Filter(s, p))[x] == if p(x) then multiset(s)[x] else 0
    decreases |s|
  {
    if s != [] {
      FilterCount(s[1..], p);
      assert s == [s[0]] + s[1..];
      assert multiset(s) == multiset{s[0]} + multiset(s[1..]);
      var head := if p(s[0]) then [s[0]] else [];
      assert Filter(s, p) == head + Filter(s[1..], p);
      assert multiset(Filter(s, p)) == multiset(head) + multiset(Filter(s[1..], p));
    }
  }

  /** Filtering distributes over concatenation, so the filtered elements keep
      their relative order. */
  lemma {:induction false} FilterConcat<T>(a: seq<T>, b: seq<T>, p: T -> bool)
    ensures Filter(a + b, p) == Filter(a, p) + Filter(b, p)
    decreases |a|
  {
    if a == [] {
      assert a + b == b;
    } else {
      var head := if p(a[0]) then [a[0]] else [];
      assert (a + b)[0] == a[0];
      assert (a + b)[1..] == a[1..] + b;
      assert Filter(a + b, p) == head + Filter(a[1..] + b, p);
      FilterConcat(a[1..], b, p);
      assert Filter(a, p) == head + Filter(a[1..], p);
      assert head + (Filter(a[1..], p) + Filter(b, p)) == (head + Filter(a[1..], p)) + Filter(b, p);
    }
  }

  /** Filtering is empty exactly when no element satisfies `p`. */
  lemma {:induction false} FilterEmpty<T>(s: seq<T>, p: T -> bool)
    ensures Filter(s, p) == [] <==> forall j | 0 <= j < |s| :: !p(s[j])
    decreases |s|
  {
    if s != [] {
      FilterEmpty(s[1..], p);
      assert forall j | 1 <= j < |s| :: s[j] == s[1..][j - 1];
      var head := if p(s[0]) then [s[0]] else [];
      assert Filter(s, p) == head + Filter(s[1..], p);
    }
  }
}
