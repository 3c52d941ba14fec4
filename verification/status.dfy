/** The delivery-status state machine of food.js: the fixed `statuses` array
    and the one-step advance the scheduled job applies to each order. */
module OrderStatus {

  datatype Status = Preparing | OutForDelivery | Delivered

  /** The `statuses` array, in pipeline order. */
  const Statuses: seq<Status> := [Preparing, OutForDelivery, Delivered]

  /** The status literals, in the order of the `statuses` array. */
  const StatusNames: seq<string> := ["Preparing", "Out for Delivery", "Delivered"]

  /** The literal under which a status travels in JSON: the entry of the
      string array at the status's position in `statuses`. */
  function Name(s: Status): (r: string)
    ensures r == StatusNames[IndexOf(s)]
  {
    match s
    case Preparing => "Preparing"
    case OutForDelivery => "Out for Delivery"
    case Delivered => "Delivered"
  }

  /** Distinct statuses have distinct literals. */
  lemma NameInjective(s: Status, t: Status)
    ensures Name(s) == Name(t) <==> s == t
  {
  }

  /** `statuses.indexOf(s)`; every status is in the array, so never -1. */
  function IndexOf(s: Status): (i: nat)
    ensures i < |Statuses| && Statuses[i] == s
  {
    match s
    case Preparing => 0
    case OutForDelivery => 1
    case Delivered => 2
  }

  function Min(a: int, b: int): int {
    if a <= b then a else b
  }

  /** One firing for one order: a status other than `Delivered` moves to the
      next entry of `statuses`, falling back to `Delivered` past the end;
      `Delivered` stays put. */
  function Next(s: Status): (r: Status)
    ensures IndexOf(r) == Min(IndexOf(s) + 1, |Statuses| - 1)
    ensures s == Delivered <==> r == s
  {
    if s == Delivered then s
    else
      var i := IndexOf(s);
      if i + 1 < |Statuses| then Statuses[i + 1] else Delivered
  }

  /** The status after `n` firings. */
  function Advance(s: Status, n: nat): Status
    decreases n
  {
    if n == 0 then s else Advance(Next(s), n - 1)
  }

  /** After `n` firings the status has moved `n` steps along `statuses`,
      clamped at `Delivered`. */
  lemma {:induction false} AdvanceClosedForm(s: Status, n: nat)
    ensures IndexOf(Advance(s, n)) == Min(IndexOf(s) + n, |Statuses| - 1)
    ensures Advance(s, n) == Statuses[Min(IndexOf(s) + n, |Statuses| - 1)]
    decreases n
  {
    if n > 0 {
      AdvanceClosedForm(Next(s), n - 1);
    }
  }

  /** A freshly placed order is at `statuses[min(n, 2)]` after `n` firings. */
  lemma FreshOrderAfter(n: nat)
    ensures Advance(Preparing, n) == Statuses[Min(n, 2)]
  {
    AdvanceClosedForm(Preparing, n);
  }

  /** The status never moves backwards: more firings never yield an earlier
      status, and `Delivered` is never left. */
  lemma AdvanceMonotone(s: Status, m: nat, n: nat)
    requires m <= n
    ensures IndexOf(Advance(s, m)) <= IndexOf(Advance(s, n))
    ensures Advance(s, m) == Delivered ==> Advance(s, n) == Delivered
  {
    AdvanceClosedForm(s, m);
    AdvanceClosedForm(s, n);
  }
}
