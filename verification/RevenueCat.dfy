/** RevenueCat subscription events over the subscription table. */
module RevenueCat {
  import opened Wrappers

  type User = nat

  /** event.id, or the event type's own name when the event carries no id. */
  datatype Order = OrderId(id: nat) | EventName

  datatype Status = Active | Cancelled | IncompleteExpired | PastDue | PaymentFailed

  datatype Subscription = Subscription(
    user: User,
    order: Order,
    billingCycle: nat,
    expirationDate: int,
    renewalDate: int,
    status: Status,
    isActive: bool,
    cancelledAt: Option<int>
  )

  /** pick is the row findOne happens to return for the user. */
  datatype Event =
    | InitialPurchase(user: User, id: Option<nat>, expiration: int, userKnown: bool)
    | Renewal(user: User, expiration: int, pick: nat)
    | Cancellation(user: User, at: int, pick: nat)
    | Expiration(user: User, pick: nat)
    | Refund(user: User, pick: nat)
    | BillingIssue(user: User, pick: nat)
    | Unhandled

  function OrderOf(id: Option<nat>): Order {
    if id.Some? then OrderId(id.value) else EventName
  }

  predicate HasOrder(rows: seq<Subscription>, o: Order) {
    exists i :: 0 <= i < |rows| && rows[i].order == o
  }

  predicate HasUser(rows: seq<Subscription>, u: User) {
    exists i :: 0 <= i < |rows| && rows[i].user == u
  }

  /** The row an event changes in place, if any. */
  function Target(rows: seq<Subscription>, e: Event): Option<nat> {
    if e.InitialPurchase? || e.Unhandled? then None
    else if e.pick < |rows| && rows[e.pick].user == e.user then Some(e.pick)
    else None
  }

  /** findOne finds some row of the user whenever there is one. */
  predicate Legal(rows: seq<Subscription>, e: Event) {
    !e.InitialPurchase? && !e.Unhandled? && HasUser(rows, e.user) ==> Target(rows, e).Some?
  }

  function Changed(r: Subscription, e: Event): Subscription {
    match e
    case Renewal(_, x, _) => r.(expirationDate := x, renewalDate := x, billingCycle := r.billingCycle + 1)
    case Cancellation(_, at, _) => r.(status := Cancelled, cancelledAt := Some(at))
    case Expiration(_, _) => r.(status := IncompleteExpired, isActive := false)
    case Refund(_, _) => r.(status := PastDue)
    case BillingIssue(_, _) => r.(status := PaymentFailed)
    case _ => r
  }

  function Step(rows: seq<Subscription>, e: Event): seq<Subscription> {
    if e.InitialPurchase? then
      if HasOrder(rows, OrderOf(e.id)) || !e.userKnown then rows
      else rows + [Subscription(e.user, OrderOf(e.id), 1, e.expiration, e.expiration, Active, true, None)]
    else
      var t := Target(rows, e);
      if t.Some? then rows[t.value := Changed(rows[t.value], e)] else rows
  }

  function After(es: seq<Event>): seq<Subscription> {
    if es == [] then [] else Step(After(es[..|es| - 1]), es[|es| - 1])
  }

  predicate LegalRun(es: seq<Event>) {
    es == [] || (LegalRun(es[..|es| - 1]) && Legal(After(es[..|es| - 1]), es[|es| - 1]))
  }

  // ---------------------------------------------------------------------------------------

  /** At most one subscription per order id, and both dates always move together. */
  lemma {:induction false} OnePerOrder(es: seq<Event>, i: nat, j: nat)
    requires i < |After(es)| && j < |After(es)|
    ensures After(es)[i].order == After(es)[j].order ==> i == j
    ensures After(es)[i].expirationDate == After(es)[i].renewalDate
    decreases |es|
  {
    var prev, e := es[..|es| - 1], es[|es| - 1];
    var rows := After(prev);
    if i < |rows| {
      OnePerOrder(prev, i, if j < |rows| then j else i);
    }
    assert e.InitialPurchase? && |After(es)| > |rows| ==>
      forall k :: 0 <= k < |rows| ==> rows[k].order != OrderOf(e.id);
  }

  function CyclesOf(rows: seq<Subscription>, u: User): nat {
    if rows == [] then 0
    else CyclesOf(rows[..|rows| - 1], u) + if rows[|rows| - 1].user == u then rows[|rows| - 1].billingCycle else 0
  }

  function CountOf(rows: seq<Subscription>, u: User): nat {
    if rows == [] then 0
    else CountOf(rows[..|rows| - 1], u) + if rows[|rows| - 1].user == u then 1 else 0
  }

  /** Renewal events for the user that arrived when the user already had a subscription. */
  function RenewalsOf(es: seq<Event>, u: User): nat {
    if es == [] then 0
    else
      var prev, e := es[..|es| - 1], es[|es| - 1];
      RenewalsOf(prev, u) + if e.Renewal? && e.user == u && HasUser(After(prev), u) then 1 else 0
  }

  lemma {:induction false} SumsAfterUpdate(rows: seq<Subscription>, i: nat, r: Subscription, u: User)
    requires i < |rows| && r.user == rows[i].user
    ensures CyclesOf(rows[i := r], u) ==
      CyclesOf(rows, u) + if r.user == u then r.billingCycle - rows[i].billingCycle else 0
    ensures CountOf(rows[i := r], u) == CountOf(rows, u)
    decreases |rows|
  {
    var last := |rows| - 1;
    if i < last {
      assert rows[i := r][..last] == rows[..last][i := r];
      SumsAfterUpdate(rows[..last], i, r, u);
    } else {
      assert rows[i := r][..last] == rows[..last];
    }
  }

  /** Billing cycles are conserved, whichever of the user's rows each event happens to hit. */
  lemma {:induction false} CyclesAreConserved(es: seq<Event>, u: User)
    requires LegalRun(es)
    ensures CyclesOf(After(es), u) == CountOf(After(es), u) + RenewalsOf(es, u)
    decreases |es|
  {
    if es != [] {
      var prev, e := es[..|es| - 1], es[|es| - 1];
      var rows := After(prev);
      CyclesAreConserved(prev, u);
      if e.InitialPurchase? {
        var row := Subscription(e.user, OrderOf(e.id), 1, e.expiration, e.expiration, Active, true, None);
        assert (rows + [row])[..|rows|] == rows;
      } else if Target(rows, e).Some? {
        SumsAfterUpdate(rows, e.pick, Changed(rows[e.pick], e), u);
      }
    }
  }

  /** Event k hit row i with a cancellation, expiration, refund or billing issue. */
  predicate Hit(es: seq<Event>, k: nat, i: nat)
    requires k < |es|
  {
    !es[k].Renewal? && Target(After(es[..k]), es[k]) == Some(i)
  }

  /** A row is active exactly when nothing ever hit it: no renewal brings it back. */
  lemma {:induction false} ActiveIffNeverHit(es: seq<Event>, i: nat)
    requires i < |After(es)|
    ensures After(es)[i].status == Active <==> forall k: nat :: k < |es| ==> !Hit(es, k, i)
    decreases |es|
  {
    if es != [] {
      var n := |es| - 1;
      var prev := es[..n];
      forall k: nat | k < n
        ensures Hit(es, k, i) == Hit(prev, k, i)
      {
        assert prev[..k] == es[..k];
      }
      assert (forall k: nat :: k < |es| ==> !Hit(es, k, i)) <==>
        (forall k: nat :: k < n ==> !Hit(prev, k, i)) && !Hit(es, n, i);
      if i < |After(prev)| {
        ActiveIffNeverHit(prev, i);
      } else {
        RowsOnlyGrow(es, i);
      }
    }
  }

  /** What a row should hold, read off the events that concerned it: the expiration carried by the
      last renewal, or else by its purchase; the status named by the last other event; one cycle and
      one more per renewal; the last cancellation's time; and whether it ever expired. */
  datatype History = History(expiration: int, status: Status, cycles: nat, cancelledAt: Option<int>, expired: bool)

  function StatusNamed(e: Event): Status {
    match e
    case Cancellation(_, _, _) => Cancelled
    case Expiration(_, _) => IncompleteExpired
    case Refund(_, _) => PastDue
    case BillingIssue(_, _) => PaymentFailed
    case _ => Active
  }

  function HistoryOf(es: seq<Event>, i: nat): History
    requires i < |After(es)|
  {
    var prev, e := es[..|es| - 1], es[|es| - 1];
    if i >= |After(prev)| then History(e.expiration, Active, 1, None, false)
    else
      var h := HistoryOf(prev, i);
      if Target(After(prev), e) != Some(i) then h
      else if e.Renewal? then h.(expiration := e.expiration, cycles := h.cycles + 1)
      else History(h.expiration, StatusNamed(e), h.cycles,
                   if e.Cancellation? then Some(e.at) else h.cancelledAt, h.expired || e.Expiration?)
  }

  /** On every run each row holds exactly that. */
  lemma {:induction false} RowsTellTheirHistory(es: seq<Event>, i: nat)
    requires i < |After(es)|
    ensures var r, h := After(es)[i], HistoryOf(es, i);
      && r.expirationDate == h.expiration && r.renewalDate == h.expiration
      && r.status == h.status && r.billingCycle == h.cycles
      && r.cancelledAt == h.cancelledAt && (r.isActive <==> !h.expired)
    decreases |es|
  {
    var prev := es[..|es| - 1];
    if i < |After(prev)| {
      RowsTellTheirHistory(prev, i);
    }
  }

  lemma RowsOnlyGrow(es: seq<Event>, i: nat)
    requires es != [] && i >= |After(es[..|es| - 1])|
    ensures forall k: nat :: k < |es| ==> |After(es[..k])| <= i && !Hit(es, k, i)
  {
    forall k: nat | k < |es|
      ensures |After(es[..k])| <= i
    {
      LengthMonotone(es[..|es| - 1], k);
      assert es[..|es| - 1][..k] == es[..k];
    }
  }

  lemma {:induction false} LengthMonotone(es: seq<Event>, k: nat)
    requires k <= |es|
    ensures |After(es[..k])| <= |After(es)|
    decreases |es|
  {
    if k == |es| {
      assert es[..k] == es;
    } else {
      LengthMonotone(es[..|es| - 1], k);
      assert es[..|es| - 1][..k] == es[..k];
    }
  }

  // ---------------------------------------------------------------------------------------

  class RevenueCatWebhookService {
    var rows: seq<Subscription>

    constructor ()
      ensures rows == []
    {
      rows := [];
    }

    method HandleInitialPurchase(u: User, id: Option<nat>, expiration: int, userKnown: bool)
      modifies this
      ensures rows == Step(old(rows), InitialPurchase(u, id, expiration, userKnown))
      ensures rows ==
        if userKnown && forall i :: 0 <= i < |old(rows)| ==> old(rows)[i].order != OrderOf(id) then
          old(rows) + [Subscription(u, OrderOf(id), 1, expiration, expiration, Active, true, None)]
        else old(rows)
    {
      var order := OrderOf(id);
      var k := 0;
      while k < |rows|
        invariant k <= |rows|
        invariant forall i :: 0 <= i < k ==> rows[i].order != order
      {
        if rows[k].order == order {
          return;
        }
        k := k + 1;
      }
      if !userKnown {
        return;
      }
      rows := rows + [Subscription(u, order, 1, expiration, expiration, Active, true, None)];
    }

    method ProcessEvent(e: Event)
      modifies this
      ensures rows == Step(old(rows), e)
    {
      if e.InitialPurchase? {
        HandleInitialPurchase(e.user, e.id, e.expiration, e.userKnown);
        return;
      }
      var found := Target(rows, e);
      if found.None? {
        return;
      }
      var s := rows[found.value];
      match e {
        case Renewal(_, x, _) =>
          s := s.(expirationDate := x);
          s := s.(renewalDate := x);
          s := s.(billingCycle := s.billingCycle + 1);
        case Cancellation(_, at, _) =>
          s := s.(cancelledAt := Some(at));
          s := s.(status := Cancelled);
        case Expiration(_, _) =>
          s := s.(status := IncompleteExpired);
          s := s.(isActive := false);
        case Refund(_, _) => s := s.(status := PastDue);
        case BillingIssue(_, _) => s := s.(status := PaymentFailed);
        case _ =>
      }
      rows := rows[found.value := s];
    }
  }
}
