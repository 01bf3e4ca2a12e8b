/** Stripe webhook events: their processing status, the attempts counter that decides whether a
    failed event is retried, and the transactions checkout events create. */
module StripeWebhook {
  import opened Wrappers

  type EventId = nat
  type Session = nat

  datatype Status = Pending | Processing | Done | Failed

  datatype Record = Record(status: Status, attempts: nat)

  /** A transaction by the two ids it may carry; deletion only flags it. */
  datatype Tx = Tx(transactionId: Option<Session>, revenueCatOrderId: Option<nat>, deleted: bool)

  /** Handled covers the event types whose handler only logs. */
  datatype Kind = Checkout(session: Session) | Handled | Unhandled

  /** One run of processEvent, first delivery, redelivery or retry alike; createFails tells whether
      creating the transaction throws.  RecordOther is a transaction made by another gateway, and
      SoftDelete flags the row of that index. */
  datatype Op =
    | Process(id: EventId, kind: Kind, createFails: bool)
    | RecordOther(revenueCatOrderId: nat)
    | SoftDelete(row: nat)

  datatype State = State(events: map<EventId, Record>, txs: seq<Tx>)

  const START := State(map[], [])

  /** findByRevenueCatOrderId's filter. */
  predicate HasOrder(txs: seq<Tx>, order: nat) {
    exists i :: 0 <= i < |txs| && CarriesOrder(txs[i], order)
  }

  predicate CarriesOrder(t: Tx, order: nat) {
    t.revenueCatOrderId == Some(order) && !t.deleted
  }

  predicate MakesTx(s: State, op: Op) {
    op.Process? && op.kind.Checkout? && !HasOrder(s.txs, op.kind.session) && !op.createFails
  }

  /** The checkout handler found no transaction and could not create one. */
  predicate Fails(s: State, op: Op) {
    op.Process? && op.kind.Checkout? && !HasOrder(s.txs, op.kind.session) && op.createFails
  }

  function Logged(events: map<EventId, Record>, id: EventId): map<EventId, Record> {
    if id in events then events else events[id := Record(Pending, 0)]
  }

  function Updated(events: map<EventId, Record>, id: EventId, status: Status): map<EventId, Record> {
    if id in events then events[id := Record(status, events[id].attempts + 1)] else events
  }

  function Step(s: State, op: Op): State {
    match op
    case RecordOther(o) => s.(txs := s.txs + [Tx(None, Some(o), false)])
    case SoftDelete(i) => if i < |s.txs| then s.(txs := s.txs[i := s.txs[i].(deleted := true)]) else s
    case Process(id, kind, _) =>
      var logged := Logged(s.events, id);
      if kind.Unhandled? then s.(events := logged)
      else State(
        Updated(Updated(logged, id, Processing), id, if Fails(s, op) then Failed else Done),
        if MakesTx(s, op) then s.txs + [Tx(Some(kind.session), None, false)] else s.txs)
  }

  function After(ops: seq<Op>): State {
    if ops == [] then START else Step(After(ops[..|ops| - 1]), ops[|ops| - 1])
  }

  /** Finished handler runs of an event. */
  function Runs(ops: seq<Op>, id: EventId): nat {
    if ops == [] then 0
    else
      var op := ops[|ops| - 1];
      Runs(ops[..|ops| - 1], id) + if op.Process? && op.id == id && !op.kind.Unhandled? then 1 else 0
  }

  /** Operation n recorded the order id in row i, and the row was not deleted since. */
  predicate Records(ops: seq<Op>, n: nat, i: nat, x: nat) {
    && n < |ops| && ops[n] == RecordOther(x) && i == |After(ops[..n]).txs|
    && forall j :: n < j < |ops| ==> ops[j] != SoftDelete(i)
  }

  /** Another gateway recorded the order id in a row that nobody deleted since. */
  ghost predicate OnRecord(ops: seq<Op>, x: nat) {
    exists n: nat, i: nat :: Records(ops, n, i, x)
  }

  lemma RecordsStep(ops: seq<Op>, n: nat, i: nat, x: nat)
    requires n < |ops| - 1
    ensures Records(ops, n, i, x) <==>
      Records(ops[..|ops| - 1], n, i, x) && ops[|ops| - 1] != SoftDelete(i)
  {
    assert ops[..|ops| - 1][..n] == ops[..n];
  }

  lemma {:induction false} RowsOnlyGrow(ops: seq<Op>, n: nat)
    requires n <= |ops|
    ensures |After(ops[..n]).txs| <= |After(ops).txs|
    decreases |ops|
  {
    if n == |ops| {
      assert ops[..n] == ops;
    } else {
      RowsOnlyGrow(ops[..|ops| - 1], n);
      assert ops[..|ops| - 1][..n] == ops[..n];
    }
  }

  /** A record is of a row that exists by now. */
  lemma RecordedRowExists(ops: seq<Op>, n: nat, i: nat, x: nat)
    requires Records(ops, n, i, x)
    ensures i < |After(ops).txs|
  {
    assert ops[..n + 1][..n] == ops[..n];
    RowsOnlyGrow(ops, n + 1);
  }

  lemma RowAfterStep(s: State, op: Op, i: nat, x: nat)
    requires i < |Step(s, op).txs|
    ensures CarriesOrder(Step(s, op).txs[i], x) <==>
      if i < |s.txs| then CarriesOrder(s.txs[i], x) && op != SoftDelete(i) else op == RecordOther(x)
    ensures i >= |s.txs| ==> i == |s.txs|
  {
  }

  lemma {:induction false} RowCarriesIffRecorded(ops: seq<Op>, i: nat, x: nat)
    requires i < |After(ops).txs|
    ensures CarriesOrder(After(ops).txs[i], x) <==> exists n: nat :: Records(ops, n, i, x)
    decreases |ops|
  {
    var last := |ops| - 1;
    var prev, op := ops[..last], ops[last];
    RowAfterStep(After(prev), op, i, x);
    if i < |After(prev).txs| {
      RowCarriesIffRecorded(prev, i, x);
      forall n: nat | n < |ops|
        ensures Records(ops, n, i, x) <==> n < last && Records(prev, n, i, x) && op != SoftDelete(i)
      {
        if n < last { RecordsStep(ops, n, i, x); }
      }
    } else {
      forall n: nat | n < last
        ensures !Records(ops, n, i, x)
      {
        RecordsStep(ops, n, i, x);
        if Records(prev, n, i, x) { RecordedRowExists(prev, n, i, x); }
      }
      assert Records(ops, last, i, x) <==> op == RecordOther(x);
    }
  }

  /** The lookup finds a session's id only where another gateway recorded it: a checkout never
      leaves behind what the next checkout looks for. */
  lemma FoundIffRecorded(ops: seq<Op>, x: Session)
    ensures HasOrder(After(ops).txs, x) <==> OnRecord(ops, x)
  {
    var txs := After(ops).txs;
    if i :| 0 <= i < |txs| && CarriesOrder(txs[i], x) {
      RowCarriesIffRecorded(ops, i, x);
    }
    if n: nat, i: nat :| Records(ops, n, i, x) {
      RecordedRowExists(ops, n, i, x);
      RowCarriesIffRecorded(ops, i, x);
    }
  }

  /** A checkout run for the session that finds nothing on record. */
  ghost predicate Unmatched(prev: seq<Op>, op: Op, x: Session) {
    op.Process? && op.kind == Checkout(x) && !OnRecord(prev, x)
  }

  ghost predicate LastRunFailed(ops: seq<Op>, id: EventId) {
    ops != [] &&
    var prev, op := ops[..|ops| - 1], ops[|ops| - 1];
    if op.Process? && op.id == id && !op.kind.Unhandled? then
      op.kind.Checkout? && Unmatched(prev, op, op.kind.session) && op.createFails
    else LastRunFailed(prev, id)
  }

  /** getFailedEvents' filter. */
  predicate Offered(s: State, id: EventId) {
    id in s.events && s.events[id].status == Failed && s.events[id].attempts < 3
  }

  /** Every run counts twice: once going in, once coming out. */
  lemma {:induction false} AttemptsAreTwiceRuns(ops: seq<Op>, id: EventId)
    ensures var s := After(ops);
      && (Runs(ops, id) > 0 ==> id in s.events)
      && (LastRunFailed(ops, id) ==> Runs(ops, id) > 0)
      && (id in s.events ==>
            && s.events[id].attempts == 2 * Runs(ops, id)
            && s.events[id].status == (if Runs(ops, id) == 0 then Pending
                                       else if LastRunFailed(ops, id) then Failed else Done))
    decreases |ops|
  {
    if ops != [] {
      var prev, op := ops[..|ops| - 1], ops[|ops| - 1];
      AttemptsAreTwiceRuns(prev, id);
      if op.Process? && op.kind.Checkout? { FoundIffRecorded(prev, op.kind.session); }
    }
  }

  /** An event is offered for retry exactly after its first run, if that failed: the limit of three
      attempts allows one retry, not three. */
  lemma OfferedIffOneFailedRun(ops: seq<Op>, id: EventId)
    ensures Offered(After(ops), id) <==> Runs(ops, id) == 1 && LastRunFailed(ops, id)
  {
    AttemptsAreTwiceRuns(ops, id);
  }

  // ---------------------------------------------------------------------------------------
  // Transactions per checkout session
  // ---------------------------------------------------------------------------------------

  function TxCount(txs: seq<Tx>, x: Session): nat {
    if txs == [] then 0
    else TxCount(txs[..|txs| - 1], x) + if txs[|txs| - 1].transactionId == Some(x) then 1 else 0
  }

  lemma TxCountSnoc(txs: seq<Tx>, t: Tx, x: Session)
    ensures TxCount(txs + [t], x) == TxCount(txs, x) + if t.transactionId == Some(x) then 1 else 0
  {
    assert (txs + [t])[..|txs|] == txs;
  }

  lemma {:induction false} TxCountAfterDelete(txs: seq<Tx>, i: nat, x: Session)
    requires i < |txs|
    ensures TxCount(txs[i := txs[i].(deleted := true)], x) == TxCount(txs, x)
    decreases |txs|
  {
    var last := |txs| - 1;
    var t := txs[i].(deleted := true);
    if i < last {
      assert txs[i := t][..last] == txs[..last][i := t];
      TxCountAfterDelete(txs[..last], i, x);
    } else {
      assert txs[i := t][..last] == txs[..last];
    }
  }

  /** Checkout runs for the session that do not fail and find nothing on record. */
  ghost function Creations(ops: seq<Op>, x: Session): nat {
    if ops == [] then 0
    else
      var prev, op := ops[..|ops| - 1], ops[|ops| - 1];
      Creations(prev, x) + if Unmatched(prev, op, x) && !op.createFails then 1 else 0
  }

  /** Every such run creates a transaction: the lookup asks for an order id the create never sets. */
  lemma {:induction false} OneTxPerCreation(ops: seq<Op>, x: Session)
    ensures TxCount(After(ops).txs, x) == Creations(ops, x)
    decreases |ops|
  {
    if ops != [] {
      var s, op := After(ops[..|ops| - 1]), ops[|ops| - 1];
      OneTxPerCreation(ops[..|ops| - 1], x);
      FoundIffRecorded(ops[..|ops| - 1], x);
      match op {
        case RecordOther(o) => TxCountSnoc(s.txs, Tx(None, Some(o), false), x);
        case SoftDelete(i) => if i < |s.txs| { TxCountAfterDelete(s.txs, i, x); }
        case Process(_, kind, _) =>
          if MakesTx(s, op) { TxCountSnoc(s.txs, Tx(Some(kind.session), None, false), x); }
      }
    }
  }

  /** So delivering a checkout event twice records it twice, until another gateway's transaction
      happens to carry the session's id. */
  lemma RedeliveryDuplicates(ops: seq<Op>, id: EventId, x: Session)
    ensures TxCount(After(ops + [Process(id, Checkout(x), false)]).txs, x) ==
      TxCount(After(ops).txs, x) + if OnRecord(ops, x) then 0 else 1
  {
    var op := Process(id, Checkout(x), false);
    assert (ops + [op])[..|ops|] == ops;
    OneTxPerCreation(ops, x);
    OneTxPerCreation(ops + [op], x);
  }

  // ---------------------------------------------------------------------------------------

  class StripeWebhookService {
    var events: map<EventId, Record>
    var txs: seq<Tx>

    ghost function Model(): State
      reads this
    {
      State(events, txs)
    }

    constructor ()
      ensures Model() == START
    {
      events, txs := map[], [];
    }

    method LogWebhookEvent(id: EventId)
      modifies this`events
      ensures events == Logged(old(events), id)
    {
      if id !in events {
        events := events[id := Record(Pending, 0)];
      }
    }

    method UpdateProcessingStatus(id: EventId, status: Status)
      modifies this`events
      ensures events == Updated(old(events), id, status)
    {
      if id in events {
        events := events[id := Record(status, events[id].attempts + 1)];
      }
    }

    method HandleCheckoutSessionCompleted(id: EventId, x: Session, createFails: bool) returns (ok: bool)
      modifies this
      ensures var found := HasOrder(old(txs), x);
        && ok == (found || !createFails)
        && txs == old(txs) + (if !found && !createFails then [Tx(Some(x), None, false)] else [])
        && events == Updated(Updated(old(events), id, Processing), id, if ok then Done else Failed)
    {
      UpdateProcessingStatus(id, Processing);
      var k := 0;
      while k < |txs|
        invariant k <= |txs| && txs == old(txs)
        invariant forall i :: 0 <= i < k ==> !CarriesOrder(txs[i], x)
        invariant events == Updated(old(events), id, Processing)
      {
        if CarriesOrder(txs[k], x) {
          UpdateProcessingStatus(id, Done);
          return true;
        }
        k := k + 1;
      }
      if createFails {
        UpdateProcessingStatus(id, Failed);
        return false;
      }
      txs := txs + [Tx(Some(x), None, false)];
      UpdateProcessingStatus(id, Done);
      return true;
    }

    method ProcessEvent(id: EventId, kind: Kind, createFails: bool) returns (ok: bool)
      modifies this
      ensures Model() == Step(old(Model()), Process(id, kind, createFails))
      ensures ok <==> !Fails(old(Model()), Process(id, kind, createFails))
    {
      LogWebhookEvent(id);
      match kind {
        case Checkout(x) =>
          ok := HandleCheckoutSessionCompleted(id, x, createFails);
        case Handled =>
          UpdateProcessingStatus(id, Processing);
          UpdateProcessingStatus(id, Done);
          ok := true;
        case Unhandled => ok := true;
      }
    }
  }
}
