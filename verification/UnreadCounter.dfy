/** The unread-notification counter: a Redis integer kept by INCR and DECR beside the table it
    summarises, refilled by a counting query only when the key is missing. */
module UnreadCounter {
  import opened Redis
  import opened Wrappers

  type User = nat

  datatype Row = Row(receiver: Option<User>, read: bool, deleted: bool) {
    predicate Unread(u: User) { receiver == Some(u) && !read && !deleted }
  }

  datatype State = State(now: int, rows: seq<Row>, counters: map<User, Key<int>>) {
    function Counter(u: User): Key<int> {
      if u in counters then counters[u] else Absent
    }
  }

  /** What became of an INCR or DECR and the EXPIRE after it. */
  datatype Reach = Done | ExpireFails | CommandFails | NoClient {
    predicate Counts() { Done? || ExpireFails? }

    predicate Throws() { ExpireFails? || CommandFails? }
  }

  /** delUp, getUp and setUp tell whether that command reaches Redis; its failure is swallowed. */
  datatype Op =
    | Send(to: Option<User>, reach: Reach)
    | MarkRead(id: nat, user: User, reach: Reach)
    | MarkAll(user: User, delUp: bool)
    | Delete(id: nat, user: User, reach: Reach)
    | Query(user: User, getUp: bool, setUp: bool)
    | Wait(ms: nat)

  const TTL_MS := 300 * 1000

  /** fetchUnreadCount: the counting query. */
  function UnreadIn(rows: seq<Row>, u: User): nat {
    if rows == [] then 0
    else UnreadIn(rows[..|rows| - 1], u) + if rows[|rows| - 1].Unread(u) then 1 else 0
  }

  lemma {:induction false} UnreadInCounts(rows: seq<Row>, u: User)
    ensures UnreadIn(rows, u) == |set i | 0 <= i < |rows| && rows[i].Unread(u)|
    decreases |rows|
  {
    if rows != [] {
      var last := |rows| - 1;
      UnreadInCounts(rows[..last], u);
      var few := set i | 0 <= i < last && rows[..last][i].Unread(u);
      assert (set i | 0 <= i < |rows| && rows[i].Unread(u)) == few + if rows[last].Unread(u) then {last} else {};
    }
  }

  function AllRead(rows: seq<Row>, u: User): (out: seq<Row>)
    ensures |out| == |rows|
    ensures forall i :: 0 <= i < |rows| ==> out[i] == if rows[i].Unread(u) then rows[i].(read := true) else rows[i]
  {
    seq(|rows|, i requires 0 <= i < |rows| => if rows[i].Unread(u) then rows[i].(read := true) else rows[i])
  }

  /** What INCR and DECR count from: the live value, or zero when the key is missing. */
  function Base(s: State, u: User): int {
    match s.Counter(u).Get(s.now) case Some(n) => n case None => 0
  }

  /** INCR or DECR, then EXPIRE.  Without the EXPIRE a new key never expires. */
  function Bump(s: State, u: User, delta: int, reach: Reach): State {
    var k := s.Counter(u);
    match reach
    case Done => s.(counters := s.counters[u := Held(Base(s, u) + delta, At(s.now + TTL_MS))])
    case ExpireFails =>
      s.(counters := s.counters[u := Held(Base(s, u) + delta, if k.LiveAt(s.now) then k.expiry else Never)])
    case _ => s
  }

  predicate Owns(s: State, id: nat, u: User) {
    id < |s.rows| && s.rows[id].receiver == Some(u)
  }

  function Step(s: State, op: Op): State {
    match op
    case Send(to, reach) =>
      var s' := s.(rows := s.rows + [Row(to, false, false)]);
      if to.Some? then Bump(s', to.value, 1, reach) else s'
    case MarkRead(id, u, reach) =>
      if Owns(s, id, u) then Bump(s.(rows := s.rows[id := s.rows[id].(read := true)]), u, -1, reach) else s
    case MarkAll(u, delUp) =>
      s.(rows := AllRead(s.rows, u), counters := if delUp then s.counters - {u} else s.counters)
    case Delete(id, u, reach) =>
      if !Owns(s, id, u) then s
      else
        var s' := s.(rows := s.rows[id := s.rows[id].(deleted := true)]);
        if s.rows[id].read then s' else Bump(s', u, -1, reach)
    case Query(u, getUp, setUp) =>
      if (getUp && s.Counter(u).LiveAt(s.now)) || !setUp then s
      else s.(counters := s.counters[u := Held(UnreadIn(s.rows, u), At(s.now + TTL_MS))])
    case Wait(ms) => s.(now := s.now + ms)
  }

  const EMPTY := State(0, [], map[])

  function After(ops: seq<Op>): State {
    if ops == [] then EMPTY else Step(After(ops[..|ops| - 1]), ops[|ops| - 1])
  }

  // ---------------------------------------------------------------------------------------
  // The drift law
  // ---------------------------------------------------------------------------------------

  /** What went wrong since the key was last created: the unread rows it never counted, the
      decrements taken for rows that were already read or deleted, and, in the other direction, the
      balance of the changes that a failed command kept from it. */
  datatype Drift = Drift(uncounted: nat, redundant: nat, missed: int)

  const NONE := Drift(0, 0, 0)

  /** Whether the operation sends INCR or DECR for this user. */
  predicate Touches(s: State, op: Op, u: User) {
    match op
    case Send(to, _) => to == Some(u)
    case MarkRead(id, v, _) => v == u && Owns(s, id, u)
    case Delete(id, v, _) => v == u && Owns(s, id, u) && !s.rows[id].read
    case _ => false
  }

  predicate Redundant(s: State, op: Op, u: User) {
    Touches(s, op, u) && !op.Send? && !s.rows[op.id].Unread(u)
  }

  function Drifted(s: State, op: Op, d: Drift, u: User): Drift {
    var live := s.Counter(u).LiveAt(s.now);
    if Touches(s, op, u) && op.reach.Counts() then
      var d' := if live then d else Drift(UnreadIn(s.rows, u), 0, 0);
      if Redundant(s, op, u) then d'.(redundant := d'.redundant + 1) else d'
    else if Touches(s, op, u) then
      d.(missed := d.missed + if op.Send? then -1 else if Redundant(s, op, u) then 0 else 1)
    else
      match op
      case MarkAll(v, false) => if v == u then d.(missed := d.missed + UnreadIn(s.rows, u)) else d
      case Query(v, getUp, true) => if v == u && !(getUp && live) then NONE else d
      case _ => d
  }

  function DriftAfter(ops: seq<Op>, u: User): Drift {
    if ops == [] then NONE
    else
      var prev := ops[..|ops| - 1];
      Drifted(After(prev), ops[|ops| - 1], DriftAfter(prev, u), u)
  }

  lemma {:induction false} CountAfterUpdate(rows: seq<Row>, i: nat, row: Row, u: User)
    requires i < |rows|
    ensures UnreadIn(rows[i := row], u) ==
      UnreadIn(rows, u) - (if rows[i].Unread(u) then 1 else 0) + (if row.Unread(u) then 1 else 0)
    decreases |rows|
  {
    var last := |rows| - 1;
    if i < last {
      assert rows[i := row][..last] == rows[..last][i := row];
      CountAfterUpdate(rows[..last], i, row, u);
    } else {
      assert rows[i := row][..last] == rows[..last];
    }
  }

  lemma {:induction false} CountAfterMarkAll(rows: seq<Row>, u: User, v: User)
    ensures UnreadIn(AllRead(rows, u), v) == if u == v then 0 else UnreadIn(rows, v)
    decreases |rows|
  {
    if rows != [] {
      var last := |rows| - 1;
      assert AllRead(rows, u)[..last] == AllRead(rows[..last], u);
      CountAfterMarkAll(rows[..last], u, v);
    }
  }

  /** How one operation moves the true count. */
  lemma CountStep(s: State, op: Op, u: User)
    ensures UnreadIn(Step(s, op).rows, u) ==
      if op.MarkAll? && op.user == u then 0
      else if !Touches(s, op, u) || Redundant(s, op, u) then UnreadIn(s.rows, u)
      else if op.Send? then UnreadIn(s.rows, u) + 1
      else UnreadIn(s.rows, u) - 1
  {
    match op
    case Send(to, _) =>
      var row := Row(to, false, false);
      assert (s.rows + [row])[..|s.rows|] == s.rows;
    case MarkRead(id, v, _) =>
      if Owns(s, id, v) { CountAfterUpdate(s.rows, id, s.rows[id].(read := true), u); }
    case Delete(id, v, _) =>
      if Owns(s, id, v) { CountAfterUpdate(s.rows, id, s.rows[id].(deleted := true), u); }
    case MarkAll(v, _) => CountAfterMarkAll(s.rows, v, u);
    case _ =>
  }

  /** The cached counter, if any, is the true count less the drift. */
  predicate OffBy(s: State, d: Drift, u: User) {
    s.Counter(u).Held? ==> s.Counter(u).value == UnreadIn(s.rows, u) - d.uncounted - d.redundant + d.missed
  }

  lemma DriftOnTouch(s: State, op: Op, d: Drift, u: User)
    requires OffBy(s, d, u) && Touches(s, op, u)
    ensures OffBy(Step(s, op), Drifted(s, op, d, u), u)
  {
    CountStep(s, op, u);
  }

  lemma DriftElsewhere(s: State, op: Op, d: Drift, u: User)
    requires OffBy(s, d, u) && !Touches(s, op, u)
    ensures OffBy(Step(s, op), Drifted(s, op, d, u), u)
  {
    CountStep(s, op, u);
  }

  lemma DriftStep(s: State, op: Op, d: Drift, u: User)
    requires OffBy(s, d, u)
    ensures OffBy(Step(s, op), Drifted(s, op, d, u), u)
  {
    if Touches(s, op, u) { DriftOnTouch(s, op, d, u); } else { DriftElsewhere(s, op, d, u); }
  }

  /** On every run, a cached counter is the true count less exactly the accumulated drift. */
  lemma {:induction false} DriftLaw(ops: seq<Op>, u: User)
    ensures OffBy(After(ops), DriftAfter(ops, u), u)
    decreases |ops|
  {
    if ops != [] {
      var prev := ops[..|ops| - 1];
      DriftLaw(prev, u);
      DriftStep(After(prev), ops[|ops| - 1], DriftAfter(prev, u), u);
    }
  }

  /** getUnreadCount's answer. */
  function Answer(s: State, u: User): int {
    match s.Counter(u).Get(s.now) case Some(n) => n case None => UnreadIn(s.rows, u)
  }

  /** A cached answer is right exactly when what it lost balances what it missed, and too high
      exactly when it missed more. */
  lemma AnswerIsExactIffBalanced(ops: seq<Op>, u: User)
    ensures var s, d := After(ops), DriftAfter(ops, u);
      s.Counter(u).LiveAt(s.now) ==>
        && (Answer(s, u) == UnreadIn(s.rows, u) <==> d.uncounted + d.redundant == d.missed)
        && (Answer(s, u) > UnreadIn(s.rows, u) <==> d.uncounted + d.redundant < d.missed)
  {
    DriftLaw(ops, u);
  }

  /** Every INCR, DECR and DEL reached Redis. */
  predicate AllCounted(ops: seq<Op>) {
    forall i :: 0 <= i < |ops| ==>
      match ops[i]
      case Send(_, reach) => reach.Counts()
      case MarkRead(_, _, reach) => reach.Counts()
      case Delete(_, _, reach) => reach.Counts()
      case MarkAll(_, delUp) => delUp
      case _ => true
  }

  /** With Redis up nothing is missed: the answer is never too high, and right exactly when nothing
      drifted. */
  lemma {:induction false} NeverTooHigh(ops: seq<Op>, u: User)
    requires AllCounted(ops)
    ensures var s, d := After(ops), DriftAfter(ops, u);
      && d.missed == 0
      && Answer(s, u) <= UnreadIn(s.rows, u)
      && (s.Counter(u).LiveAt(s.now) ==> (Answer(s, u) == UnreadIn(s.rows, u) <==> d == NONE))
    decreases |ops|
  {
    if ops != [] {
      NeverTooHigh(ops[..|ops| - 1], u);
    }
    AnswerIsExactIffBalanced(ops, u);
  }

  /** The answer is the true count. */
  predicate Agrees(s: State, u: User) {
    Answer(s, u) == UnreadIn(s.rows, u)
  }

  /** A counted change hits a row that is still unread and a warm key or an empty inbox; a change
      that is not counted finds no warm key, or nothing to count. */
  predicate Careful(s: State, op: Op, u: User) {
    var live := s.Counter(u).LiveAt(s.now);
    if Touches(s, op, u) then
      if op.reach.Counts() then !Redundant(s, op, u) && (live || UnreadIn(s.rows, u) == 0)
      else !live || Redundant(s, op, u)
    else op == MarkAll(u, false) ==> !live || UnreadIn(s.rows, u) == 0
  }

  lemma AgreesOnTouch(s: State, op: Op, u: User)
    requires Agrees(s, u) && Touches(s, op, u)
    ensures Agrees(Step(s, op), u) <==> Careful(s, op, u)
  {
    CountStep(s, op, u);
  }

  lemma AgreesElsewhere(s: State, op: Op, u: User)
    requires Agrees(s, u) && !Touches(s, op, u)
    ensures Agrees(Step(s, op), u) <==> Careful(s, op, u)
  {
    CountStep(s, op, u);
  }

  lemma AgreesStepIff(s: State, op: Op, u: User)
    requires Agrees(s, u)
    ensures Agrees(Step(s, op), u) <==> Careful(s, op, u)
  {
    if Touches(s, op, u) { AgreesOnTouch(s, op, u); } else { AgreesElsewhere(s, op, u); }
  }

  predicate CarefulRun(ops: seq<Op>, u: User) {
    ops == [] || (CarefulRun(ops[..|ops| - 1], u) && Careful(After(ops[..|ops| - 1]), ops[|ops| - 1], u))
  }

  predicate AgreesThroughout(ops: seq<Op>, u: User) {
    Agrees(After(ops), u) && (ops == [] || AgreesThroughout(ops[..|ops| - 1], u))
  }

  /** The answer is right at every moment of a run exactly when the run is careful. */
  lemma {:induction false} CarefulRunsAgree(ops: seq<Op>, u: User)
    ensures AgreesThroughout(ops, u) <==> CarefulRun(ops, u)
    decreases |ops|
  {
    if ops != [] {
      var prev := ops[..|ops| - 1];
      CarefulRunsAgree(prev, u);
      if Agrees(After(prev), u) { AgreesStepIff(After(prev), ops[|ops| - 1], u); }
    }
  }

  lemma AppendOp(ops: seq<Op>, op: Op)
    ensures After(ops + [op]) == Step(After(ops), op)
  {
    assert (ops + [op])[..|ops|] == ops;
  }

  /** A message that finds no live key starts the counter at one. */
  lemma SendWhenCold(s: State, u: User)
    requires !s.Counter(u).LiveAt(s.now)
    ensures var s' := Step(s, Send(Some(u), Done));
      UnreadIn(s'.rows, u) == UnreadIn(s.rows, u) + 1 && Answer(s', u) == 1
  {
    CountStep(s, Send(Some(u), Done), u);
  }

  lemma SendThenLapse(s: State, u: User)
    ensures var s' := Step(Step(s, Send(Some(u), Done)), Wait(TTL_MS));
      !s'.Counter(u).LiveAt(s'.now) && UnreadIn(s'.rows, u) == UnreadIn(s.rows, u) + 1
  {
    CountStep(s, Send(Some(u), Done), u);
  }

  /** How the cache goes wrong with Redis up, after any run: a message, the key lapses, a message. */
  lemma ColdIncrementForgets(ops: seq<Op>, u: User)
    ensures var s' := After(ops + [Send(Some(u), Done)] + [Wait(TTL_MS)] + [Send(Some(u), Done)]);
      Answer(s', u) == 1 && UnreadIn(s'.rows, u) == UnreadIn(After(ops).rows, u) + 2
  {
    var send := Send(Some(u), Done);
    AppendOp(ops, send);
    AppendOp(ops + [send], Wait(TTL_MS));
    AppendOp(ops + [send] + [Wait(TTL_MS)], send);
    SendThenLapse(After(ops), u);
    SendWhenCold(After(ops + [send] + [Wait(TTL_MS)]), u);
  }

  // ---------------------------------------------------------------------------------------
  // Broadcasts
  // ---------------------------------------------------------------------------------------

  /** One send per receiver, in order. */
  function Sends(s: State, receivers: seq<User>, reaches: seq<Reach>): State
    requires |receivers| == |reaches|
  {
    if receivers == [] then s
    else
      var n := |receivers| - 1;
      Step(Sends(s, receivers[..n], reaches[..n]), Send(Some(receivers[n]), reaches[n]))
  }

  /** A user's counter after one increment for each time the receivers name them. */
  function Counted(s: State, receivers: seq<User>, u: User): Key<int> {
    if u in receivers then Held(Base(s, u) + multiset(receivers)[u], At(s.now + TTL_MS)) else s.Counter(u)
  }

  lemma CountedSnoc(s: State, t: State, receivers: seq<User>, r: User, u: User)
    requires t.now == s.now
    requires t.Counter(r) == Counted(s, receivers, r) && t.Counter(u) == Counted(s, receivers, u)
    ensures Step(t, Send(Some(r), Done)).Counter(u) == Counted(s, receivers + [r], u)
  {
    assert multiset(receivers + [r]) == multiset(receivers) + multiset{r};
    assert r !in receivers ==> multiset(receivers)[r] == 0;
  }

  predicate AllDone(reaches: seq<Reach>) {
    forall i :: 0 <= i < |reaches| ==> reaches[i] == Done
  }

  /** With Redis up a broadcast leaves each receiver an increment for each time it is named, and
      everybody else's counter alone. */
  lemma {:induction false} BroadcastCounts(s: State, receivers: seq<User>, reaches: seq<Reach>, u: User)
    requires |receivers| == |reaches| && AllDone(reaches)
    ensures Sends(s, receivers, reaches).now == s.now
    ensures Sends(s, receivers, reaches).Counter(u) == Counted(s, receivers, u)
    decreases |receivers|
  {
    if receivers != [] {
      var n := |receivers| - 1;
      BroadcastCounts(s, receivers[..n], reaches[..n], u);
      BroadcastCounts(s, receivers[..n], reaches[..n], receivers[n]);
      CountedSnoc(s, Sends(s, receivers[..n], reaches[..n]), receivers[..n], receivers[n], u);
      assert receivers == receivers[..n] + [receivers[n]];
    }
  }

  /** Whatever happens to Redis, it leaves them as many new unread rows. */
  lemma {:induction false} BroadcastRows(s: State, receivers: seq<User>, reaches: seq<Reach>, u: User)
    requires |receivers| == |reaches|
    ensures UnreadIn(Sends(s, receivers, reaches).rows, u) == UnreadIn(s.rows, u) + multiset(receivers)[u]
    decreases |receivers|
  {
    if receivers != [] {
      var n := |receivers| - 1;
      BroadcastRows(s, receivers[..n], reaches[..n], u);
      CountStep(Sends(s, receivers[..n], reaches[..n]), Send(Some(receivers[n]), reaches[n]), u);
      OccurrencesSnoc(receivers, u);
    }
  }

  lemma OccurrencesSnoc(receivers: seq<User>, u: User)
    requires receivers != []
    ensures var n := |receivers| - 1;
      multiset(receivers)[u] == multiset(receivers[..n])[u] + if receivers[n] == u then 1 else 0
  {
    var n := |receivers| - 1;
    assert receivers == receivers[..n] + [receivers[n]];
  }

  // ---------------------------------------------------------------------------------------
  // The service
  // ---------------------------------------------------------------------------------------

  class NotificationService {
    var now: int
    var rows: seq<Row>
    var counters: map<User, Key<int>>

    ghost function Model(): State
      reads this
    {
      State(now, rows, counters)
    }

    constructor ()
      ensures Model() == EMPTY
    {
      now, rows, counters := 0, [], map[];
    }

    /** client.incr or client.decr followed by client.expire; false stands for a throw. */
    method AddToCounter(u: User, delta: int, reach: Reach) returns (ok: bool)
      modifies this`counters
      ensures Model() == Bump(old(Model()), u, delta, reach) && ok == !reach.Throws()
      ensures !reach.Counts() ==> counters == old(counters)
      ensures reach.Counts() ==>
        var k, live := old(Model().Counter(u)), old(Model().Counter(u).LiveAt(now));
        counters == old(counters)[u := Held(
          (if live then k.value else 0) + delta,
          if reach.Done? then At(now + 300 * 1000) else if live then k.expiry else Never)]
    {
      if !reach.Counts() {
        return reach.NoClient?;
      }
      var v, expiry := 0, Never;
      if u in counters {
        var cached := counters[u].Get(now);
        if cached.Some? {
          v, expiry := cached.value, counters[u].expiry;
        }
      }
      counters := counters[u := Held(v + delta, expiry)];
      if reach.ExpireFails? {
        return false;
      }
      counters := counters[u := Held(v + delta, At(now + TTL_MS))];
      return true;
    }

    /** The row stays even when the counter command throws. */
    method SendNotification(to: Option<User>, reach: Reach) returns (ok: bool)
      modifies this
      ensures Model() == Step(old(Model()), Send(to, reach))
      ensures ok <==> to.None? || !reach.Throws()
      ensures rows == old(rows) + [Row(to, false, false)]
      ensures forall v: User :: Some(v) != to ==> Model().Counter(v) == old(Model()).Counter(v)
    {
      rows := rows + [Row(to, false, false)];
      ok := true;
      if to.Some? {
        ok := AddToCounter(to.value, 1, reach);
      }
    }

    /** broadcastNotification: one send per receiver, in order, up to the first that throws. */
    method Broadcast(receivers: seq<User>, reaches: seq<Reach>) returns (sent: nat)
      requires |receivers| == |reaches|
      modifies this
      ensures sent <= |receivers|
      ensures Model() == Sends(old(Model()), receivers[..sent], reaches[..sent])
      ensures forall i :: 0 <= i < sent - 1 ==> !reaches[i].Throws()
      ensures sent < |receivers| ==> sent > 0 && reaches[sent - 1].Throws()
    {
      sent := 0;
      while sent < |receivers|
        invariant sent <= |receivers|
        invariant Model() == Sends(old(Model()), receivers[..sent], reaches[..sent])
        invariant forall i :: 0 <= i < sent ==> !reaches[i].Throws()
      {
        assert receivers[..sent + 1][..sent] == receivers[..sent];
        assert reaches[..sent + 1][..sent] == reaches[..sent];
        var ok := SendNotification(Some(receivers[sent]), reaches[sent]);
        sent := sent + 1;
        if !ok {
          return;
        }
      }
    }

    /** None is the error for a notification that is not the user's; Some(false) a counter command
        that throws after the row was marked. */
    method MarkAsRead(id: nat, u: User, reach: Reach) returns (r: Option<bool>)
      modifies this
      ensures Model() == Step(old(Model()), MarkRead(id, u, reach))
      ensures r.Some? <==> id < |rows| && old(rows)[id].receiver == Some(u)
      ensures r.Some? ==> r.value == !reach.Throws()
      ensures rows == if r.Some? then old(rows)[id := old(rows)[id].(read := true)] else old(rows)
      ensures forall v :: v != u || r.None? ==> Model().Counter(v) == old(Model()).Counter(v)
    {
      if id >= |rows| || rows[id].receiver != Some(u) {
        return None;
      }
      rows := rows[id := rows[id].(read := true)];
      var ok := AddToCounter(u, -1, reach);
      return Some(ok);
    }

    method MarkAllAsRead(u: User, delUp: bool)
      modifies this
      ensures Model() == Step(old(Model()), MarkAll(u, delUp))
      ensures |rows| == |old(rows)| && forall i :: 0 <= i < |rows| ==>
        var before := old(rows)[i];
        rows[i] == before.(read := before.read || (before.receiver == Some(u) && !before.deleted))
      ensures counters == if delUp then old(counters) - {u} else old(counters)
    {
      rows := AllRead(rows, u);
      if delUp {
        counters := counters - {u};
      }
    }

    method DeleteNotification(id: nat, u: User, reach: Reach) returns (r: Option<bool>)
      modifies this
      ensures Model() == Step(old(Model()), Delete(id, u, reach))
      ensures r.Some? <==> id < |rows| && old(rows)[id].receiver == Some(u)
      ensures r.Some? ==> r.value == (old(rows)[id].read || !reach.Throws())
      ensures rows == if r.Some? then old(rows)[id := old(rows)[id].(deleted := true)] else old(rows)
      ensures forall v :: v != u || r.None? || old(rows)[id].read ==> Model().Counter(v) == old(Model()).Counter(v)
    {
      if id >= |rows| || rows[id].receiver != Some(u) {
        return None;
      }
      rows := rows[id := rows[id].(deleted := true)];
      var ok := true;
      if !rows[id].read {
        ok := AddToCounter(u, -1, reach);
      }
      return Some(ok);
    }

    method GetUnreadCount(u: User, getUp: bool, setUp: bool) returns (n: int)
      modifies this
      ensures Model() == Step(old(Model()), Query(u, getUp, setUp))
      ensures var k, live := old(Model()).Counter(u), getUp && old(Model()).Counter(u).LiveAt(now);
        && (live ==> n == k.value && counters == old(counters))
        && (!live ==> n == |set i | 0 <= i < |rows| && rows[i].Unread(u)|)
        && (!live ==> counters == if setUp then old(counters)[u := Held(n, At(now + 300 * 1000))] else old(counters))
    {
      if getUp && u in counters {
        var cached := counters[u].Get(now);
        if cached.Some? {
          return cached.value;
        }
      }
      UnreadInCounts(rows, u);
      n := UnreadIn(rows, u);
      if setUp {
        counters := counters[u := Held(n, At(now + TTL_MS))];
      }
    }
  }
}
