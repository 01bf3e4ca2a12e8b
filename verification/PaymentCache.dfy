/** Payment transactions behind two read-through caches, one per transaction and one per user,
    that every write invalidates by key. */
module PaymentCache {
  import opened Redis
  import opened Wrappers

  type User = nat
  type TxId = nat

  datatype Status = Pending | Completed | Failed | Refunded

  datatype Tx =
    Tx(user: User, status: Status, response: map<string, string>, completedAt: Option<int>, deleted: bool)

  /** One cached line of a user's list. */
  datatype Line = Line(id: TxId, tx: Tx)

  datatype State = State(now: int, rows: seq<Tx>, detail: map<TxId, Key<Tx>>, byUser: map<User, Key<seq<Line>>>)

  /** Which of the two dels of an invalidation reach the cache; a failed one is swallowed. */
  datatype Dels = Dels(detail: bool, byUser: bool)

  datatype Op =
    | Create(user: User, status: Status, dels: Dels)
    | UpdateStatus(id: TxId, status: Status, response: map<string, string>, dels: Dels)
    | Delete(id: TxId, dels: Dels)
    | FindById(id: TxId)
    | FindByUserId(user: User)
    | Wait(ms: nat)

  const TTL_MS := 300 * 1000

  function KeyOf<K, V>(m: map<K, Key<V>>, k: K): Key<V> {
    if k in m then m[k] else Absent
  }

  // What the database answers

  function ById(rows: seq<Tx>, id: TxId): Option<Tx> {
    if id < |rows| && !rows[id].deleted then Some(rows[id]) else None
  }

  /** The user's undeleted transactions, newest first. */
  function ByUser(rows: seq<Tx>, u: User): seq<Line> {
    if rows == [] then []
    else
      var n := |rows| - 1;
      (if rows[n].user == u && !rows[n].deleted then [Line(n, rows[n])] else []) + ByUser(rows[..n], u)
  }

  function Invalidate(s: State, u: User, id: TxId, dels: Dels): State {
    s.(detail := if dels.detail then s.detail - {id} else s.detail,
       byUser := if dels.byUser then s.byUser - {u} else s.byUser)
  }

  /** updateStatus's assignments; the gateway's response is merged into the stored one. */
  function WithStatus(t: Tx, status: Status, more: map<string, string>, now: int): Tx {
    t.(status := status, response := t.response + more,
       completedAt := if status == Completed && t.completedAt.None? then Some(now) else t.completedAt)
  }

  /** A saved row and the invalidation after it. */
  function Rewritten(s: State, id: TxId, t: Tx, dels: Dels): State
    requires id < |s.rows|
  {
    Invalidate(s.(rows := s.rows[id := t]), s.rows[id].user, id, dels)
  }

  function Step(s: State, op: Op): State {
    match op
    case Create(u, st, dels) =>
      Invalidate(s.(rows := s.rows + [Tx(u, st, map[], None, false)]), u, |s.rows|, dels)
    case UpdateStatus(id, st, more, dels) =>
      if id < |s.rows| then Rewritten(s, id, WithStatus(s.rows[id], st, more, s.now), dels) else s
    case Delete(id, dels) =>
      if id < |s.rows| then Rewritten(s, id, s.rows[id].(deleted := true), dels) else s
    case FindById(id) =>
      if KeyOf(s.detail, id).LiveAt(s.now) || ById(s.rows, id).None? then s
      else s.(detail := s.detail[id := Held(ById(s.rows, id).value, At(s.now + TTL_MS))])
    case FindByUserId(u) =>
      if KeyOf(s.byUser, u).LiveAt(s.now) then s
      else s.(byUser := s.byUser[u := Held(ByUser(s.rows, u), At(s.now + TTL_MS))])
    case Wait(ms) => s.(now := s.now + ms)
  }

  const EMPTY := State(0, [], map[], map[])

  function After(ops: seq<Op>): State {
    if ops == [] then EMPTY else Step(After(ops[..|ops| - 1]), ops[|ops| - 1])
  }

  /** What findById and findByUserId answer: the cached value, or the query's. */
  function AnswerById(s: State, id: TxId): Option<Tx> {
    var cached := KeyOf(s.detail, id).Get(s.now);
    if cached.Some? then cached else ById(s.rows, id)
  }

  function AnswerByUser(s: State, u: User): seq<Line> {
    match KeyOf(s.byUser, u).Get(s.now)
    case Some(lines) => lines
    case None => ByUser(s.rows, u)
  }

  /** A changed row only shows in its own user's list. */
  lemma {:induction false} OtherListsUnchanged(rows: seq<Tx>, id: TxId, t: Tx, u: User)
    requires id < |rows| && t.user == rows[id].user != u
    ensures ByUser(rows[id := t], u) == ByUser(rows, u)
    decreases |rows|
  {
    var n := |rows| - 1;
    if id < n {
      assert rows[id := t][..n] == rows[..n][id := t];
      OtherListsUnchanged(rows[..n], id, t, u);
    } else {
      assert rows[id := t][..n] == rows[..n];
    }
  }

  lemma {:induction false} OwnListChanges(rows: seq<Tx>, id: TxId, t: Tx, u: User)
    requires id < |rows| && t.user == rows[id].user == u && !rows[id].deleted && t != rows[id]
    ensures ByUser(rows[id := t], u) != ByUser(rows, u)
    decreases |rows|
  {
    var n := |rows| - 1;
    if id < n {
      assert rows[id := t][..n] == rows[..n][id := t];
      OwnListChanges(rows[..n], id, t, u);
      var head := if rows[n].user == u && !rows[n].deleted then [Line(n, rows[n])] else [];
      assert ByUser(rows, u)[|head|..] == ByUser(rows[..n], u);
      assert ByUser(rows[id := t], u)[|head|..] == ByUser(rows[..n][id := t], u);
    } else {
      assert rows[id := t][..n] == rows[..n];
      assert ByUser(rows, u)[0] == Line(n, rows[n]);
      assert !t.deleted ==> ByUser(rows[id := t], u)[0] == Line(n, t);
    }
  }

  /** Both finders answer what the uncached query would, for every transaction and user. */
  ghost predicate Transparent(s: State) {
    && (forall id :: AnswerById(s, id) == ById(s.rows, id))
    && (forall u :: AnswerByUser(s, u) == ByUser(s.rows, u))
  }

  /** A readable entry of this transaction or this user outlives the invalidation. */
  predicate Keeps(s: State, u: User, id: TxId, dels: Dels) {
    || (!dels.detail && KeyOf(s.detail, id).LiveAt(s.now))
    || (!dels.byUser && KeyOf(s.byUser, u).LiveAt(s.now))
  }

  /** A visible row changes while one of its two cached entries is live and its del fails. */
  predicate Loses(s: State, op: Op) {
    match op
    case Create(u, _, dels) => !dels.byUser && KeyOf(s.byUser, u).LiveAt(s.now)
    case UpdateStatus(id, st, more, dels) =>
      && id < |s.rows| && !s.rows[id].deleted && WithStatus(s.rows[id], st, more, s.now) != s.rows[id]
      && Keeps(s, s.rows[id].user, id, dels)
    case Delete(id, dels) =>
      id < |s.rows| && !s.rows[id].deleted && Keeps(s, s.rows[id].user, id, dels)
    case _ => false
  }

  lemma CreateLeavesOthers(s: State, u: User, st: Status, dels: Dels)
    requires Transparent(s)
    ensures var s' := Step(s, Create(u, st, dels));
      && (forall id :: AnswerById(s', id) == ById(s'.rows, id))
      && (forall v :: v != u ==> AnswerByUser(s', v) == ByUser(s'.rows, v))
  {
    var s' := Step(s, Create(u, st, dels));
    assert s'.rows[..|s.rows|] == s.rows;
    assert AnswerById(s, |s.rows|).None?;
    forall id
      ensures AnswerById(s', id) == ById(s'.rows, id)
    {
      assert AnswerById(s, id) == ById(s.rows, id);
    }
    forall v | v != u
      ensures AnswerByUser(s', v) == ByUser(s'.rows, v)
    {
      assert AnswerByUser(s, v) == ByUser(s.rows, v);
    }
  }

  lemma CreateStep(s: State, u: User, st: Status, dels: Dels)
    requires Transparent(s)
    ensures Transparent(Step(s, Create(u, st, dels))) <==> !Loses(s, Create(u, st, dels))
  {
    var s' := Step(s, Create(u, st, dels));
    CreateLeavesOthers(s, u, st, dels);
    assert s'.rows[..|s.rows|] == s.rows;
    assert |ByUser(s'.rows, u)| == |ByUser(s.rows, u)| + 1;
    assert AnswerByUser(s, u) == ByUser(s.rows, u);
  }

  lemma OthersStayRight(s: State, id: TxId, t: Tx, dels: Dels)
    requires Transparent(s) && id < |s.rows| && t.user == s.rows[id].user
    ensures var s' := Rewritten(s, id, t, dels);
      && (forall i :: i != id ==> AnswerById(s', i) == ById(s'.rows, i))
      && (forall v :: v != t.user ==> AnswerByUser(s', v) == ByUser(s'.rows, v))
  {
    var s' := Rewritten(s, id, t, dels);
    forall i | i != id
      ensures AnswerById(s', i) == ById(s'.rows, i)
    {
      assert AnswerById(s, i) == ById(s.rows, i);
    }
    forall v | v != t.user
      ensures AnswerByUser(s', v) == ByUser(s'.rows, v)
    {
      assert AnswerByUser(s, v) == ByUser(s.rows, v);
      OtherListsUnchanged(s.rows, id, t, v);
    }
  }

  /** What the rewrite does to the two entries it concerns. */
  lemma OwnStayRightIff(s: State, id: TxId, t: Tx, dels: Dels)
    requires Transparent(s) && id < |s.rows| && t.user == s.rows[id].user && (s.rows[id].deleted ==> t.deleted)
    ensures var s' := Rewritten(s, id, t, dels);
      AnswerById(s', id) == ById(s'.rows, id) && AnswerByUser(s', t.user) == ByUser(s'.rows, t.user) <==>
        s.rows[id].deleted || t == s.rows[id] || !Keeps(s, t.user, id, dels)
  {
    assert AnswerById(s, id) == ById(s.rows, id) && AnswerByUser(s, t.user) == ByUser(s.rows, t.user);
    if !s.rows[id].deleted && t != s.rows[id] {
      OwnListChanges(s.rows, id, t, t.user);
    } else {
      HiddenRowsDoNotShow(s.rows, id, t, t.user);
    }
  }

  /** Rewriting a row keeps the caches transparent exactly if it changes nothing visible or both
      entries go. */
  lemma RewriteStep(s: State, id: TxId, t: Tx, dels: Dels)
    requires Transparent(s) && id < |s.rows| && t.user == s.rows[id].user && (s.rows[id].deleted ==> t.deleted)
    ensures Transparent(Rewritten(s, id, t, dels)) <==>
      s.rows[id].deleted || t == s.rows[id] || !Keeps(s, t.user, id, dels)
  {
    OthersStayRight(s, id, t, dels);
    OwnStayRightIff(s, id, t, dels);
  }

  lemma {:induction false} HiddenRowsDoNotShow(rows: seq<Tx>, id: TxId, t: Tx, u: User)
    requires id < |rows| && (t == rows[id] || (t.deleted && rows[id].deleted))
    ensures ByUser(rows[id := t], u) == ByUser(rows, u)
    decreases |rows|
  {
    var n := |rows| - 1;
    if id < n {
      assert rows[id := t][..n] == rows[..n][id := t];
      HiddenRowsDoNotShow(rows[..n], id, t, u);
    } else {
      assert rows[id := t][..n] == rows[..n];
    }
  }

  lemma TransparentStepIff(s: State, op: Op)
    requires Transparent(s)
    ensures Transparent(Step(s, op)) <==> !Loses(s, op)
  {
    match op
    case Create(u, st, dels) => CreateStep(s, u, st, dels);
    case UpdateStatus(id, st, more, dels) =>
      if id < |s.rows| { RewriteStep(s, id, WithStatus(s.rows[id], st, more, s.now), dels); }
    case Delete(id, dels) =>
      if id < |s.rows| { RewriteStep(s, id, s.rows[id].(deleted := true), dels); }
    case _ => ReadStep(s, op);
  }

  lemma ReadStep(s: State, op: Op)
    requires Transparent(s) && (op.FindById? || op.FindByUserId? || op.Wait?)
    ensures Transparent(Step(s, op))
  {
    var s' := Step(s, op);
    forall id
      ensures AnswerById(s', id) == ById(s'.rows, id)
    {
      assert AnswerById(s, id) == ById(s.rows, id);
    }
    forall u
      ensures AnswerByUser(s', u) == ByUser(s'.rows, u)
    {
      assert AnswerByUser(s, u) == ByUser(s.rows, u);
    }
  }

  ghost predicate TransparentThroughout(ops: seq<Op>) {
    Transparent(After(ops)) && (ops == [] || TransparentThroughout(ops[..|ops| - 1]))
  }

  predicate NeverLoses(ops: seq<Op>) {
    ops == [] || (NeverLoses(ops[..|ops| - 1]) && !Loses(After(ops[..|ops| - 1]), ops[|ops| - 1]))
  }

  /** On a sequential run both finders always answer what the uncached query would, exactly when no
      del fails over a live entry of a row that visibly changed. */
  lemma {:induction false} CachesAreTransparent(ops: seq<Op>)
    ensures TransparentThroughout(ops) <==> NeverLoses(ops)
    decreases |ops|
  {
    if ops != [] {
      CachesAreTransparent(ops[..|ops| - 1]);
      if TransparentThroughout(ops[..|ops| - 1]) {
        TransparentStepIff(After(ops[..|ops| - 1]), ops[|ops| - 1]);
      }
    }
  }

  // ---------------------------------------------------------------------------------------
  // What the table says
  // ---------------------------------------------------------------------------------------

  /** The status the last update of row i asked for, or else the one it was created with. */
  function LastStatus(ops: seq<Op>, i: TxId): Option<Status> {
    if ops == [] then None
    else
      var prev, op := ops[..|ops| - 1], ops[|ops| - 1];
      match op
      case Create(_, st, _) => if i == |After(prev).rows| then Some(st) else LastStatus(prev, i)
      case UpdateStatus(j, st, _, _) => if j == i && i < |After(prev).rows| then Some(st) else LastStatus(prev, i)
      case _ => LastStatus(prev, i)
  }

  predicate EverDeleted(ops: seq<Op>, i: TxId) {
    ops != [] &&
    var prev, op := ops[..|ops| - 1], ops[|ops| - 1];
    (op.Delete? && op.id == i && i < |After(prev).rows|) || EverDeleted(prev, i)
  }

  /** On every run a row has the status last asked for, and is deleted if that was ever asked for. */
  lemma {:induction false} RowsKeepTheirHistory(ops: seq<Op>, i: TxId)
    ensures var rows := After(ops).rows;
      && LastStatus(ops, i) == (if i < |rows| then Some(rows[i].status) else None)
      && (EverDeleted(ops, i) <==> i < |rows| && rows[i].deleted)
    decreases |ops|
  {
    if ops != [] {
      RowsKeepTheirHistory(ops[..|ops| - 1], i);
    }
  }

  /** A user's list holds exactly their undeleted transactions, each once, newest first. */
  lemma {:induction false} ListIsNewestFirst(rows: seq<Tx>, u: User)
    ensures var ls := ByUser(rows, u);
      && (forall k :: 0 <= k < |ls| ==>
            ls[k].id < |rows| && ls[k].tx == rows[ls[k].id] && ls[k].tx.user == u && !ls[k].tx.deleted)
      && (forall j, k :: 0 <= j < k < |ls| ==> ls[j].id > ls[k].id)
      && (forall i :: 0 <= i < |rows| && rows[i].user == u && !rows[i].deleted ==> Line(i, rows[i]) in ls)
    decreases |rows|
  {
    if rows != [] {
      var n := |rows| - 1;
      ListIsNewestFirst(rows[..n], u);
      var older := ByUser(rows[..n], u);
      forall i | 0 <= i < |rows| && rows[i].user == u && !rows[i].deleted
        ensures Line(i, rows[i]) in ByUser(rows, u)
      {
        assert i < n ==> Line(i, rows[..n][i]) in older;
      }
    }
  }

  class PaymentTransactionService {
    var now: int
    var rows: seq<Tx>
    var detail: map<TxId, Key<Tx>>
    var byUser: map<User, Key<seq<Line>>>

    ghost function Model(): State
      reads this
    {
      State(now, rows, detail, byUser)
    }

    constructor ()
      ensures Model() == EMPTY
    {
      now, rows, detail, byUser := 0, [], map[], map[];
    }

    method InvalidateCache(u: User, id: TxId, dels: Dels)
      modifies this`detail, this`byUser
      ensures Model() == Invalidate(old(Model()), u, id, dels)
    {
      if dels.detail {
        detail := detail - {id};
      }
      if dels.byUser {
        byUser := byUser - {u};
      }
    }

    method CreateTransaction(u: User, status: Status, dels: Dels) returns (id: TxId)
      modifies this
      ensures Model() == Step(old(Model()), Create(u, status, dels)) && id == |old(rows)|
      ensures rows == old(rows) + [Tx(u, status, map[], None, false)]
    {
      id := |rows|;
      rows := rows + [Tx(u, status, map[], None, false)];
      InvalidateCache(u, id, dels);
    }

    method SetStatus(id: TxId, status: Status, more: map<string, string>, dels: Dels) returns (found: bool)
      modifies this
      ensures Model() == Step(old(Model()), UpdateStatus(id, status, more, dels))
      ensures found <==> id < |old(rows)|
      ensures |rows| == |old(rows)| && forall i :: 0 <= i < |rows| && i != id ==> rows[i] == old(rows)[i]
      ensures found ==>
        var t, before := rows[id], old(rows)[id];
        && t.status == status && t.user == before.user && t.deleted == before.deleted
        && t.response.Keys == before.response.Keys + more.Keys
        && (forall k :: k in t.response ==> t.response[k] == if k in more then more[k] else before.response[k])
        && t.completedAt == (if before.completedAt.Some? then before.completedAt
                             else if status == Completed then Some(now) else None)
    {
      if id >= |rows| {
        return false;
      }
      var t := rows[id];
      t := t.(status := status);
      t := t.(response := t.response + more);
      if status == Completed && t.completedAt.None? {
        t := t.(completedAt := Some(now));
      }
      rows := rows[id := t];
      InvalidateCache(t.user, id, dels);
      return true;
    }

    method SoftDelete(id: TxId, dels: Dels) returns (found: bool)
      modifies this
      ensures Model() == Step(old(Model()), Delete(id, dels)) && (found <==> id < |old(rows)|)
      ensures rows == if found then old(rows)[id := old(rows)[id].(deleted := true)] else old(rows)
    {
      if id >= |rows| {
        return false;
      }
      rows := rows[id := rows[id].(deleted := true)];
      InvalidateCache(rows[id].user, id, dels);
      return true;
    }

    method Find(id: TxId) returns (t: Option<Tx>)
      modifies this`detail
      ensures Model() == Step(old(Model()), FindById(id)) && t == AnswerById(old(Model()), id)
      ensures !KeyOf(old(detail), id).LiveAt(now) ==>
        && (t.Some? <==> id < |rows| && !rows[id].deleted) && (t.Some? ==> t.value == rows[id])
        && detail == if t.Some? then old(detail)[id := Held(t.value, At(now + 300 * 1000))] else old(detail)
      ensures KeyOf(old(detail), id).LiveAt(now) ==> t == Some(old(detail)[id].value) && detail == old(detail)
    {
      var cached := KeyOf(detail, id).Get(now);
      if cached.Some? {
        return cached;
      }
      t := ById(rows, id);
      if t.Some? {
        detail := detail[id := Held(t.value, At(now + TTL_MS))];
      }
    }

    method FindForUser(u: User) returns (lines: seq<Line>)
      modifies this`byUser
      ensures Model() == Step(old(Model()), FindByUserId(u)) && lines == AnswerByUser(old(Model()), u)
      ensures KeyOf(old(byUser), u).LiveAt(now) ==> lines == old(byUser)[u].value && byUser == old(byUser)
      ensures !KeyOf(old(byUser), u).LiveAt(now) ==>
        lines == ByUser(rows, u) && byUser == old(byUser)[u := Held(lines, At(now + 300 * 1000))]
    {
      var cached := KeyOf(byUser, u).Get(now);
      if cached.Some? {
        return cached.value;
      }
      lines := ByUser(rows, u);
      byUser := byUser[u := Held(lines, At(now + TTL_MS))];
    }
  }
}
