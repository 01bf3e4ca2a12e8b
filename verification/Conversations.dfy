/** Conversations and their participant rows: who is a live member, and how a second request for
    the same direct chat finds the first one. */
module Conversations {
  import opened Wrappers

  type User = nat
  type Conv = nat

  datatype Row = Row(conv: Conv, user: User, deleted: bool)

  /** direct[c] tells whether conversation c is direct; the table of conversations only grows. */
  datatype State = State(direct: seq<bool>, rows: seq<Row>)

  datatype Op =
    | Create(participants: seq<User>, creator: User)
    | AddTo(conv: Conv, users: seq<User>)
    | Remove(conv: Conv, user: User)

  ghost predicate NoDup<T>(s: seq<T>) {
    forall i, j :: 0 <= i < j < |s| ==> s[i] != s[j]
  }

  function Elements(s: seq<User>): set<User> {
    set x | x in s
  }

  /** [...new Set(s)]: first occurrences, in order. */
  function Dedupe(s: seq<User>): (d: seq<User>)
    ensures NoDup(d) && Elements(d) == Elements(s)
  {
    if s == [] then []
    else
      var d := Dedupe(s[..|s| - 1]);
      assert s == s[..|s| - 1] + [s[|s| - 1]];
      assert Elements(s) == Elements(s[..|s| - 1]) + {s[|s| - 1]};
      if s[|s| - 1] in d then d
      else
        assert Elements(d + [s[|s| - 1]]) == Elements(d) + {s[|s| - 1]};
        d + [s[|s| - 1]]
  }

  /** All participant rows of a conversation, deleted ones included. */
  function UsersOf(rows: seq<Row>, c: Conv): seq<User> {
    if rows == [] then []
    else UsersOf(rows[..|rows| - 1], c) + if rows[|rows| - 1].conv == c then [rows[|rows| - 1].user] else []
  }

  predicate IsLive(rows: seq<Row>, c: Conv, u: User) {
    Row(c, u, false) in rows
  }

  function AddOne(rows: seq<Row>, c: Conv, u: User): seq<Row> {
    if IsLive(rows, c, u) then rows else rows + [Row(c, u, false)]
  }

  function AddAll(rows: seq<Row>, c: Conv, users: seq<User>): seq<Row> {
    if users == [] then rows
    else AddOne(AddAll(rows, c, users[..|users| - 1]), c, users[|users| - 1])
  }

  /** removeParticipant's updateMany. */
  function Removed(rows: seq<Row>, c: Conv, u: User): (out: seq<Row>)
    ensures |out| == |rows|
    ensures forall i :: 0 <= i < |rows| ==>
      out[i] == if rows[i].conv == c && rows[i].user == u then rows[i].(deleted := true) else rows[i]
  {
    seq(|rows|, i requires 0 <= i < |rows| =>
      if rows[i].conv == c && rows[i].user == u then rows[i].(deleted := true) else rows[i])
  }

  // ---------------------------------------------------------------------------------------
  // Comparing sorted ids
  // ---------------------------------------------------------------------------------------

  predicate Ascending(s: seq<User>) {
    forall i, j :: 0 <= i < j < |s| ==> s[i] <= s[j]
  }

  function Insert(x: User, s: seq<User>): (r: seq<User>)
    requires Ascending(s)
    ensures Ascending(r) && forall y :: y in r ==> y == x || y in s
  {
    if s == [] || s[|s| - 1] <= x then s + [x]
    else
      var init, greatest := s[..|s| - 1], s[|s| - 1];
      var r := Insert(x, init);
      assert forall y :: y in init ==> y <= greatest;
      assert forall i :: 0 <= i < |r| ==> r[i] in r;
      r + [greatest]
  }

  /** Array.prototype.sort on the ids. */
  function Sort(s: seq<User>): (r: seq<User>)
    ensures Ascending(r)
  {
    if s == [] then [] else Insert(s[|s| - 1], Sort(s[..|s| - 1]))
  }

  lemma DropLast(s: seq<User>)
    requires s != []
    ensures multiset(s) == multiset(s[..|s| - 1]) + multiset{s[|s| - 1]}
  {
    assert s == s[..|s| - 1] + [s[|s| - 1]];
  }

  lemma {:induction false} InsertPermutes(x: User, s: seq<User>)
    requires Ascending(s)
    ensures multiset(Insert(x, s)) == multiset(s) + multiset{x}
    decreases |s|
  {
    if s != [] && s[|s| - 1] > x {
      InsertPermutes(x, s[..|s| - 1]);
      DropLast(s);
    }
  }

  lemma {:induction false} SortPermutes(s: seq<User>)
    ensures multiset(Sort(s)) == multiset(s)
    decreases |s|
  {
    if s != [] {
      SortPermutes(s[..|s| - 1]);
      InsertPermutes(s[|s| - 1], Sort(s[..|s| - 1]));
      DropLast(s);
    }
  }

  lemma SameGreatest(a: seq<User>, b: seq<User>)
    requires Ascending(a) && Ascending(b) && a != [] && b != [] && multiset(a) == multiset(b)
    ensures a[|a| - 1] == b[|b| - 1]
  {
    assert a[|a| - 1] in multiset(b) && b[|b| - 1] in multiset(a);
  }

  lemma SameRest(a: seq<User>, b: seq<User>)
    requires a != [] && b != [] && multiset(a) == multiset(b) && a[|a| - 1] == b[|b| - 1]
    ensures multiset(a[..|a| - 1]) == multiset(b[..|b| - 1])
  {
    DropLast(a);
    DropLast(b);
    assert multiset(a[..|a| - 1]) == multiset(a) - multiset{a[|a| - 1]};
  }

  lemma {:induction false} SortedIsUnique(a: seq<User>, b: seq<User>)
    requires Ascending(a) && Ascending(b) && multiset(a) == multiset(b)
    ensures a == b
    decreases |a|
  {
    assert |a| == |multiset(a)| == |multiset(b)| == |b|;
    if a != [] {
      SameGreatest(a, b);
      SameRest(a, b);
      SortedIsUnique(a[..|a| - 1], b[..|b| - 1]);
      assert a == a[..|a| - 1] + [a[|a| - 1]] && b == b[..|b| - 1] + [b[|b| - 1]];
    }
  }

  lemma {:induction false} NoDupMultiset(s: seq<User>)
    requires NoDup(s)
    ensures multiset(s) == multiset(Elements(s))
    decreases |s|
  {
    if s != [] {
      var n := |s| - 1;
      NoDupMultiset(s[..n]);
      assert s == s[..n] + [s[n]];
      assert Elements(s) == Elements(s[..n]) + {s[n]} && s[n] !in Elements(s[..n]);
    }
  }

  /** findExistingDirectConversation's test on one conversation's rows. */
  predicate Matches(have: seq<User>, want: seq<User>) {
    && (forall x :: x in have ==> x in want)
    && |have| == |want|
    && Sort(have) == Sort(want)
  }

  lemma CountedTwice(s: seq<User>, i: nat, j: nat)
    requires i < j < |s| && s[i] == s[j]
    ensures multiset(s)[s[i]] >= 2
  {
    assert s[i] in s[..j] && s[j] in s[j..];
    assert multiset(s[..j] + s[j..]) == multiset(s[..j]) + multiset(s[j..]);
    assert s == s[..j] + s[j..];
  }

  lemma MultisetNoDup(s: seq<User>)
    requires multiset(s) == multiset(Elements(s))
    ensures NoDup(s)
  {
    forall i, j | 0 <= i < j < |s|
      ensures s[i] != s[j]
    {
      if s[i] == s[j] {
        CountedTwice(s, i, j);
      }
    }
  }

  /** Comparing lengths and sorted ids accepts exactly the duplicate-free lists of the same people. */
  lemma MatchesIffSameSet(have: seq<User>, want: seq<User>)
    requires NoDup(want)
    ensures Matches(have, want) <==> NoDup(have) && Elements(have) == Elements(want)
  {
    NoDupMultiset(want);
    SortPermutes(have);
    SortPermutes(want);
    if Sort(have) == Sort(want) {
      assert forall x :: x in Elements(have) <==> x in multiset(have);
      assert forall x :: x in Elements(want) <==> x in multiset(want);
      assert Elements(have) == Elements(want);
      MultisetNoDup(have);
    }
    if NoDup(have) && Elements(have) == Elements(want) {
      NoDupMultiset(have);
      SortedIsUnique(Sort(have), Sort(want));
      assert |have| == |multiset(have)| == |want|;
      assert forall x :: x in have ==> x in Elements(want);
    }
  }

  // ---------------------------------------------------------------------------------------

  predicate Found(s: State, c: Conv, pair: seq<User>) {
    c < |s.direct| && s.direct[c] && Matches(UsersOf(s.rows, c), pair)
  }

  predicate Exists(s: State, pair: seq<User>) {
    exists c: Conv :: c < |s.direct| && Found(s, c, pair)
  }

  predicate Creates(s: State, all: seq<User>) {
    |all| >= 2 && !(|all| == 2 && Exists(s, all))
  }

  function Step(s: State, op: Op): State {
    match op
    case Create(ps, creator) =>
      var all := Dedupe(ps + [creator]);
      if Creates(s, all) then State(s.direct + [|all| == 2], AddAll(s.rows, |s.direct|, all)) else s
    case AddTo(c, us) => if c < |s.direct| then s.(rows := AddAll(s.rows, c, us)) else s
    case Remove(c, u) => s.(rows := Removed(s.rows, c, u))
  }

  function After(ops: seq<Op>): State {
    if ops == [] then State([], []) else Step(After(ops[..|ops| - 1]), ops[|ops| - 1])
  }

  lemma AppendOp(ops: seq<Op>, op: Op)
    ensures After(ops + [op]) == Step(After(ops), op)
  {
    assert (ops + [op])[..|ops|] == ops;
  }

  // ---------------------------------------------------------------------------------------
  // One live row per member
  // ---------------------------------------------------------------------------------------

  ghost predicate OneLiveRow(rows: seq<Row>) {
    forall i, j :: 0 <= i < j < |rows| && !rows[i].deleted ==> rows[i] != rows[j]
  }

  lemma {:induction false} AddAllKeepsOne(rows: seq<Row>, c: Conv, us: seq<User>)
    requires OneLiveRow(rows)
    ensures OneLiveRow(AddAll(rows, c, us))
    decreases |us|
  {
    if us != [] {
      AddAllKeepsOne(rows, c, us[..|us| - 1]);
    }
  }

  /** However often members are added and removed, nobody has two live rows in a conversation. */
  lemma {:induction false} OneLiveRowAlways(ops: seq<Op>)
    ensures OneLiveRow(After(ops).rows)
    decreases |ops|
  {
    if ops != [] {
      var s, op := After(ops[..|ops| - 1]), ops[|ops| - 1];
      OneLiveRowAlways(ops[..|ops| - 1]);
      match op
      case Create(ps, creator) => AddAllKeepsOne(s.rows, |s.direct|, Dedupe(ps + [creator]));
      case AddTo(c, us) => AddAllKeepsOne(s.rows, c, us);
      case Remove(c, u) =>
    }
  }

  // ---------------------------------------------------------------------------------------
  // One direct conversation per pair
  // ---------------------------------------------------------------------------------------

  /** Everyone who has or had a row in the conversation. */
  function People(s: State, c: Conv): set<User> {
    Elements(UsersOf(s.rows, c))
  }

  /** No two direct conversations hold the same two people. */
  ghost predicate OnePerPair(s: State) {
    forall c, d :: 0 <= c < d < |s.direct| && s.direct[c] && s.direct[d] && People(s, c) == People(s, d) ==>
      |People(s, c)| != 2
  }

  /** Every row belongs to one of the first n conversations. */
  ghost predicate InTable(rows: seq<Row>, n: nat) {
    forall i :: 0 <= i < |rows| ==> rows[i].conv < n
  }

  /** What keeps it so: a direct conversation either has its two rows, or somebody third was added
      and no request for two people can match it. */
  ghost predicate Paired(s: State) {
    && OnePerPair(s)
    && InTable(s.rows, |s.direct|)
    && (forall c :: 0 <= c < |s.direct| && s.direct[c] ==> TwoOrMore(UsersOf(s.rows, c)))
  }

  ghost predicate TwoOrMore(us: seq<User>) {
    |Elements(us)| >= 3 || (|Elements(us)| == 2 && NoDup(us))
  }

  lemma {:induction false} UsersAfterRemove(rows: seq<Row>, c: Conv, u: User, d: Conv)
    ensures UsersOf(Removed(rows, c, u), d) == UsersOf(rows, d)
    decreases |rows|
  {
    if rows != [] {
      var n := |rows| - 1;
      assert Removed(rows, c, u)[..n] == Removed(rows[..n], c, u);
      UsersAfterRemove(rows[..n], c, u, d);
    }
  }

  lemma {:induction false} NoRowsNoUsers(rows: seq<Row>, c: Conv)
    requires forall i :: 0 <= i < |rows| ==> rows[i].conv != c
    ensures UsersOf(rows, c) == []
    decreases |rows|
  {
    if rows != [] {
      NoRowsNoUsers(rows[..|rows| - 1], c);
    }
  }

  /** Filling a new conversation gives it exactly its members' rows and touches no other. */
  lemma {:induction false} FillNew(rows: seq<Row>, c: Conv, us: seq<User>)
    requires NoDup(us) && InTable(rows, c)
    ensures UsersOf(AddAll(rows, c, us), c) == us
    ensures forall d: Conv :: d < c ==> UsersOf(AddAll(rows, c, us), d) == UsersOf(rows, d)
    decreases |us|
  {
    forall d: Conv | d < c { AddAllElsewhere(rows, c, us, d); }
    if us == [] {
      NoRowsNoUsers(rows, c);
    } else {
      var n := |us| - 1;
      var mid := AddAll(rows, c, us[..n]);
      FillNew(rows, c, us[..n]);
      if IsLive(mid, c, us[n]) {
        LiveIsUser(mid, c, us[n]);
      }
      assert (mid + [Row(c, us[n], false)])[..|mid|] == mid;
      assert us[..n] + [us[n]] == us;
    }
  }

  lemma PairedRemove(s: State, c: Conv, u: User)
    requires Paired(s)
    ensures Paired(Step(s, Remove(c, u)))
  {
    forall d: Conv { UsersAfterRemove(s.rows, c, u, d); }
  }

  lemma NewPairIsNew(s: State, all: seq<User>, d: Conv)
    requires Paired(s) && NoDup(all) && Creates(s, all) && |all| == 2 && d < |s.direct| && s.direct[d]
    ensures People(s, d) != Elements(all)
  {
    MatchesIffSameSet(UsersOf(s.rows, d), all);
    NoDupCard(all);
    assert !Found(s, d, all);
  }

  lemma NoDupCard(us: seq<User>)
    requires NoDup(us)
    ensures |Elements(us)| == |us|
  {
    NoDupMultiset(us);
    assert |us| == |multiset(us)| == |multiset(Elements(us))| == |Elements(us)|;
  }

  lemma {:induction false} AddAllBounded(rows: seq<Row>, c: Conv, us: seq<User>, bound: nat)
    requires c < bound && InTable(rows, bound)
    ensures InTable(AddAll(rows, c, us), bound)
    decreases |us|
  {
    if us != [] {
      AddAllBounded(rows, c, us[..|us| - 1], bound);
    }
  }

  /** Adding one conversation whose people are new keeps the pairs apart. */
  lemma PairedExtend(s: State, s': State, all: seq<User>)
    requires Paired(s) && NoDup(all) && |Elements(all)| == |all| && s'.direct == s.direct + [|all| == 2]
    requires InTable(s'.rows, |s'.direct|)
    requires UsersOf(s'.rows, |s.direct|) == all
    requires forall d: Conv :: d < |s.direct| ==> UsersOf(s'.rows, d) == UsersOf(s.rows, d)
    requires forall d: Conv :: d < |s.direct| && s.direct[d] && |all| == 2 ==> People(s, d) != Elements(all)
    ensures Paired(s')
  {
    assert forall d: Conv :: d < |s.direct| ==> People(s', d) == People(s, d);
  }

  lemma PairedCreate(s: State, all: seq<User>)
    requires Paired(s) && NoDup(all) && Creates(s, all)
    ensures Paired(State(s.direct + [|all| == 2], AddAll(s.rows, |s.direct|, all)))
  {
    var s' := State(s.direct + [|all| == 2], AddAll(s.rows, |s.direct|, all));
    FillNew(s.rows, |s.direct|, all);
    AddAllBounded(s.rows, |s.direct|, all, |s.direct| + 1);
    NoDupCard(all);
    forall d: Conv | d < |s.direct| && s.direct[d] && |all| == 2
      ensures People(s, d) != Elements(all)
    {
      NewPairIsNew(s, all, d);
    }
    PairedExtend(s, s', all);
  }

  // Adding people to a conversation that exists

  lemma {:induction false} LiveIsUser(rows: seq<Row>, c: Conv, u: User)
    requires IsLive(rows, c, u)
    ensures u in UsersOf(rows, c)
    decreases |rows|
  {
    var n := |rows| - 1;
    if rows[n] != Row(c, u, false) {
      assert rows == rows[..n] + [rows[n]];
      LiveIsUser(rows[..n], c, u);
    }
  }

  lemma {:induction false} AddAllElsewhere(rows: seq<Row>, c: Conv, us: seq<User>, d: Conv)
    requires c != d
    ensures UsersOf(AddAll(rows, c, us), d) == UsersOf(rows, d)
    decreases |us|
  {
    if us != [] {
      AddAllElsewhere(rows, c, us[..|us| - 1], d);
      var mid := AddAll(rows, c, us[..|us| - 1]);
      assert (mid + [Row(c, us[|us| - 1], false)])[..|mid|] == mid;
    }
  }

  lemma AddOnePeople(rows: seq<Row>, c: Conv, u: User)
    ensures Elements(UsersOf(AddOne(rows, c, u), c)) == Elements(UsersOf(rows, c)) + {u}
  {
    if IsLive(rows, c, u) {
      LiveIsUser(rows, c, u);
    } else {
      assert (rows + [Row(c, u, false)])[..|rows|] == rows;
      assert Elements(UsersOf(rows, c) + [u]) == Elements(UsersOf(rows, c)) + {u};
    }
  }

  lemma {:induction false} AddAllPeople(rows: seq<Row>, c: Conv, us: seq<User>)
    ensures Elements(UsersOf(AddAll(rows, c, us), c)) == Elements(UsersOf(rows, c)) + Elements(us)
    decreases |us|
  {
    if us != [] {
      var n := |us| - 1;
      AddAllPeople(rows, c, us[..n]);
      AddOnePeople(AddAll(rows, c, us[..n]), c, us[n]);
      assert Elements(us) == Elements(us[..n]) + {us[n]} by { assert us == us[..n] + [us[n]]; }
    }
  }

  predicate AllLive(rows: seq<Row>, c: Conv, us: seq<User>) {
    forall u :: u in us ==> IsLive(rows, c, u)
  }

  /** Adding live members changes nothing; anybody else gets one more row. */
  lemma {:induction false} AddAllGrows(rows: seq<Row>, c: Conv, us: seq<User>)
    ensures AllLive(rows, c, us) ==> AddAll(rows, c, us) == rows
    ensures !AllLive(rows, c, us) ==> |UsersOf(AddAll(rows, c, us), c)| > |UsersOf(rows, c)|
    decreases |us|
  {
    if us != [] {
      var n := |us| - 1;
      var mid := AddAll(rows, c, us[..n]);
      AddAllGrows(rows, c, us[..n]);
      assert us == us[..n] + [us[n]];
      assert (mid + [Row(c, us[n], false)])[..|mid|] == mid;
    }
  }

  /** Puts a removed member back into a direct conversation of two people, and adds nobody else. */
  predicate Readds(s: State, op: Op) {
    && op.AddTo? && op.conv < |s.direct| && s.direct[op.conv] && |People(s, op.conv)| == 2
    && (forall u :: u in op.users ==> u in People(s, op.conv))
    && !AllLive(s.rows, op.conv, op.users)
  }

  lemma BiggerSet<T>(a: set<T>, b: set<T>)
    requires a <= b
    ensures |a| <= |b| && (a != b ==> |a| < |b|)
  {
    assert b == a + (b - a);
    assert |b| == |a| + |b - a|;
  }

  /** A direct conversation that has grown past two people is out of the way. */
  lemma PairedGrow(s: State, s': State, c: Conv)
    requires Paired(s) && c < |s.direct| && s'.direct == s.direct
    requires InTable(s'.rows, |s'.direct|)
    requires forall d: Conv :: d != c ==> UsersOf(s'.rows, d) == UsersOf(s.rows, d)
    requires s.direct[c] ==> |People(s', c)| >= 3
    ensures Paired(s')
  {
    assert forall d: Conv :: d != c ==> People(s', d) == People(s, d);
  }

  lemma PairedAdd(s: State, c: Conv, us: seq<User>)
    requires Paired(s) && c < |s.direct| && !Readds(s, AddTo(c, us))
    ensures Paired(Step(s, AddTo(c, us)))
  {
    var s' := Step(s, AddTo(c, us));
    AddAllBounded(s.rows, c, us, |s.direct|);
    AddAllGrows(s.rows, c, us);
    AddAllPeople(s.rows, c, us);
    BiggerSet(People(s, c), People(s', c));
    forall d: Conv | d != c
      ensures UsersOf(s'.rows, d) == UsersOf(s.rows, d)
    {
      AddAllElsewhere(s.rows, c, us, d);
    }
    if s.direct[c] && s' != s {
      var u :| u in us && !IsLive(s.rows, c, u);
      assert |People(s', c)| >= 3;
    }
    if s' != s {
      PairedGrow(s, s', c);
    }
  }

  lemma PairedStep(s: State, op: Op)
    requires Paired(s) && !Readds(s, op)
    ensures Paired(Step(s, op))
  {
    match op
    case Remove(c, u) => PairedRemove(s, c, u);
    case AddTo(c, us) =>
      if c < |s.direct| { PairedAdd(s, c, us); }
    case Create(ps, creator) =>
      if Creates(s, Dedupe(ps + [creator])) {
        PairedCreate(s, Dedupe(ps + [creator]));
      }
  }

  predicate NeverReadds(ops: seq<Op>) {
    ops == [] || (NeverReadds(ops[..|ops| - 1]) && !Readds(After(ops[..|ops| - 1]), ops[|ops| - 1]))
  }

  lemma {:induction false} PairedAlways(ops: seq<Op>)
    requires NeverReadds(ops)
    ensures Paired(After(ops))
    decreases |ops|
  {
    if ops != [] {
      PairedAlways(ops[..|ops| - 1]);
      PairedStep(After(ops[..|ops| - 1]), ops[|ops| - 1]);
    }
  }

  /** At most one direct conversation per unordered pair, whatever is added to groups, whoever is
      added a second time, and even after members were removed. */
  lemma OneDirectPerPair(ops: seq<Op>, c: Conv, d: Conv)
    requires NeverReadds(ops)
    requires c < |After(ops).direct| && d < |After(ops).direct| && After(ops).direct[c] && After(ops).direct[d]
    requires People(After(ops), c) == People(After(ops), d) && |People(After(ops), c)| == 2
    ensures c == d
  {
    PairedAlways(ops);
  }

  lemma TwoPeople(a: User, b: User)
    requires a != b
    ensures Elements(Dedupe([a] + [b])) == {a, b} && |Dedupe([a] + [b])| == 2
  {
    NoDupCard(Dedupe([a] + [b]));
    assert Elements([a] + [b]) == {a, b} by { assert [a] + [b] == [a, b]; }
  }

  /** The rows that such an add leaves behind match no request for two people. */
  lemma GrownNoLongerMatches(s: State, op: Op, all: seq<User>)
    requires Paired(s) && Readds(s, op) && NoDup(all) && Elements(all) == People(s, op.conv)
    ensures !Found(Step(s, op), op.conv, all)
  {
    var us := UsersOf(Step(s, op).rows, op.conv);
    MatchesIffSameSet(us, all);
    AddAllGrows(s.rows, op.conv, op.users);
    NoDupCard(UsersOf(s.rows, op.conv));
    if NoDup(us) && Elements(us) == Elements(all) {
      NoDupCard(us);
    }
  }

  lemma OthersNeverMatched(s: State, op: Op, all: seq<User>, d: Conv)
    requires OnePerPair(s) && op.AddTo? && op.conv < |s.direct| && s.direct[op.conv] && |People(s, op.conv)| == 2
    requires NoDup(all) && Elements(all) == People(s, op.conv)
    requires d < |s.direct| && d != op.conv
    ensures !Found(Step(s, op), d, all)
  {
    AddAllElsewhere(s.rows, op.conv, op.users, d);
    MatchesIffSameSet(UsersOf(s.rows, d), all);
    assert s.direct[d] ==> People(s, d) != People(s, op.conv);
  }

  lemma OpensForTwo(s: State, a: User, b: User)
    requires a != b && InTable(s.rows, |s.direct|) && !Exists(s, Dedupe([a] + [b]))
    ensures var s' := Step(s, Create([a], b));
      && s'.direct == s.direct + [true] && People(s', |s.direct|) == {a, b}
      && forall d: Conv :: d < |s.direct| ==> People(s', d) == People(s, d)
  {
    TwoPeople(a, b);
    FillNew(s.rows, |s.direct|, Dedupe([a] + [b]));
  }

  /** So the next request for the two people opens a second conversation. */
  lemma ReaddBreaks(s: State, op: Op, a: User, b: User)
    requires Paired(s) && Readds(s, op) && People(s, op.conv) == {a, b}
    ensures var s' := Step(Step(s, op), Create([a], b)); var d := |s.direct|;
      && s'.direct == s.direct + [true]
      && People(s', op.conv) == People(s', d) == {a, b}
  {
    var mid, all := Step(s, op), Dedupe([a] + [b]);
    assert a != b;
    TwoPeople(a, b);
    GrownNoLongerMatches(s, op, all);
    forall d: Conv | d < |s.direct| && d != op.conv { OthersNeverMatched(s, op, all, d); }
    AddAllBounded(s.rows, op.conv, op.users, |s.direct|);
    AddAllPeople(s.rows, op.conv, op.users);
    assert People(mid, op.conv) == {a, b};
    OpensForTwo(mid, a, b);
  }

  /** Now, and after any one request for two people, no pair has two direct conversations. */
  ghost predicate Unambiguous(s: State) {
    OnePerPair(s) && forall a, b :: OnePerPair(Step(s, Create([a], b)))
  }

  ghost predicate UnambiguousThroughout(ops: seq<Op>) {
    Unambiguous(After(ops)) && (ops == [] || UnambiguousThroughout(ops[..|ops| - 1]))
  }

  lemma PairOf(s: set<User>) returns (a: User, b: User)
    requires |s| == 2
    ensures s == {a, b}
  {
    a :| a in s;
    assert |s - {a}| == 1;
    b :| b in s - {a};
    assert |s - {a} - {b}| == 0;
  }

  /** Pairs stay unambiguous throughout a run exactly when no step re-adds a removed member to a
      direct conversation of two. */
  lemma {:induction false} UnambiguousIffNeverReadds(ops: seq<Op>)
    ensures UnambiguousThroughout(ops) <==> NeverReadds(ops)
    decreases |ops|
  {
    if ops != [] {
      UnambiguousIffNeverReadds(ops[..|ops| - 1]);
    }
    if NeverReadds(ops) {
      PairedAlways(ops);
      forall a, b { PairedStep(After(ops), Create([a], b)); }
    } else if NeverReadds(ops[..|ops| - 1]) {
      var s, op := After(ops[..|ops| - 1]), ops[|ops| - 1];
      PairedAlways(ops[..|ops| - 1]);
      var a, b := PairOf(People(s, op.conv));
      ReaddBreaks(s, op, a, b);
      assert !OnePerPair(Step(After(ops), Create([a], b)));
    }
  }

  /** On any run, removing one side of a direct chat, adding it back and requesting the chat again
      leaves the same two people with two direct conversations. */
  lemma ReaddedPairHasTwo(ops: seq<Op>, c: Conv, a: User, b: User)
    requires NeverReadds(ops) && c < |After(ops).direct| && After(ops).direct[c]
    requires a != b && People(After(ops), c) == {a, b}
    ensures var s, s' := After(ops), After(ops + [Remove(c, a)] + [AddTo(c, [a])] + [Create([a], b)]);
      s'.direct == s.direct + [true] && People(s', c) == People(s', |s.direct|) == {a, b}
  {
    var s := After(ops);
    AppendOp(ops, Remove(c, a));
    AppendOp(ops + [Remove(c, a)], AddTo(c, [a]));
    AppendOp(ops + [Remove(c, a)] + [AddTo(c, [a])], Create([a], b));
    PairedAlways(ops);
    RemovedIsReadded(s, c, a);
    ReaddBreaks(Step(s, Remove(c, a)), AddTo(c, [a]), a, b);
  }

  /** Such a chat is one request away. */
  lemma FirstRequestOpens(a: User, b: User)
    requires a != b
    ensures NeverReadds([Create([a], b)])
    ensures var s := After([Create([a], b)]); s.direct == [true] && People(s, 0) == {a, b}
  {
    AppendOp([], Create([a], b));
    assert [] + [Create([a], b)] == [Create([a], b)] && [Create([a], b)][..0] == [];
    assert NeverReadds([]);
    OpensForTwo(State([], []), a, b);
  }

  lemma RemovedIsReadded(s: State, c: Conv, u: User)
    requires Paired(s) && c < |s.direct| && s.direct[c] && |People(s, c)| == 2 && u in People(s, c)
    ensures var s' := Step(s, Remove(c, u));
      Paired(s') && People(s', c) == People(s, c) && Readds(s', AddTo(c, [u]))
  {
    PairedRemove(s, c, u);
    UsersAfterRemove(s.rows, c, u, c);
    assert u in [u] && !IsLive(Step(s, Remove(c, u)).rows, c, u);
  }

  /** A request opens a conversation exactly when it names at least two people and, for just two,
      none of theirs exists. */
  lemma OpensIffNoneExists(ops: seq<Op>, ps: seq<User>, creator: User)
    requires NeverReadds(ops)
    ensures var s, people := After(ops), Elements(ps + [creator]);
      Step(s, Create(ps, creator)) != s <==>
        && |people| >= 2
        && (|people| == 2 ==> forall c: Conv :: c < |s.direct| && s.direct[c] ==> People(s, c) != people)
  {
    var s, all := After(ops), Dedupe(ps + [creator]);
    PairedAlways(ops);
    NoDupCard(all);
    forall c: Conv | c < |s.direct| && s.direct[c] && |all| == 2
      ensures Found(s, c, all) <==> People(s, c) == Elements(all)
    {
      MatchesIffSameSet(UsersOf(s.rows, c), all);
    }
  }

  // ---------------------------------------------------------------------------------------
  // What a request opens
  // ---------------------------------------------------------------------------------------

  lemma {:induction false} AddAllAppends(rows: seq<Row>, c: Conv, us: seq<User>)
    ensures |rows| <= |AddAll(rows, c, us)| && AddAll(rows, c, us)[..|rows|] == rows
    ensures forall i :: |rows| <= i < |AddAll(rows, c, us)| ==> AddAll(rows, c, us)[i].conv == c
    decreases |us|
  {
    if us != [] {
      var mid := AddAll(rows, c, us[..|us| - 1]);
      AddAllAppends(rows, c, us[..|us| - 1]);
      assert (mid + [Row(c, us[|us| - 1], false)])[..|rows|] == mid[..|rows|];
    }
  }

  lemma {:induction false} AddAllLive(rows: seq<Row>, c: Conv, us: seq<User>, u: User)
    ensures IsLive(AddAll(rows, c, us), c, u) <==> IsLive(rows, c, u) || u in us
    decreases |us|
  {
    if us != [] {
      AddAllLive(rows, c, us[..|us| - 1], u);
      assert us == us[..|us| - 1] + [us[|us| - 1]];
    }
  }

  lemma {:induction false} InTableAlways(ops: seq<Op>)
    ensures InTable(After(ops).rows, |After(ops).direct|)
    decreases |ops|
  {
    if ops != [] {
      InTableAlways(ops[..|ops| - 1]);
      InTableStep(After(ops[..|ops| - 1]), ops[|ops| - 1]);
    }
  }

  lemma InTableStep(s: State, op: Op)
    requires InTable(s.rows, |s.direct|)
    ensures InTable(Step(s, op).rows, |Step(s, op).direct|)
  {
    match op
    case Create(ps, creator) => AddAllBounded(s.rows, |s.direct|, Dedupe(ps + [creator]), |s.direct| + 1);
    case AddTo(c, us) => if c < |s.direct| { AddAllBounded(s.rows, c, us, |s.direct|); }
    case Remove(_, _) =>
  }

  /** Whoever is named, and nobody else, gets exactly one live row in a conversation that opens,
      direct exactly for two people; no other row changes. */
  lemma OpensForAll(s: State, ps: seq<User>, creator: User)
    requires InTable(s.rows, |s.direct|) && Creates(s, Dedupe(ps + [creator]))
    ensures var s', d, people := Step(s, Create(ps, creator)), |s.direct|, Elements(ps + [creator]);
      && s'.direct == s.direct + [|people| == 2]
      && NoDup(UsersOf(s'.rows, d)) && People(s', d) == people
      && (forall u :: Row(d, u, false) in s'.rows <==> u in people)
      && |s.rows| <= |s'.rows| && s'.rows[..|s.rows|] == s.rows
      && forall i :: |s.rows| <= i < |s'.rows| ==> s'.rows[i].conv == d
  {
    var all, d := Dedupe(ps + [creator]), |s.direct|;
    NoDupCard(all);
    FillNew(s.rows, d, all);
    AddAllAppends(s.rows, d, all);
    forall u
      ensures IsLive(AddAll(s.rows, d, all), d, u) <==> u in Elements(all)
    {
      AddAllLive(s.rows, d, all, u);
    }
  }

  // ---------------------------------------------------------------------------------------
  // The service
  // ---------------------------------------------------------------------------------------

  class ConversationService {
    var direct: seq<bool>
    var rows: seq<Row>

    ghost function Model(): State
      reads this
    {
      State(direct, rows)
    }

    constructor ()
      ensures Valid() && Model() == State([], [])
    {
      direct, rows := [], [];
    }

    ghost predicate Valid()
      reads this
    {
      InTable(rows, |direct|)
    }

    /** A row for a conversation that does not exist is refused by the database. */
    method AddParticipantsToConversation(c: Conv, users: seq<User>) returns (ok: bool)
      requires Valid()
      modifies this`rows
      ensures Valid() && Model() == Step(old(Model()), AddTo(c, users))
      ensures ok <==> c < |direct| || users == []
      ensures ok ==> forall u :: Row(c, u, false) in rows <==> Row(c, u, false) in old(rows) || u in users
      ensures |old(rows)| <= |rows| && rows[..|old(rows)|] == old(rows)
      ensures forall i :: |old(rows)| <= i < |rows| ==> rows[i].conv == c
    {
      InTableStep(Model(), AddTo(c, users));
      if c >= |direct| && users != [] {
        return false;
      }
      assert users[..0] == [];
      for k := 0 to |users|
        invariant rows == AddAll(old(rows), c, users[..k])
      {
        assert users[..k + 1][..k] == users[..k];
        if !IsLive(rows, c, users[k]) {
          rows := rows + [Row(c, users[k], false)];
        }
      }
      assert users[..|users|] == users;
      AddAllAppends(old(rows), c, users);
      forall u
        ensures Row(c, u, false) in rows <==> Row(c, u, false) in old(rows) || u in users
      {
        AddAllLive(old(rows), c, users, u);
      }
      return true;
    }

    method FindExistingDirectConversation(pair: seq<User>) returns (c: Option<Conv>)
      ensures c.Some? ==> Found(Model(), c.value, pair)
      ensures c.None? <==> !Exists(Model(), pair)
    {
      for k := 0 to |direct|
        invariant forall d: Conv :: d < k ==> !Found(Model(), d, pair)
      {
        if direct[k] && Matches(UsersOf(rows, k), pair) {
          assert Found(Model(), k, pair);
          return Some(k);
        }
      }
      return None;
    }

    /** createConversation; None is the error for fewer than two people. */
    method CreateConversation(participants: seq<User>, creator: User) returns (r: Option<(Conv, bool)>)
      requires Valid()
      modifies this
      ensures Valid() && Model() == Step(old(Model()), Create(participants, creator))
      ensures var people := Elements(participants + [creator]);
        && (r.None? <==> |people| < 2)
        && (r.Some? && !r.value.1 ==>
              && Model() == old(Model()) && |people| == 2
              && r.value.0 < |direct| && direct[r.value.0]
              && NoDup(UsersOf(rows, r.value.0)) && Elements(UsersOf(rows, r.value.0)) == people)
        && (r.Some? && r.value.1 ==>
              && r.value.0 == |old(direct)| && direct == old(direct) + [|people| == 2]
              && (forall u :: Row(r.value.0, u, false) in rows <==> u in people)
              && |old(rows)| <= |rows| && rows[..|old(rows)|] == old(rows)
              && forall i :: |old(rows)| <= i < |rows| ==> rows[i].conv == r.value.0)
    {
      var all := Dedupe(participants + [creator]);
      NoDupCard(all);
      InTableStep(Model(), Create(participants, creator));
      if |all| < 2 {
        return None;
      }
      var existing := None;
      if |all| == 2 {
        existing := FindExistingDirectConversation(all);
      }
      if existing.Some? {
        MatchesIffSameSet(UsersOf(rows, existing.value), all);
        return Some((existing.value, false));
      }
      OpensForAll(Model(), participants, creator);
      var c := |direct|;
      direct := direct + [|all| == 2];
      var _ := AddParticipantsToConversation(c, all);
      return Some((c, true));
    }

    method RemoveParticipant(c: Conv, u: User)
      requires Valid()
      modifies this
      ensures Valid() && Model() == Step(old(Model()), Remove(c, u))
      ensures direct == old(direct) && |rows| == |old(rows)|
      ensures forall i :: 0 <= i < |rows| ==>
        && rows[i].conv == old(rows)[i].conv && rows[i].user == old(rows)[i].user
        && (rows[i].deleted <==> old(rows)[i].deleted || (rows[i].conv == c && rows[i].user == u))
    {
      InTableStep(Model(), Remove(c, u));
      rows := Removed(rows, c, u);
    }
  }
}
