/** Cursor pages over one conversation's messages, and the read watermark each page moves. */
module MessageCursor {
  import opened Numbers
  import opened Wrappers

  type Id = nat
  type User = nat

  datatype Message = Message(id: Id, sender: User, createdAt: int)

  /** Every message the table knows by id, and this conversation's undeleted ones, oldest first. */
  datatype Db = Db(all: map<Id, Message>, live: seq<Message>) {
    ghost predicate Valid() {
      && Ascending(live)
      && forall i :: 0 <= i < |live| ==> live[i].id in all && all[live[i].id] == live[i]
    }

    /** The creation time a cursor stands for; an unknown id bounds nothing. */
    function TimeOf(cursor: Option<Id>): Option<int> {
      if cursor.Some? && cursor.value in all then Some(all[cursor.value].createdAt) else None
    }

    function Later(after: Option<Id>): seq<Message> {
      Select(live, TimeOf(after), None)
    }

    function Earlier(before: Id): seq<Message> {
      Select(live, None, TimeOf(Some(before)))
    }
  }

  datatype Page = Page(results: seq<Message>, hasMore: bool, nextCursor: Option<Id>, prevCursor: Option<Id>)

  predicate Ascending(ms: seq<Message>) {
    forall i, j :: 0 <= i < j < |ms| ==> ms[i].createdAt < ms[j].createdAt
  }

  predicate InRange(m: Message, lo: Option<int>, hi: Option<int>) {
    (lo.Some? ==> lo.value < m.createdAt) && (hi.Some? ==> m.createdAt < hi.value)
  }

  /** findMany's createdAt filter, oldest first. */
  function Select(ms: seq<Message>, lo: Option<int>, hi: Option<int>): seq<Message> {
    if ms == [] then []
    else
      var last := |ms| - 1;
      Select(ms[..last], lo, hi) + if InRange(ms[last], lo, hi) then [ms[last]] else []
  }

  function Reverse<T>(s: seq<T>): (r: seq<T>)
    ensures |r| == |s| && forall i :: 0 <= i < |s| ==> r[i] == s[|s| - 1 - i]
  {
    seq(|s|, i requires 0 <= i < |s| => s[|s| - 1 - i])
  }

  /** What a page request promises: of the rows found, the `limit` ones next to the cursor, in
      ascending order, and cursors naming the page's own two ends. */
  function PageFrom(found: seq<Message>, backwards: bool, limit: nat): (p: Page)
    requires limit >= 1
  {
    var n := Min(limit, |found|);
    var results := if backwards then found[|found| - n..] else found[..n];
    var hasMore := |found| > limit;
    Page(results, hasMore,
         if hasMore then Some(results[n - 1].id) else None,
         if n > 0 then Some(results[0].id) else None)
  }

  function PageOf(db: Db, before: Option<Id>, after: Option<Id>, limit: nat): (p: Page)
    requires limit >= 1
  {
    PageFrom(Select(db.live, db.TimeOf(after), db.TimeOf(before)), before.Some?, limit)
  }

  /** The message whose time becomes the watermark: the last one in query order. */
  function Marked(p: Page, before: Option<Id>): Option<Message> {
    if p.results == [] then None
    else Some(if before.Some? then p.results[0] else p.results[|p.results| - 1])
  }

  // ---------------------------------------------------------------------------------------
  // Slices of a sorted conversation
  // ---------------------------------------------------------------------------------------

  /** The bounds pick out the contiguous range of indices a..b. */
  ghost predicate Picks(ms: seq<Message>, lo: Option<int>, hi: Option<int>, a: nat, b: nat) {
    a <= b <= |ms| && forall i :: 0 <= i < |ms| ==> (InRange(ms[i], lo, hi) <==> a <= i < b)
  }

  /** A slice, cut back to the list without its last element. */
  lemma SliceSnoc<T>(s: seq<T>, a: nat, b: nat)
    requires s != [] && a <= b <= |s|
    ensures var last := |s| - 1;
      s[a..b] == s[..last][Min(a, last)..Min(b, last)] + if a <= last < b then [s[last]] else []
  {
    var last := |s| - 1;
    if a <= last < b {
      assert s[a..b] == s[..last][a..last] + [s[last]];
    } else if b <= last {
      assert s[a..b] == s[..last][a..b];
    } else {
      assert s[a..b] == [];
    }
  }

  lemma {:induction false} SelectIsSlice(ms: seq<Message>, lo: Option<int>, hi: Option<int>, a: nat, b: nat)
    requires Picks(ms, lo, hi, a, b)
    ensures Select(ms, lo, hi) == ms[a..b]
    decreases |ms|
  {
    if ms != [] {
      var last := |ms| - 1;
      var init := ms[..last];
      var a', b' := Min(a, last), Min(b, last);
      assert Picks(init, lo, hi, a', b');
      SelectIsSlice(init, lo, hi, a', b');
      SliceSnoc(ms, a, b);
      assert InRange(ms[last], lo, hi) <==> a <= last < b;
    } else {
      assert ms[a..b] == [];
    }
  }

  lemma NoGap(ms: seq<Message>, lo: Option<int>, hi: Option<int>, x: nat, y: nat, z: nat)
    requires Ascending(ms) && x <= y <= z < |ms| && InRange(ms[x], lo, hi) && InRange(ms[z], lo, hi)
    ensures InRange(ms[y], lo, hi)
  {
  }

  /** A contiguous range stays one when a newer message is appended. */
  lemma RangeSnoc(ms: seq<Message>, lo: Option<int>, hi: Option<int>, a: nat, b: nat) returns (a': nat, b': nat)
    requires ms != [] && Ascending(ms) && Picks(ms[..|ms| - 1], lo, hi, a, b)
    ensures Picks(ms, lo, hi, a', b')
  {
    var last := |ms| - 1;
    assert forall i :: 0 <= i < last ==> ms[..last][i] == ms[i];
    a', b' := a, b;
    if InRange(ms[last], lo, hi) {
      if a == b {
        a' := last;
      } else if b < last {
        NoGap(ms, lo, hi, a, b, last);
      }
      b' := |ms|;
    }
  }

  lemma {:induction false} RangeIsContiguous(ms: seq<Message>, lo: Option<int>, hi: Option<int>)
    returns (a: nat, b: nat)
    requires Ascending(ms)
    ensures Picks(ms, lo, hi, a, b) && Select(ms, lo, hi) == ms[a..b]
    decreases |ms|
  {
    a, b := 0, 0;
    if ms != [] {
      a, b := RangeIsContiguous(ms[..|ms| - 1], lo, hi);
      a, b := RangeSnoc(ms, lo, hi, a, b);
    }
    SelectIsSlice(ms, lo, hi, a, b);
  }

  /** The rows after one of the rows after a cursor. */
  lemma LaterOfLater(db: Db, after: Option<Id>, j: nat)
    requires db.Valid() && j < |db.Later(after)|
    ensures db.Later(Some(db.Later(after)[j].id)) == db.Later(after)[j + 1..]
  {
    var ms, lo := db.live, db.TimeOf(after);
    var a, b := RangeIsContiguous(ms, lo, None);
    assert InRange(ms[a], lo, None);
    assert InRange(ms[|ms| - 1], lo, None);
    assert b == |ms| && db.Later(after)[j] == ms[a + j];
    assert Picks(ms, Some(ms[a + j].createdAt), None, a + j + 1, b);
    SelectIsSlice(ms, Some(ms[a + j].createdAt), None, a + j + 1, b);
  }

  lemma EarlierOfEarlier(db: Db, before: Id, j: nat)
    requires db.Valid() && j < |db.Earlier(before)|
    ensures db.Earlier(db.Earlier(before)[j].id) == db.Earlier(before)[..j]
  {
    var ms, hi := db.live, db.TimeOf(Some(before));
    var a, b := RangeIsContiguous(ms, None, hi);
    assert InRange(ms[a], None, hi);
    assert InRange(ms[0], None, hi);
    assert a == 0 && db.Earlier(before)[j] == ms[j];
    assert Picks(ms, None, Some(ms[j].createdAt), 0, j);
    SelectIsSlice(ms, None, Some(ms[j].createdAt), 0, j);
  }

  /** Every page is ascending, whichever way it was asked for. */
  lemma PagesAscend(db: Db, before: Option<Id>, after: Option<Id>, limit: nat)
    requires db.Valid() && limit >= 1
    ensures Ascending(PageOf(db, before, after, limit).results)
  {
    var a, b, lo, hi := PageIsExact(db, before, after, limit);
    forall i, j | 0 <= i < j < hi - lo
      ensures db.live[lo..hi][i].createdAt < db.live[lo..hi][j].createdAt
    {
      assert db.live[lo + i].createdAt < db.live[lo + j].createdAt;
    }
  }

  lemma SliceOfSlice<T>(s: seq<T>, a: nat, b: nat, x: nat, y: nat)
    requires a <= b <= |s| && x <= y <= b - a
    ensures s[a..b][x..y] == s[a + x..a + y]
  {
    var t, u := s[a..b][x..y], s[a + x..a + y];
    assert |t| == |u| && forall k :: 0 <= k < |t| ==> t[k] == s[a + x + k] == u[k];
  }

  lemma PageEnds(found: seq<Message>, backwards: bool, limit: nat) returns (x: nat, y: nat)
    requires limit >= 1
    ensures x <= y <= |found| && y - x == Min(limit, |found|) && if backwards then y == |found| else x == 0
    ensures var p := PageFrom(found, backwards, limit);
      && p.results == found[x..y]
      && (p.hasMore <==> y - x < |found|)
      && p.nextCursor == (if p.hasMore then Some(found[y - 1].id) else None)
      && p.prevCursor == (if x < y then Some(found[x].id) else None)
  {
    var n := Min(limit, |found|);
    x := if backwards then |found| - n else 0;
    y := x + n;
    assert backwards ==> found[x..y] == found[x..];
    assert !backwards ==> found[x..y] == found[..y];
  }

  /** A page of a slice is the part of it next to the cursor. */
  lemma PageFromSlice(ms: seq<Message>, a: nat, b: nat, backwards: bool, limit: nat) returns (lo: nat, hi: nat)
    requires a <= b <= |ms| && limit >= 1
    ensures a <= lo <= hi <= b && hi - lo == Min(limit, b - a) && if backwards then hi == b else lo == a
    ensures var p := PageFrom(ms[a..b], backwards, limit);
      && p.results == ms[lo..hi]
      && (p.hasMore <==> hi - lo < b - a)
      && p.nextCursor == (if p.hasMore then Some(ms[hi - 1].id) else None)
      && p.prevCursor == (if lo < hi then Some(ms[lo].id) else None)
  {
    var x, y := PageEnds(ms[a..b], backwards, limit);
    SliceOfSlice(ms, a, b, x, y);
    lo, hi := a + x, a + y;
  }

  /** What a message used as a cursor divides the conversation into. */
  lemma CursorDivides(db: Db, j: nat)
    requires db.Valid() && j < |db.live|
    ensures db.Later(Some(db.live[j].id)) == db.live[j + 1..]
    ensures db.Earlier(db.live[j].id) == db.live[..j]
  {
    var ms, t := db.live, Some(db.live[j].createdAt);
    assert Picks(ms, t, None, j + 1, |ms|);
    SelectIsSlice(ms, t, None, j + 1, |ms|);
    assert Picks(ms, None, t, 0, j);
    SelectIsSlice(ms, None, t, 0, j);
  }

  /** The whole promise of a page.  Of the messages a..b between the cursors it shows the `limit` next
      to the one it was asked for, in order; there is more exactly if some are left over; and the
      cursors name its own two ends, whichever way it was asked for. */
  lemma PageIsExact(db: Db, before: Option<Id>, after: Option<Id>, limit: nat)
    returns (a: nat, b: nat, lo: nat, hi: nat)
    requires db.Valid() && limit >= 1
    ensures a <= lo <= hi <= b <= |db.live| && Picks(db.live, db.TimeOf(after), db.TimeOf(before), a, b)
    ensures hi - lo == Min(limit, b - a) && if before.Some? then hi == b else lo == a
    ensures var p := PageOf(db, before, after, limit);
      && p.results == db.live[lo..hi]
      && (p.hasMore <==> hi - lo < b - a)
      && p.nextCursor == (if p.hasMore then Some(db.live[hi - 1].id) else None)
      && p.prevCursor == (if lo < hi then Some(db.live[lo].id) else None)
  {
    a, b := RangeIsContiguous(db.live, db.TimeOf(after), db.TimeOf(before));
    lo, hi := PageFromSlice(db.live, a, b, before.Some?, limit);
  }

  /** So, on every page, what comes after nextCursor is everything newer than the page, and what
      comes before prevCursor everything older. */
  lemma CursorsContinue(db: Db, before: Option<Id>, after: Option<Id>, limit: nat) returns (lo: nat, hi: nat)
    requires db.Valid() && limit >= 1
    ensures lo <= hi <= |db.live|
    ensures var p := PageOf(db, before, after, limit);
      && p.results == db.live[lo..hi]
      && (p.nextCursor.Some? <==> p.hasMore)
      && (p.hasMore ==> db.Later(p.nextCursor) == db.live[hi..])
      && (p.prevCursor.Some? <==> p.results != [])
      && (p.prevCursor.Some? ==> db.Earlier(p.prevCursor.value) == db.live[..lo])
  {
    var a, b;
    a, b, lo, hi := PageIsExact(db, before, after, limit);
    if lo < hi {
      CursorDivides(db, lo);
      CursorDivides(db, hi - 1);
    }
  }

  // ---------------------------------------------------------------------------------------
  // Walks
  // ---------------------------------------------------------------------------------------

  function Flatten(pages: seq<Page>): seq<Message> {
    if pages == [] then [] else pages[0].results + Flatten(pages[1..])
  }

  lemma {:induction false} FlattenSnoc(pages: seq<Page>, p: Page)
    ensures Flatten(pages + [p]) == Flatten(pages) + p.results
    decreases |pages|
  {
    if pages != [] {
      assert (pages + [p])[1..] == pages[1..] + [p];
      FlattenSnoc(pages[1..], p);
    }
  }

  /** Following after = nextCursor until hasMore is false. */
  ghost function Forward(db: Db, after: Option<Id>, limit: nat): seq<Page>
    requires db.Valid() && limit >= 1
    decreases |db.Later(after)|
  {
    var p := PageOf(db, None, after, limit);
    if p.hasMore then
      LaterOfLater(db, after, limit - 1);
      [p] + Forward(db, p.nextCursor, limit)
    else [p]
  }

  /** Following before = prevCursor while hasMore; the pages are listed oldest first. */
  ghost function Backward(db: Db, before: Id, limit: nat): seq<Page>
    requires db.Valid() && limit >= 1
    decreases |db.Earlier(before)|
  {
    var p := PageOf(db, Some(before), None, limit);
    if p.hasMore then
      EarlierOfEarlier(db, before, |db.Earlier(before)| - limit);
      Backward(db, p.prevCursor.value, limit) + [p]
    else [p]
  }

  /** A page that is not the last: its rows, and where the next request starts. */
  lemma ForwardStep(db: Db, after: Option<Id>, limit: nat)
    requires db.Valid() && limit >= 1 && |db.Later(after)| > limit
    ensures var p, later := PageOf(db, None, after, limit), db.Later(after);
      && p.hasMore && p.results == later[..limit]
      && db.Later(p.nextCursor) == later[limit..]
      && Forward(db, after, limit) == [p] + Forward(db, p.nextCursor, limit)
  {
    LaterOfLater(db, after, limit - 1);
  }

  lemma ForwardEnd(db: Db, after: Option<Id>, limit: nat)
    requires db.Valid() && limit >= 1 && |db.Later(after)| <= limit
    ensures var p := PageOf(db, None, after, limit);
      !p.hasMore && p.results == db.Later(after) && Forward(db, after, limit) == [p]
  {
    var later := db.Later(after);
    assert later[..|later|] == later;
  }

  /** The forward walk shows every later message exactly once, in order. */
  lemma {:induction false} ForwardVisitsAll(db: Db, after: Option<Id>, limit: nat)
    requires db.Valid() && limit >= 1
    ensures Flatten(Forward(db, after, limit)) == db.Later(after)
    decreases |db.Later(after)|
  {
    var p, later := PageOf(db, None, after, limit), db.Later(after);
    if |later| > limit {
      ForwardStep(db, after, limit);
      ForwardVisitsAll(db, p.nextCursor, limit);
      FlattenCons(p, Forward(db, p.nextCursor, limit));
      assert later[..limit] + later[limit..] == later;
    } else {
      ForwardEnd(db, after, limit);
      FlattenCons(p, []);
    }
  }

  lemma FlattenCons(p: Page, pages: seq<Page>)
    ensures Flatten([p] + pages) == p.results + Flatten(pages)
    ensures pages == [] ==> Flatten([p]) == p.results
  {
    assert ([p] + pages)[1..] == pages;
    assert pages == [] ==> [p] + pages == [p];
  }

  lemma BackwardPage(db: Db, before: Id, limit: nat)
    requires limit >= 1 && |db.Earlier(before)| > limit
    ensures var p, earlier := PageOf(db, Some(before), None, limit), db.Earlier(before);
      && p.hasMore && p.results == earlier[|earlier| - limit..]
      && p.prevCursor == Some(earlier[|earlier| - limit].id)
  {
  }

  lemma BackwardStep(db: Db, before: Id, limit: nat) returns (prev: Id, k: nat)
    requires db.Valid() && limit >= 1 && |db.Earlier(before)| > limit
    ensures k == |db.Earlier(before)| - limit && db.Earlier(prev) == db.Earlier(before)[..k]
    ensures Backward(db, before, limit) == Backward(db, prev, limit) + [PageOf(db, Some(before), None, limit)]
    ensures PageOf(db, Some(before), None, limit).results == db.Earlier(before)[k..]
  {
    k := |db.Earlier(before)| - limit;
    prev := db.Earlier(before)[k].id;
    EarlierOfEarlier(db, before, k);
    BackwardPage(db, before, limit);
  }

  lemma BackwardEnd(db: Db, before: Id, limit: nat)
    requires db.Valid() && limit >= 1 && |db.Earlier(before)| <= limit
    ensures Backward(db, before, limit) == [PageOf(db, Some(before), None, limit)]
    ensures PageOf(db, Some(before), None, limit).results == db.Earlier(before)
  {
    var found := db.Earlier(before);
    assert found[0..] == found;
  }

  lemma BackwardFlattens(db: Db, before: Id, limit: nat) returns (prev: Id, k: nat)
    requires db.Valid() && limit >= 1 && |db.Earlier(before)| > limit
    ensures k < |db.Earlier(before)| && db.Earlier(prev) == db.Earlier(before)[..k]
    ensures Flatten(Backward(db, before, limit)) == Flatten(Backward(db, prev, limit)) + db.Earlier(before)[k..]
  {
    prev, k := BackwardStep(db, before, limit);
    FlattenSnoc(Backward(db, prev, limit), PageOf(db, Some(before), None, limit));
  }

  lemma Rejoin<T>(s: seq<T>, k: nat)
    requires k <= |s|
    ensures s[..k] + s[k..] == s
  {
  }

  lemma {:induction false} BackwardVisitsAll(db: Db, before: Id, limit: nat)
    requires db.Valid() && limit >= 1
    ensures Flatten(Backward(db, before, limit)) == db.Earlier(before)
    decreases |db.Earlier(before)|
  {
    if |db.Earlier(before)| > limit {
      var prev, k := BackwardFlattens(db, before, limit);
      BackwardVisitsAll(db, prev, limit);
      Rejoin(db.Earlier(before), k);
    } else {
      BackwardEnd(db, before, limit);
      FlattenCons(PageOf(db, Some(before), None, limit), []);
    }
  }

  // ---------------------------------------------------------------------------------------
  // The watermark
  // ---------------------------------------------------------------------------------------

  datatype Participant = Participant(deleted: bool, readAt: Option<int>)

  function MarkRead(part: Participant, m: Option<Message>): Participant {
    if m.Some? then part.(readAt := Some(m.value.createdAt)) else part
  }

  function FromOthers(ms: seq<Message>, user: User): nat {
    if ms == [] then 0
    else FromOthers(ms[..|ms| - 1], user) + if ms[|ms| - 1].sender != user then 1 else 0
  }

  /** getUnreadCount. */
  function Unread(db: Db, part: Participant, user: User): nat {
    FromOthers(Select(db.live, if part.deleted then None else part.readAt, None), user)
  }

  /** The messages an unread count is about: others' messages newer than the watermark, or all of
      them if the row is deleted or nothing was ever read. */
  predicate CountsAsUnread(m: Message, part: Participant, user: User) {
    m.sender != user && (part.deleted || part.readAt.None? || part.readAt.value < m.createdAt)
  }

  function UnreadIndices(ms: seq<Message>, part: Participant, user: User): set<nat> {
    set i: nat | i < |ms| && CountsAsUnread(ms[i], part, user)
  }

  lemma UnreadIndicesSnoc(ms: seq<Message>, part: Participant, user: User)
    requires ms != []
    ensures var last := |ms| - 1;
      |UnreadIndices(ms, part, user)| ==
        |UnreadIndices(ms[..last], part, user)| + if CountsAsUnread(ms[last], part, user) then 1 else 0
  {
    var last: nat := |ms| - 1;
    var few := UnreadIndices(ms[..last], part, user);
    assert UnreadIndices(ms, part, user) == few + if CountsAsUnread(ms[last], part, user) then {last} else {};
  }

  lemma {:induction false} UnreadCountsThem(ms: seq<Message>, part: Participant, user: User)
    ensures FromOthers(Select(ms, if part.deleted then None else part.readAt, None), user) ==
      |UnreadIndices(ms, part, user)|
    decreases |ms|
  {
    if ms != [] {
      var last := |ms| - 1;
      UnreadCountsThem(ms[..last], part, user);
      UnreadIndicesSnoc(ms, part, user);
      FromOthersSnoc(Select(ms[..last], if part.deleted then None else part.readAt, None), ms[last], user);
    }
  }

  lemma FromOthersSnoc(ms: seq<Message>, m: Message, user: User)
    ensures FromOthers(ms + [m], user) == FromOthers(ms, user) + if m.sender != user then 1 else 0
    ensures FromOthers(ms + [], user) == FromOthers(ms, user)
  {
    assert (ms + [m])[..|ms|] == ms && ms + [] == ms;
  }

  /** After any page, the unread count is the number of others' messages newer than the page's
      newest going forward, but newer than its oldest when paging with `before`. */
  lemma PageSetsUnread(db: Db, part: Participant, user: User, before: Option<Id>, after: Option<Id>, limit: nat)
    requires db.Valid() && limit >= 1 && !part.deleted
    requires PageOf(db, before, after, limit).results != []
    ensures var p := PageOf(db, before, after, limit);
      var m := if before.Some? then p.results[0] else p.results[|p.results| - 1];
      Unread(db, MarkRead(part, Marked(p, before)), user) == FromOthers(db.Later(Some(m.id)), user)
  {
    var a, b, lo, hi := PageIsExact(db, before, after, limit);
    var m := if before.Some? then db.live[lo] else db.live[hi - 1];
    assert Marked(PageOf(db, before, after, limit), before) == Some(m);
    assert db.TimeOf(Some(m.id)) == Some(m.createdAt);
  }

  /** The participant row after the pages of a forward walk. */
  function ReadThrough(part: Participant, pages: seq<Page>): Participant
    decreases |pages|
  {
    if pages == [] then part
    else ReadThrough(MarkRead(part, Marked(pages[0], None)), pages[1..])
  }

  lemma {:induction false} WalkReadsTheLast(db: Db, part: Participant, after: Option<Id>, limit: nat)
    requires db.Valid() && limit >= 1
    ensures ReadThrough(part, Forward(db, after, limit)) ==
      if db.Later(after) == [] then part else part.(readAt := Some(db.live[|db.live| - 1].createdAt))
    decreases |db.Later(after)|
  {
    var p := PageOf(db, None, after, limit);
    LaterEndsLast(db, after);
    if |db.Later(after)| > limit {
      ForwardStep(db, after, limit);
      WalkReadsTheLast(db, MarkRead(part, Marked(p, None)), p.nextCursor, limit);
      assert Forward(db, after, limit)[1..] == Forward(db, p.nextCursor, limit);
    } else {
      ForwardEnd(db, after, limit);
      assert [p][1..] == [];
    }
  }

  lemma LaterEndsLast(db: Db, after: Option<Id>)
    requires db.Valid()
    ensures var later := db.Later(after); later != [] ==> later[|later| - 1] == db.live[|db.live| - 1]
  {
    var a, b := RangeIsContiguous(db.live, db.TimeOf(after), None);
    if a < b {
      assert InRange(db.live[a], db.TimeOf(after), None);
      assert InRange(db.live[|db.live| - 1], db.TimeOf(after), None);
    }
  }

  /** Walking forward from the start to hasMore = false leaves nothing unread. */
  lemma WalkLeavesNothingUnread(db: Db, part: Participant, user: User, limit: nat)
    requires db.Valid() && limit >= 1 && !part.deleted
    ensures Unread(db, ReadThrough(part, Forward(db, None, limit)), user) == 0
  {
    WalkReadsTheLast(db, part, None, limit);
    var ms, read := db.live, ReadThrough(part, Forward(db, None, limit));
    assert Picks(ms, None, None, 0, |ms|);
    SelectIsSlice(ms, None, None, 0, |ms|);
    assert Picks(ms, read.readAt, None, |ms|, |ms|);
    SelectIsSlice(ms, read.readAt, None, |ms|, |ms|);
  }

  // ---------------------------------------------------------------------------------------
  // The service
  // ---------------------------------------------------------------------------------------

  /** The rows kept by the query, in query order. */
  function Kept(found: seq<Message>, backwards: bool, limit: nat): seq<Message> {
    var n := Min(limit, |found|);
    if backwards then Reverse(found[|found| - n..]) else found[..n]
  }

  lemma FirstOfOrdered(found: seq<Message>, backwards: bool, limit: nat)
    ensures var ordered := if backwards then Reverse(found) else found;
      ordered[..Min(limit, |found|)] == Kept(found, backwards, limit)
  {
  }

  /** The page as assembled: cursors read off the rows after the reversal. */
  function Assemble(kept: seq<Message>, hasMore: bool, backwards: bool): Page
    requires hasMore ==> kept != []
  {
    var shown := if backwards then Reverse(kept) else kept;
    Page(shown, hasMore, if hasMore then Some(shown[|shown| - 1].id) else None,
         if shown == [] then None else Some(shown[0].id))
  }

  lemma AssembledAsPromised(found: seq<Message>, backwards: bool, limit: nat)
    requires limit >= 1
    ensures var kept, p := Kept(found, backwards, limit), PageFrom(found, backwards, limit);
      && (|found| > limit ==> kept != [])
      && Assemble(kept, |found| > limit, backwards) == p
      && (kept == [] <==> p.results == [])
      && (kept != [] ==> kept[|kept| - 1] == if backwards then p.results[0] else p.results[|p.results| - 1])
  {
    var kept, p := Kept(found, backwards, limit), PageFrom(found, backwards, limit);
    assert (if backwards then Reverse(kept) else kept) == p.results;
  }

  /** Array.prototype.reverse. */
  method ReverseInPlace(a: array<Message>)
    modifies a
    ensures a[..] == Reverse(old(a[..]))
  {
    var lo, hi := 0, a.Length;
    while lo + 1 < hi
      invariant 0 <= lo && lo + hi == a.Length
      invariant forall k :: 0 <= k < a.Length ==>
        a[k] == if lo <= k < hi then old(a[k]) else old(a[a.Length - 1 - k])
      decreases hi - lo
    {
      hi := hi - 1;
      a[lo], a[hi] := a[hi], a[lo];
      lo := lo + 1;
    }
  }

  class MessageService {
    var db: Db
    var part: Participant

    constructor (db: Db, part: Participant)
      ensures this.db == db && this.part == part
    {
      this.db, this.part := db, part;
    }

    /** markMessagesAsRead, given the page in query order. */
    method MarkMessagesAsRead(page: array<Message>)
      modifies this`part
      ensures part == MarkRead(old(part), if page.Length == 0 then None else Some(page[page.Length - 1]))
      ensures part.deleted == old(part).deleted
      ensures part.readAt == if page.Length == 0 then old(part).readAt else Some(page[page.Length - 1].createdAt)
    {
      if page.Length > 0 {
        part := part.(readAt := Some(page[page.Length - 1].createdAt));
      }
    }

    /** The query with take limit + 1, cut back to `limit` rows, in query order. */
    method FetchPage(before: Option<Id>, after: Option<Id>, limit: nat) returns (kept: seq<Message>, hasMore: bool)
      ensures var found := Select(db.live, db.TimeOf(after), db.TimeOf(before));
        && hasMore == (|found| > limit)
        && kept == Kept(found, before.Some?, limit)
    {
      var found := Select(db.live, db.TimeOf(after), db.TimeOf(before));
      var ordered := if before.Some? then Reverse(found) else found;
      var messages := ordered[..Min(limit + 1, |ordered|)];
      hasMore := |messages| > limit;
      kept := if hasMore then messages[..limit] else messages;
      FirstOfOrdered(found, before.Some?, limit);
      assert kept == ordered[..Min(limit, |ordered|)];
    }

    /** The page from its rows in query order, reversed in place when asked for; the cursors are
        read after that. */
    method Deliver(kept: seq<Message>, hasMore: bool, backwards: bool) returns (p: Option<Page>)
      modifies this`part
      ensures part == MarkRead(old(part), if kept == [] then None else Some(kept[|kept| - 1]))
      ensures p.None? <==> hasMore && kept == []
      ensures p.Some? ==> p.value == Assemble(kept, hasMore, backwards)
    {
      var page := new Message[|kept|](i requires 0 <= i < |kept| => kept[i]);
      assert page[..] == kept;
      MarkMessagesAsRead(page);
      if backwards {
        ReverseInPlace(page);
      }
      ghost var shown := if backwards then Reverse(kept) else kept;
      assert page[..] == shown;
      if hasMore && page.Length == 0 {
        return None;
      }
      var nextCursor := if hasMore then Some(page[page.Length - 1].id) else None;
      var prevCursor := if page.Length > 0 then Some(page[0].id) else None;
      p := Some(Page(page[..], hasMore, nextCursor, prevCursor));
    }

    /** getMessagesWithCursor.  With a limit of zero the cursor of a non-empty page is read off the
        end of an empty array, and the call throws. */
    method GetMessagesWithCursor(before: Option<Id>, after: Option<Id>, limit: nat) returns (p: Option<Page>)
      modifies this`part
      ensures limit >= 1 ==>
        p == Some(PageOf(db, before, after, limit)) && part == MarkRead(old(part), Marked(p.value, before))
      ensures limit == 0 ==> part == old(part)
      ensures p.None? <==> limit == 0 && Select(db.live, db.TimeOf(after), db.TimeOf(before)) != []
    {
      var kept, hasMore := FetchPage(before, after, limit);
      ghost var found := Select(db.live, db.TimeOf(after), db.TimeOf(before));
      if limit >= 1 {
        AssembledAsPromised(found, before.Some?, limit);
      }
      p := Deliver(kept, hasMore, before.Some?);
      assert limit >= 1 ==> p == Some(PageFrom(found, before.Some?, limit));
    }

    /** getUnreadCount. */
    method GetUnreadCount(user: User) returns (n: nat)
      ensures n == |set i: nat | i < |db.live| && CountsAsUnread(db.live[i], part, user)|
    {
      UnreadCountsThem(db.live, part, user);
      n := Unread(db, part, user);
    }
  }
}
