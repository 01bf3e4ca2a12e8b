/** Offset and cursor pages over a fixed, ordered list of rows, and what following each kind of
    cursor visits. */
module SettingsPages {
  import opened Numbers
  import opened Wrappers

  type Id = nat

  datatype CursorPage = CursorPage(docs: seq<Id>, nextCursor: Option<Id>, hasNextPage: bool)

  datatype OffsetPage = OffsetPage(docs: seq<Id>, page: nat, limit: nat, total: nat, totalPages: nat)

  predicate Distinct(rows: seq<Id>) {
    forall i, j :: 0 <= i < j < |rows| ==> rows[i] != rows[j]
  }

  /** Number(options.limit) || 10. */
  function Limit(requested: nat): (l: nat)
    ensures l >= 1 && (requested > 0 ==> l == requested) && (requested == 0 ==> l == 10)
  {
    if requested == 0 then 10 else requested
  }

  function IndexOf(rows: seq<Id>, id: Id): (i: nat)
    requires Distinct(rows) && id in rows
    ensures i < |rows| && rows[i] == id
  {
    var i: nat :| i < |rows| && rows[i] == id;
    i
  }

  /** The index a cursor query starts from: the row after the cursor.  An unknown cursor finds nothing. */
  function Start(rows: seq<Id>, cursor: Option<Id>): (s: nat)
    requires Distinct(rows)
    ensures s <= |rows|
  {
    if cursor.None? then 0
    else if cursor.value in rows then IndexOf(rows, cursor.value) + 1
    else |rows|
  }

  lemma StartAfter(rows: seq<Id>, i: nat)
    requires Distinct(rows) && i < |rows|
    ensures Start(rows, Some(rows[i])) == i + 1
  {
    var j := IndexOf(rows, rows[i]);
    assert !(i < j) && !(j < i);
  }

  /** The page from index s on, and the row after it as the next cursor. */
  function PageFrom(rows: seq<Id>, s: nat, limit: nat): CursorPage
    requires s <= |rows|
  {
    var end := Min(s + limit, |rows|);
    if s + limit < |rows| then CursorPage(rows[s..end], Some(rows[end]), true)
    else CursorPage(rows[s..end], None, false)
  }

  /** One row too many, popped. */
  lemma SliceCut(rows: seq<Id>, s: nat, limit: nat)
    requires s <= |rows|
    ensures var taken := rows[s..Min(s + limit + 1, |rows|)];
      (if |taken| > limit then taken[..|taken| - 1] else taken) == rows[s..Min(s + limit, |rows|)]
  {
    if s + limit < |rows| {
      var t, u := rows[s..s + limit + 1][..limit], rows[s..s + limit];
      assert |t| == |u| && forall k :: 0 <= k < |t| ==> t[k] == rows[s + k] == u[k];
    }
  }

  /** getAllWithPaginationCursor: take one row too many, pop it, and hand out its id. */
  method GetAllWithPaginationCursor(rows: seq<Id>, cursor: Option<Id>, requested: nat) returns (p: CursorPage)
    requires Distinct(rows)
    ensures p == PageFrom(rows, Start(rows, cursor), Limit(requested))
    ensures requested > 0 ==> |p.docs| <= requested && (p.hasNextPage ==> |p.docs| == requested)
    ensures requested == 0 ==> |p.docs| <= 10 && (p.hasNextPage ==> |p.docs| == 10)
    ensures p.hasNextPage <==> p.nextCursor.Some?
  {
    var limit := Limit(requested);
    var s := Start(rows, cursor);
    var docs := rows[s..Min(s + limit + 1, |rows|)];
    var nextCursor: Option<Id> := None;
    var hasNextPage := false;
    if |docs| > limit {
      hasNextPage := true;
      nextCursor := Some(docs[|docs| - 1]);
      docs := docs[..|docs| - 1];
    }
    SliceCut(rows, s, limit);
    p := CursorPage(docs, nextCursor, hasNextPage);
  }

  // ---------------------------------------------------------------------------------------
  // Cursor walks
  // ---------------------------------------------------------------------------------------

  /** Rows seen when the next request's cursor is the last id returned, as the query DTO documents:
      every row after the starting cursor, exactly once and in order. */
  ghost function WalkByLastId(rows: seq<Id>, cursor: Option<Id>, limit: nat): (seen: seq<Id>)
    requires Distinct(rows) && limit >= 1
    ensures seen == rows[Start(rows, cursor)..]
    decreases |rows| - Start(rows, cursor)
  {
    var s := Start(rows, cursor);
    var p := PageFrom(rows, s, limit);
    if p.hasNextPage then
      StartAfter(rows, s + limit - 1);
      assert rows[s..s + limit] + rows[s + limit..] == rows[s..];
      p.docs + WalkByLastId(rows, Some(p.docs[limit - 1]), limit)
    else p.docs
  }

  /** Rows seen when the next request's cursor is the returned nextCursor. */
  ghost function WalkByNextCursor(rows: seq<Id>, cursor: Option<Id>, limit: nat): seq<Id>
    requires Distinct(rows) && limit >= 1
    decreases |rows| - Start(rows, cursor)
  {
    var s := Start(rows, cursor);
    var p := PageFrom(rows, s, limit);
    if p.hasNextPage then
      StartAfter(rows, s + limit);
      p.docs + WalkByNextCursor(rows, p.nextCursor, limit)
    else p.docs
  }

  predicate BlockEnd(i: nat, limit: nat) {
    i % (limit + 1) == limit
  }

  /** The rows at indices from `i` on that are not last in a block of limit + 1. */
  function Visible(rows: seq<Id>, i: nat, limit: nat): seq<Id>
    decreases |rows| - i
  {
    if i >= |rows| then []
    else (if BlockEnd(i, limit) then [] else [rows[i]]) + Visible(rows, i + 1, limit)
  }

  lemma VisibleAt(rows: seq<Id>, i: nat, limit: nat)
    requires i < |rows|
    ensures Visible(rows, i, limit) ==
      (if BlockEnd(i, limit) then [] else [rows[i]]) + Visible(rows, i + 1, limit)
  {
  }

  lemma OneMoreInFront(rows: seq<Id>, i: nat, end: nat, tail: seq<Id>)
    requires i < end <= |rows|
    ensures [rows[i]] + (rows[i + 1..end] + tail) == rows[i..end] + tail
  {
    assert [rows[i]] + rows[i + 1..end] == rows[i..end];
  }

  lemma {:induction false} VisibleRun(rows: seq<Id>, i: nat, end: nat, limit: nat)
    requires i <= end <= |rows|
    requires forall j: nat :: i <= j < end ==> !BlockEnd(j, limit)
    ensures Visible(rows, i, limit) == rows[i..end] + Visible(rows, end, limit)
    decreases end - i
  {
    if i < end {
      VisibleRun(rows, i + 1, end, limit);
      VisibleAt(rows, i, limit);
      OneMoreInFront(rows, i, end, Visible(rows, end, limit));
    }
  }

  lemma MulMonotone(a: nat, b: nat, c: nat)
    requires a <= b
    ensures a * c <= b * c
  {
    assert b * c - a * c == (b - a) * c;
  }

  lemma DivUnique(a: nat, m: nat, q: nat, r: nat)
    requires m > 0 && a == q * m + r && r < m
    ensures a % m == r && a / m == q
  {
    var q', r' := a / m, a % m;
    assert a == q' * m + r' && r' < m;
    assert (q' + 1) * m == q' * m + m && (q + 1) * m == q * m + m;
    if q > q' {
      MulMonotone(q' + 1, q, m);
    } else if q < q' {
      MulMonotone(q + 1, q', m);
    }
  }

  lemma InBlock(i: nat, k: nat, limit: nat)
    requires i % (limit + 1) == 0 && k <= limit
    ensures BlockEnd(i + k, limit) <==> k == limit
  {
    assert i == (i / (limit + 1)) * (limit + 1);
    DivUnique(i + k, limit + 1, i / (limit + 1), k);
  }

  /** A block shows all its rows but the last. */
  lemma VisibleBlock(rows: seq<Id>, i: nat, limit: nat)
    requires i <= |rows| && i % (limit + 1) == 0
    ensures Visible(rows, i, limit) ==
      if i + limit < |rows| then rows[i..i + limit] + Visible(rows, i + limit + 1, limit) else rows[i..]
  {
    var end := Min(i + limit, |rows|);
    forall j: nat | i <= j < end
      ensures !BlockEnd(j, limit)
    {
      InBlock(i, j - i, limit);
    }
    VisibleRun(rows, i, end, limit);
    if i + limit < |rows| {
      InBlock(i, limit, limit);
      VisibleAt(rows, end, limit);
    } else {
      assert rows[i..end] == rows[i..];
    }
  }

  lemma NextBlock(i: nat, limit: nat)
    requires i % (limit + 1) == 0
    ensures (i + limit + 1) % (limit + 1) == 0 && (i + limit + 1) / (limit + 1) == i / (limit + 1) + 1
  {
    var q := i / (limit + 1);
    assert i == q * (limit + 1) && (q + 1) * (limit + 1) == i + limit + 1;
    DivUnique(i + limit + 1, limit + 1, q + 1, 0);
  }

  lemma NextCursorStep(rows: seq<Id>, cursor: Option<Id>, limit: nat)
    requires Distinct(rows) && limit >= 1
    ensures var s, walk := Start(rows, cursor), WalkByNextCursor(rows, cursor, limit);
      if s + limit < |rows| then
        && Start(rows, Some(rows[s + limit])) == s + limit + 1
        && walk == rows[s..s + limit] + WalkByNextCursor(rows, Some(rows[s + limit]), limit)
      else walk == rows[s..]
  {
    var s := Start(rows, cursor);
    if s + limit < |rows| {
      StartAfter(rows, s + limit);
    }
  }

  lemma {:induction false} NextCursorVisits(rows: seq<Id>, cursor: Option<Id>, q: nat, limit: nat)
    requires Distinct(rows) && limit >= 1 && Start(rows, cursor) == q * (limit + 1)
    ensures WalkByNextCursor(rows, cursor, limit) == Visible(rows, q * (limit + 1), limit)
    decreases |rows| - Start(rows, cursor)
  {
    var s := q * (limit + 1);
    DivUnique(s, limit + 1, q, 0);
    NextCursorStep(rows, cursor, limit);
    VisibleBlock(rows, s, limit);
    if s + limit < |rows| {
      assert (q + 1) * (limit + 1) == s + limit + 1;
      NextCursorVisits(rows, Some(rows[s + limit]), q + 1, limit);
    }
  }

  lemma VisibleBlockLength(rows: seq<Id>, i: nat, limit: nat)
    requires i <= |rows| && i % (limit + 1) == 0
    ensures |Visible(rows, i, limit)| ==
      if i + limit < |rows| then limit + |Visible(rows, i + limit + 1, limit)| else |rows| - i
  {
    VisibleBlock(rows, i, limit);
  }

  /** From the start of block q on, one row is dropped for each full block that is left. */
  lemma {:induction false} VisibleLength(rows: seq<Id>, q: nat, i: nat, limit: nat)
    requires limit >= 1 && i <= |rows| && i == q * (limit + 1)
    ensures |rows| - i - |Visible(rows, i, limit)| == |rows| / (limit + 1) - q
    decreases |rows| - i
  {
    DivUnique(i, limit + 1, q, 0);
    VisibleBlockLength(rows, i, limit);
    if i + limit < |rows| {
      assert (q + 1) * (limit + 1) == i + limit + 1;
      VisibleLength(rows, q + 1, i + limit + 1, limit);
    } else {
      DivUnique(|rows|, limit + 1, q, |rows| - i);
    }
  }

  /** Following nextCursor from the start terminates and shows exactly the rows whose index i has
      i mod (limit + 1) != limit: one row in each full block of limit + 1 is never shown. */
  lemma NextCursorSkipsBlockEnds(rows: seq<Id>, limit: nat)
    requires Distinct(rows) && limit >= 1
    ensures WalkByNextCursor(rows, None, limit) == Visible(rows, 0, limit)
    ensures |rows| - |WalkByNextCursor(rows, None, limit)| == |rows| / (limit + 1)
  {
    DivUnique(0, limit + 1, 0, 0);
    NextCursorVisits(rows, None, 0, limit);
    VisibleLength(rows, 0, 0, limit);
  }

  /** So it visits every row exactly when one page holds them all. */
  lemma NextCursorCompleteIff(rows: seq<Id>, limit: nat)
    requires Distinct(rows) && limit >= 1
    ensures WalkByNextCursor(rows, None, limit) == rows <==> |rows| <= limit
  {
    NextCursorSkipsBlockEnds(rows, limit);
    if |rows| <= limit {
      DivUnique(|rows|, limit + 1, 0, |rows|);
    } else {
      assert |rows| / (limit + 1) >= 1;
    }
  }

  // ---------------------------------------------------------------------------------------
  // Offset pages
  // ---------------------------------------------------------------------------------------

  /** Math.ceil(total / limit). */
  function TotalPages(total: nat, limit: nat): (n: nat)
    requires limit >= 1
    ensures total <= n * limit && (n > 0 ==> (n - 1) * limit < total)
  {
    var q := total / limit;
    assert total == q * limit + total % limit;
    if total % limit == 0 then
      assert q > 0 ==> (q - 1) * limit == q * limit - limit;
      q
    else
      assert (q + 1) * limit == q * limit + limit;
      q + 1
  }

  /** The rows of a page; a page number below one means the first page. */
  function DocsAt(rows: seq<Id>, requestedPage: int, requestedLimit: nat): seq<Id> {
    var page: nat := if requestedPage > 0 then requestedPage else 1;
    var limit := Limit(requestedLimit);
    var skip := Min((page - 1) * limit, |rows|);
    rows[skip..Min(skip + limit, |rows|)]
  }

  /** getAllWithPagination. */
  function PageAt(rows: seq<Id>, requestedPage: int, requestedLimit: nat): OffsetPage {
    var page: nat := if requestedPage > 0 then requestedPage else 1;
    var limit := Limit(requestedLimit);
    OffsetPage(DocsAt(rows, requestedPage, requestedLimit), page, limit, |rows|, TotalPages(|rows|, limit))
  }

  /** Pages 1 to n, one after the other. */
  function PagesUpTo(rows: seq<Id>, n: nat, requestedLimit: nat): seq<Id> {
    if n == 0 then [] else PagesUpTo(rows, n - 1, requestedLimit) + DocsAt(rows, n, requestedLimit)
  }

  /** A page says which one it is, and is as long as asked for unless the rows run out. */
  lemma PageIsAsAsked(rows: seq<Id>, page: nat, limit: nat, skip: nat)
    requires page > 0 && limit > 0 && skip == (page - 1) * limit
    ensures var p := PageAt(rows, page, limit);
      && p.page == page && p.limit == limit && p.total == |rows| && p.totalPages == TotalPages(|rows|, limit)
      && p.docs == rows[Min(skip, |rows|)..Min(skip + limit, |rows|)]
  {
  }

  /** No page, or one below the first, means the first; no limit means ten. */
  lemma PageDefaults(rows: seq<Id>, page: int, limit: nat)
    ensures page <= 0 ==> PageAt(rows, page, limit) == PageAt(rows, 1, limit)
    ensures PageAt(rows, page, 0) == PageAt(rows, page, 10)
  {
  }

  lemma OneMoreTimes(n: nat, limit: nat)
    requires n > 0
    ensures n * limit == (n - 1) * limit + limit
  {
  }

  lemma PrefixAndSlice(rows: seq<Id>, from: nat, to: nat)
    requires from <= to
    ensures rows[..Min(from, |rows|)] + rows[Min(from, |rows|)..Min(to, |rows|)] == rows[..Min(to, |rows|)]
  {
  }

  lemma {:induction false} PagesArePrefixes(rows: seq<Id>, n: nat, requestedLimit: nat, covered: nat)
    requires covered == n * Limit(requestedLimit)
    ensures PagesUpTo(rows, n, requestedLimit) == rows[..Min(covered, |rows|)]
    decreases n
  {
    if n > 0 {
      var limit := Limit(requestedLimit);
      OneMoreTimes(n, limit);
      PagesArePrefixes(rows, n - 1, requestedLimit, covered - limit);
      PrefixAndSlice(rows, covered - limit, covered);
    }
  }

  /** The pages 1..totalPages are the whole list; no earlier page completes it, and none follows. */
  lemma OffsetPagesCoverExactly(rows: seq<Id>, n: nat, requestedLimit: nat)
    ensures PagesUpTo(rows, n, requestedLimit) == rows <==> n >= TotalPages(|rows|, Limit(requestedLimit))
    ensures n > TotalPages(|rows|, Limit(requestedLimit)) ==> PageAt(rows, n, requestedLimit).docs == []
  {
    var limit := Limit(requestedLimit);
    var all := TotalPages(|rows|, limit);
    PagesArePrefixes(rows, n, requestedLimit, n * limit);
    if n >= all {
      MulMonotone(all, n, limit);
      if n > all { MulMonotone(all, n - 1, limit); }
    } else {
      MulMonotone(n, all - 1, limit);
    }
  }
}
