/** RedisService.getOrSet and invalidate around one cache key: readers and writers interleave at
    the grain of one Redis command or one database query. */
module ReadThroughCache {
  import opened Redis
  import opened Wrappers

  /** ttl and the longest fetch-to-set delay, in milliseconds. */
  datatype Config = Config(ttl: nat, maxDelay: nat)

  /** The database row's value from instant `since` until the next version; None is a missing row. */
  datatype Version<+T> = Version(data: Option<T>, since: int)

  /** Where a getOrSet call stands; `seen` is the version its fetch read. */
  datatype Phase<+T> = Missed | Fetched(data: Option<T>, at: int, seen: nat)

  datatype State<+T> =
    State(now: int, versions: seq<Version<T>>, key: Key<T>, readers: map<nat, Phase<T>>, writers: set<nat>)

  datatype Action<+T> =
    | Tick(ms: nat)
    | Write(writer: nat, data: Option<T>)
    | Del(writer: nat)
    | DelFails(writer: nat)
    | Get(reader: nat)
    | GetFails(reader: nat)
    | Fetch(reader: nat)
    | FetchThrows(reader: nat)
    | Put(reader: nat)
    | PutFails(reader: nat)

  function Init<T>(data: Option<T>): State<T> {
    State(0, [Version(data, 0)], Absent, map[], {})
  }

  predicate Enabled<T>(c: Config, s: State<T>, a: Action<T>) {
    match a
    case Tick(_) => true
    case Write(w, _) => w !in s.writers
    case Del(w) => w in s.writers
    case DelFails(w) => w in s.writers
    case Get(r) => r !in s.readers
    case GetFails(r) => r !in s.readers
    case Fetch(r) => r in s.readers && s.readers[r].Missed? && |s.versions| > 0
    case FetchThrows(r) => r in s.readers && s.readers[r].Missed?
    case Put(r) => r in s.readers && s.readers[r].Fetched? && s.now - s.readers[r].at <= c.maxDelay
    case PutFails(r) => r in s.readers && s.readers[r].Fetched? && s.now - s.readers[r].at <= c.maxDelay
  }

  function Next<T>(c: Config, s: State<T>, a: Action<T>): State<T>
    requires Enabled(c, s, a)
  {
    match a
    case Tick(ms) => s.(now := s.now + ms)
    case Write(w, data) => s.(versions := s.versions + [Version(data, s.now)], writers := s.writers + {w})
    case Del(w) => s.(key := Absent, writers := s.writers - {w})
    case DelFails(w) => s.(writers := s.writers - {w})
    case Get(r) => if s.key.LiveAt(s.now) then s else s.(readers := s.readers[r := Missed])
    case GetFails(r) => s.(readers := s.readers[r := Missed])
    case Fetch(r) =>
      var seen := |s.versions| - 1;
      s.(readers := s.readers[r := Fetched(s.versions[seen].data, s.now, seen)])
    case FetchThrows(r) => s.(readers := s.readers - {r})
    case Put(r) =>
      var data := s.readers[r].data;
      s.(readers := s.readers - {r}, key := if data.Some? then Held(data.value, At(s.now + c.ttl)) else s.key)
    case PutFails(r) => s.(readers := s.readers - {r})
  }

  /** What the call that takes this step returns to its caller, if it returns here. */
  function Answer<T>(c: Config, s: State<T>, a: Action<T>): Option<Option<T>>
    requires Enabled(c, s, a)
  {
    match a
    case Get(r) => if s.key.LiveAt(s.now) then Some(Some(s.key.value)) else None
    case Put(r) => Some(s.readers[r].data)
    case PutFails(r) => Some(s.readers[r].data)
    case _ => None
  }

  /** The state after the actions; an action that is not enabled changes nothing. */
  function After<T>(c: Config, s: State<T>, acts: seq<Action<T>>): State<T> {
    if acts == [] then s
    else
      var m, a := After(c, s, acts[..|acts| - 1]), acts[|acts| - 1];
      if Enabled(c, m, a) then Next(c, m, a) else m
  }

  // ---------------------------------------------------------------------------------------
  // Bounded staleness, under every interleaving and every Redis failure
  // ---------------------------------------------------------------------------------------

  ghost predicate WasCurrent<T(!new)>(versions: seq<Version<T>>, data: Option<T>, t: int) {
    exists i :: 0 <= i < |versions| && versions[i].data == data && versions[i].since <= t
      && (i + 1 < |versions| ==> t <= versions[i + 1].since)
  }

  /** `data` was the database's value at some instant no older than `oldest`. */
  ghost predicate CurrentSince<T(!new)>(s: State<T>, data: Option<T>, oldest: int) {
    exists t :: oldest <= t <= s.now && WasCurrent(s.versions, data, t)
  }

  ghost predicate Fresh<T(!new)>(c: Config, s: State<T>) {
    && |s.versions| > 0
    && s.versions[|s.versions| - 1].since <= s.now
    && (s.key.Held? ==> s.key.expiry.At? && CurrentSince(s, Some(s.key.value), s.key.expiry.ms - c.ttl - c.maxDelay))
    && (forall r :: r in s.readers && s.readers[r].Fetched? ==>
          s.readers[r].at <= s.now && WasCurrent(s.versions, s.readers[r].data, s.readers[r].at))
  }

  lemma StaysRecorded<T(!new)>(vs: seq<Version<T>>, v: Version<T>, data: Option<T>, t: int)
    requires WasCurrent(vs, data, t) && t <= v.since
    ensures WasCurrent(vs + [v], data, t)
  {
    var i :| 0 <= i < |vs| && vs[i].data == data && vs[i].since <= t && (i + 1 < |vs| ==> t <= vs[i + 1].since);
    var ws := vs + [v];
    assert ws[i] == vs[i];
    assert i + 1 < |ws| ==> ws[i + 1] == if i + 1 < |vs| then vs[i + 1] else v;
    assert ws[i].data == data && ws[i].since <= t && (i + 1 < |ws| ==> t <= ws[i + 1].since);
  }

  lemma FreshStep<T(!new)>(c: Config, s: State<T>, a: Action<T>)
    requires Fresh(c, s) && Enabled(c, s, a)
    ensures Fresh(c, Next(c, s, a))
  {
    var s' := Next(c, s, a);
    match a
    case Write(w, data) =>
      var v := Version(data, s.now);
      if s.key.Held? {
        var t :| s.key.expiry.ms - c.ttl - c.maxDelay <= t <= s.now && WasCurrent(s.versions, Some(s.key.value), t);
        StaysRecorded(s.versions, v, Some(s.key.value), t);
      }
      forall r | r in s'.readers && s'.readers[r].Fetched?
        ensures WasCurrent(s'.versions, s'.readers[r].data, s'.readers[r].at)
      {
        StaysRecorded(s.versions, v, s.readers[r].data, s.readers[r].at);
      }
    case Tick(ms) =>
      if s.key.Held? {
        var t :| s.key.expiry.ms - c.ttl - c.maxDelay <= t <= s.now && WasCurrent(s.versions, Some(s.key.value), t);
        assert WasCurrent(s'.versions, Some(s'.key.value), t);
      }
    case Fetch(r) =>
      var i := |s.versions| - 1;
      assert s'.versions[i].data == s'.readers[r].data && s'.versions[i].since <= s.now;
      assert WasCurrent(s'.versions, s'.readers[r].data, s.now);
    case Put(r) =>
      var f := s.readers[r];
      assert WasCurrent(s'.versions, f.data, f.at);
    case _ =>
  }

  lemma {:induction false} FreshAlways<T(!new)>(c: Config, data: Option<T>, acts: seq<Action<T>>)
    ensures Fresh(c, After(c, Init(data), acts))
    decreases |acts|
  {
    if acts != [] {
      var prev, a := acts[..|acts| - 1], acts[|acts| - 1];
      FreshAlways(c, data, prev);
      if Enabled(c, After(c, Init(data), prev), a) {
        FreshStep(c, After(c, Init(data), prev), a);
      }
    }
  }

  /** Every value getOrSet returns was the database's value within the last ttl + maxDelay. */
  lemma ReturnsBoundedStaleness<T(!new)>(c: Config, data: Option<T>, acts: seq<Action<T>>, a: Action<T>)
    requires var s := After(c, Init(data), acts); Enabled(c, s, a) && Answer(c, s, a).Some?
    ensures var s := After(c, Init(data), acts);
      CurrentSince(s, Answer(c, s, a).value, s.now - c.ttl - c.maxDelay)
  {
    var s := After(c, Init(data), acts);
    FreshAlways(c, data, acts);
    match a
    case Get(_) =>
      var t :| s.key.expiry.ms - c.ttl - c.maxDelay <= t <= s.now && WasCurrent(s.versions, Some(s.key.value), t);
    case Put(r) => assert WasCurrent(s.versions, s.readers[r].data, s.readers[r].at);
    case PutFails(r) => assert WasCurrent(s.versions, s.readers[r].data, s.readers[r].at);
  }

  // ---------------------------------------------------------------------------------------
  // Coherence, and exactly what breaks it
  // ---------------------------------------------------------------------------------------

  ghost predicate Current<T>(s: State<T>, data: Option<T>) {
    |s.versions| > 0 && s.versions[|s.versions| - 1].data == data
  }

  /** A hit now would answer something else than a direct fetch. */
  ghost predicate HitsWrong<T>(s: State<T>) {
    s.key.LiveAt(s.now) && !Current(s, Some(s.key.value))
  }

  /** No writer is between its database write and its del. */
  predicate Quiet<T>(s: State<T>) {
    s.writers == {}
  }

  /** The two steps that break coherence: a set of a value that is no longer the row's, after every
      writer has already invalidated, and the loss of the last invalidation of a wrong entry. */
  ghost predicate Spoils<T>(c: Config, s: State<T>, a: Action<T>)
    requires Enabled(c, s, a)
  {
    match a
    case Put(r) => c.ttl > 0 && Quiet(s) && s.readers[r].data.Some? && !Current(s, s.readers[r].data)
    case DelFails(w) => s.writers == {w} && HitsWrong(s)
    case _ => false
  }

  /** At a quiet moment a hit equals a direct fetch. */
  ghost predicate Coherent<T>(s: State<T>) {
    Quiet(s) ==> !HitsWrong(s)
  }

  lemma CoherentStepIff<T>(c: Config, s: State<T>, a: Action<T>)
    requires Enabled(c, s, a) && |s.versions| > 0 && Coherent(s)
    ensures Coherent(Next(c, s, a)) <==> !Spoils(c, s, a)
  {
    match a
    case Write(w, _) => assert w in Next(c, s, a).writers;
    case DelFails(w) => assert s.writers == (s.writers - {w}) + {w};
    case _ =>
  }

  ghost predicate CoherentRun<T>(c: Config, data: Option<T>, acts: seq<Action<T>>) {
    forall n :: 0 <= n <= |acts| ==> Coherent(After(c, Init(data), acts[..n]))
  }

  ghost predicate SpoilsAt<T>(c: Config, data: Option<T>, acts: seq<Action<T>>, n: nat)
    requires n < |acts|
  {
    var s := After(c, Init(data), acts[..n]);
    Enabled(c, s, acts[n]) && Spoils(c, s, acts[n])
  }

  lemma {:induction false} CoherentUpTo<T(!new)>(c: Config, data: Option<T>, acts: seq<Action<T>>, n: nat)
    requires n <= |acts| && forall i :: 0 <= i < n ==> !SpoilsAt(c, data, acts, i)
    ensures Coherent(After(c, Init(data), acts[..n]))
  {
    if n > 0 {
      CoherentUpTo(c, data, acts, n - 1);
      AfterSnoc(c, data, acts, n - 1);
      FreshAlways(c, data, acts[..n - 1]);
      var s := After(c, Init(data), acts[..n - 1]);
      if Enabled(c, s, acts[n - 1]) {
        CoherentStepIff(c, s, acts[n - 1]);
        assert !SpoilsAt(c, data, acts, n - 1);
      }
    }
  }

  lemma AfterSnoc<T>(c: Config, data: Option<T>, acts: seq<Action<T>>, n: nat)
    requires n < |acts|
    ensures var s := After(c, Init(data), acts[..n]);
      After(c, Init(data), acts[..n + 1]) == if Enabled(c, s, acts[n]) then Next(c, s, acts[n]) else s
  {
    assert acts[..n + 1][..n] == acts[..n];
  }

  /** Every quiet moment of a run is coherent exactly when no step of it spoils. */
  lemma CoherentWhenQuiet<T(!new)>(c: Config, data: Option<T>, acts: seq<Action<T>>)
    ensures CoherentRun(c, data, acts) <==> forall n :: 0 <= n < |acts| ==> !SpoilsAt(c, data, acts, n)
  {
    if CoherentRun(c, data, acts) {
      forall n | 0 <= n < |acts|
        ensures !SpoilsAt(c, data, acts, n)
      {
        AfterSnoc(c, data, acts, n);
        FreshAlways(c, data, acts[..n]);
        var s := After(c, Init(data), acts[..n]);
        assert Coherent(s) && Coherent(After(c, Init(data), acts[..n + 1]));
        if Enabled(c, s, acts[n]) {
          CoherentStepIff(c, s, acts[n]);
        }
      }
    } else {
      var n :| 0 <= n <= |acts| && !Coherent(After(c, Init(data), acts[..n]));
      if forall i :: 0 <= i < n ==> !SpoilsAt(c, data, acts, i) {
        CoherentUpTo(c, data, acts, n);
      }
    }
  }

  /** The version a fetch recorded is the one it returned. */
  lemma {:induction false} SeenIsRecorded<T>(c: Config, data: Option<T>, acts: seq<Action<T>>, r: nat)
    ensures var s := After(c, Init(data), acts);
      r in s.readers && s.readers[r].Fetched? ==>
        s.readers[r].seen < |s.versions| && s.versions[s.readers[r].seen].data == s.readers[r].data
    decreases |acts|
  {
    if acts != [] {
      SeenIsRecorded(c, data, acts[..|acts| - 1], r);
    }
  }

  /** A set can only spoil a run if some write came between its fetch and itself. */
  lemma SpoilingSetOverlaps<T>(c: Config, data: Option<T>, acts: seq<Action<T>>, r: nat)
    requires var s := After(c, Init(data), acts); Enabled(c, s, Put(r)) && Spoils(c, s, Put(r))
    ensures var s := After(c, Init(data), acts); s.readers[r].seen + 1 < |s.versions|
  {
    SeenIsRecorded(c, data, acts, r);
  }

  /** A reader that fetches, waits out its whole delay while a writer writes and invalidates, and
      then sets. */
  function OverlappingRun<T>(c: Config, later: T): seq<Action<T>>
    requires c.ttl > 0
  {
    [Get(0), Fetch(0), Write(1, Some(later)), Del(1), Tick(c.maxDelay), Put(0), Tick(c.ttl - 1)]
  }

  /** The overlapping set survives the invalidation, and the bound on staleness is reached: the old
      value is still served ttl + maxDelay - 1 after it last was the database's. */
  lemma OverlapReachesTheBound<T(!new)>(c: Config, before: T, later: T)
    requires before != later && c.ttl > 0
    ensures var s := After(c, Init(Some(before)), OverlappingRun(c, later));
      && s.writers == {} && s.readers == map[] && Current(s, Some(later))
      && s.key.Get(s.now) == Some(before)
      && s.now == c.ttl + c.maxDelay - 1
      && forall t :: WasCurrent(s.versions, Some(before), t) ==> t <= 0
  {
    var acts: seq<Action<T>> := OverlappingRun(c, later);
    var s4 := Overwritten(before, later);
    WrittenWhileFetched(c, before, later, acts);
    AfterSnoc(c, Some(before), acts, 4);
    AfterSnoc(c, Some(before), acts, 5);
    AfterSnoc(c, Some(before), acts, 6);
    assert s4.readers - {0} == map[];
    assert acts[..7] == acts;
  }

  /** The reader has fetched, and the writer has written and invalidated. */
  function Overwritten<T>(before: T, later: T): State<T> {
    State(0, [Version(Some(before), 0), Version(Some(later), 0)], Absent,
          map[0 := Fetched(Some(before), 0, 0)], {})
  }

  lemma FetchedFirst<T>(c: Config, data: T, acts: seq<Action<T>>)
    requires |acts| >= 2 && acts[0] == Get(0) && acts[1] == Fetch(0)
    ensures After(c, Init(Some(data)), acts[..2]) ==
      Init(Some(data)).(readers := map[0 := Fetched(Some(data), 0, 0)])
  {
    AfterSnoc(c, Some(data), acts, 0);
    AfterSnoc(c, Some(data), acts, 1);
    var s1 := Init(Some(data)).(readers := map[0 := Missed]);
    assert After(c, Init(Some(data)), acts[..1]) == s1;
  }

  lemma WrittenWhileFetched<T>(c: Config, before: T, later: T, acts: seq<Action<T>>)
    requires |acts| >= 4 && acts[..4] == [Get(0), Fetch(0), Write(1, Some(later)), Del(1)]
    ensures After(c, Init(Some(before)), acts[..4]) == Overwritten(before, later)
  {
    assert forall n :: 0 <= n < 4 ==> acts[n] == acts[..4][n];
    FetchedFirst(c, before, acts);
    AfterSnoc(c, Some(before), acts, 2);
    AfterSnoc(c, Some(before), acts, 3);
    assert {1} - {1} == {};
  }

  // ---------------------------------------------------------------------------------------
  // The service itself, one call at a time
  // ---------------------------------------------------------------------------------------

  class RedisService<T(==)> {
    var key: Key<T>

    ghost predicate Mirrors(row: Option<T>)
      reads this
    {
      key.Held? ==> row == Some(key.value)
    }

    constructor ()
      ensures key == Absent
    {
      key := Absent;
    }

    /** getOrSet: `row` is what fetchFn would return; up tells whether each command reaches Redis. */
    method GetOrSet(row: Option<T>, now: int, ttlMs: nat, getUp: bool, setUp: bool) returns (data: Option<T>)
      modifies this
      ensures old(Mirrors(row)) ==> data == row && Mirrors(row)
      ensures !getUp ==> data == row
      ensures getUp && old(key.LiveAt(now)) ==> data == Some(old(key.value)) && key == old(key)
      ensures !(getUp && old(key.LiveAt(now))) ==>
        data == row && key == if row.Some? && setUp then Held(row.value, At(now + ttlMs)) else old(key)
    {
      if getUp {
        var cached := key.Get(now);
        if cached.Some? {
          return cached;
        }
      }
      data := row;
      if data.Some? && setUp {
        key := Held(data.value, At(now + ttlMs));
      }
    }

    /** A write followed by invalidate, which swallows the failure of its del. */
    method WriteAndInvalidate(newRow: Option<T>, delUp: bool) returns (row: Option<T>)
      modifies this
      ensures row == newRow && key == if delUp then Absent else old(key)
      ensures Mirrors(row) <==> delUp || old(key).Absent? || Some(old(key).value) == newRow
    {
      row := newRow;
      if delUp {
        key := Absent;
      }
    }
  }
}
