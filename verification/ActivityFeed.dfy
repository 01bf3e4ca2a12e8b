/** The capped activity feed of one group: a Redis list, newest first.  Adding an activity is an
    LPUSH and a separate LTRIM, so any number of pushes may land before a trim. */
module ActivityFeed {
  import opened Numbers

  /** LTRIM / LRANGE bounds: a negative stop counts from the end. */
  function Slice<A>(s: seq<A>, stop: int): (r: seq<A>)
    ensures r <= s
    ensures |r| == if stop < -|s| then 0 else if stop < 0 then |s| + stop + 1 else if stop < |s| then stop + 1 else |s|
  {
    var last := if stop < 0 then |s| + stop else stop;
    if last < 0 then [] else if last < |s| then s[..last + 1] else s
  }

  /** Clear stands for clearActivityFeed and for the key reaching its TTL. */
  datatype Event<+A> = Push(activity: A) | Trim | Clear

  function After<A>(cap: nat, t: seq<Event<A>>): seq<A> {
    if t == [] then []
    else
      var feed := After(cap, t[..|t| - 1]);
      match t[|t| - 1]
      case Push(a) => [a] + feed
      case Trim => Slice(feed, cap - 1)
      case Clear => []
  }

  /** Everything pushed since the last clear, newest first. */
  function History<A>(t: seq<Event<A>>): seq<A> {
    if t == [] then []
    else
      var h := History(t[..|t| - 1]);
      match t[|t| - 1]
      case Push(a) => [a] + h
      case Trim => h
      case Clear => []
  }

  /** Pushes since the last trim or clear. */
  function Untrimmed<A>(t: seq<Event<A>>): nat {
    if t == [] || !t[|t| - 1].Push? then 0 else 1 + Untrimmed(t[..|t| - 1])
  }

  predicate TrimmedSinceClear<A>(t: seq<Event<A>>) {
    t != [] && (t[|t| - 1].Trim? || (t[|t| - 1].Push? && TrimmedSinceClear(t[..|t| - 1])))
  }

  /** addActivityToFeed calls that have pushed and not yet trimmed; a trim always belongs to one. */
  function Pending<A>(t: seq<Event<A>>): int {
    if t == [] then 0
    else Pending(t[..|t| - 1]) + if t[|t| - 1].Push? then 1 else if t[|t| - 1].Trim? then -1 else 0
  }

  predicate WellFormed<A>(t: seq<Event<A>>) {
    t == [] || (WellFormed(t[..|t| - 1]) && Pending(t) >= 0)
  }

  /** Whatever the interleaving, the feed is a prefix of the history, of exactly this length. */
  lemma {:induction false} ExactContents<A>(cap: nat, t: seq<Event<A>>)
    requires cap >= 1
    ensures After(cap, t) <= History(t) && Untrimmed(t) <= |History(t)|
    ensures |After(cap, t)| ==
      if TrimmedSinceClear(t) then Min(cap, |History(t)| - Untrimmed(t)) + Untrimmed(t) else |History(t)|
    decreases |t|
  {
    if t != [] {
      ExactContents(cap, t[..|t| - 1]);
    }
  }

  lemma {:induction false} UntrimmedArePending<A>(t: seq<Event<A>>)
    requires WellFormed(t)
    ensures Untrimmed(t) <= Pending(t)
    ensures !TrimmedSinceClear(t) ==> |History(t)| == Untrimmed(t)
    decreases |t|
  {
    if t != [] {
      UntrimmedArePending(t[..|t| - 1]);
    }
  }

  /** Bounds that hold at every moment, and the exact contents once every adder has trimmed. */
  lemma FeedIsCapped<A>(cap: nat, t: seq<Event<A>>)
    requires cap >= 1 && WellFormed(t)
    ensures Min(cap, |History(t)|) <= |After(cap, t)| <= cap + Pending(t)
    ensures Pending(t) == 0 ==> After(cap, t) == History(t)[..Min(cap, |History(t)|)]
  {
    ExactContents(cap, t);
    UntrimmedArePending(t);
  }

  /** A cap of zero asks LTRIM for 0..-1, which keeps everything. */
  lemma {:induction false} ZeroCapNeverTrims<A>(t: seq<Event<A>>)
    ensures After(0, t) == History(t)
    decreases |t|
  {
    if t != [] {
      ZeroCapNeverTrims(t[..|t| - 1]);
    }
  }

  class Feed<A> {
    var items: seq<A>

    constructor ()
      ensures items == []
    {
      items := [];
    }

    method LPush(a: A)
      modifies this
      ensures items == [a] + old(items)
    {
      items := [a] + items;
    }

    method LTrim(stop: int)
      modifies this
      ensures items == Slice(old(items), stop)
    {
      items := Slice(items, stop);
    }

    /** addActivityToFeed with nobody in between: its two events. */
    method AddActivity(a: A, cap: nat, ghost t: seq<Event<A>>)
      requires items == After(cap, t)
      modifies this
      ensures items == After(cap, t + [Push(a), Trim])
    {
      LPush(a);
      LTrim(cap - 1);
      assert (t + [Push(a), Trim])[..|t| + 1] == t + [Push(a)];
      assert (t + [Push(a)])[..|t|] == t;
    }

    /** getActivityFeed; a limit of zero reads the whole list. */
    method GetActivities(limit: nat) returns (out: seq<A>)
      ensures limit >= 1 ==> out == items[..Min(limit, |items|)]
      ensures limit == 0 ==> out == items
    {
      out := Slice(items, limit - 1);
    }

    method ClearFeed()
      modifies this
      ensures items == []
    {
      items := [];
    }
  }
}
