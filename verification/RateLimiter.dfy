/** The sliding-window rate limiters over one Redis sorted set: the NestJS guard, which sets a
    relative expiry, and the Express middleware, which sets an absolute one. */
module RateLimiter {
  import opened Redis
  import opened Wrappers

  /** A sorted-set member "now-random"; its score is the time stamp inside it. */
  datatype Member = Member(stamp: nat, nonce: nat)

  /** One request that reached Redis: the time its worker read, and the server time its MULTI ran. */
  datatype Request = Request(stamp: nat, nonce: nat, at: nat) {
    function Entry(): Member { Member(stamp, nonce) }
  }

  datatype Policy = Guard | Express

  datatype Options = Options(windowMs: nat, max: nat)

  /** How far a MULTI got: it ran and answered, it ran and its reply was lost, or it never ran. */
  datatype Reach = Answered | ReplyLost | NeverRan

  datatype Verdict = Admit(remaining: nat) | TooManyRequests

  /** The key's members and the instant it expires.  An empty set stands for a missing key. */
  datatype Window = Window(members: set<Member>, deadline: int) {
    function Live(now: int): set<Member> {
      if deadline <= now then {} else members
    }
  }

  const EMPTY := Window({}, 0)

  function Deadline(p: Policy, w: nat, r: Request): int {
    match p
    case Guard => r.at + 1000 * (CeilSeconds(w) + 1)
    case Express => 1000 * CeilSeconds(r.stamp + w)
  }

  /** The whole MULTI: prune, add, set the expiry.  An expiry already past deletes the key. */
  function Step(p: Policy, w: nat, k: Window, r: Request): Window {
    var kept := set m | m in k.Live(r.at) && !(0 <= m.stamp <= r.stamp - w);
    var deadline := Deadline(p, w, r);
    if deadline <= r.at then Window({}, deadline) else Window(kept + {r.Entry()}, deadline)
  }

  function Judge(count: nat, max: nat): Verdict {
    if count > max then TooManyRequests else Admit(max - count)
  }

  function After(p: Policy, w: nat, rs: seq<Request>): Window {
    if rs == [] then EMPTY else Step(p, w, After(p, w, rs[..|rs| - 1]), rs[|rs| - 1])
  }

  predicate Admitted(p: Policy, w: nat, max: nat, rs: seq<Request>, i: nat)
    requires i < |rs|
  {
    Judge(|After(p, w, rs[..i + 1]).members|, max).Admit?
  }

  // ---------------------------------------------------------------------------------------
  // The Redis commands and the two callers, as they run
  // ---------------------------------------------------------------------------------------

  class SortedSetKey {
    var members: set<Member>
    var expiry: Expiry

    ghost predicate Represents(k: Window, now: int)
      reads this
    {
      && members == k.Live(now)
      && (members != {} ==> expiry == At(k.deadline))
      && (members == {} ==> expiry == Never)
    }

    method ZRemRangeByScore(lo: int, hi: int)
      modifies this
      ensures members == set m | m in old(members) && !(lo <= m.stamp <= hi)
      ensures expiry == if members == {} then Never else old(expiry)
    {
      members := set m | m in members && !(lo <= m.stamp <= hi);
      if members == {} {
        expiry := Never;
      }
    }

    method ZAdd(m: Member)
      modifies this`members
      ensures members == old(members) + {m}
    {
      members := members + {m};
    }

    method ExpireAtMs(now: int, deadline: int)
      requires members != {}
      modifies this
      ensures deadline <= now ==> members == {} && expiry == Never
      ensures deadline > now ==> members == old(members) && expiry == At(deadline)
    {
      if deadline <= now {
        members, expiry := {}, Never;
      } else {
        expiry := At(deadline);
      }
    }

    method ZCard() returns (n: nat)
      ensures n == |members|
    {
      n := |members|;
    }
  }

  /** canActivate: no options, no client or no answer let the request through; a MULTI that ran
      without answering has still stored it. */
  method CanActivate(key: SortedSetKey, options: Option<Options>, reach: Reach, r: Request, ghost k: Window)
    returns (v: Verdict)
    requires key.Represents(k, r.at)
    modifies key
    ensures options.None? || reach.NeverRan? ==> unchanged(key)
    ensures options.None? || !reach.Answered? ==> v.Admit?
    ensures options.Some? && !reach.NeverRan? ==>
      var k' := Step(Guard, options.value.windowMs, k, r);
      && key.Represents(k', r.at)
      && (reach.Answered? ==>
            v == if |k'.members| > options.value.max then TooManyRequests
                 else Admit(options.value.max - |k'.members|))
  {
    if options.None? || reach.NeverRan? {
      return Admit(0);
    }
    var o := options.value;
    key.ZRemRangeByScore(0, r.stamp - o.windowMs);
    key.ZAdd(r.Entry());
    key.ExpireAtMs(r.at, r.at + 1000 * (CeilSeconds(o.windowMs) + 1));
    assert key.Represents(Step(Guard, o.windowMs, k, r), r.at);
    var count := key.ZCard();
    if reach.ReplyLost? {
      return Admit(0);
    }
    if count > o.max {
      return TooManyRequests;
    }
    return Admit(o.max - count);
  }

  /** checkRateLimit of the Express middleware: same commands, absolute expiry, fail open. */
  method CheckRateLimit(key: SortedSetKey, o: Options, reach: Reach, r: Request, ghost k: Window)
    returns (v: Verdict)
    requires key.Represents(k, r.at)
    modifies key
    ensures reach.NeverRan? ==> unchanged(key)
    ensures !reach.Answered? ==> v == Admit(o.max)
    ensures !reach.NeverRan? ==>
      var k' := Step(Express, o.windowMs, k, r);
      && key.Represents(k', r.at)
      && (reach.Answered? ==>
            v == if |k'.members| > o.max then TooManyRequests else Admit(o.max - |k'.members|))
  {
    if reach.NeverRan? {
      return Admit(o.max);
    }
    key.ZRemRangeByScore(0, r.stamp - o.windowMs);
    key.ZAdd(r.Entry());
    var deadline := 1000 * CeilSeconds(r.stamp + o.windowMs);
    assert deadline == Deadline(Express, o.windowMs, r);
    key.ExpireAtMs(r.at, deadline);
    assert key.Represents(Step(Express, o.windowMs, k, r), r.at);
    var count := key.ZCard();
    v := if reach.ReplyLost? then Admit(o.max) else Judge(count, o.max);
  }

  // ---------------------------------------------------------------------------------------
  // Traces
  // ---------------------------------------------------------------------------------------

  /** Every request's stamp is read at most d ms before its MULTI runs; the MULTIs are listed in
      the order Redis ran them; members never collide.  Stamps may be out of order. */
  ghost predicate Timely(rs: seq<Request>, d: nat) {
    && (forall i :: 0 <= i < |rs| ==> rs[i].stamp <= rs[i].at <= rs[i].stamp + d)
    && (forall i, j :: 0 <= i < j < |rs| ==> rs[i].at <= rs[j].at)
    && (forall i, j :: 0 <= i < j < |rs| ==> rs[i].Entry() != rs[j].Entry())
  }

  ghost predicate StampsMonotone(rs: seq<Request>) {
    forall i, j :: 0 <= i < j < |rs| ==> rs[i].stamp <= rs[j].stamp
  }

  lemma TracePrefix(rs: seq<Request>, d: nat, n: nat)
    requires Timely(rs, d) && n <= |rs|
    ensures Timely(rs[..n], d)
    ensures StampsMonotone(rs) ==> StampsMonotone(rs[..n])
  {
  }

  lemma DeadlineCoversWindow(p: Policy, w: nat, r: Request)
    requires r.stamp <= r.at
    ensures Deadline(p, w, r) >= r.stamp + w
  {
  }

  lemma LastDeadline(p: Policy, w: nat, rs: seq<Request>)
    requires rs != [] && rs[|rs| - 1].stamp <= rs[|rs| - 1].at
    ensures After(p, w, rs).deadline >= rs[|rs| - 1].stamp + w
  {
    DeadlineCoversWindow(p, w, rs[|rs| - 1]);
  }

  lemma StepKeeps(p: Policy, w: nat, rs: seq<Request>, m: Member)
    requires var last := |rs| - 1;
      && last > 0 && rs[last].stamp <= rs[last].at < rs[last].stamp + w && m.stamp > rs[last].stamp - w
      && rs[last - 1].stamp <= rs[last - 1].at && rs[last].at < rs[last - 1].stamp + w
    requires m in After(p, w, rs[..|rs| - 1]).members
    ensures m in After(p, w, rs).members
  {
    var last := |rs| - 1;
    assert rs[..last][last - 1] == rs[last - 1];
    LastDeadline(p, w, rs[..last]);
    DeadlineCoversWindow(p, w, rs[last]);
  }

  /** An entry outlives every later request that runs less than w - d ms after it, whatever the
      interleaving and whichever expiry the limiter sets. */
  lemma {:induction false} Survives(p: Policy, w: nat, d: nat, rs: seq<Request>, i: nat)
    requires Timely(rs, d) && i < |rs|
    requires rs[|rs| - 1].at - rs[i].at < w - d
    ensures rs[i].Entry() in After(p, w, rs).members
    decreases |rs|
  {
    var last := |rs| - 1;
    var prev := rs[..last];
    DeadlineCoversWindow(p, w, rs[last]);
    if i < last {
      Survives(p, w, d, prev, i);
      StepKeeps(p, w, rs, rs[i].Entry());
    }
  }

  function EntriesOf(rs: seq<Request>, picks: set<nat>): set<Member>
    requires forall i :: i in picks ==> i < |rs|
  {
    set i | i in picks :: rs[i].Entry()
  }

  lemma {:induction false} EntriesCount(rs: seq<Request>, d: nat, picks: set<nat>)
    requires Timely(rs, d) && forall i :: i in picks ==> i < |rs|
    ensures |EntriesOf(rs, picks)| == |picks|
    decreases |picks|
  {
    if picks != {} {
      var i :| i in picks;
      EntriesCount(rs, d, picks - {i});
      assert EntriesOf(rs, picks) == EntriesOf(rs, picks - {i}) + {rs[i].Entry()};
    }
  }

  lemma {:induction false} Greatest(picks: set<nat>) returns (m: nat)
    requires picks != {}
    ensures m in picks && forall i :: i in picks ==> i <= m
    decreases |picks|
  {
    m :| m in picks;
    if picks - {m} != {} {
      var first := m;
      var n := Greatest(picks - {first});
      m := if first < n then n else first;
      assert forall i :: i in picks ==> i == first || i in picks - {first};
    }
  }

  /** `picks` is a set of admitted requests that all ran within one real-time span shorter than len. */
  ghost predicate AdmittedWithin(p: Policy, w: nat, max: nat, rs: seq<Request>, picks: set<nat>, len: int) {
    && (forall i :: i in picks ==> i < |rs| && Admitted(p, w, max, rs, i))
    && (forall i, j :: i in picks && j in picks ==> rs[j].at - rs[i].at < len)
  }

  /** When request j runs, every request of the span up to it is still in the set. */
  lemma AllSurvive(p: Policy, w: nat, d: nat, rs: seq<Request>, picks: set<nat>, j: nat)
    requires Timely(rs, d) && j < |rs|
    requires forall i :: i in picks ==> i <= j && rs[j].at - rs[i].at < w - d
    ensures EntriesOf(rs, picks) <= After(p, w, rs[..j + 1]).members
  {
    var run := rs[..j + 1];
    TracePrefix(rs, d, j + 1);
    forall i | i in picks
      ensures rs[i].Entry() in After(p, w, run).members
    {
      assert run[i] == rs[i] && run[|run| - 1] == rs[j];
      Survives(p, w, d, run, i);
    }
  }

  lemma RealTimeBound(p: Policy, w: nat, d: nat, max: nat, rs: seq<Request>, picks: set<nat>)
    requires Timely(rs, d)
    requires AdmittedWithin(p, w, max, rs, picks, w - d)
    ensures |picks| <= max
  {
    if picks != {} {
      var j := Greatest(picks);
      AllSurvive(p, w, d, rs, picks, j);
      EntriesCount(rs, d, picks);
      SubsetCard(EntriesOf(rs, picks), After(p, w, rs[..j + 1]).members);
      assert Admitted(p, w, max, rs, j);
    }
  }

  lemma {:induction false} SubsetCard<T>(a: set<T>, b: set<T>)
    requires a <= b
    ensures |a| <= |b|
    decreases |a|
  {
    if a != {} {
      var x :| x in a;
      SubsetCard(a - {x}, b - {x});
    }
  }

  /** At most `max` admissions in every span shorter than len, on every run with delay up to d. */
  ghost predicate Bounds(p: Policy, w: nat, d: nat, len: int) {
    forall max: nat, rs: seq<Request>, picks: set<nat> ::
      Timely(rs, d) && AdmittedWithin(p, w, max, rs, picks, len) ==> |picks| <= max
  }

  /** The oldest stamp that delay d allows, then the first request that no longer sees it. */
  function TwoAtTheEdge(w: nat, d: nat): seq<Request> {
    [Request(0, 0, d), Request(w, 1, if d < w then w else d)]
  }

  lemma TwoSteps(p: Policy, w: nat, a: Request, b: Request)
    ensures After(p, w, [a, b][..1]) == Step(p, w, EMPTY, a)
    ensures After(p, w, [a, b][..2]) == Step(p, w, Step(p, w, EMPTY, a), b)
  {
    assert [a, b][..1] == [a] && [a][..0] == [] && [a, b][..2] == [a, b];
  }

  lemma AloneInWindow(p: Policy, w: nat, k: Window, r: Request)
    requires forall m :: m in k.members ==> m.stamp <= r.stamp - w
    ensures |Step(p, w, k, r).members| <= 1
  {
    SubsetCard(Step(p, w, k, r).members, {r.Entry()});
  }

  /** The second of two requests a window apart no longer sees the first. */
  lemma AloneTwice(p: Policy, w: nat, a: Request, b: Request)
    requires b.stamp >= a.stamp + w
    ensures |After(p, w, [a, b][..1]).members| <= 1 && |After(p, w, [a, b][..2]).members| <= 1
  {
    TwoSteps(p, w, a, b);
    AloneInWindow(p, w, EMPTY, a);
    AloneInWindow(p, w, Step(p, w, EMPTY, a), b);
  }

  lemma EdgeAdmitsBoth(p: Policy, w: nat, d: nat)
    ensures var rs := TwoAtTheEdge(w, d);
      Timely(rs, d) && Admitted(p, w, 1, rs, 0) && Admitted(p, w, 1, rs, 1)
  {
    var rs := TwoAtTheEdge(w, d);
    EdgeIsTimely(w, d);
    AloneTwice(p, w, rs[0], rs[1]);
  }

  lemma EdgeIsTimely(w: nat, d: nat)
    ensures Timely(TwoAtTheEdge(w, d), d)
  {
  }

  lemma BoundedUpTo(p: Policy, w: nat, d: nat, len: nat)
    requires len <= w - d
    ensures Bounds(p, w, d, len)
  {
    forall max: nat, rs, picks | Timely(rs, d) && AdmittedWithin(p, w, max, rs, picks, len)
      ensures |picks| <= max
    {
      RealTimeBound(p, w, d, max, rs, picks);
    }
  }

  lemma BothWithin(p: Policy, w: nat, d: nat, len: nat)
    requires len > 0 && len > w - d
    ensures AdmittedWithin(p, w, 1, TwoAtTheEdge(w, d), {0, 1}, len)
  {
    EdgeAdmitsBoth(p, w, d);
  }

  /** The guarantee is exactly w - d: no longer span is bounded, by either limiter. */
  lemma BoundIsExact(p: Policy, w: nat, d: nat, len: nat)
    requires len > 0
    ensures Bounds(p, w, d, len) <==> len <= w - d
  {
    if len <= w - d {
      BoundedUpTo(p, w, d, len);
    } else {
      var picks: set<nat> := {0, 1};
      EdgeIsTimely(w, d);
      BothWithin(p, w, d, len);
      assert |picks| == 2;
    }
  }

  lemma SameDeadline(p: Policy, w: nat, q: Request, r: Request)
    requires r.stamp == q.stamp && r.at == q.at
    ensures Deadline(p, w, r) == Deadline(p, w, q)
  {
  }

  lemma StepAgainAdds(p: Policy, w: nat, k: Window, q: Request, r: Request)
    requires w > 0 && r.stamp == q.stamp && r.at == q.at < Deadline(p, w, q)
    ensures Step(p, w, Step(p, w, k, q), r).members == Step(p, w, k, q).members + {r.Entry()}
  {
    SameDeadline(p, w, q, r);
  }

  lemma StepAgain(p: Policy, w: nat, k: Window, q: Request, r: Request)
    requires w > 0 && r.stamp == q.stamp && r.at == q.at < Deadline(p, w, q)
    requires r.Entry() !in Step(p, w, k, q).members
    ensures |Step(p, w, Step(p, w, k, q), r).members| == |Step(p, w, k, q).members| + 1
    ensures Deadline(p, w, r) == Deadline(p, w, q)
  {
    SameDeadline(p, w, q, r);
    StepAgainAdds(p, w, k, q, r);
  }

  lemma AfterSnoc(p: Policy, w: nat, rs: seq<Request>, n: nat)
    requires n < |rs|
    ensures After(p, w, rs[..n + 1]) == Step(p, w, After(p, w, rs[..n]), rs[n])
  {
    assert rs[..n + 1][..n] == rs[..n];
  }

  /** From request m on, the trace is a burst at one instant. */
  ghost predicate BurstFrom(p: Policy, w: nat, rs: seq<Request>, m: nat)
    requires m < |rs|
  {
    && rs[m].at < Deadline(p, w, rs[m])
    && forall i :: m <= i < |rs| ==> rs[i].stamp == rs[m].stamp && rs[i].at == rs[m].at
  }

  lemma EntryIsNew(p: Policy, w: nat, d: nat, rs: seq<Request>, i: nat)
    requires Timely(rs, d) && i < |rs|
    ensures rs[i].Entry() !in After(p, w, rs[..i]).members
  {
    if rs[i].Entry() in After(p, w, rs[..i]).members {
      MembersAreRequests(p, w, rs[..i], rs[i].Entry());
    }
  }

  lemma BurstStep(p: Policy, w: nat, d: nat, rs: seq<Request>, i: nat)
    requires w > 0 && Timely(rs, d) && 0 < i < |rs|
    requires rs[i].stamp == rs[i - 1].stamp && rs[i].at == rs[i - 1].at < Deadline(p, w, rs[i - 1])
    ensures |After(p, w, rs[..i + 1]).members| == |After(p, w, rs[..i]).members| + 1
  {
    EntryIsNew(p, w, d, rs, i);
    AfterSnoc(p, w, rs, i - 1);
    AfterSnoc(p, w, rs, i);
    StepAgain(p, w, After(p, w, rs[..i - 1]), rs[i - 1], rs[i]);
  }

  /** ZCARD's answer to each request. */
  function Counts(p: Policy, w: nat, rs: seq<Request>): (cs: seq<nat>)
    ensures |cs| == |rs| && forall i :: 0 <= i < |rs| ==> cs[i] == |After(p, w, rs[..i + 1]).members|
  {
    seq(|rs|, i requires 0 <= i < |rs| => |After(p, w, rs[..i + 1]).members|)
  }

  lemma {:induction false} CountUp(cs: seq<nat>, m: nat, i: nat)
    requires m <= i < |cs| && forall j :: m < j <= i ==> cs[j] == cs[j - 1] + 1
    ensures cs[i] == cs[m] + (i - m)
    decreases i
  {
    if m < i {
      CountUp(cs, m, i - 1);
    }
  }

  /** X-RateLimit-Remaining is honest: of the further requests at the same instant exactly the next
      `left` pass, each told one fewer, and all after them are refused. */
  lemma RemainingIsHonest(p: Policy, w: nat, d: nat, max: nat, rs: seq<Request>, m: nat, i: nat)
    requires w > 0 && Timely(rs, d) && m < i < |rs| && BurstFrom(p, w, rs, m)
    ensures Judge(Counts(p, w, rs)[i], max) ==
      match Judge(Counts(p, w, rs)[m], max)
      case Admit(left) => if i - m <= left then Admit(left - (i - m)) else TooManyRequests
      case TooManyRequests => TooManyRequests
  {
    var cs := Counts(p, w, rs);
    forall j | m < j <= i
      ensures cs[j] == cs[j - 1] + 1
    {
      SameDeadline(p, w, rs[m], rs[j - 1]);
      BurstStep(p, w, d, rs, j);
    }
    CountUp(cs, m, i);
  }

  // ---------------------------------------------------------------------------------------
  // No refusal without cause
  // ---------------------------------------------------------------------------------------

  /** The requests before i that ran less than len ms before it. */
  function Lately(rs: seq<Request>, i: nat, len: int): set<nat>
    requires i < |rs|
  {
    set k: nat | k < i && rs[i].at - rs[k].at < len
  }

  lemma NothingOldIsStored(p: Policy, w: nat, rs: seq<Request>, m: Member)
    requires |rs| > 0 && m in After(p, w, rs).members
    ensures m == rs[|rs| - 1].Entry() || m.stamp > rs[|rs| - 1].stamp - w
  {
  }

  lemma StoredIsLate(p: Policy, w: nat, d: nat, rs: seq<Request>, i: nat, m: Member)
    requires i < |rs| && Timely(rs, d) && m in After(p, w, rs[..i + 1]).members
    ensures m in EntriesOf(rs, Lately(rs, i, w + d) + {i})
  {
    MembersAreRequests(p, w, rs[..i + 1], m);
    NothingOldIsStored(p, w, rs[..i + 1], m);
    var k: nat :| k < i + 1 && rs[k].Entry() == m;
    assert rs[k].at <= rs[k].stamp + d && rs[i].stamp <= rs[i].at <= rs[i].stamp + d;
    assert k in Lately(rs, i, w + d) + {i};
  }

  lemma CountIsLate(p: Policy, w: nat, d: nat, rs: seq<Request>, i: nat)
    requires i < |rs| && Timely(rs, d)
    ensures |After(p, w, rs[..i + 1]).members| <= |Lately(rs, i, w + d)| + 1
  {
    var stored, late := After(p, w, rs[..i + 1]).members, Lately(rs, i, w + d);
    forall m | m in stored
      ensures m in EntriesOf(rs, late + {i})
    {
      StoredIsLate(p, w, d, rs, i, m);
    }
    SubsetCard(stored, EntriesOf(rs, late + {i}));
    EntriesCount(rs, d, late + {i});
    assert |late + {i}| == |late| + 1;
  }

  /** A refused request had at least `max` others in the window + d ms before it, in real time and
      with stamps in any order. */
  lemma RefusalIsEarned(p: Policy, w: nat, d: nat, max: nat, rs: seq<Request>, i: nat)
    requires Timely(rs, d) && i < |rs| && !Admitted(p, w, max, rs, i)
    ensures |Lately(rs, i, w + d)| >= max
  {
    CountIsLate(p, w, d, rs, i);
  }

  // ---------------------------------------------------------------------------------------
  // Refinement of the limiter that never forgets
  // ---------------------------------------------------------------------------------------

  /** Earlier requests, admitted or refused, inside the window that ends at request i. */
  function Recent(w: nat, rs: seq<Request>, i: nat): set<nat>
    requires i < |rs|
  {
    set k: nat | k < i && rs[k].stamp > rs[i].stamp - w
  }

  predicate NaiveAdmits(w: nat, max: nat, rs: seq<Request>, i: nat)
    requires i < |rs|
  {
    |Recent(w, rs, i)| < max
  }

  /** The most delay under which the expiry never hides an entry the naive limiter still counts. */
  function Slack(p: Policy): nat {
    match p
    case Guard => 1000
    case Express => 0
  }

  /** With in-order stamps and little delay, one step forgets exactly what left the window. */
  lemma StepForgetsExactly(p: Policy, w: nat, k: Window, q: Request, r: Request, m: Member)
    requires w > 0 && q.stamp <= r.stamp <= r.at <= r.stamp + Slack(p) && q.stamp <= q.at
    requires k.deadline == Deadline(p, w, q) && m.stamp <= q.stamp && m != r.Entry()
    ensures m in Step(p, w, k, r).members <==> m in k.members && m.stamp > r.stamp - w
  {
  }

  lemma {:induction false} HeldIffRecent(p: Policy, w: nat, d: nat, rs: seq<Request>, i: nat)
    requires w > 0 && d <= Slack(p) && i < |rs| && Timely(rs, d) && StampsMonotone(rs)
    ensures rs[i].Entry() in After(p, w, rs).members <==> i == |rs| - 1 || rs[i].stamp > rs[|rs| - 1].stamp - w
    decreases |rs|
  {
    var last := |rs| - 1;
    if i < last {
      var prev, q, r, m := rs[..last], rs[last - 1], rs[last], rs[i].Entry();
      TracePrefix(rs, d, last);
      HeldIffRecent(p, w, d, prev, i);
      var k := After(p, w, prev);
      assert k.deadline == Deadline(p, w, prev[last - 1]) && prev[last - 1] == q;
      assert m.stamp <= q.stamp <= r.stamp && m != r.Entry();
      StepForgetsExactly(p, w, k, q, r, m);
      assert m in After(p, w, rs).members <==> m in k.members && m.stamp > r.stamp - w;
    } else {
      DeadlineCoversWindow(p, w, rs[last]);
    }
  }

  lemma {:induction false} MembersAreRequests(p: Policy, w: nat, rs: seq<Request>, m: Member)
    requires m in After(p, w, rs).members
    ensures exists i :: 0 <= i < |rs| && rs[i].Entry() == m
    decreases |rs|
  {
    if m != rs[|rs| - 1].Entry() {
      var prev := rs[..|rs| - 1];
      MembersAreRequests(p, w, prev, m);
      var i :| 0 <= i < |prev| && prev[i].Entry() == m;
      assert rs[i].Entry() == m;
    }
  }

  lemma StoredIsRecent(p: Policy, w: nat, d: nat, rs: seq<Request>, m: Member)
    requires w > 0 && d <= Slack(p) && |rs| > 0 && Timely(rs, d) && StampsMonotone(rs)
    requires m in After(p, w, rs).members
    ensures m in EntriesOf(rs, Recent(w, rs, |rs| - 1) + {|rs| - 1})
  {
    MembersAreRequests(p, w, rs, m);
    var i: nat :| i < |rs| && rs[i].Entry() == m;
    HeldIffRecent(p, w, d, rs, i);
    assert i in Recent(w, rs, |rs| - 1) + {|rs| - 1};
  }

  lemma RecentIsStored(p: Policy, w: nat, d: nat, rs: seq<Request>, m: Member)
    requires w > 0 && d <= Slack(p) && |rs| > 0 && Timely(rs, d) && StampsMonotone(rs)
    requires m in EntriesOf(rs, Recent(w, rs, |rs| - 1) + {|rs| - 1})
    ensures m in After(p, w, rs).members
  {
    var i :| i in Recent(w, rs, |rs| - 1) + {|rs| - 1} && rs[i].Entry() == m;
    HeldIffRecent(p, w, d, rs, i);
  }

  lemma ContentsAreRecent(p: Policy, w: nat, d: nat, rs: seq<Request>)
    requires w > 0 && d <= Slack(p) && |rs| > 0 && Timely(rs, d) && StampsMonotone(rs)
    ensures After(p, w, rs).members == EntriesOf(rs, Recent(w, rs, |rs| - 1) + {|rs| - 1})
  {
    var stored, recent := After(p, w, rs).members, EntriesOf(rs, Recent(w, rs, |rs| - 1) + {|rs| - 1});
    forall m | m in stored
      ensures m in recent
    {
      StoredIsRecent(p, w, d, rs, m);
    }
    forall m | m in recent
      ensures m in stored
    {
      RecentIsStored(p, w, d, rs, m);
    }
  }

  lemma CountIsRecent(p: Policy, w: nat, d: nat, rs: seq<Request>)
    requires w > 0 && d <= Slack(p) && |rs| > 0 && Timely(rs, d) && StampsMonotone(rs)
    ensures |After(p, w, rs).members| == |Recent(w, rs, |rs| - 1)| + 1
  {
    var recent := Recent(w, rs, |rs| - 1);
    ContentsAreRecent(p, w, d, rs);
    EntriesCount(rs, d, recent + {|rs| - 1});
    assert |recent + {|rs| - 1}| == |recent| + 1;
  }

  lemma CountIsRecentAt(p: Policy, w: nat, d: nat, rs: seq<Request>, i: nat)
    requires w > 0 && d <= Slack(p) && i < |rs| && Timely(rs, d) && StampsMonotone(rs)
    ensures |After(p, w, rs[..i + 1]).members| == |Recent(w, rs, i)| + 1
  {
    TracePrefix(rs, d, i + 1);
    CountIsRecent(p, w, d, rs[..i + 1]);
    RecentPrefix(w, rs, i);
  }

  /** Both limiters decide as the naive one does. */
  lemma RefinesNaive(p: Policy, w: nat, d: nat, max: nat, rs: seq<Request>, i: nat)
    requires w > 0 && d <= Slack(p) && i < |rs| && Timely(rs, d) && StampsMonotone(rs)
    ensures Admitted(p, w, max, rs, i) <==> NaiveAdmits(w, max, rs, i)
  {
    CountIsRecentAt(p, w, d, rs, i);
  }

  lemma RecentPrefix(w: nat, rs: seq<Request>, i: nat)
    requires i < |rs|
    ensures Recent(w, rs[..i + 1], i) == Recent(w, rs, i)
  {
  }

  ghost predicate Refines(p: Policy, d: nat) {
    forall w: nat, max: nat, rs: seq<Request>, i: nat ::
      w > 0 && i < |rs| && Timely(rs, d) && StampsMonotone(rs) ==>
        (Admitted(p, w, max, rs, i) <==> NaiveAdmits(w, max, rs, i))
  }

  /** The second MULTI runs at the very instant the key expires, on a stamp still in the window. */
  function LateForgetter(p: Policy): seq<Request> {
    [Request(0, 0, 0), Request(999, 1, 1000 + Slack(p))]
  }

  lemma LateForgetterDisagrees(p: Policy, d: nat)
    requires d > Slack(p)
    ensures var rs := LateForgetter(p);
      && Timely(rs, d) && StampsMonotone(rs)
      && Admitted(p, 1000, 1, rs, 1) && !NaiveAdmits(1000, 1, rs, 1)
  {
    var rs := LateForgetter(p);
    LateForgetterIsTimely(p, d);
    LateForgetterForgets(p);
    assert Recent(1000, rs, 1) == {0};
  }

  lemma LateForgetterIsTimely(p: Policy, d: nat)
    requires d > Slack(p)
    ensures Timely(LateForgetter(p), d) && StampsMonotone(LateForgetter(p))
  {
  }

  lemma LateForgetterForgets(p: Policy)
    ensures |After(p, 1000, LateForgetter(p)[..2]).members| <= 1
  {
    var rs := LateForgetter(p);
    TwoSteps(p, 1000, rs[0], rs[1]);
    var k := Step(p, 1000, EMPTY, rs[0]);
    assert k.deadline <= rs[1].at;
    SubsetCard(Step(p, 1000, k, rs[1]).members, {rs[1].Entry()});
  }

  lemma RefinementIsExact(p: Policy, d: nat)
    ensures Refines(p, d) <==> d <= Slack(p)
  {
    if d <= Slack(p) {
      forall w: nat, max: nat, rs, i: nat | w > 0 && i < |rs| && Timely(rs, d) && StampsMonotone(rs)
        ensures Admitted(p, w, max, rs, i) <==> NaiveAdmits(w, max, rs, i)
      {
        RefinesNaive(p, w, d, max, rs, i);
      }
    } else {
      var rs := LateForgetter(p);
      LateForgetterDisagrees(p, d);
      assert NaiveAdmits(1000, 1, rs, 1) != Admitted(p, 1000, 1, rs, 1);
    }
  }

  /** With no delay the two implementations agree on every request of every trace. */
  lemma ImplementationsAgree(w: nat, max: nat, rs: seq<Request>, i: nat)
    requires w > 0 && i < |rs| && Timely(rs, 0)
    ensures Admitted(Guard, w, max, rs, i) <==> Admitted(Express, w, max, rs, i)
  {
    RefinesNaive(Guard, w, 0, max, rs, i);
    RefinesNaive(Express, w, 0, max, rs, i);
  }

  /** Both decide alike on every run with in-order stamps and delay up to d. */
  ghost predicate Agree(d: nat) {
    forall w: nat, max: nat, rs: seq<Request>, i: nat ::
      w > 0 && i < |rs| && Timely(rs, d) && StampsMonotone(rs) ==>
        (Admitted(Guard, w, max, rs, i) <==> Admitted(Express, w, max, rs, i))
  }

  /** A millisecond of delay is enough to tell them apart. */
  lemma AgreementIsExact(d: nat)
    ensures Agree(d) <==> d == 0
  {
    if d == 0 {
      forall w: nat, max: nat, rs, i: nat | w > 0 && i < |rs| && Timely(rs, 0) && StampsMonotone(rs)
        ensures Admitted(Guard, w, max, rs, i) <==> Admitted(Express, w, max, rs, i)
      {
        ImplementationsAgree(w, max, rs, i);
      }
    } else {
      var rs := LateForgetter(Express);
      LateForgetterDisagrees(Express, 1);
      RefinesNaive(Guard, 1000, 1, 1, rs, 1);
      assert Timely(rs, d) by { assert Timely(rs, 1); }
      assert Admitted(Guard, 1000, 1, rs, 1) != Admitted(Express, 1000, 1, rs, 1);
    }
  }
}
