/** Who is online: a set of users, each user's stored connection, each socket's user and each
    user's status, moved together by two MULTIs, and the reconnect and cleanup logic around them. */
module Presence {
  import opened Wrappers

  type User = nat
  type Socket = nat

  datatype Info = Info(socket: Socket, connectedAt: int)

  datatype State = State(
    online: set<User>,
    userSocket: map<User, Info>,
    socketUser: map<Socket, User>,
    status: map<User, bool>
  ) {
    /** addOnlineUser. */
    function Add(u: User, s: Socket, at: int): State {
      State(online + {u}, userSocket[u := Info(s, at)], socketUser[s := u], status[u := true])
    }

    /** removeOnlineUser. */
    function Remove(u: User, s: Socket): State {
      State(online - {u}, userSocket - {u}, socketUser - {s}, status[u := false])
    }

    /** The reconnect branch: only the old socket's own entry goes. */
    function ForgetSocket(s: Socket): State {
      this.(socketUser := socketUser - {s})
    }

    predicate Stale(u: User, now: int) {
      u in userSocket && userSocket[u].connectedAt < now - PERIOD
    }
  }

  const PERIOD := 5 * 60 * 1000
  const NOBODY := State({}, map[], map[], map[])

  // ---------------------------------------------------------------------------------------
  // Every interleaving of the commands
  // ---------------------------------------------------------------------------------------

  /** The writes the handlers issue, in any order, with arguments read at any earlier time. */
  datatype Write =
    | AddW(user: User, socket: Socket, at: int)
    | RemoveW(user: User, socket: Socket)
    | ForgetW(socket: Socket)

  function Apply(s: State, w: Write): State {
    match w
    case AddW(u, k, at) => s.Add(u, k, at)
    case RemoveW(u, k) => s.Remove(u, k)
    case ForgetW(k) => s.ForgetSocket(k)
  }

  function Written(ws: seq<Write>): State {
    if ws == [] then NOBODY else Apply(Written(ws[..|ws| - 1]), ws[|ws| - 1])
  }

  /** The three views of being online never disagree. */
  lemma {:induction false} ViewsAgree(ws: seq<Write>, u: User)
    ensures var s := Written(ws);
      && (u in s.online <==> u in s.userSocket)
      && (u in s.online <==> u in s.status && s.status[u])
    decreases |ws|
  {
    if ws != [] {
      ViewsAgree(ws[..|ws| - 1], u);
    }
  }

  // ---------------------------------------------------------------------------------------
  // Atomic handlers, with the sockets that are really open
  // ---------------------------------------------------------------------------------------

  datatype World = World(now: int, lastCleanup: int, live: map<Socket, User>, redis: State)

  datatype Event =
    | Connect(user: User, socket: Socket)
    | Disconnect(socket: Socket)
    | Cleanup
    | Wait(ms: nat)

  /** Socket ids are never reused while open, and the cleanup timer fires every five minutes. */
  predicate Enabled(w: World, e: Event) {
    match e
    case Connect(_, s) => s !in w.live
    case Disconnect(s) => s in w.live
    case Cleanup => true
    case Wait(ms) => w.now + ms <= w.lastCleanup + PERIOD
  }

  /** handleUserConnection: a different stored socket makes this a reconnect. */
  function Connected(r: State, u: User, s: Socket, now: int): State {
    if u in r.userSocket && r.userSocket[u].socket != s then r.ForgetSocket(r.userSocket[u].socket)
    else r.Add(u, s, now)
  }

  /** The sockets stored for these users. */
  function SocketsOf(r: State, us: set<User>): set<Socket> {
    set u | u in us && u in r.userSocket :: r.userSocket[u].socket
  }

  /** The store without these users and the sockets stored for them. */
  function Without(r: State, gone: set<User>): State {
    State(r.online - gone, r.userSocket - gone, r.socketUser - SocketsOf(r, gone),
          map u | u in r.status.Keys + gone :: if u in gone then false else r.status[u])
  }

  /** The cleanup job drops the online users with a stale entry. */
  function Swept(r: State, now: int): State {
    Without(r, set u | u in r.online && r.Stale(u, now))
  }

  function Next(w: World, e: Event): World
    requires Enabled(w, e)
  {
    match e
    case Connect(u, s) => w.(live := w.live[s := u], redis := Connected(w.redis, u, s, w.now))
    case Disconnect(s) => w.(live := w.live - {s}, redis := w.redis.Remove(w.live[s], s))
    case Cleanup => w.(lastCleanup := w.now, redis := Swept(w.redis, w.now))
    case Wait(ms) => w.(now := w.now + ms)
  }

  function After(es: seq<Event>): World {
    if es == [] then World(0, 0, map[], NOBODY)
    else
      var w, e := After(es[..|es| - 1]), es[|es| - 1];
      if Enabled(w, e) then Next(w, e) else w
  }

  ghost predicate Sound(w: World) {
    && w.redis.online == w.redis.userSocket.Keys
    && (forall u :: u in w.redis.online <==> u in w.redis.status && w.redis.status[u])
    && (forall u :: u in w.redis.userSocket ==>
          w.redis.userSocket[u].socket in w.live && w.live[w.redis.userSocket[u].socket] == u)
    && (forall s :: s in w.redis.socketUser ==> s in w.live && w.live[s] == w.redis.socketUser[s])
    && (forall u :: u in w.redis.userSocket ==> w.lastCleanup - PERIOD <= w.redis.userSocket[u].connectedAt <= w.now)
    && w.lastCleanup <= w.now <= w.lastCleanup + PERIOD
  }

  lemma SoundStep(w: World, e: Event)
    requires Sound(w) && Enabled(w, e)
    ensures Sound(Next(w, e))
  {
  }

  lemma {:induction false} SoundAlways(es: seq<Event>)
    ensures Sound(After(es))
    decreases |es|
  {
    if es != [] {
      var w, e := After(es[..|es| - 1]), es[|es| - 1];
      SoundAlways(es[..|es| - 1]);
      if Enabled(w, e) { SoundStep(w, e); }
    }
  }

  /** Both socket maps name only open sockets, each of its own user. */
  lemma MapsNameLiveSockets(es: seq<Event>, u: User, s: Socket)
    ensures var w := After(es);
      && (s in w.redis.socketUser && w.redis.socketUser[s] == u ==> s in w.live && w.live[s] == u)
      && (u in w.redis.userSocket && w.redis.userSocket[u].socket == s ==> s in w.live && w.live[s] == u)
  {
    SoundAlways(es);
  }

  /** No presence entry outlives its connectedAt by more than ten minutes. */
  lemma EntriesAreYoung(es: seq<Event>, u: User)
    requires u in After(es).redis.userSocket
    ensures After(es).now - After(es).redis.userSocket[u].connectedAt <= 2 * PERIOD
  {
    SoundAlways(es);
  }

  // ---------------------------------------------------------------------------------------
  // When the maps are exact inverses over the open sockets
  // ---------------------------------------------------------------------------------------

  ghost predicate Inverse(w: World) {
    && (forall u, s ::
          (s in w.live && w.live[s] == u) <==> (u in w.redis.userSocket && w.redis.userSocket[u].socket == s))
    && w.redis.socketUser == w.live
  }

  /** A connect finds no open socket of its user, and a sweep finds nobody stale. */
  predicate Calm(w: World, e: Event) {
    match e
    case Connect(u, _) => forall s :: s in w.live ==> w.live[s] != u
    case Cleanup => forall u :: u in w.redis.online ==> !w.redis.Stale(u, w.now)
    case _ => true
  }

  lemma CalmConnect(w: World, u: User, k: Socket)
    requires Sound(w) && Inverse(w) && k !in w.live
    ensures Inverse(Next(w, Connect(u, k))) <==> Calm(w, Connect(u, k))
  {
    if s :| s in w.live && w.live[s] == u {
      assert s !in Next(w, Connect(u, k)).redis.socketUser && s in Next(w, Connect(u, k)).live;
    }
  }

  lemma CalmDisconnect(w: World, k: Socket)
    requires Sound(w) && Inverse(w) && k in w.live
    ensures Inverse(Next(w, Disconnect(k)))
  {
    var u := w.live[k];
    assert u in w.redis.userSocket && w.redis.userSocket[u].socket == k;
    forall s | s in w.live && w.live[s] == u
      ensures s == k
    {
      assert w.redis.userSocket[u].socket == s;
    }
  }

  lemma CalmCleanup(w: World)
    requires Sound(w) && Inverse(w)
    ensures Inverse(Next(w, Cleanup)) <==> Calm(w, Cleanup)
  {
    if u :| u in w.redis.online && w.redis.Stale(u, w.now) {
      var s := w.redis.userSocket[u].socket;
      assert s in w.live && w.live[s] == u && u !in Swept(w.redis, w.now).userSocket;
    } else {
      assert Swept(w.redis, w.now).userSocket == w.redis.userSocket;
      assert Swept(w.redis, w.now).socketUser == w.redis.socketUser;
    }
  }

  lemma CalmStep(w: World, e: Event)
    requires Sound(w) && Inverse(w) && Enabled(w, e)
    ensures Inverse(Next(w, e)) <==> Calm(w, e)
  {
    match e
    case Connect(u, k) => CalmConnect(w, u, k);
    case Disconnect(k) => CalmDisconnect(w, k);
    case Cleanup => CalmCleanup(w);
    case Wait(_) =>
  }

  ghost predicate CalmRun(es: seq<Event>) {
    es == [] ||
    var w, e := After(es[..|es| - 1]), es[|es| - 1];
    CalmRun(es[..|es| - 1]) && (Enabled(w, e) ==> Calm(w, e))
  }

  ghost predicate InverseThroughout(es: seq<Event>) {
    Inverse(After(es)) && (es == [] || InverseThroughout(es[..|es| - 1]))
  }

  /** The two maps are exact inverses over the open sockets at every moment of a run exactly when
      the run is calm. */
  lemma {:induction false} InverseIffCalm(es: seq<Event>)
    ensures InverseThroughout(es) <==> CalmRun(es)
    decreases |es|
  {
    if es != [] {
      var w, e := After(es[..|es| - 1]), es[|es| - 1];
      InverseIffCalm(es[..|es| - 1]);
      SoundAlways(es[..|es| - 1]);
      if Inverse(w) && Enabled(w, e) {
        CalmStep(w, e);
      }
    }
  }

  // ---------------------------------------------------------------------------------------
  // What the sweep does to people who stay connected
  // ---------------------------------------------------------------------------------------

  /** When the socket was last opened. */
  function OpenedAt(es: seq<Event>, s: Socket): int {
    if es == [] then 0
    else
      var w, e := After(es[..|es| - 1]), es[|es| - 1];
      if Enabled(w, e) && e.Connect? && e.socket == s then w.now else OpenedAt(es[..|es| - 1], s)
  }

  /** At no moment does a user have two open sockets. */
  ghost predicate OneSocketEach(es: seq<Event>) {
    && (forall s, k :: s in After(es).live && k in After(es).live && After(es).live[s] == After(es).live[k] ==> s == k)
    && (es == [] || OneSocketEach(es[..|es| - 1]))
  }

  /** No other socket of the same user is open. */
  ghost predicate Alone(w: World, s: Socket)
    requires s in w.live
  {
    forall k :: k in w.live && w.live[k] == w.live[s] ==> k == s
  }

  /** Opened at t, the socket is in both maps exactly if the last sweep found it no more than five
      minutes old; otherwise neither it nor its user is. */
  ghost predicate Placed(w: World, s: Socket, t: int)
    requires s in w.live
  {
    var u, r := w.live[s], w.redis;
    if t >= w.lastCleanup - PERIOD then
      u in r.userSocket && r.userSocket[u] == Info(s, t) && s in r.socketUser && r.socketUser[s] == u
    else u !in r.userSocket && s !in r.socketUser
  }

  lemma PlacedOnConnect(w: World, u: User, s: Socket)
    requires Sound(w) && s !in w.live && Calm(w, Connect(u, s))
    ensures Placed(Next(w, Connect(u, s)), s, w.now)
  {
    assert u !in w.redis.userSocket;
  }

  lemma PlacedStep(w: World, e: Event, s: Socket, t: int)
    requires Sound(w) && Enabled(w, e) && s in w.live && s in Next(w, e).live
    requires Alone(w, s) && Alone(Next(w, e), s) && Placed(w, s, t) && t <= w.now
    ensures Placed(Next(w, e), s, t)
  {
    match e
    case Connect(u, k) => assert k in Next(w, e).live;
    case Disconnect(k) =>
    case Cleanup =>
    case Wait(_) =>
  }

  /** Where one open socket per user is the rule, an open socket and its user are in both maps, with
      the time the socket was opened, exactly if it was at most five minutes old at the last sweep. */
  lemma {:induction false} PresentIffYoungAtSweep(es: seq<Event>, s: Socket)
    requires OneSocketEach(es) && s in After(es).live
    ensures OpenedAt(es, s) <= After(es).now && Placed(After(es), s, OpenedAt(es, s))
    decreases |es|
  {
    var prev, e := es[..|es| - 1], es[|es| - 1];
    var w := After(prev);
    SoundAlways(prev);
    if s in w.live {
      PresentIffYoungAtSweep(prev, s);
      if Enabled(w, e) { PlacedStep(w, e, s, OpenedAt(prev, s)); }
    } else {
      assert forall k :: k in w.live ==> k in After(es).live;
      PlacedOnConnect(w, e.user, s);
    }
  }

  /** The sweep asks how old a connection is, not whether it is closed: it takes offline exactly the
      users whose open socket is more than five minutes old. */
  lemma SweepDropsTheConnected(es: seq<Event>, s: Socket)
    requires OneSocketEach(es) && s in After(es).live
    ensures var w := After(es); var w' := Next(w, Cleanup); var u := w.live[s];
      && s in w'.live && w'.live[s] == u
      && (u in w'.redis.online <==> OpenedAt(es, s) >= w.now - PERIOD)
  {
    PresentIffYoungAtSweep(es, s);
    SoundAlways(es);
  }

  /** What a reconnect does instead of replacing the stored socket: the old one stays stored, neither
      is in the socket map, and once the old one closes its user is offline with a socket open. */
  lemma ReconnectIsLost(es: seq<Event>, u: User, s: Socket)
    requires u in After(es).redis.userSocket && s !in After(es).live
    ensures var w := After(es); var old_ := w.redis.userSocket[u].socket; var w1 := Next(w, Connect(u, s));
      && w1.redis.userSocket == w.redis.userSocket
      && s !in w1.redis.socketUser && old_ !in w1.redis.socketUser
      && Enabled(w1, Disconnect(old_))
      && var w2 := Next(w1, Disconnect(old_));
         u !in w2.redis.online && s in w2.live && w2.live[s] == u
  {
    SoundAlways(es);
  }

  // ---------------------------------------------------------------------------------------
  // The service
  // ---------------------------------------------------------------------------------------

  class SocketAuthService {
    var online: set<User>
    var userSocket: map<User, Info>
    var socketUser: map<Socket, User>
    var status: map<User, bool>

    ghost function Model(): State
      reads this
    {
      State(online, userSocket, socketUser, status)
    }

    constructor ()
      ensures Model() == NOBODY
    {
      online, userSocket, socketUser, status := {}, map[], map[], map[];
    }

    method AddOnlineUser(u: User, s: Socket, now: int)
      modifies this
      ensures Model() == old(Model()).Add(u, s, now)
      ensures online == old(online) + {u} && userSocket == old(userSocket)[u := Info(s, now)]
      ensures socketUser == old(socketUser)[s := u] && status == old(status)[u := true]
    {
      online := online + {u};
      userSocket := userSocket[u := Info(s, now)];
      socketUser := socketUser[s := u];
      status := status[u := true];
    }

    method RemoveOnlineUser(u: User, s: Socket)
      modifies this
      ensures Model() == old(Model()).Remove(u, s)
      ensures online == old(online) - {u} && userSocket == old(userSocket) - {u}
      ensures socketUser == old(socketUser) - {s} && status == old(status)[u := false]
    {
      online := online - {u};
      userSocket := userSocket - {u};
      socketUser := socketUser - {s};
      status := status[u := false];
    }

    method HandleUserConnection(u: User, s: Socket, now: int) returns (replaced: Option<Socket>)
      modifies this
      ensures Model() == Connected(old(Model()), u, s, now)
      ensures replaced.Some? <==> u in old(userSocket) && old(userSocket)[u].socket != s
      ensures replaced.Some? ==> replaced.value == old(userSocket)[u].socket
    {
      if u in userSocket && userSocket[u].socket != s {
        replaced := Some(userSocket[u].socket);
        socketUser := socketUser - {replaced.value};
      } else {
        AddOnlineUser(u, s, now);
        replaced := None;
      }
    }

    /** The cleanup job's loop over the users it found online. */
    method CleanUp(now: int)
      modifies this
      ensures Model() == Swept(old(Model()), now)
      ensures forall u :: u in userSocket <==>
        u in old(userSocket) && !(u in old(online) && old(userSocket)[u].connectedAt < now - 5 * 60 * 1000)
      ensures forall u :: u in online <==>
        u in old(online) && !(u in old(userSocket) && old(userSocket)[u].connectedAt < now - 5 * 60 * 1000)
    {
      ghost var before := Model();
      var todo := online;
      ghost var done: set<User> := {};
      while todo != {}
        invariant todo !! done && todo + done == before.online
        invariant Model() == SweptAmong(before, done, now)
        decreases todo
      {
        var u :| u in todo;
        SweepOne(before, done, u, now);
        if u in userSocket && userSocket[u].connectedAt < now - PERIOD {
          RemoveOnlineUser(u, userSocket[u].socket);
        }
        todo, done := todo - {u}, done + {u};
      }
      assert (set u | u in before.online && before.Stale(u, now)) == StaleAmong(before, done, now);
    }
  }

  /** The store after the loop has handled the users in `done`. */
  ghost function SweptAmong(r: State, done: set<User>, now: int): State {
    Without(r, StaleAmong(r, done, now))
  }

  ghost function StaleAmong(r: State, done: set<User>, now: int): set<User> {
    set u | u in done && r.Stale(u, now)
  }

  lemma WithoutOneMore(r: State, gone: set<User>, u: User)
    requires u in r.userSocket
    ensures Without(r, gone + {u}) == Without(r, gone).Remove(u, r.userSocket[u].socket)
  {
    assert SocketsOf(r, gone + {u}) == SocketsOf(r, gone) + {r.userSocket[u].socket};
    assert (r.status.Keys + gone) + {u} == r.status.Keys + (gone + {u});
  }

  lemma SweepOne(r: State, done: set<User>, u: User, now: int)
    requires u !in done
    ensures SweptAmong(r, done + {u}, now) ==
      if r.Stale(u, now) then SweptAmong(r, done, now).Remove(u, r.userSocket[u].socket) else SweptAmong(r, done, now)
    ensures u in r.userSocket <==> u in SweptAmong(r, done, now).userSocket
    ensures u in r.userSocket ==> SweptAmong(r, done, now).userSocket[u] == r.userSocket[u]
  {
    var gone := StaleAmong(r, done, now);
    if r.Stale(u, now) {
      assert StaleAmong(r, done + {u}, now) == gone + {u};
      WithoutOneMore(r, gone, u);
    } else {
      assert StaleAmong(r, done + {u}, now) == gone;
    }
  }
}
