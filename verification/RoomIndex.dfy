/** The two-way room index kept for chat, task and group rooms: which rooms a user joined and which
    users a room holds.  Joining and leaving are single MULTIs; removing a user from every room is
    a read followed, later, by a MULTI over what was read. */
module RoomIndex {
  type User = nat
  type Room = nat
  type Pair = (User, Room)

  /** byUser holds (u, r) when r is in u's key; byRoom holds it when u is in r's key. */
  datatype Index = Index(byUser: set<Pair>, byRoom: set<Pair>) {
    function Rooms(u: User): set<Room> {
      set p | p in byUser && p.0 == u :: p.1
    }

    function Add(u: User, r: Room): Index {
      Index(byUser + {(u, r)}, byRoom + {(u, r)})
    }

    function Drop(u: User, r: Room): Index {
      Index(byUser - {(u, r)}, byRoom - {(u, r)})
    }

    /** The removal's MULTI: srem from each room that was read, then del of the user's key. */
    function Purge(u: User, rooms: set<Room>): Index {
      if rooms == {} then this
      else Index(set p | p in byUser && p.0 != u, set p | p in byRoom && !(p.0 == u && p.1 in rooms))
    }

    /** The user's key reaches its TTL. */
    function Forget(u: User): Index {
      this.(byUser := set p | p in byUser && p.0 != u)
    }
  }

  /** Purge(read) is the second half of the removal whose read is event number `read`. */
  datatype Event =
    | Join(user: User, room: Room)
    | Leave(user: User, room: Room)
    | ReadRooms(user: User)
    | Purge(read: nat)
    | Expire(user: User)

  function After(t: seq<Event>): Index
    decreases |t|
  {
    if t == [] then Index({}, {})
    else
      var last := |t| - 1;
      var ix := After(t[..last]);
      match t[last]
      case Join(u, r) => ix.Add(u, r)
      case Leave(u, r) => ix.Drop(u, r)
      case ReadRooms(_) => ix
      case Purge(k) => if k < last && t[k].ReadRooms? then ix.Purge(t[k].user, After(t[..k]).Rooms(t[k].user)) else ix
      case Expire(u) => ix.Forget(u)
  }

  /** Event c is the write of a removal of u that had found at least one room. */
  predicate Purges(t: seq<Event>, c: nat, u: User)
    requires c < |t|
  {
    t[c].Purge? && t[c].read < c && t[t[c].read] == ReadRooms(u) && After(t[..t[c].read]).Rooms(u) != {}
  }

  /** Event c deletes u's own key. */
  predicate Clears(t: seq<Event>, c: nat, u: User)
    requires c < |t|
  {
    t[c] == Expire(u) || Purges(t, c, u)
  }

  /** Event c takes u out of r's key. */
  predicate Ends(t: seq<Event>, c: nat, u: User, r: Room)
    requires c < |t|
  {
    t[c] == Leave(u, r) || (Purges(t, c, u) && r in After(t[..t[c].read]).Rooms(u))
  }

  lemma PrefixAgrees(t: seq<Event>, n: nat, c: nat, u: User, r: Room)
    requires c < n <= |t|
    ensures Clears(t[..n], c, u) == Clears(t, c, u) && Ends(t[..n], c, u, r) == Ends(t, c, u, r)
  {
    if t[c].Purge? && t[c].read < c {
      assert t[..n][..t[c].read] == t[..t[c].read];
    }
  }

  /** The join at j is the last one and u has stayed in r's key since. */
  ghost predicate HeldByRoom(t: seq<Event>, j: nat, u: User, r: Room) {
    && j < |t| && t[j] == Join(u, r)
    && forall i :: j < i < |t| ==> t[i] != Join(u, r) && !Ends(t, i, u, r)
  }

  ghost predicate HeldByUser(t: seq<Event>, j: nat, u: User, r: Room) {
    && j < |t| && t[j] == Join(u, r)
    && forall i :: j < i < |t| ==> t[i] != Leave(u, r) && !Clears(t, i, u)
  }

  /** How the last event moves one pair. */
  lemma LastEvent(t: seq<Event>, u: User, r: Room)
    requires t != []
    ensures var c, before, now := |t| - 1, After(t[..|t| - 1]), After(t);
      && ((u, r) in now.byUser <==>
            t[c] == Join(u, r) || ((u, r) in before.byUser && t[c] != Leave(u, r) && !Clears(t, c, u)))
      && ((u, r) in now.byRoom <==> t[c] == Join(u, r) || ((u, r) in before.byRoom && !Ends(t, c, u, r)))
  {
  }

  lemma {:induction false} UserKeyIff(t: seq<Event>, u: User, r: Room)
    ensures (u, r) in After(t).byUser <==> exists j: nat :: HeldByUser(t, j, u, r)
    decreases |t|
  {
    if t != [] {
      var c := |t| - 1;
      var prev := t[..c];
      LastEvent(t, u, r);
      UserKeyIff(prev, u, r);
      forall i: nat | i < c
        ensures prev[i] == t[i] && Clears(prev, i, u) == Clears(t, i, u)
      {
        PrefixAgrees(t, c, i, u, r);
      }
      if t[c] == Join(u, r) {
        assert HeldByUser(t, c, u, r);
      } else {
        forall j: nat
          ensures HeldByUser(t, j, u, r) <==> HeldByUser(prev, j, u, r) && t[c] != Leave(u, r) && !Clears(t, c, u)
        {
        }
      }
    }
  }

  lemma {:induction false} RoomKeyIff(t: seq<Event>, u: User, r: Room)
    ensures (u, r) in After(t).byRoom <==> exists j: nat :: HeldByRoom(t, j, u, r)
    decreases |t|
  {
    if t != [] {
      var c := |t| - 1;
      var prev := t[..c];
      LastEvent(t, u, r);
      RoomKeyIff(prev, u, r);
      forall i: nat | i < c
        ensures prev[i] == t[i] && Ends(prev, i, u, r) == Ends(t, i, u, r)
      {
        PrefixAgrees(t, c, i, u, r);
      }
      if t[c] == Join(u, r) {
        assert HeldByRoom(t, c, u, r);
      } else {
        forall j: nat
          ensures HeldByRoom(t, j, u, r) <==> HeldByRoom(prev, j, u, r) && !Ends(t, c, u, r)
        {
        }
      }
    }
  }

  // ---------------------------------------------------------------------------------------
  // What always holds, and exactly what does not
  // ---------------------------------------------------------------------------------------

  /** A room listed for a user lists that user, under every interleaving. */
  lemma {:induction false} UserSideIsContained(t: seq<Event>)
    ensures After(t).byUser <= After(t).byRoom
    decreases |t|
  {
    if t != [] {
      UserSideIsContained(t[..|t| - 1]);
      forall p | p in After(t).byUser
        ensures p in After(t).byRoom
      {
        LastEvent(t, p.0, p.1);
      }
    }
  }

  /** The pair was joined at j and then lost its user side only: to an expiry, or to a removal
      that had read the user's rooms before j. */
  ghost predicate Stranded(t: seq<Event>, j: nat, c: nat, u: User, r: Room) {
    && HeldByRoom(t, j, u, r)
    && j < c < |t| && Clears(t, c, u)
    && (t[c].Expire? || t[c].read < j)
  }

  lemma {:induction false} FirstClear(t: seq<Event>, j: nat, c: nat, u: User) returns (f: nat)
    requires j < c < |t| && Clears(t, c, u)
    ensures j < f <= c && Clears(t, f, u) && forall i :: j < i < f ==> !Clears(t, i, u)
    decreases c
  {
    if i: nat :| j < i < c && Clears(t, i, u) {
      f := FirstClear(t, j, i, u);
    } else {
      f := c;
    }
  }

  lemma StrandedLosesUserSide(t: seq<Event>, j: nat, c: nat, i: nat, u: User, r: Room)
    requires Stranded(t, j, c, u, r)
    ensures !HeldByUser(t, i, u, r)
  {
  }

  /** The room side overstates the user side exactly for stranded pairs. */
  lemma OrphansAreStranded(t: seq<Event>, u: User, r: Room)
    ensures (u, r) in After(t).byRoom - After(t).byUser <==> exists j: nat, c: nat :: Stranded(t, j, c, u, r)
  {
    UserKeyIff(t, u, r);
    RoomKeyIff(t, u, r);
    if (u, r) in After(t).byRoom && (u, r) !in After(t).byUser {
      var j: nat :| HeldByRoom(t, j, u, r);
      assert !HeldByUser(t, j, u, r);
      var c0 :| j < c0 < |t| && Clears(t, c0, u);
      var c := FirstClear(t, j, c0, u);
      if !t[c].Expire? && t[c].read > j {
        assert forall i :: j < i < c ==> !Ends(t, i, u, r);
        ReadSawThePair(t, j, c, u, r);
        assert false;
      }
      assert Stranded(t, j, c, u, r);
    }
    if j: nat, c: nat :| Stranded(t, j, c, u, r) {
      forall i: nat {
        StrandedLosesUserSide(t, j, c, i, u, r);
      }
    }
  }

  /** A removal that reads after the join, with nothing cleared in between, removes the pair. */
  lemma ReadSawThePair(t: seq<Event>, j: nat, c: nat, u: User, r: Room)
    requires j < c < |t| && t[j] == Join(u, r) && Purges(t, c, u) && j < t[c].read
    requires forall i :: j < i < c ==> t[i] != Leave(u, r) && !Clears(t, i, u)
    ensures Ends(t, c, u, r)
  {
    var k := t[c].read;
    var seen := t[..k];
    forall i: nat | j < i < k
      ensures seen[i] != Leave(u, r) && !Clears(seen, i, u)
    {
      PrefixAgrees(t, k, i, u, r);
    }
    assert HeldByUser(seen, j, u, r);
    UserKeyIff(seen, u, r);
    assert (u, r) in After(seen).byUser;
  }

  /** No key expires, and nobody joins a room while a removal of theirs is half done. */
  ghost predicate NoOverlap(t: seq<Event>) {
    && (forall c :: 0 <= c < |t| ==> !t[c].Expire?)
    && (forall c, j :: 0 <= c < |t| && t[c].Purge? && t[c].read < j < c && t[t[c].read].ReadRooms? && t[j].Join?
          ==> t[j].user != t[t[c].read].user)
  }

  /** Then the two maps are exact inverses, so a query on either side gives the same answer. */
  lemma ExactInverses(t: seq<Event>)
    requires NoOverlap(t)
    ensures After(t).byUser == After(t).byRoom
  {
    UserSideIsContained(t);
    forall p | p in After(t).byRoom
      ensures p in After(t).byUser
    {
      OrphansAreStranded(t, p.0, p.1);
    }
  }

  /** Where the maps are inverses, removing a user from every room leaves them in none; a stranded
      pair, though, no removal ever finds. */
  lemma RemovalCleansAllButStranded(ix: Index, u: User, r: Room)
    ensures ix.byUser == ix.byRoom ==> (u, r) !in ix.Purge(u, ix.Rooms(u)).byRoom
    ensures (u, r) in ix.byRoom - ix.byUser ==> (u, r) in ix.Purge(u, ix.Rooms(u)).byRoom
  {
    assert (u, r) in ix.byUser <==> r in ix.Rooms(u);
  }

  // ---------------------------------------------------------------------------------------
  // The service, over the stored keys
  // ---------------------------------------------------------------------------------------

  class SocketRoomService {
    var userRooms: map<User, set<Room>>
    var roomUsers: map<Room, set<User>>

    ghost predicate Represents(ix: Index)
      reads this
    {
      forall u, r ::
        && ((u, r) in ix.byUser <==> u in userRooms && r in userRooms[u])
        && ((u, r) in ix.byRoom <==> r in roomUsers && u in roomUsers[r])
    }

    constructor ()
      ensures Represents(Index({}, {}))
    {
      userRooms, roomUsers := map[], map[];
    }

    method SAddUser(r: Room, u: User)
      modifies this`roomUsers
      ensures roomUsers == old(roomUsers)[r := (if r in old(roomUsers) then old(roomUsers)[r] else {}) + {u}]
    {
      roomUsers := roomUsers[r := (if r in roomUsers then roomUsers[r] else {}) + {u}];
    }

    method SRemUser(r: Room, u: User)
      modifies this`roomUsers
      ensures roomUsers == if r in old(roomUsers) then old(roomUsers)[r := old(roomUsers)[r] - {u}] else old(roomUsers)
    {
      if r in roomUsers {
        roomUsers := roomUsers[r := roomUsers[r] - {u}];
      }
    }

    method JoinRoom(u: User, r: Room, ghost ix: Index)
      requires Represents(ix)
      modifies this
      ensures Represents(ix.Add(u, r))
    {
      userRooms := userRooms[u := (if u in userRooms then userRooms[u] else {}) + {r}];
      SAddUser(r, u);
    }

    method LeaveRoom(u: User, r: Room, ghost ix: Index)
      requires Represents(ix)
      modifies this
      ensures Represents(ix.Drop(u, r))
    {
      if u in userRooms {
        userRooms := userRooms[u := userRooms[u] - {r}];
      }
      SRemUser(r, u);
    }

    /** isUserInRoom looks at the room's key. */
    method IsUserInRoom(u: User, r: Room, ghost ix: Index) returns (b: bool)
      requires Represents(ix)
      ensures b <==> (u, r) in ix.byRoom
    {
      b := r in roomUsers && u in roomUsers[r];
    }

    /** isUserInTaskRoom and isUserInGroupRoom look at the user's key. */
    method IsUserInTaskRoom(u: User, r: Room, ghost ix: Index) returns (b: bool)
      requires Represents(ix)
      ensures b <==> (u, r) in ix.byUser
    {
      b := u in userRooms && r in userRooms[u];
    }

    method GetUserRooms(u: User, ghost ix: Index) returns (rooms: set<Room>)
      requires Represents(ix)
      ensures rooms == ix.Rooms(u)
    {
      rooms := if u in userRooms then userRooms[u] else {};
      assert forall r :: r in rooms ==> (u, r) in ix.byUser;
    }

    /** The removal's second half, over rooms read earlier; the index may have moved since. */
    method PurgeRooms(u: User, rooms: set<Room>, ghost ix: Index)
      requires Represents(ix)
      modifies this
      ensures Represents(ix.Purge(u, rooms))
    {
      if rooms == {} {
        return;
      }
      var todo := rooms;
      while todo != {}
        invariant todo <= rooms
        invariant userRooms == old(userRooms)
        invariant forall v, r ::
          (r in roomUsers && v in roomUsers[r]) <==> (v, r) in ix.byRoom && !(v == u && r in rooms - todo)
        decreases todo
      {
        var r :| r in todo;
        SRemUser(r, u);
        todo := todo - {r};
      }
      userRooms := userRooms - {u};
    }

    method RemoveUserFromAllRooms(u: User, ghost ix: Index)
      requires Represents(ix)
      modifies this
      ensures Represents(ix.Purge(u, ix.Rooms(u)))
    {
      var rooms := GetUserRooms(u, ix);
      PurgeRooms(u, rooms, ix);
    }
  }

  /** removeOnlineUser of the Express state manager: the three room kinds, one after the other. */
  method RemoveUserEverywhere(chats: SocketRoomService, tasks: SocketRoomService, groups: SocketRoomService,
                              u: User, ghost c: Index, ghost t: Index, ghost g: Index)
    requires chats != tasks && chats != groups && tasks != groups
    requires chats.Represents(c) && tasks.Represents(t) && groups.Represents(g)
    modifies chats, tasks, groups
    ensures chats.Represents(c.Purge(u, c.Rooms(u)))
    ensures tasks.Represents(t.Purge(u, t.Rooms(u)))
    ensures groups.Represents(g.Purge(u, g.Rooms(u)))
  {
    chats.RemoveUserFromAllRooms(u, c);
    tasks.RemoveUserFromAllRooms(u, t);
    groups.RemoveUserFromAllRooms(u, g);
  }
}
