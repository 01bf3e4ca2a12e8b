/** Refresh-token rotation: signed tokens that expire by themselves, and a Redis blacklist whose
    entries must outlast them. */
module TokenRotation {
  import opened Wrappers

  type UserId = nat

  /** The signed payload fields besides the id (email and role), as one value. */
  type Profile = nat

  datatype User = User(profile: Profile, deleted: bool)

  /** A refresh token is its payload and its two times, in seconds; nothing else makes it unique. */
  datatype Token = Token(user: UserId, profile: Profile, iat: nat, exp: nat)

  const TTL_S := 7 * 24 * 60 * 60

  /** chains lists, per login, the tokens handed out in exchange for one another; exchanged lists
      the tokens given in, oldest first. */
  datatype State = State(
    now: nat,
    users: map<UserId, User>,
    blacklist: map<Token, int>,
    chains: seq<seq<Token>>,
    exchanged: seq<Token>
  ) {
    predicate Blacklisted(t: Token) {
      t in blacklist && now < blacklist[t]
    }

    /** jwt verification: the signature is one of ours and exp is still ahead. */
    predicate Issued(t: Token) {
      exists i :: 0 <= i < |chains| && t in chains[i]
    }

    predicate Expired(t: Token) {
      now / 1000 >= t.exp
    }

    predicate Live(t: Token) {
      !Blacklisted(t) && !Expired(t)
    }

    predicate CanRefresh(t: Token) {
      Live(t) && Issued(t) && t.user in users && !users[t.user].deleted
    }

    function Sign(u: UserId): Token
      requires u in users
    {
      Token(u, users[u].profile, now / 1000, now / 1000 + TTL_S)
    }

    function Revoke(t: Token): State {
      this.(blacklist := blacklist[t := now + TTL_S * 1000])
    }

    function Extend(t: Token, t': Token): seq<seq<Token>> {
      seq(|chains|, i requires 0 <= i < |chains| =>
        if chains[i] != [] && chains[i][|chains[i]| - 1] == t then chains[i] + [t'] else chains[i])
    }
  }

  datatype Op =
    | Login(user: UserId)
    | Refresh(token: Token)
    | Logout(token: Token)
    | SetUser(user: UserId, record: User)
    | Wait(ms: nat)

  /** Each call is atomic.  A string that is not an issued token never matches one, so logging it
      out changes nothing here. */
  function Step(s: State, op: Op): State {
    match op
    case Login(u) =>
      if u in s.users && !s.users[u].deleted then s.(chains := s.chains + [[s.Sign(u)]]) else s
    case Refresh(t) =>
      if s.CanRefresh(t) then
        s.Revoke(t).(chains := s.Extend(t, s.Sign(t.user)), exchanged := s.exchanged + [t])
      else s
    case Logout(t) => if s.Issued(t) then s.Revoke(t) else s
    case SetUser(u, r) => s.(users := s.users[u := r])
    case Wait(ms) => s.(now := s.now + ms)
  }

  function After(s: State, ops: seq<Op>): State {
    if ops == [] then s else Step(After(s, ops[..|ops| - 1]), ops[|ops| - 1])
  }

  const START := State(0, map[], map[], [], [])

  // ---------------------------------------------------------------------------------------
  // Invariants
  // ---------------------------------------------------------------------------------------

  /** Blacklisted until after its own exp. */
  predicate Dead(s: State, t: Token) {
    t in s.blacklist && s.blacklist[t] >= 1000 * t.exp
  }

  ghost predicate WellTimed(s: State) {
    forall i, t :: 0 <= i < |s.chains| && t in s.chains[i] ==> 1000 * t.iat <= s.now && t.exp == t.iat + TTL_S
  }

  ghost predicate Rotated(s: State) {
    && (forall i :: 0 <= i < |s.chains| ==> s.chains[i] != [])
    && (forall i, j :: 0 <= i < |s.chains| && 0 <= j < |s.chains[i]| - 1 ==> Dead(s, s.chains[i][j]))
    && (forall k :: 0 <= k < |s.exchanged| ==> Dead(s, s.exchanged[k]))
    && (forall j, k :: 0 <= j < k < |s.exchanged| ==> s.exchanged[j] != s.exchanged[k])
    && (forall t :: t in s.blacklist ==> Dead(s, t))
  }

  lemma DeadIsNotLive(s: State, t: Token)
    requires Dead(s, t)
    ensures !s.Live(t)
  {
  }

  lemma TimedStep(s: State, op: Op)
    requires WellTimed(s)
    ensures WellTimed(Step(s, op))
  {
    match op
    case Login(u) =>
      if u in s.users { assert 1000 * (s.now / 1000) <= s.now; }
    case Refresh(t) =>
      if s.CanRefresh(t) {
        assert 1000 * (s.now / 1000) <= s.now;
        var s' := Step(s, op);
        forall i, x | 0 <= i < |s'.chains| && x in s'.chains[i]
          ensures 1000 * x.iat <= s'.now && x.exp == x.iat + TTL_S
        {
          assert x in s.chains[i] || x == s.Sign(t.user);
        }
      }
    case _ =>
  }

  lemma RevokedIsDead(s: State, t: Token)
    requires WellTimed(s) && s.Issued(t)
    ensures Dead(s.Revoke(t), t)
  {
    var i :| 0 <= i < |s.chains| && t in s.chains[i];
  }

  /** What is dead stays dead. */
  lemma DeadStep(s: State, op: Op, t: Token)
    requires WellTimed(s) && Dead(s, t)
    ensures Dead(Step(s, op), t)
  {
    match op
    case Refresh(x) => if s.CanRefresh(x) { RevokedIsDead(s, x); }
    case Logout(x) => if s.Issued(x) { RevokedIsDead(s, x); }
    case _ =>
  }

  lemma RotatedRefresh(s: State, t: Token)
    requires WellTimed(s) && Rotated(s) && s.CanRefresh(t)
    ensures Rotated(Step(s, Refresh(t)))
  {
    var s' := Step(s, Refresh(t));
    RevokedIsDead(s, t);
    forall x | Dead(s, x)
      ensures Dead(s', x)
    {
      DeadStep(s, Refresh(t), x);
    }
    forall k | 0 <= k < |s.exchanged|
      ensures s.exchanged[k] != t
    {
      DeadIsNotLive(s, s.exchanged[k]);
    }
  }

  lemma RotatedLogout(s: State, t: Token)
    requires WellTimed(s) && Rotated(s) && s.Issued(t)
    ensures Rotated(Step(s, Logout(t)))
  {
    RevokedIsDead(s, t);
    forall x | Dead(s, x)
      ensures Dead(Step(s, Logout(t)), x)
    {
      DeadStep(s, Logout(t), x);
    }
  }

  lemma RotatedStep(s: State, op: Op)
    requires WellTimed(s) && Rotated(s)
    ensures Rotated(Step(s, op))
  {
    match op
    case Refresh(t) => if s.CanRefresh(t) { RotatedRefresh(s, t); }
    case Logout(t) => if s.Issued(t) { RotatedLogout(s, t); }
    case _ =>
  }

  lemma {:induction false} Invariant(ops: seq<Op>)
    ensures WellTimed(After(START, ops)) && Rotated(After(START, ops))
    decreases |ops|
  {
    if ops != [] {
      Invariant(ops[..|ops| - 1]);
      TimedStep(After(START, ops[..|ops| - 1]), ops[|ops| - 1]);
      RotatedStep(After(START, ops[..|ops| - 1]), ops[|ops| - 1]);
    }
  }

  // ---------------------------------------------------------------------------------------
  // Guarantees over every run
  // ---------------------------------------------------------------------------------------

  /** Of a login's whole chain only the newest token can be live. */
  lemma OnlyNewestIsLive(ops: seq<Op>, i: nat, j: nat)
    requires var s := After(START, ops); i < |s.chains| && j < |s.chains[i]| && s.Live(s.chains[i][j])
    ensures var s := After(START, ops); j == |s.chains[i]| - 1
  {
    var s := After(START, ops);
    Invariant(ops);
    if j < |s.chains[i]| - 1 {
      DeadIsNotLive(s, s.chains[i][j]);
    }
  }

  lemma NoTokenExchangedTwice(ops: seq<Op>, j: nat, k: nat)
    requires var s := After(START, ops); j < |s.exchanged| && k < |s.exchanged| && s.exchanged[j] == s.exchanged[k]
    ensures j == k
  {
    Invariant(ops);
  }

  /** A blacklist entry is still there whenever its token has not expired by itself. */
  lemma BlacklistOutlivesToken(ops: seq<Op>, t: Token)
    requires t in After(START, ops).blacklist
    ensures var s := After(START, ops); s.Expired(t) || s.Blacklisted(t)
  {
    Invariant(ops);
    DeadIsNotLive(After(START, ops), t);
  }

  lemma {:induction false} DeadForever(ops: seq<Op>, more: seq<Op>, t: Token)
    requires Dead(After(START, ops), t)
    ensures Dead(After(START, ops + more), t)
    decreases |more|
  {
    if more == [] {
      assert ops + more == ops;
    } else {
      var init := more[..|more| - 1];
      DeadForever(ops, init, t);
      assert (ops + more)[..|ops + more| - 1] == ops + init;
      Invariant(ops + init);
      DeadStep(After(START, ops + init), more[|more| - 1], t);
    }
  }

  /** Nothing that happens after a logout makes the token usable again. */
  lemma LogoutIsFinal(ops: seq<Op>, t: Token, more: seq<Op>)
    requires After(START, ops).Issued(t)
    ensures !After(START, ops + [Logout(t)] + more).CanRefresh(t)
  {
    assert (ops + [Logout(t)])[..|ops|] == ops;
    Invariant(ops);
    RevokedIsDead(After(START, ops), t);
    DeadForever(ops + [Logout(t)], more, t);
    DeadIsNotLive(After(START, ops + [Logout(t)] + more), t);
  }

  /** What the last SetUser of a user stored. */
  function LastRecord(ops: seq<Op>, u: UserId): Option<User> {
    if ops == [] then None
    else
      var op := ops[|ops| - 1];
      if op.SetUser? && op.user == u then Some(op.record) else LastRecord(ops[..|ops| - 1], u)
  }

  lemma {:induction false} UsersAreLastSet(ops: seq<Op>, u: UserId)
    ensures var users := After(START, ops).users;
      LastRecord(ops, u) == if u in users then Some(users[u]) else None
    decreases |ops|
  {
    if ops != [] {
      UsersAreLastSet(ops[..|ops| - 1], u);
    }
  }

  /** A token is exchanged exactly when it was handed out, is neither revoked nor expired, and its
      user was last stored undeleted. */
  lemma ExchangedIff(ops: seq<Op>, t: Token)
    ensures var s := After(START, ops);
      |Step(s, Refresh(t)).exchanged| > |s.exchanged| <==>
        && (exists i :: 0 <= i < |s.chains| && t in s.chains[i])
        && !(t in s.blacklist && s.now < s.blacklist[t]) && s.now / 1000 < t.exp
        && LastRecord(ops, t.user).Some? && !LastRecord(ops, t.user).value.deleted
  {
    UsersAreLastSet(ops, t.user);
  }

  /** A token carries no nonce: exchanged in the second it was issued, with the profile unchanged,
      it is exchanged for itself, and the chain is left with nothing live. */
  lemma RefreshYieldsLiveTokenIff(s: State, t: Token)
    requires s.CanRefresh(t)
    ensures var t' := s.Sign(t.user);
      Step(s, Refresh(t)).Live(t') <==>
        !s.Blacklisted(t') && !(t.iat == s.now / 1000 && t.exp == t.iat + TTL_S && t.profile == s.users[t.user].profile)
  {
  }

  // ---------------------------------------------------------------------------------------
  // The service
  // ---------------------------------------------------------------------------------------

  class AuthService {
    var now: nat
    var users: map<UserId, User>
    var blacklist: map<Token, int>
    ghost var chains: seq<seq<Token>>
    ghost var exchanged: seq<Token>

    ghost function Model(): State
      reads this
    {
      State(now, users, blacklist, chains, exchanged)
    }

    constructor ()
      ensures Model() == START
    {
      now, users, blacklist := 0, map[], map[];
      chains, exchanged := [], [];
    }

    method BlacklistToken(t: Token)
      modifies this`blacklist
      ensures Model() == old(Model()).Revoke(t)
    {
      blacklist := blacklist[t := now + TTL_S * 1000];
    }

    method GenerateTokens(u: UserId) returns (t: Token)
      requires u in users
      ensures t == Model().Sign(u)
    {
      t := Token(u, users[u].profile, now / 1000, now / 1000 + TTL_S);
    }

    /** login with a password already checked. */
    method LoginUser(u: UserId) returns (t: Option<Token>)
      modifies this`chains
      ensures Model() == Step(old(Model()), Login(u))
      ensures t.Some? <==> u in users && !users[u].deleted
      ensures t.Some? ==>
        && t.value == Token(u, users[u].profile, now / 1000, now / 1000 + TTL_S)
        && chains == old(chains) + [[t.value]]
    {
      if u !in users || users[u].deleted {
        return None;
      }
      var token := GenerateTokens(u);
      chains := chains + [[token]];
      return Some(token);
    }

    /** refreshToken; `signed` is what checking the signature yields. */
    method RefreshToken(t: Token, signed: bool) returns (r: Option<Token>)
      requires signed == Model().Issued(t)
      modifies this
      ensures Model() == Step(old(Model()), Refresh(t))
      ensures r.Some? <==>
        && !(t in old(blacklist) && old(now) < old(blacklist)[t])
        && signed && old(now) / 1000 < t.exp
        && t.user in old(users) && !old(users)[t.user].deleted
      ensures r.Some? ==>
        && r.value == Token(t.user, users[t.user].profile, now / 1000, now / 1000 + TTL_S)
        && blacklist == old(blacklist)[t := now + 7 * 24 * 60 * 60 * 1000]
      ensures r.None? ==> Model() == old(Model())
    {
      if t in blacklist && now < blacklist[t] {
        return None;
      }
      if !signed || now / 1000 >= t.exp {
        return None;
      }
      if t.user !in users || users[t.user].deleted {
        return None;
      }
      var token := GenerateTokens(t.user);
      chains := Model().Extend(t, token);
      exchanged := exchanged + [t];
      BlacklistToken(t);
      return Some(token);
    }

    method LogoutToken(t: Token, ghost issued: bool)
      requires issued == Model().Issued(t)
      modifies this`blacklist
      ensures issued ==> Model() == Step(old(Model()), Logout(t))
      ensures blacklist == old(blacklist)[t := now + 7 * 24 * 60 * 60 * 1000]
      ensures forall x :: x != t ==> Model().Blacklisted(x) == old(Model()).Blacklisted(x)
    {
      BlacklistToken(t);
    }
  }
}
