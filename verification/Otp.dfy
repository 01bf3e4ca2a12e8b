/** One-time codes: a Redis record with an attempts counter, rewritten with a full TTL on every
    wrong guess. */
module Otp {
  import opened Redis
  import opened Wrappers

  type Code = nat

  datatype Record = Record(otp: Code, createdAt: int, attempts: nat)

  const TTL_MS := 600 * 1000
  const MAX_ATTEMPTS: nat := 5

  datatype Outcome = Verified | Invalid | TooMany | NotFound

  /** One verifyOtp call: the time it runs and the code it presents. */
  datatype Guess = Guess(at: int, code: Code)

  datatype Reply = Reply(key: Key<Record>, outcome: Outcome)

  function Create(otp: Code, now: int): Key<Record> {
    Held(Record(otp, now, 0), At(now + TTL_MS))
  }

  function Verify(k: Key<Record>, g: Guess): Reply {
    if !k.LiveAt(g.at) then Reply(k, NotFound)
    else if k.value.attempts >= MAX_ATTEMPTS then Reply(Absent, TooMany)
    else if k.value.otp != g.code then
      Reply(Held(k.value.(attempts := k.value.attempts + 1), At(g.at + TTL_MS)), Invalid)
    else Reply(Absent, Verified)
  }

  /** The key after a code was created and the guesses were made. */
  function After(otp: Code, created: int, gs: seq<Guess>): Key<Record> {
    if gs == [] then Create(otp, created)
    else Verify(After(otp, created, gs[..|gs| - 1]), gs[|gs| - 1]).key
  }

  function OutcomeOf(otp: Code, created: int, gs: seq<Guess>, i: nat): Outcome
    requires i < |gs|
  {
    Verify(After(otp, created, gs[..i]), gs[i]).outcome
  }

  ghost predicate InOrder(created: int, gs: seq<Guess>) {
    && (forall i :: 0 <= i < |gs| ==> created <= gs[i].at)
    && (forall i, j :: 0 <= i < j < |gs| ==> gs[i].at <= gs[j].at)
  }

  // ---------------------------------------------------------------------------------------
  // The exact law
  // ---------------------------------------------------------------------------------------

  /** When the record was last written before guess i, if every earlier guess was wrong. */
  function LastWrite(created: int, gs: seq<Guess>, i: nat): int
    requires i <= |gs|
  {
    if i == 0 then created else gs[i - 1].at
  }

  /** The first n guesses are wrong, at most five of them, each within the TTL of the one before. */
  ghost predicate WrongSoFar(otp: Code, created: int, gs: seq<Guess>, n: nat) {
    && n <= MAX_ATTEMPTS && n <= |gs|
    && forall i :: 0 <= i < n ==> gs[i].code != otp && gs[i].at < LastWrite(created, gs, i) + TTL_MS
  }

  /** Past its last TTL or past an outcome that deleted it, the record is gone for good. */
  ghost predicate Spent(k: Key<Record>, now: int) {
    !k.LiveAt(now) && (k.Held? ==> k.expiry.At?)
  }

  lemma WrongPrefix(otp: Code, created: int, gs: seq<Guess>, n: nat)
    requires n <= |gs|
    ensures WrongSoFar(otp, created, gs[..n], n) <==> WrongSoFar(otp, created, gs, n)
    ensures LastWrite(created, gs[..n], n) == LastWrite(created, gs, n)
    ensures n > 0 ==> (WrongSoFar(otp, created, gs, n) <==>
      && WrongSoFar(otp, created, gs, n - 1) && n <= MAX_ATTEMPTS
      && gs[n - 1].code != otp && gs[n - 1].at < LastWrite(created, gs, n - 1) + TTL_MS)
  {
    assert forall i :: 0 <= i < n ==> LastWrite(created, gs[..n], i) == LastWrite(created, gs, i);
  }

  lemma GuessOnRecord(otp: Code, created: int, n: nat, written: int, g: Guess)
    requires n <= MAX_ATTEMPTS
    ensures var r := Verify(Held(Record(otp, created, n), At(written + TTL_MS)), g);
      if n < MAX_ATTEMPTS && g.code != otp && g.at < written + TTL_MS then
        r == Reply(Held(Record(otp, created, n + 1), At(g.at + TTL_MS)), Invalid)
      else Spent(r.key, g.at) && r.outcome != Invalid
  {
  }

  /** What the key holds after these guesses: a record of them, if all were wrong and timely, or
      nothing any later call can use. */
  ghost predicate Tells(k: Key<Record>, otp: Code, created: int, gs: seq<Guess>) {
    var n := |gs|;
    if WrongSoFar(otp, created, gs, n) then
      k == Held(Record(otp, created, n), At(LastWrite(created, gs, n) + TTL_MS))
    else n > 0 && Spent(k, gs[n - 1].at)
  }

  lemma TellsStep(k: Key<Record>, otp: Code, created: int, gs: seq<Guess>)
    requires gs != [] && InOrder(created, gs) && Tells(k, otp, created, gs[..|gs| - 1])
    ensures Tells(Verify(k, gs[|gs| - 1]).key, otp, created, gs)
  {
    var n := |gs| - 1;
    WrongPrefix(otp, created, gs, n);
    WrongPrefix(otp, created, gs, n + 1);
    if WrongSoFar(otp, created, gs, n) {
      GuessOnRecord(otp, created, n, LastWrite(created, gs, n), gs[n]);
    } else {
      assert gs[n - 1].at <= gs[n].at;
    }
  }

  lemma {:induction false} StateAfter(otp: Code, created: int, gs: seq<Guess>)
    requires InOrder(created, gs)
    ensures Tells(After(otp, created, gs), otp, created, gs)
    decreases |gs|
  {
    if gs != [] {
      StateAfter(otp, created, gs[..|gs| - 1]);
      TellsStep(After(otp, created, gs[..|gs| - 1]), otp, created, gs);
    }
  }

  /** A call succeeds exactly when it presents the code as one of the first five guesses, all the
      others wrong, and no two successive calls are a TTL apart. */
  lemma SucceedsIff(otp: Code, created: int, gs: seq<Guess>, i: nat)
    requires InOrder(created, gs) && i < |gs|
    ensures OutcomeOf(otp, created, gs, i) == Verified <==>
      && i < MAX_ATTEMPTS && WrongSoFar(otp, created, gs, i)
      && gs[i].code == otp && gs[i].at < LastWrite(created, gs, i) + TTL_MS
  {
    StateAfter(otp, created, gs[..i]);
    WrongPrefix(otp, created, gs, i);
    if !WrongSoFar(otp, created, gs, i) {
      assert gs[i - 1].at <= gs[i].at;
    }
  }

  /** All earlier guesses wrong and timely, this one timely too: the record is there to be judged. */
  ghost predicate Judged(otp: Code, created: int, gs: seq<Guess>, i: nat)
    requires i < |gs|
  {
    WrongSoFar(otp, created, gs, i) && gs[i].at < LastWrite(created, gs, i) + TTL_MS
  }

  /** Every outcome, exactly: too many on the sixth timely call after five wrong ones, right or wrong
      before that, and nothing to be found in all other cases. */
  lemma OutcomeIsExact(otp: Code, created: int, gs: seq<Guess>, i: nat)
    requires InOrder(created, gs) && i < |gs|
    ensures OutcomeOf(otp, created, gs, i) ==
      if !Judged(otp, created, gs, i) then NotFound
      else if i == 5 then TooMany
      else if gs[i].code == otp then Verified
      else Invalid
  {
    StateAfter(otp, created, gs[..i]);
    WrongPrefix(otp, created, gs, i);
    if !WrongSoFar(otp, created, gs, i) {
      assert gs[i - 1].at <= gs[i].at;
    }
  }

  lemma {:induction false} WritesAreBounded(otp: Code, created: int, gs: seq<Guess>, n: nat)
    requires WrongSoFar(otp, created, gs, n)
    ensures LastWrite(created, gs, n) <= created + n * (TTL_MS - 1)
    decreases n
  {
    if n > 0 {
      WritesAreBounded(otp, created, gs, n - 1);
      assert gs[n - 1].at < LastWrite(created, gs, n - 1) + TTL_MS;
    }
  }

  /** At most one call per code succeeds, and only within five TTLs of its creation, less the last
      millisecond of each. */
  lemma AtMostOneSuccess(otp: Code, created: int, gs: seq<Guess>, i: nat, j: nat)
    requires InOrder(created, gs) && i < |gs| && j < |gs|
    requires OutcomeOf(otp, created, gs, i) == Verified
    ensures gs[i].at <= created + 5 * (TTL_MS - 1)
    ensures OutcomeOf(otp, created, gs, j) == Verified ==> i == j
  {
    SucceedsIff(otp, created, gs, i);
    SucceedsIff(otp, created, gs, j);
    WritesAreBounded(otp, created, gs, i);
  }

  /** The record's attempts never pass five and its expiry keeps to one TTL per attempt. */
  lemma {:induction false} RecordIsBounded(otp: Code, created: int, gs: seq<Guess>)
    requires InOrder(created, gs)
    ensures var k := After(otp, created, gs);
      k.Held? ==>
        && k.value.otp == otp && k.value.createdAt == created && k.value.attempts <= MAX_ATTEMPTS
        && k.expiry.At? && k.expiry.ms <= created + (k.value.attempts + 1) * TTL_MS
    decreases |gs|
  {
    if gs != [] {
      RecordIsBounded(otp, created, gs[..|gs| - 1]);
    }
  }

  /** A recorded mismatch is one of the first five calls. */
  lemma AtMostFiveInvalid(otp: Code, created: int, gs: seq<Guess>, i: nat)
    requires InOrder(created, gs) && i < |gs|
    ensures OutcomeOf(otp, created, gs, i) == Invalid <==> WrongSoFar(otp, created, gs, i + 1)
    ensures OutcomeOf(otp, created, gs, i) == Invalid ==> i < MAX_ATTEMPTS
  {
    StateAfter(otp, created, gs[..i]);
    WrongPrefix(otp, created, gs, i);
    WrongPrefix(otp, created, gs, i + 1);
    if WrongSoFar(otp, created, gs, i) {
      GuessOnRecord(otp, created, i, LastWrite(created, gs, i), gs[i]);
    } else {
      assert gs[i - 1].at <= gs[i].at;
    }
  }

  /** Four wrong guesses, each at the last moment, then the right one. */
  function SlowGuesses(otp: Code, wrong: Code): seq<Guess> {
    var step := TTL_MS - 1;
    [Guess(step, wrong), Guess(2 * step, wrong), Guess(3 * step, wrong), Guess(4 * step, wrong), Guess(5 * step, otp)]
  }

  /** That bound is reached. */
  lemma LatestSuccess(otp: Code, wrong: Code)
    requires otp != wrong
    ensures var gs := SlowGuesses(otp, wrong);
      OutcomeOf(otp, 0, gs, 4) == Verified && gs[4].at == 5 * (TTL_MS - 1)
  {
    var gs := SlowGuesses(otp, wrong);
    assert InOrder(0, gs) && WrongSoFar(otp, 0, gs, 4);
    SucceedsIff(otp, 0, gs, 4);
  }

  // ---------------------------------------------------------------------------------------
  // The services
  // ---------------------------------------------------------------------------------------

  class OtpService {
    var key: Key<Record>
    var passwordResets: nat

    constructor ()
      ensures key == Absent && passwordResets == 0
    {
      key, passwordResets := Absent, 0;
    }

    method CreateOtp(otp: Code, now: int)
      modifies this`key
      ensures key == Create(otp, now)
    {
      key := Held(Record(otp, now, 0), At(now + TTL_MS));
    }

    method VerifyOtp(g: Guess) returns (outcome: Outcome)
      modifies this`key
      ensures Reply(key, outcome) == Verify(old(key), g)
    {
      var data := key.Get(g.at);
      if data.None? {
        return NotFound;
      }
      var parsed := data.value;
      if parsed.attempts >= MAX_ATTEMPTS {
        key := Absent;
        return TooMany;
      }
      if parsed.otp != g.code {
        parsed := parsed.(attempts := parsed.attempts + 1);
        key := Held(parsed, At(g.at + TTL_MS));
        return Invalid;
      }
      key := Absent;
      return Verified;
    }

    /** resetPassword: the update happens only after a verified code. */
    method ResetPassword(g: Guess) returns (outcome: Outcome)
      modifies this
      ensures Reply(key, outcome) == Verify(old(key), g)
      ensures passwordResets == old(passwordResets) + if outcome == Verified then 1 else 0
    {
      outcome := VerifyOtp(g);
      if outcome == Verified {
        passwordResets := passwordResets + 1;
      }
    }
  }
}
