/** Login throttling and the `/login` handler (`backend/routes/login.js`).

    The attempt table maps a normalised email to the number of consecutive
    failures and the time of the last one. An email is locked while it has at
    least `MaxAttempts` failures and the last one lies less than `LockoutTime`
    milliseconds in the past; a lock whose window has elapsed is deleted by
    the next check. A successful login deletes the record.

    The user table is an abstract map from email to row, `bcrypt.compare` is
    the oracle `matches(password, hash)`, `jwt.sign` the oracle `sign`, and
    `Date.now()` the parameter `now`. Each request runs as one atomic step. */
module Login {
  import opened Wrappers
  import JsText

  const MaxAttempts: nat := 5
  const LockoutTime: int := 15 * 60 * 1000

  /** The value `loginAttempts` holds for one email. */
  datatype Attempts = Attempts(count: nat, lastAttempt: int)

  type Table = map<string, Attempts>

  /** The answer of `isRateLimited(email)` at time `now`. */
  predicate Locked(t: Table, email: string, now: int) {
    email in t && t[email].count >= MaxAttempts && now - t[email].lastAttempt < LockoutTime
  }

  /** The table after `isRateLimited(email)`: an expired lock is discarded. */
  function AfterCheck(t: Table, email: string, now: int): Table {
    if email in t && t[email].count >= MaxAttempts && now - t[email].lastAttempt >= LockoutTime
    then t - {email}
    else t
  }

  /** The table after `recordLoginAttempt(email, success)`. */
  function AfterRecord(t: Table, email: string, success: bool, now: int): Table {
    if success then t - {email}
    else
      var previous := if email in t then t[email].count else 0;
      t[email := Attempts(previous + 1, now)]
  }

  /** The module-level `loginAttempts` map and the two functions that use it. */
  class Throttle {
    var attempts: Table

    constructor ()
      ensures attempts == map[]
    {
      attempts := map[];
    }

    /** `isRateLimited`. */
    method IsRateLimited(email: string, now: int) returns (limited: bool)
      modifies this
      ensures limited == Locked(old(attempts), email, now)
      ensures attempts == AfterCheck(old(attempts), email, now)
    {
      if email !in attempts {
        return false;
      }
      var record := attempts[email];
      if record.count >= MaxAttempts {
        var timeSinceLastAttempt := now - record.lastAttempt;
        if timeSinceLastAttempt < LockoutTime {
          return true;
        } else {
          attempts := attempts - {email};
          return false;
        }
      }
      return false;
    }

    /** `recordLoginAttempt`. */
    method RecordLoginAttempt(email: string, success: bool, now: int)
      modifies this
      ensures attempts == AfterRecord(old(attempts), email, success, now)
    {
      if success {
        attempts := attempts - {email};
        return;
      }
      var record := if email in attempts then attempts[email] else Attempts(0, 0);
      record := record.(count := record.count + 1);
      record := record.(lastAttempt := now);
      attempts := attempts[email := record];
    }
  }

  // -----------------------------------------------------------------------
  // The handler

  /** The JSON body: each field absent (`undefined`) or a string. */
  datatype LoginRequest = LoginRequest(email: Option<string>, password: Option<string>)

  /** A row of the `users` table as the SELECT returns it. */
  datatype UserRow = UserRow(id: int, firstname: string, lastname: string, email: string,
                             city: string, role: string, password: string)

  /** The row with `password` deleted, as sent back to the client. */
  datatype PublicUser = PublicUser(id: int, firstname: string, lastname: string,
                                   email: string, city: string, role: string)

  /** The payload and options handed to `jwt.sign`. */
  datatype SignRequest = SignRequest(userId: int, email: string, role: string,
                                     expiresIn: string, issuer: string)

  /** How a request ends, without the signed token (which the oracle supplies). */
  datatype Outcome = MissingFields | TooManyAttempts | InvalidCredentials | Authenticated(user: UserRow)

  datatype LoginResponse =
    | Error(status: nat, error: string)
    | Success(user: PublicUser, token: string, expiresIn: string)

  const Issuer: string := "osma-weather-api"
  const DefaultExpiresIn: string := "24h"

  /** `email.trim().toLowerCase()`. */
  function NormalizeEmail(email: string): string {
    JsText.ToLower(JsText.Trim(email))
  }

  /** A normalised email normalises to itself. */
  lemma NormalizeIdempotent(e: string)
    ensures NormalizeEmail(NormalizeEmail(e)) == NormalizeEmail(e)
  {
    var t := JsText.Trim(e);
    JsText.TrimToLower(t);
    JsText.TrimIdempotent(e);
    JsText.ToLowerIdempotent(t);
  }

  /** Surrounding whitespace and letter case do not change the normal form. */
  lemma NormalizeIgnoresVariants(w1: string, e: string, w2: string)
    requires JsText.AllWhitespace(w1) && JsText.AllWhitespace(w2)
    ensures NormalizeEmail(w1 + JsText.ToLower(e) + w2) == NormalizeEmail(e)
  {
    JsText.TrimIgnoresPadding(w1, JsText.ToLower(e), w2);
    JsText.TrimToLower(e);
    JsText.ToLowerIdempotent(JsText.Trim(e));
  }

  /** JavaScript truthiness of an optional string. */
  predicate Present(s: Option<string>) {
    s.Some? && s.value != ""
  }

  /** The specification of one `/login` request: how it ends and the
      attempt table it leaves behind, in the handler's order of checks. */
  function HandleLogin(t: Table, req: LoginRequest, users: map<string, UserRow>,
                       matches: (string, string) -> bool, now: int): (Outcome, Table)
  {
    if !Present(req.email) || !Present(req.password) then (MissingFields, t)
    else
      var email := NormalizeEmail(req.email.value);
      var t1 := AfterCheck(t, email, now);
      if Locked(t, email, now) then (TooManyAttempts, t1)
      else if email !in users then (InvalidCredentials, AfterRecord(t1, email, false, now))
      else if !matches(req.password.value, users[email].password) then
        (InvalidCredentials, AfterRecord(t1, email, false, now))
      else (Authenticated(users[email]), AfterRecord(t1, email, true, now))
  }

  function Publish(row: UserRow): PublicUser {
    PublicUser(row.id, row.firstname, row.lastname, row.email, row.city, row.role)
  }

  /** The response that `HandleLogin`'s outcome becomes. */
  function Respond(o: Outcome, sign: SignRequest -> string, expiresInEnv: Option<string>): LoginResponse {
    var expiresIn := if Present(expiresInEnv) then expiresInEnv.value else DefaultExpiresIn;
    match o
    case MissingFields => Error(400, "Email and password required.")
    case TooManyAttempts => Error(429, "Too many login attempts. Please try again later.")
    case InvalidCredentials => Error(401, "Invalid credentials.")
    case Authenticated(row) =>
      Success(Publish(row), sign(SignRequest(row.id, row.email, row.role, expiresIn, Issuer)), expiresIn)
  }

  /** The `/login` handler, step by step with early returns. */
  method PostLogin(throttle: Throttle, req: LoginRequest, users: map<string, UserRow>,
                   matches: (string, string) -> bool, sign: SignRequest -> string,
                   expiresInEnv: Option<string>, now: int)
    returns (resp: LoginResponse)
    modifies throttle
    ensures (resp, throttle.attempts) ==
            (Respond(HandleLogin(old(throttle.attempts), req, users, matches, now).0, sign, expiresInEnv),
             HandleLogin(old(throttle.attempts), req, users, matches, now).1)
  {
    if !Present(req.email) || !Present(req.password) {
      return Error(400, "Email and password required.");
    }
    var trimmedEmail := NormalizeEmail(req.email.value);
    var limited := throttle.IsRateLimited(trimmedEmail, now);
    if limited {
      return Error(429, "Too many login attempts. Please try again later.");
    }
    if trimmedEmail !in users {
      throttle.RecordLoginAttempt(trimmedEmail, false, now);
      return Error(401, "Invalid credentials.");
    }
    var user := users[trimmedEmail];
    var passwordMatches := matches(req.password.value, user.password);
    if !passwordMatches {
      throttle.RecordLoginAttempt(trimmedEmail, false, now);
      return Error(401, "Invalid credentials.");
    }
    throttle.RecordLoginAttempt(trimmedEmail, true, now);
    var expiresIn := if Present(expiresInEnv) then expiresInEnv.value else DefaultExpiresIn;
    var token := sign(SignRequest(user.id, user.email, user.role, expiresIn, Issuer));
    resp := Success(Publish(user), token, expiresIn);
  }

  // -----------------------------------------------------------------------
  // Properties of the throttle

  /** `isRateLimited` is true exactly for a record with at least five
      failures, the last less than fifteen minutes ago; in particular never
      without a record and never below five failures, however recent. */
  lemma LockedExactly(t: Table, email: string, now: int)
    ensures Locked(t, email, now) <==>
              email in t && t[email].count >= 5 && now - t[email].lastAttempt < 900000
    ensures email !in t ==> !Locked(t, email, now)
    ensures email in t && t[email].count < 5 ==> !Locked(t, email, now)
  {
  }

  /** A check after the window has elapsed deletes the record, so the next
      failure starts again at one. */
  lemma ElapsedLockRestarts(t: Table, email: string, now: int, later: int)
    requires email in t && t[email].count >= MaxAttempts
    requires now - t[email].lastAttempt >= LockoutTime
    ensures !Locked(t, email, now)
    ensures email !in AfterCheck(t, email, now)
    ensures AfterRecord(AfterCheck(t, email, now), email, false, later)[email] == Attempts(1, later)
  {
  }

  /** Recording touches only the given email's record. */
  lemma RecordIsLocal(t: Table, email: string, success: bool, now: int, other: string)
    requires other != email
    ensures other in AfterRecord(t, email, success, now) <==> other in t
    ensures other in t ==> AfterRecord(t, email, success, now)[other] == t[other]
    ensures success ==> email !in AfterRecord(t, email, success, now)
    ensures !success ==> (AfterRecord(t, email, success, now)[email] ==
                          Attempts((if email in t then t[email].count else 0) + 1, now))
  {
  }

  // -----------------------------------------------------------------------
  // Properties of the handler

  /** A request without a (non-empty) email or password gets 400 and leaves
      the table untouched. */
  lemma MissingFieldsLeaveTable(t: Table, req: LoginRequest, users: map<string, UserRow>,
                                matches: (string, string) -> bool, now: int)
    requires !Present(req.email) || !Present(req.password)
    ensures HandleLogin(t, req, users, matches, now) == (MissingFields, t)
  {
  }

  /** A locked email gets 429 before any credential check: even the right
      password is refused, nothing is recorded and the window is not
      extended. */
  lemma LockedRefusesEvenCorrectPassword(t: Table, req: LoginRequest, users: map<string, UserRow>,
                                         matches: (string, string) -> bool, now: int)
    requires Present(req.email) && Present(req.password)
    requires Locked(t, NormalizeEmail(req.email.value), now)
    ensures HandleLogin(t, req, users, matches, now) == (TooManyAttempts, t)
  {
  }

  /** A correct password for an unlocked email succeeds and clears the record. */
  lemma CorrectPasswordClears(t: Table, req: LoginRequest, users: map<string, UserRow>,
                              matches: (string, string) -> bool, now: int)
    requires Present(req.email) && Present(req.password)
    requires var e := NormalizeEmail(req.email.value);
      !Locked(t, e, now) && e in users && matches(req.password.value, users[e].password)
    ensures var e := NormalizeEmail(req.email.value);
      HandleLogin(t, req, users, matches, now) == (Authenticated(users[e]), t - {e})
  {
    var e := NormalizeEmail(req.email.value);
    assert AfterCheck(t, e, now) - {e} == t - {e};
  }

  /** Emails that differ only in surrounding whitespace and letter case are
      one account and one throttle record. */
  lemma EmailVariantsShareRecord(t: Table, e: string, w1: string, w2: string, password: Option<string>,
                                 users: map<string, UserRow>, matches: (string, string) -> bool, now: int)
    requires e != []
    requires JsText.AllWhitespace(w1) && JsText.AllWhitespace(w2)
    ensures HandleLogin(t, LoginRequest(Some(w1 + e + w2), password), users, matches, now) ==
            HandleLogin(t, LoginRequest(Some(JsText.ToLower(e)), password), users, matches, now)
  {
    JsText.TrimIgnoresPadding(w1, e, w2);
    JsText.TrimToLower(e);
    JsText.ToLowerIdempotent(JsText.Trim(e));
    assert |w1 + e + w2| > 0;
    assert NormalizeEmail(w1 + e + w2) == NormalizeEmail(JsText.ToLower(e));
  }

  /** No record ever holds more than five failures. */
  ghost predicate Bounded(t: Table) {
    forall e :: e in t ==> t[e].count <= MaxAttempts
  }

  lemma HandleLoginKeepsBound(t: Table, req: LoginRequest, users: map<string, UserRow>,
                              matches: (string, string) -> bool, now: int)
    requires Bounded(t)
    ensures Bounded(HandleLogin(t, req, users, matches, now).1)
  {
  }

  /** One request of a sequence: the body and the time it arrives. */
  datatype Request = Request(body: LoginRequest, now: int)

  /** The attempt table after a sequence of requests, one at a time. */
  ghost function Run(t: Table, reqs: seq<Request>, users: map<string, UserRow>,
                     matches: (string, string) -> bool): Table
    decreases |reqs|
  {
    if reqs == [] then t
    else Run(HandleLogin(t, reqs[0].body, users, matches, reqs[0].now).1, reqs[1..], users, matches)
  }

  /** Under sequential use from an empty table, every count stays at most
      five: a locked email is refused before its count could grow. */
  lemma {:induction false} RunKeepsBound(t: Table, reqs: seq<Request>, users: map<string, UserRow>,
                                         matches: (string, string) -> bool)
    requires Bounded(t)
    ensures Bounded(Run(t, reqs, users, matches))
    decreases |reqs|
  {
    if reqs != [] {
      HandleLoginKeepsBound(t, reqs[0].body, users, matches, reqs[0].now);
      RunKeepsBound(HandleLogin(t, reqs[0].body, users, matches, reqs[0].now).1, reqs[1..], users, matches);
    }
  }

  /** Four failures and then a success leave no record, so the next attempt
      is not locked. */
  lemma FourFailuresThenSuccess(e: string, t1: int, t2: int, t3: int, t4: int, t5: int, t6: int)
    ensures var t := AfterRecord(AfterRecord(AfterRecord(AfterRecord(AfterRecord(
                       map[], e, false, t1), e, false, t2), e, false, t3), e, false, t4), e, true, t5);
            e !in t && !Locked(t, e, t6)
  {
  }

  /** The table after `n` failed attempts, the i-th at `times[i]`, each
      preceded by its lock check. */
  function Failures(t: Table, e: string, times: seq<int>): Table
    decreases |times|
  {
    if times == [] then t
    else Failures(AfterRecord(AfterCheck(t, e, times[0]), e, false, times[0]), e, times[1..])
  }

  lemma {:induction false} FailuresCount(t: Table, e: string, times: seq<int>)
    requires e !in t
    requires |times| <= MaxAttempts
    ensures times == [] ==> e !in Failures(t, e, times)
    ensures times != [] ==> (e in Failures(t, e, times)
                             && Failures(t, e, times)[e] == Attempts(|times|, times[|times| - 1]))
    decreases |times|
  {
    if times != [] {
      var t' := AfterRecord(AfterCheck(t, e, times[0]), e, false, times[0]);
      assert t'[e] == Attempts(1, times[0]);
      FailuresCountFrom(t', e, times[1..], 1, times[0]);
    }
  }

  lemma {:induction false} FailuresCountFrom(t: Table, e: string, times: seq<int>, k: nat, last: int)
    requires e in t && t[e] == Attempts(k, last)
    requires k + |times| <= MaxAttempts
    ensures e in Failures(t, e, times)
    ensures Failures(t, e, times)[e] == Attempts(k + |times|, if times == [] then last else times[|times| - 1])
    decreases |times|
  {
    if times != [] {
      assert k < MaxAttempts;
      var t' := AfterRecord(AfterCheck(t, e, times[0]), e, false, times[0]);
      assert t'[e] == Attempts(k + 1, times[0]);
      FailuresCountFrom(t', e, times[1..], k + 1, times[0]);
      if |times| > 1 {
        assert times[1..][|times[1..]| - 1] == times[|times| - 1];
      }
    }
  }

  /** Five failures lock the email for fifteen minutes after the last one;
      sixteen minutes later it is unlocked and its record is gone. */
  lemma FiveFailuresLock(e: string, times: seq<int>, now: int)
    requires |times| == 5
    requires times[4] <= now < times[4] + 15 * 60 * 1000
    ensures Locked(Failures(map[], e, times), e, now)
    ensures !Locked(Failures(map[], e, times), e, times[4] + 16 * 60 * 1000)
    ensures e !in AfterCheck(Failures(map[], e, times), e, times[4] + 16 * 60 * 1000)
  {
    FailuresCount(map[], e, times);
  }
}
