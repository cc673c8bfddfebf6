/** The session routes (`backend/routes/auth-session.js`): `/logout`,
    `/logout-all`, `/profile`, `/verify` and `/blacklist-stats`, each behind
    `authenticateToken`.

    Both logout routes list only the presented token, with the expiry read
    from its own `exp` claim (seconds) multiplied by 1000 (milliseconds).
    `jwt.decode` is an oracle from token to payload (None for JavaScript
    `null`, which makes `decoded.exp` throw and the route answer 500).
    Response timestamps are left out. */
module AuthSession {
  import opened Wrappers
  import Blacklist
  import opened AuthMiddleware

  datatype Body =
    | ErrorBody(error: string)
    | Message(message: string)
    | ProfileBody(userId: int, email: string, role: Option<string>, tokenValid: bool)
    | VerifyBody(valid: bool, user: User)
    | StatsBody(stats: Blacklist.Stats)

  datatype Response = Response(status: nat, body: Body)

  function Refusal(v: Verdict): Response
    requires v.Deny?
  {
    Response(v.status, ErrorBody(v.error))
  }

  /** The blacklist after a `/logout` or `/logout-all` request. */
  function Revoked(entries: map<string, Blacklist.Entry>, header: Option<string>,
                   verify: string -> VerifyOutcome, decode: string -> Option<Payload>,
                   now: int): (after: map<string, Blacklist.Entry>)
    ensures after.Keys == entries.Keys || exists t :: t !in entries && after.Keys == entries.Keys + {t}
    ensures forall t :: t in entries && t != TokenFromHeader(header).GetOr("") ==> t in after && after[t] == entries[t]
    ensures !(AuthenticateToken(header, entries, verify).Pass? && decode(TokenFromHeader(header).value).Some?) ==>
              after == entries
    ensures AuthenticateToken(header, entries, verify).Pass? && decode(TokenFromHeader(header).value).Some? ==>
              var token := TokenFromHeader(header).value;
              after == entries[token := Blacklist.Entry(now, decode(token).value.exp * 1000)]
  {
    var v := AuthenticateToken(header, entries, verify);
    if v.Pass? && decode(v.token.value).Some? then
      var token := v.token.value;
      var after := entries[token := Blacklist.Entry(now, decode(token).value.exp * 1000)];
      assert after.Keys == entries.Keys + {token};
      after
    else
      entries
  }

  /** The answer of `/logout` (with `ok` and `failed` its two messages) or of
      `/logout-all` (with theirs). */
  function LogoutResponse(entries: map<string, Blacklist.Entry>, header: Option<string>,
                          verify: string -> VerifyOutcome, decode: string -> Option<Payload>,
                          ok: string, failed: string): (r: Response)
    ensures r.status == 401 <==> AuthenticateToken(header, entries, verify).Deny?
    ensures r.status == 200 <==> AuthenticateToken(header, entries, verify).Pass?
                                 && decode(TokenFromHeader(header).value).Some?
    ensures r.status == 500 <==> AuthenticateToken(header, entries, verify).Pass?
                                 && decode(TokenFromHeader(header).value).None?
    ensures r.status == 200 ==> r.body == Message(ok)
  {
    var v := AuthenticateToken(header, entries, verify);
    if v.Deny? then Refusal(v)
    else if decode(v.token.value).None? then Response(500, ErrorBody(failed))
    else Response(200, Message(ok))
  }

  /** POST `/logout`. */
  method Logout(req: Request, blacklist: Blacklist.TokenBlacklist, verify: string -> VerifyOutcome,
                decode: string -> Option<Payload>, now: int) returns (resp: Response)
    modifies req, blacklist
    ensures blacklist.entries == Revoked(old(blacklist.entries), req.authorization, verify, decode, now)
    ensures resp == LogoutResponse(old(blacklist.entries), req.authorization, verify, decode,
                                   "Logged out successfully", "Logout failed")
  {
    var v := AuthenticateTokenOn(req, blacklist, verify);
    if v.Deny? {
      return Refusal(v);
    }
    var token := req.token.value;
    var decoded := decode(token);
    if decoded.None? {
      return Response(500, ErrorBody("Logout failed"));
    }
    var expirationTime := decoded.value.exp * 1000;
    blacklist.AddToken(token, expirationTime, now);
    resp := Response(200, Message("Logged out successfully"));
  }

  /** POST `/logout-all`: the same effect on the blacklist as `/logout`,
      only the presented token is listed; other tokens of the same user stay
      valid. */
  method LogoutAll(req: Request, blacklist: Blacklist.TokenBlacklist, verify: string -> VerifyOutcome,
                   decode: string -> Option<Payload>, now: int) returns (resp: Response)
    modifies req, blacklist
    ensures blacklist.entries == Revoked(old(blacklist.entries), req.authorization, verify, decode, now)
    ensures resp == LogoutResponse(old(blacklist.entries), req.authorization, verify, decode,
                                   "Logged out from all devices successfully",
                                   "Logout from all devices failed")
  {
    var v := AuthenticateTokenOn(req, blacklist, verify);
    if v.Deny? {
      return Refusal(v);
    }
    var token := req.token.value;
    var decoded := decode(token);
    if decoded.None? {
      return Response(500, ErrorBody("Logout from all devices failed"));
    }
    var expirationTime := decoded.value.exp * 1000;
    blacklist.AddToken(token, expirationTime, now);
    resp := Response(200, Message("Logged out from all devices successfully"));
  }

  /** The answer of GET `/profile`: the attached user's fields echoed back. */
  function ProfileResponse(header: Option<string>, entries: map<string, Blacklist.Entry>,
                           verify: string -> VerifyOutcome): (r: Response)
    ensures r.status == 200 <==> AuthenticateToken(header, entries, verify).Pass?
    ensures r.status != 200 ==> r.status == 401
    ensures r.status == 200 ==>
              var p := verify(TokenFromHeader(header).value).payload;
              r.body == ProfileBody(p.userId, p.email, None, true)
  {
    var v := AuthenticateToken(header, entries, verify);
    if v.Deny? then Refusal(v)
    else
      var user := v.user.value;
      Response(200, ProfileBody(user.userId, user.email, user.role, true))
  }

  method Profile(req: Request, blacklist: Blacklist.TokenBlacklist, verify: string -> VerifyOutcome)
    returns (resp: Response)
    modifies req
    ensures resp == ProfileResponse(req.authorization, blacklist.entries, verify)
  {
    var v := AuthenticateTokenOn(req, blacklist, verify);
    if v.Deny? {
      return Refusal(v);
    }
    var user := req.user.value;
    resp := Response(200, ProfileBody(user.userId, user.email, user.role, true));
  }

  /** The answer of GET `/verify`: `valid: true` and the attached user for
      every request the middleware let through. */
  function VerifyResponse(header: Option<string>, entries: map<string, Blacklist.Entry>,
                          verify: string -> VerifyOutcome): (r: Response)
    ensures r.status == 200 <==> AuthenticateToken(header, entries, verify).Pass?
    ensures r.status == 200 ==>
              r.body == VerifyBody(true, AuthenticateToken(header, entries, verify).user.value)
    ensures r.status != 200 ==> r.status == 401
  {
    var v := AuthenticateToken(header, entries, verify);
    if v.Deny? then Refusal(v) else Response(200, VerifyBody(true, v.user.value))
  }

  method Verify(req: Request, blacklist: Blacklist.TokenBlacklist, verify: string -> VerifyOutcome)
    returns (resp: Response)
    modifies req
    ensures resp == VerifyResponse(req.authorization, blacklist.entries, verify)
  {
    var v := AuthenticateTokenOn(req, blacklist, verify);
    if v.Deny? {
      return Refusal(v);
    }
    resp := Response(200, VerifyBody(true, req.user.value));
  }

  /** The body of GET `/blacklist-stats` once a user is attached. */
  function StatsHandler(user: User, stats: Blacklist.Stats): (r: Response)
    ensures r.status == 200 <==> user.role == Some("admin")
    ensures r.status == 200 ==> r.body == StatsBody(stats)
    ensures r.status != 200 ==> r == Response(403, ErrorBody("Admin access required"))
  {
    if user.role != Some("admin") then Response(403, ErrorBody("Admin access required"))
    else Response(200, StatsBody(stats))
  }

  /** What `getStats` reports about a blacklist: its size, and the oldest
      listing time, null exactly when the blacklist is empty. */
  ghost predicate Describes(stats: Blacklist.Stats, entries: map<string, Blacklist.Entry>) {
    && stats.totalBlacklistedTokens == |entries|
    && (stats.oldestToken.None? <==> entries == map[])
    && (stats.oldestToken.Some? ==> Blacklist.IsOldest(entries, stats.oldestToken.value))
  }

  /** The handler of GET `/blacklist-stats`, given the attached user: only
      an admin gets the blacklist statistics, which are read only then. */
  method BlacklistStatsHandler(user: User, blacklist: Blacklist.TokenBlacklist) returns (resp: Response)
    ensures exists stats :: resp == StatsHandler(user, stats)
                            && (user.role == Some("admin") ==> Describes(stats, blacklist.entries))
    ensures resp.status == 200 <==> user.role == Some("admin")
    ensures resp.status == 200 ==> (resp.body.StatsBody?
              && resp.body.stats.totalBlacklistedTokens == |blacklist.entries|
              && (resp.body.stats.oldestToken.None? <==> blacklist.entries == map[])
              && (resp.body.stats.oldestToken.Some? ==>
                    Blacklist.IsOldest(blacklist.entries, resp.body.stats.oldestToken.value)))
    ensures resp.status != 200 ==> resp == Response(403, ErrorBody("Admin access required"))
  {
    var stats := Blacklist.Stats(0, None);
    if user.role == Some("admin") {
      stats := blacklist.GetStats();
    }
    resp := StatsHandler(user, stats);
  }

  /** GET `/blacklist-stats` behind `authenticateToken`: since that attaches
      no role, the route answers 401 or 403 and never reaches the statistics. */
  method BlacklistStats(req: Request, blacklist: Blacklist.TokenBlacklist, verify: string -> VerifyOutcome)
    returns (resp: Response)
    modifies req
    ensures resp.status == 401 <==> AuthenticateToken(req.authorization, blacklist.entries, verify).Deny?
    ensures resp.status != 401 ==> resp == Response(403, ErrorBody("Admin access required"))
  {
    var v := AuthenticateTokenOn(req, blacklist, verify);
    if v.Deny? {
      return Refusal(v);
    }
    resp := BlacklistStatsHandler(req.user.value, blacklist);
  }

  // -----------------------------------------------------------------------
  // Properties

  /** After a successful logout the token is listed with its own expiry in
      milliseconds, and every later `authenticateToken` refuses it as
      invalidated, whatever the verifier says. */
  lemma LogoutListsToken(entries: map<string, Blacklist.Entry>, header: Option<string>,
                         verify: string -> VerifyOutcome, decode: string -> Option<Payload>,
                         now: int, laterVerify: string -> VerifyOutcome)
    requires AuthenticateToken(header, entries, verify).Pass?
    requires decode(TokenFromHeader(header).value).Some?
    ensures var token := TokenFromHeader(header).value;
            var after := Revoked(entries, header, verify, decode, now);
            && token in after
            && after[token] == Blacklist.Entry(now, decode(token).value.exp * 1000)
            && AuthenticateToken(header, after, laterVerify) == Deny(401, "Token has been invalidated")
  {
  }

  /** Logging out with an already listed token is refused with 401 and
      leaves the blacklist as it was. */
  lemma LogoutOfListedTokenIsRefused(entries: map<string, Blacklist.Entry>, header: Option<string>,
                                     verify: string -> VerifyOutcome, decode: string -> Option<Payload>,
                                     now: int, ok: string, failed: string)
    requires TokenFromHeader(header).Some? && TokenFromHeader(header).value in entries
    ensures Revoked(entries, header, verify, decode, now) == entries
    ensures LogoutResponse(entries, header, verify, decode, ok, failed) ==
              Response(401, ErrorBody("Token has been invalidated"))
  {
  }

  /** Whatever the user's token, `/blacklist-stats` behind `authenticateToken`
      never answers 200. */
  lemma StatsNeverServed(header: Option<string>, entries: map<string, Blacklist.Entry>,
                         verify: string -> VerifyOutcome, stats: Blacklist.Stats)
    requires AuthenticateToken(header, entries, verify).Pass?
    ensures StatsHandler(AuthenticateToken(header, entries, verify).user.value, stats) ==
              Response(403, ErrorBody("Admin access required"))
  {
  }

  /** What can happen to the blacklist between two requests: a sweep at some
      time, or the listing of a token by another logout. */
  datatype Change = Sweep(at: int) | Listing(token: string, expiresAt: int, at: int)

  ghost function Apply(entries: map<string, Blacklist.Entry>, changes: seq<Change>): map<string, Blacklist.Entry>
    decreases |changes|
  {
    if changes == [] then entries
    else
      var next := match changes[0]
        case Sweep(at) => Blacklist.Swept(entries, at)
        case Listing(t, e, at) => entries[t := Blacklist.Entry(at, e)];
      Apply(next, changes[1..])
  }

  /** `jwt.verify` at time `now` (milliseconds) agrees with `jwt.decode` on
      the payload and rejects a token once `floor(now / 1000) >= exp`. */
  ghost predicate VerifierAt(verify: string -> VerifyOutcome, decode: string -> Option<Payload>, now: int) {
    forall t :: verify(t).Valid? ==> decode(t) == Some(verify(t).payload) && now / 1000 < verify(t).payload.exp
  }

  /** A listed token stays listed, with the same expiry, until a sweep at a
      time past that expiry. */
  lemma {:induction false} ListedUntilSweptPastExpiry(entries: map<string, Blacklist.Entry>, token: string,
                                                      changes: seq<Change>)
    requires token in entries
    requires forall i :: 0 <= i < |changes| && changes[i].Listing? ==> changes[i].token != token
    ensures var after := Apply(entries, changes);
            (token in after && after[token].expiresAt == entries[token].expiresAt)
            || (exists i :: 0 <= i < |changes| && changes[i].Sweep? && entries[token].expiresAt < changes[i].at)
    decreases |changes|
  {
    if changes != [] {
      var next := match changes[0]
        case Sweep(at) => Blacklist.Swept(entries, at)
        case Listing(t, e, at) => entries[t := Blacklist.Entry(at, e)];
      assert Apply(entries, changes) == Apply(next, changes[1..]);
      if token in next {
        assert next[token].expiresAt == entries[token].expiresAt;
        forall i | 0 <= i < |changes[1..]| && changes[1..][i].Listing?
          ensures changes[1..][i].token != token
        {
          assert changes[1..][i] == changes[i + 1];
        }
        ListedUntilSweptPastExpiry(next, token, changes[1..]);
        var after := Apply(next, changes[1..]);
        if !(token in after && after[token].expiresAt == next[token].expiresAt) {
          var i :| 0 <= i < |changes[1..]| && changes[1..][i].Sweep? && next[token].expiresAt < changes[1..][i].at;
          assert changes[i + 1] == changes[1..][i];
        }
      } else {
        assert changes[0].Sweep? && entries[token].expiresAt < changes[0].at;
      }
    }
  }

  lemma ExpiredInSeconds(exp: int, now: int)
    requires exp * 1000 < now
    ensures now / 1000 >= exp
  {
    var q := now / 1000;
    assert now == q * 1000 + now % 1000 && now % 1000 < 1000;
    assert (exp - q - 1) * 1000 < 0;
  }

  /** A token that was logged out is never accepted again: while its entry
      is in the blacklist it is refused as invalidated, and a sweep removes
      the entry only after the token's own expiry, from when on the verifier
      reports it expired. Clearing the whole blacklist is not among the
      changes considered. */
  lemma LoggedOutTokenNeverAccepted(entries: map<string, Blacklist.Entry>, header: Option<string>,
                                    verify: string -> VerifyOutcome, decode: string -> Option<Payload>,
                                    loggedOutAt: int, changes: seq<Change>,
                                    now: int, laterVerify: string -> VerifyOutcome)
    requires AuthenticateToken(header, entries, verify).Pass?
    requires decode(TokenFromHeader(header).value).Some?
    requires forall i :: 0 <= i < |changes| ==> changes[i].at <= now
    requires forall i :: 0 <= i < |changes| && changes[i].Listing? ==> changes[i].token != TokenFromHeader(header).value
    requires VerifierAt(laterVerify, decode, now)
    ensures AuthenticateToken(header, Apply(Revoked(entries, header, verify, decode, loggedOutAt), changes), laterVerify).Deny?
  {
    var token := TokenFromHeader(header).value;
    var listed := Revoked(entries, header, verify, decode, loggedOutAt);
    var exp := decode(token).value.exp;
    assert token in listed && listed[token].expiresAt == exp * 1000;
    ListedUntilSweptPastExpiry(listed, token, changes);
    var after := Apply(listed, changes);
    if token !in after {
      var i :| 0 <= i < |changes| && changes[i].Sweep? && exp * 1000 < changes[i].at;
      ExpiredInSeconds(exp, now);
      assert !laterVerify(token).Valid?;
    }
  }
}
