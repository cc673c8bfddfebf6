/** The access gate (`backend/authMiddleware.js`): `authenticateToken`,
    `optionalAuth` and `requireAdmin`.

    The token is the second space-separated word of the Authorization header;
    the scheme word before it is never checked. The blacklist is consulted
    before the signature. `jwt.verify` is an oracle from token to outcome;
    its four outcomes stand for the error names the code distinguishes
    (`TokenExpiredError`, `JsonWebTokenError`, anything else). No issuer
    option is passed to it, so the issuer claim is never checked. */
module AuthMiddleware {
  import opened Wrappers
  import JsText
  import Blacklist

  /** The claims a token carries (`exp` in seconds since the epoch). */
  datatype Payload = Payload(userId: int, email: string, role: string, exp: int)

  /** What `jwt.verify` reports for a token. */
  datatype VerifyOutcome =
    | Valid(payload: Payload)
    | Expired      // TokenExpiredError
    | Malformed    // JsonWebTokenError
    | OtherError   // any other error, e.g. NotBeforeError

  /** `req.user`: `role` is absent when `authenticateToken` attached it. */
  datatype User = User(userId: int, email: string, role: Option<string>)

  /** A middleware's decision: send an error response, or call `next` once
      after attaching the given user and token (None: leave unset). */
  datatype Verdict =
    | Deny(status: nat, error: string)
    | Pass(user: Option<User>, token: Option<string>)

  /** `authHeader && authHeader.split(' ')[1]`, kept only when truthy. */
  function TokenFromHeader(header: Option<string>): (token: Option<string>)
    ensures token.Some? ==> token.value != "" && ' ' !in token.value
    ensures token.Some? ==> header.Some? && ' ' in header.value
  {
    if header.None? || header.value == "" then None
    else
      var words := JsText.Split(header.value, ' ');
      if |words| >= 2 && words[1] != "" then
        assert ' ' in header.value by {
          assert header.value == words[0] + [' '] + JsText.Join(words[1..], ' ');
        }
        Some(words[1])
      else
        None
  }

  /** `authenticateToken`. */
  function AuthenticateToken(header: Option<string>, blacklist: map<string, Blacklist.Entry>,
                             verify: string -> VerifyOutcome): (v: Verdict)
    ensures v.Deny? ==> v.status == 401
    ensures v.Pass? <==> (TokenFromHeader(header).Some?
                          && TokenFromHeader(header).value !in blacklist
                          && verify(TokenFromHeader(header).value).Valid?)
    ensures v.Pass? ==> v.token == TokenFromHeader(header) && v.user.Some?
                        && v.user.value.role.None?
                        && v.user.value.userId == verify(v.token.value).payload.userId
                        && v.user.value.email == verify(v.token.value).payload.email
  {
    match TokenFromHeader(header)
    case None => Deny(401, "Access token required")
    case Some(token) =>
      if token in blacklist then Deny(401, "Token has been invalidated")
      else
        match verify(token)
        case Expired => Deny(401, "Token has expired")
        case Malformed => Deny(401, "Invalid token")
        case OtherError => Deny(401, "Token verification failed")
        case Valid(p) => Pass(Some(User(p.userId, p.email, None)), Some(token))
  }

  /** `optionalAuth`. */
  function OptionalAuth(header: Option<string>, blacklist: map<string, Blacklist.Entry>,
                        verify: string -> VerifyOutcome): (v: Verdict)
    ensures v.Pass?
    ensures v.user.Some? <==> v.token.Some?
    ensures v.user.Some? <==> (TokenFromHeader(header).Some?
                               && TokenFromHeader(header).value !in blacklist
                               && verify(TokenFromHeader(header).value).Valid?)
    ensures v.user.Some? ==> v.token == TokenFromHeader(header)
                             && v.user.value.role == Some(verify(v.token.value).payload.role)
  {
    match TokenFromHeader(header)
    case None => Pass(None, None)
    case Some(token) =>
      if token in blacklist then Pass(None, None)
      else
        match verify(token)
        case Valid(p) => Pass(Some(User(p.userId, p.email, Some(p.role))), Some(token))
        case _ => Pass(None, None)
  }

  /** `requireAdmin`. */
  function RequireAdmin(user: Option<User>): (v: Verdict)
    ensures v.Deny? <==> user.None? || user.value.role != Some("admin")
    ensures v.Deny? ==> v.status == (if user.None? then 401 else 403)
    ensures v.Pass? ==> v.user.None? && v.token.None?
  {
    if user.None? then Deny(401, "Authentication required")
    else if user.value.role != Some("admin") then Deny(403, "Admin access required")
    else Pass(None, None)
  }

  // -----------------------------------------------------------------------
  // The request object the middleware writes to

  /** The parts of an Express request the gate reads and writes. */
  class Request {
    const authorization: Option<string>
    var user: Option<User>
    var token: Option<string>

    constructor (authorization: Option<string>)
      ensures this.authorization == authorization && user.None? && token.None?
    {
      this.authorization := authorization;
      user := None;
      token := None;
    }
  }

  /** `authenticateToken` run on a request: the shared blacklist is asked
      first, and on success `req.user` and `req.token` are set. */
  method AuthenticateTokenOn(req: Request, blacklist: Blacklist.TokenBlacklist,
                             verify: string -> VerifyOutcome) returns (v: Verdict)
    modifies req
    ensures v == AuthenticateToken(req.authorization, blacklist.entries, verify)
    ensures v.Pass? ==> req.user == v.user && req.token == v.token
    ensures v.Deny? ==> req.user == old(req.user) && req.token == old(req.token)
  {
    var token := TokenFromHeader(req.authorization);
    if token.None? {
      return Deny(401, "Access token required");
    }
    var listed := blacklist.IsBlacklisted(token.value);
    if listed {
      return Deny(401, "Token has been invalidated");
    }
    match verify(token.value) {
      case Expired => return Deny(401, "Token has expired");
      case Malformed => return Deny(401, "Invalid token");
      case OtherError => return Deny(401, "Token verification failed");
      case Valid(decoded) =>
        req.user := Some(User(decoded.userId, decoded.email, None));
        req.token := token;
        v := Pass(req.user, req.token);
    }
  }

  /** `optionalAuth` run on a request: never answers, and attaches a user
      only when the token is present, unlisted and verifies. */
  method OptionalAuthOn(req: Request, blacklist: Blacklist.TokenBlacklist,
                        verify: string -> VerifyOutcome) returns (v: Verdict)
    modifies req
    ensures v == OptionalAuth(req.authorization, blacklist.entries, verify)
    ensures v.user.Some? ==> req.user == v.user && req.token == v.token
    ensures v.user.None? ==> req.user == old(req.user) && req.token == old(req.token)
  {
    var token := TokenFromHeader(req.authorization);
    if token.None? {
      return Pass(None, None);
    }
    var listed := blacklist.IsBlacklisted(token.value);
    if listed {
      return Pass(None, None);
    }
    var outcome := verify(token.value);
    if outcome.Valid? {
      req.user := Some(User(outcome.payload.userId, outcome.payload.email, Some(outcome.payload.role)));
      req.token := token;
      return Pass(req.user, req.token);
    }
    return Pass(None, None);
  }

  // -----------------------------------------------------------------------
  // Properties

  /** The token is the second word of any header whose words are space-free,
      whatever the first word (the scheme) is. */
  lemma SecondWordIsToken(words: seq<string>)
    requires |words| >= 2 && words[1] != ""
    requires forall k :: 0 <= k < |words| ==> ' ' !in words[k]
    ensures TokenFromHeader(Some(JsText.Join(words, ' '))) == Some(words[1])
  {
    JsText.SplitJoin(words, ' ');
    assert JsText.Join(words, ' ') != "" by {
      assert JsText.Join(words, ' ') == words[0] + [' '] + JsText.Join(words[1..], ' ');
    }
  }

  /** `Bearer <t>` and `<anything> <t>` give the same token. */
  lemma SchemeIsIgnored(scheme: string, token: string)
    requires ' ' !in scheme && ' ' !in token && token != ""
    ensures TokenFromHeader(Some(scheme + " " + token)) == Some(token)
    ensures TokenFromHeader(Some("Bearer " + token)) == Some(token)
  {
    var words := [scheme, token];
    assert JsText.Join(words[1..], ' ') == token;
    assert JsText.Join(words, ' ') == scheme + " " + token;
    SecondWordIsToken(words);
    var bearer := ["Bearer", token];
    assert JsText.Join(bearer[1..], ' ') == token;
    assert JsText.Join(bearer, ' ') == "Bearer " + token;
    SecondWordIsToken(bearer);
  }

  /** A header without a space, or with two spaces after the scheme, yields
      no token and is refused with 'Access token required'. */
  lemma MissingTokenRefused(header: Option<string>, blacklist: map<string, Blacklist.Entry>,
                            verify: string -> VerifyOutcome)
    requires header.None? || ' ' !in header.value
    ensures AuthenticateToken(header, blacklist, verify) == Deny(401, "Access token required")
  {
  }

  lemma DoubleSpaceRefused(scheme: string, rest: string, blacklist: map<string, Blacklist.Entry>,
                           verify: string -> VerifyOutcome)
    requires ' ' !in scheme
    ensures AuthenticateToken(Some(scheme + "  " + rest), blacklist, verify) == Deny(401, "Access token required")
  {
    var h := scheme + "  " + rest;
    var words := JsText.Split(h, ' ');
    if |words| >= 2 && words[1] != "" {
      var tail := JsText.Join(words[1..], ' ');
      assert h == words[0] + [' '] + tail;
      assert |words[0]| == |scheme| by {
        assert h == scheme + ("  " + rest);
        PieceLength(scheme, "  " + rest, words);
      }
      assert h[|scheme| + 1] == ' ';
      assert words[1][0] != ' ';
      JoinStartsWithFirst(words[1..]);
      assert false;
    }
  }

  lemma JoinStartsWithFirst(pieces: seq<string>)
    requires |pieces| >= 1 && pieces[0] != ""
    ensures |JsText.Join(pieces, ' ')| > 0 && JsText.Join(pieces, ' ')[0] == pieces[0][0]
  {
  }

  /** When `h` is `first + rest` with a space-free `first` and `rest` starting
      with a space, the first piece of `h`'s split is exactly `first`. */
  lemma {:induction false} PieceLength(first: string, rest: string, words: seq<string>)
    requires ' ' !in first && |rest| > 0 && rest[0] == ' '
    requires words == JsText.Split(first + rest, ' ')
    ensures |words| >= 2 && words[0] == first
    decreases |first|
  {
    if first == [] {
      assert first + rest == rest;
    } else {
      var h := first + rest;
      assert h[1..] == first[1..] + rest;
      assert ' ' !in first[1..] by { assert forall c :: c in first[1..] ==> c in first; }
      PieceLength(first[1..], rest, JsText.Split(h[1..], ' '));
      assert [first[0]] + first[1..] == first;
    }
  }

  /** The blacklist is consulted before verification: a listed token is
      refused as invalidated whatever `jwt.verify` would have said. */
  lemma ListedBeforeVerify(header: Option<string>, blacklist: map<string, Blacklist.Entry>,
                           verify: string -> VerifyOutcome)
    requires TokenFromHeader(header).Some? && TokenFromHeader(header).value in blacklist
    ensures AuthenticateToken(header, blacklist, verify) == Deny(401, "Token has been invalidated")
    ensures OptionalAuth(header, blacklist, verify) == Pass(None, None)
  {
  }

  /** Each verification failure has its own message. */
  lemma VerifyFailureMessages(header: Option<string>, blacklist: map<string, Blacklist.Entry>,
                              verify: string -> VerifyOutcome)
    requires TokenFromHeader(header).Some? && TokenFromHeader(header).value !in blacklist
    ensures var o := verify(TokenFromHeader(header).value);
            AuthenticateToken(header, blacklist, verify) ==
              if o.Expired? then Deny(401, "Token has expired")
              else if o.Malformed? then Deny(401, "Invalid token")
              else if o.OtherError? then Deny(401, "Token verification failed")
              else Pass(Some(User(o.payload.userId, o.payload.email, None)), TokenFromHeader(header))
  {
  }

  /** `authenticateToken` never attaches a role, so `requireAdmin` placed
      after it refuses every request that got through, with 403. */
  lemma AdminUnreachableAfterAuthenticate(header: Option<string>, blacklist: map<string, Blacklist.Entry>,
                                          verify: string -> VerifyOutcome)
    requires AuthenticateToken(header, blacklist, verify).Pass?
    ensures RequireAdmin(AuthenticateToken(header, blacklist, verify).user) == Deny(403, "Admin access required")
  {
  }
}
