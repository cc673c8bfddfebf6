/** The client's session state (`frontend/src/AuthContext.jsx`): the
    `AuthProvider` keeps `user`, `token` and `loading`, mirrors the first
    two into the browser's `localStorage` under the keys "user" (as JSON)
    and "token", and restores them once at start-up.

    `JSON.parse` and `JSON.stringify` are oracles; a stored user that parses
    to JSON `null` is `Parsed(None)`. The network call a logout makes is
    returned as a value: its outcome never influences the state, since the
    local clean-up runs in a `finally` block. */
module AuthContext {
  import opened Wrappers
  import Login

  const UserKey: string := "user"
  const TokenKey: string := "token"
  const LogoutUrl: string := "/api/auth/logout"
  const LogoutAllUrl: string := "/api/auth/logout-all"

  /** What `JSON.parse` makes of the stored user. */
  datatype ParseOutcome = Parsed(value: Option<Login.PublicUser>) | SyntaxError

  /** The provider's state together with the storage it mirrors into. */
  datatype Session = Session(user: Option<Login.PublicUser>, token: Option<string>,
                             loading: bool, storage: map<string, string>)

  /** The `fetch` a logout sends. */
  datatype FetchRequest = FetchRequest(url: string, httpMethod: string,
                                       authorization: string, contentType: string)

  function Lookup(storage: map<string, string>, key: string): (r: Option<string>)
    ensures r.Some? <==> key in storage
    ensures r.Some? ==> r.value == storage[key]
  {
    if key in storage then Some(storage[key]) else None
  }

  /** The state after the start-up effect: both keys present and non-empty
      and the user parsing restores the session; a parse failure removes
      both keys; `loading` ends false on every path. */
  function AfterStartup(s: Session, parse: string -> ParseOutcome): (r: Session)
    ensures !r.loading
    ensures r.token.Some? && r.token != s.token ==>
              Login.Present(Lookup(s.storage, TokenKey)) && r.token == Lookup(s.storage, TokenKey)
    ensures r.storage != s.storage ==>
              r.storage == s.storage - {UserKey, TokenKey}
              && UserKey in s.storage && parse(s.storage[UserKey]).SyntaxError?
    ensures !Login.Present(Lookup(s.storage, TokenKey)) || !Login.Present(Lookup(s.storage, UserKey)) ==>
              r == s.(loading := false)
    ensures Login.Present(Lookup(s.storage, TokenKey)) && Login.Present(Lookup(s.storage, UserKey))
            && parse(s.storage[UserKey]).Parsed? ==>
              r == s.(token := Lookup(s.storage, TokenKey), user := parse(s.storage[UserKey]).value, loading := false)
  {
    var storedToken := Lookup(s.storage, TokenKey);
    var storedUser := Lookup(s.storage, UserKey);
    if Login.Present(storedToken) && Login.Present(storedUser) then
      match parse(storedUser.value)
      case Parsed(userData) => s.(token := storedToken, user := userData, loading := false)
      case SyntaxError => s.(storage := s.storage - {TokenKey, UserKey}, loading := false)
    else
      s.(loading := false)
  }

  /** The state after `login(u, t)`. */
  function AfterLogin(s: Session, u: Login.PublicUser, t: string, stringify: Login.PublicUser -> string): (r: Session)
    ensures r.user == Some(u) && r.token == Some(t) && r.loading == s.loading
    ensures Lookup(r.storage, UserKey) == Some(stringify(u)) && Lookup(r.storage, TokenKey) == Some(t)
    ensures forall k :: k != UserKey && k != TokenKey ==> Lookup(r.storage, k) == Lookup(s.storage, k)
  {
    s.(user := Some(u), token := Some(t), storage := s.storage[UserKey := stringify(u)][TokenKey := t])
  }

  /** The state after `logout` or `logoutFromAllDevices`, whatever the
      network does. */
  function AfterLogout(s: Session): (r: Session)
    ensures r.user.None? && r.token.None? && r.loading == s.loading
    ensures UserKey !in r.storage && TokenKey !in r.storage
    ensures forall k :: k != UserKey && k != TokenKey ==> Lookup(r.storage, k) == Lookup(s.storage, k)
  {
    s.(user := None, token := None, storage := s.storage - {UserKey, TokenKey})
  }

  /** The request a logout sends to `url`: none without a token. */
  function LogoutCall(s: Session, url: string): (r: Option<FetchRequest>)
    ensures r.Some? <==> Login.Present(s.token)
    ensures r.Some? ==> r.value.url == url && r.value.httpMethod == "POST"
                        && r.value.authorization == "Bearer " + s.token.value
                        && r.value.contentType == "application/json"
  {
    if Login.Present(s.token) then Some(FetchRequest(url, "POST", "Bearer " + s.token.value, "application/json"))
    else None
  }

  /** `isAuthenticated()`: both a user and a non-empty token are held. */
  predicate Authenticated(s: Session) {
    s.user.Some? && Login.Present(s.token)
  }

  /** `getAuthHeaders()`: a Bearer header exactly when a token is held. */
  function AuthHeaders(s: Session): (r: map<string, string>)
    ensures r != map[] <==> Login.Present(s.token)
    ensures r != map[] ==> r == map["Authorization" := "Bearer " + s.token.value]
  {
    if Login.Present(s.token) then
      var headers := map["Authorization" := "Bearer " + s.token.value];
      assert "Authorization" in headers;
      headers
    else
      map[]
  }

  class AuthProvider {
    var user: Option<Login.PublicUser>
    var token: Option<string>
    var loading: bool
    var storage: map<string, string>

    function State(): Session
      reads this
    {
      Session(user, token, loading, storage)
    }

    /** The provider's first render: nothing held, still loading. */
    constructor (initialStorage: map<string, string>)
      ensures State() == Session(None, None, true, initialStorage)
    {
      user, token, loading := None, None, true;
      storage := initialStorage;
    }

    /** The start-up effect. */
    method Restore(parse: string -> ParseOutcome)
      modifies this
      ensures State() == AfterStartup(old(State()), parse)
    {
      var storedToken := Lookup(storage, TokenKey);
      var storedUser := Lookup(storage, UserKey);
      if Login.Present(storedToken) && Login.Present(storedUser) {
        var parsed := parse(storedUser.value);
        if parsed.Parsed? {
          token := storedToken;
          user := parsed.value;
        } else {
          storage := storage - {TokenKey};
          storage := storage - {UserKey};
        }
      }
      loading := false;
    }

    method LogIn(userData: Login.PublicUser, authToken: string, stringify: Login.PublicUser -> string)
      modifies this
      ensures State() == AfterLogin(old(State()), userData, authToken, stringify)
    {
      user := Some(userData);
      token := Some(authToken);
      storage := storage[UserKey := stringify(userData)];
      storage := storage[TokenKey := authToken];
    }

    /** `logout`: returns the request sent to the server, if any. */
    method LogOut() returns (sent: Option<FetchRequest>)
      modifies this
      ensures sent == LogoutCall(old(State()), LogoutUrl)
      ensures State() == AfterLogout(old(State()))
    {
      sent := None;
      if Login.Present(token) {
        sent := Some(FetchRequest(LogoutUrl, "POST", "Bearer " + token.value, "application/json"));
      }
      user := None;
      token := None;
      storage := storage - {UserKey};
      storage := storage - {TokenKey};
    }

    /** `logoutFromAllDevices`: returns the request sent to the server, if any. */
    method LogOutFromAllDevices() returns (sent: Option<FetchRequest>)
      modifies this
      ensures sent == LogoutCall(old(State()), LogoutAllUrl)
      ensures State() == AfterLogout(old(State()))
    {
      sent := None;
      if Login.Present(token) {
        sent := Some(FetchRequest(LogoutAllUrl, "POST", "Bearer " + token.value, "application/json"));
      }
      user := None;
      token := None;
      storage := storage - {UserKey};
      storage := storage - {TokenKey};
    }

    method IsAuthenticated() returns (authenticated: bool)
      ensures authenticated == Authenticated(State())
    {
      authenticated := user.Some? && Login.Present(token);
    }

    method GetAuthHeaders() returns (headers: map<string, string>)
      ensures headers == AuthHeaders(State())
    {
      headers := if Login.Present(token) then map["Authorization" := "Bearer " + token.value] else map[];
    }
  }

  // -----------------------------------------------------------------------
  // Properties

  /** A reload after `login(u, t)` restores the same user and token, as long
      as the token is non-empty and the user survives the JSON round trip. */
  lemma ReloadRestoresLogin(s: Session, u: Login.PublicUser, t: string,
                            stringify: Login.PublicUser -> string, parse: string -> ParseOutcome)
    requires t != "" && stringify(u) != ""
    requires parse(stringify(u)) == Parsed(Some(u))
    ensures var saved := AfterLogin(s, u, t, stringify).storage;
            var restored := AfterStartup(Session(None, None, true, saved), parse);
            restored == Session(Some(u), Some(t), false, saved) && Authenticated(restored)
  {
  }

  /** A reload after a logout restores nothing. */
  lemma ReloadAfterLogout(s: Session, parse: string -> ParseOutcome)
    ensures var saved := AfterLogout(s).storage;
            AfterStartup(Session(None, None, true, saved), parse) == Session(None, None, false, saved)
  {
  }

  /** The two logouts have the same local effect and send the same request
      but for the endpoint. */
  lemma LogoutsDifferOnlyInEndpoint(s: Session)
    ensures LogoutCall(s, LogoutUrl).Some? <==> LogoutCall(s, LogoutAllUrl).Some?
    ensures LogoutCall(s, LogoutUrl).Some? ==>
              LogoutCall(s, LogoutAllUrl) == Some(LogoutCall(s, LogoutUrl).value.(url := LogoutAllUrl))
  {
  }

  /** Being authenticated implies sending a Bearer header; after a logout
      neither holds. */
  lemma AuthenticatedSendsHeader(s: Session)
    ensures Authenticated(s) ==> AuthHeaders(s) == map["Authorization" := "Bearer " + s.token.value]
    ensures !Authenticated(AfterLogout(s)) && AuthHeaders(AfterLogout(s)) == map[]
  {
  }

  /** A stored user that does not parse leaves the client logged out with
      both keys removed, so the next start-up restores nothing either. */
  lemma CorruptStorageIsDiscarded(s: Session, parse: string -> ParseOutcome)
    requires s.user.None? && s.token.None?
    requires Login.Present(Lookup(s.storage, TokenKey)) && Login.Present(Lookup(s.storage, UserKey))
    requires parse(s.storage[UserKey]).SyntaxError?
    ensures var r := AfterStartup(s, parse);
            !Authenticated(r) && UserKey !in r.storage && TokenKey !in r.storage
            && AfterStartup(r, parse) == r
  {
  }
}
