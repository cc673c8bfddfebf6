# Session bookkeeping and helpers of a weather dashboard, in Dafny

The dashboard is an Express API with a React client. This project models the
logic that decides who is logged in and what a request gets back, plus the
two pure helpers the API uses for cities and forecasts. Each source file
below is one Dafny module:

- `Blacklist` (`backend/tokenBlacklist.js`): the in-memory revocation
  table, as a class whose methods update a `map` field. The sweep and the
  statistics are loops over the keys.
- `Login` (`backend/routes/login.js`): the per-email throttle (five
  failures, fifteen-minute lock) as a class over a `map`. The `/login`
  handler is a method with early returns, specified by a pure
  `HandleLogin`.
- `AuthMiddleware` (`backend/authMiddleware.js`): `authenticateToken`,
  `optionalAuth` and `requireAdmin` as decision functions. A method runs
  each of the first two against a request object and the shared blacklist.
- `AuthSession` (`backend/routes/auth-session.js`): `/logout`,
  `/logout-all`, `/profile`, `/verify` and `/blacklist-stats`, composed
  with the middleware and the blacklist.
- `Registration` (`backend/routes/auth.js`): the two validators, proved
  equal to what their regular expressions match, and the `/register`
  chain of checks.
- `AuthContext` (`frontend/src/AuthContext.jsx`): the client's session
  state and its mirror in `localStorage`, as a class with one method per
  action.
- `GermanCities` (`backend/germanCities.js`): the state/city table and its
  queries.
- `WeatherService` (`backend/weatherService.js`): `groupForecastsByDay`,
  as a loop filling the per-date map followed by `Object.values`, `map`
  and `slice(0, 7)`, and `getMostFrequent`.

The supporting modules are:
- `JsText`: `trim`, `toLowerCase`, `split` and `includes` with their
  ECMAScript meaning.
- `JsSort`: the default `Array.prototype.sort` on strings.
- `Wrappers`: `Option`.

Time, cryptography and the database are parameters:
- `Date.now()` is `now`.
- `jwt.verify`, `jwt.decode`, `jwt.sign`, `bcrypt.compare`, `JSON.parse`
  and `JSON.stringify` are function-typed oracles.
- The user table is a map, or a set of emails, together with the outcome of
  the `INSERT`.
- The date key of a forecast item is the oracle `dateKey`.

Each request is one atomic step.

Behaviour of the code that the model proves as written:
- The token is the second space-separated word of the Authorization header,
  and the scheme word is never checked.
- `authenticateToken` attaches no role. Therefore `requireAdmin`, and the
  admin check of `/blacklist-stats`, refuse every request it lets through.
- `/logout-all` revokes only the presented token.
- A whitespace-only name passes the required-field check and is stored
  empty.
- The password is validated untrimmed.

## Model

| member | source | states |
|---|---|---|
| `Blacklist.TokenBlacklist.constructor` | backend/tokenBlacklist.js:4-11 | the registry starts with no listed token |
| `Blacklist.TokenBlacklist.AddToken` | backend/tokenBlacklist.js:14-19 | the token is listed with the current time and the given expiry, replacing any earlier entry; every other token's membership is unchanged; the size grows by one exactly when the token was not yet listed |
| `Blacklist.TokenBlacklist.IsBlacklisted` | backend/tokenBlacklist.js:22-24 | true exactly when the token is a key, whatever its stored expiry |
| `Blacklist.TokenBlacklist.CleanupExpiredTokens` | backend/tokenBlacklist.js:27-41 | afterwards the table holds exactly the entries with `expiresAt >= now`, unchanged; the source returns nothing and only logs how many it removed, and the model returns that number, which is the drop in size |
| `Blacklist.TokenBlacklist.GetStats` | backend/tokenBlacklist.js:44-50 | the size, and no oldest time exactly when the table is empty; otherwise the smallest `blacklistedAt` of any entry |
| `Blacklist.TokenBlacklist.ClearAll` | backend/tokenBlacklist.js:53-57 | returns the previous size and leaves the table empty |
| `Blacklist.SweptSize` | backend/tokenBlacklist.js:27-36 | a sweep shrinks the table by exactly the number of entries whose expiry lies strictly before `now` |
| `Blacklist.SweepRemovesExactlyExpired` | backend/tokenBlacklist.js:31-35 | a listed token survives the sweep iff its expiry is at or after `now`, and then with its entry unchanged |
| `Blacklist.SweepIdempotent` | backend/tokenBlacklist.js:27-36 | a second sweep at the same time removes nothing |
| `Blacklist.SweepsCompose` | backend/tokenBlacklist.js:27-36 | two sweeps in time order have the effect of the later one alone |
| `Blacklist.RelistKeepsSize` | backend/tokenBlacklist.js:15-18 | re-listing a listed token does not change the number of entries |
| `Login.Throttle.constructor` | backend/routes/login.js:8 | the attempt table starts empty |
| `Login.Throttle.IsRateLimited` | backend/routes/login.js:12-26 | answers whether the email is locked (at least five failures, the last less than fifteen minutes ago) and deletes a lock whose window has elapsed, touching nothing else |
| `Login.Throttle.RecordLoginAttempt` | backend/routes/login.js:28-38 | a success deletes the email's record; a failure adds one to its count (starting from zero) and stamps `now` |
| `Login.PostLogin` | backend/routes/login.js:40-98 | the handler's early returns produce exactly the specified outcome and attempt table: 400 without email or password, 429 when locked, 401 for an unknown email or a wrong password (both recorded as failures), otherwise (with `bcrypt.compare` and `jwt.sign` taken as never throwing) 200 with the row minus its password and a token signed for id, email and role with issuer "osma-weather-api" and expiry `JWT_EXPIRES_IN` or "24h" |
| `Login.LockedExactly` | backend/routes/login.js:12-26 | locked iff a record with count >= 5 and `now - lastAttempt < 900000` exists; never without a record or below five failures |
| `Login.ElapsedLockRestarts` | backend/routes/login.js:16-37 | once the window has elapsed the check reports unlocked and deletes the record, so the next failure counts one |
| `Login.RecordIsLocal` | backend/routes/login.js:28-38 | recording changes only the given email's record, deleting it on success and setting (previous count + 1, now) on failure |
| `Login.NormalizeIdempotent` | backend/routes/login.js:48 | trimming and lower-casing a normalised email leaves it unchanged |
| `Login.NormalizeIgnoresVariants` | backend/routes/login.js:48 | surrounding whitespace and upper case do not change the normalised email |
| `Login.MissingFieldsLeaveTable` | backend/routes/login.js:44-46 | a missing or empty email or password gives 400 and leaves the attempt table as it was |
| `Login.LockedRefusesEvenCorrectPassword` | backend/routes/login.js:50-54 | a locked email gets 429 before any credential check: nothing is recorded and the lock window is not extended |
| `Login.CorrectPasswordClears` | backend/routes/login.js:66-74 | the right password for an unlocked email authenticates and deletes the email's record |
| `Login.EmailVariantsShareRecord` | backend/routes/login.js:48-50 | emails differing only in surrounding whitespace and letter case get the same outcome and update the same record |
| `Login.HandleLoginKeepsBound` | backend/routes/login.js:50-72 | one request never raises a record's count above five |
| `Login.RunKeepsBound` | backend/routes/login.js:40-98 | over any sequence of requests from a table within the bound, every count stays at most five |
| `Login.FourFailuresThenSuccess` | backend/routes/login.js:28-38 | four failures followed by a success leave no record and no lock |
| `Login.FailuresCount` | backend/routes/login.js:28-38 | n <= 5 failed attempts from no record leave the record (n, time of the last one) |
| `Login.FiveFailuresLock` | backend/routes/login.js:9-26 | five failures lock the email for fifteen minutes after the last one; sixteen minutes later it is unlocked and the check deletes the record |
| `AuthMiddleware.TokenFromHeader` | backend/authMiddleware.js:5-6 | a token is found only in a header containing a space, and it is non-empty and space-free |
| `AuthMiddleware.AuthenticateToken` | backend/authMiddleware.js:4-34 | every refusal is a 401; a request passes iff the header yields a token that is not listed and verifies, and then carries that token and a user with the payload's id and email and no role |
| `AuthMiddleware.OptionalAuth` | backend/authMiddleware.js:36-59 | never answers; attaches a user, with role, and the token exactly when the token is present, not listed and verifies |
| `AuthMiddleware.RequireAdmin` | backend/authMiddleware.js:61-71 | refuses iff there is no user (401) or its role is not "admin" (403); otherwise calls `next` without attaching anything |
| `AuthMiddleware.AuthenticateTokenOn` | backend/authMiddleware.js:4-34 | the decision is `authenticateToken`'s, taken against the shared blacklist; on success `req.user` and `req.token` are set, on refusal they are untouched |
| `AuthMiddleware.OptionalAuthOn` | backend/authMiddleware.js:36-59 | the decision is `optionalAuth`'s; the request is written only when a user is attached |
| `AuthMiddleware.SecondWordIsToken` | backend/authMiddleware.js:5-6 | for a header made of space-free words, the token is exactly the second word |
| `AuthMiddleware.SchemeIsIgnored` | backend/authMiddleware.js:5-6 | "Bearer t" and "anything t" yield the same token t |
| `AuthMiddleware.MissingTokenRefused` | backend/authMiddleware.js:5-10 | a missing header or one without a space is refused with "Access token required" |
| `AuthMiddleware.DoubleSpaceRefused` | backend/authMiddleware.js:5-10 | two spaces after the scheme leave the second word empty, and the request is refused with "Access token required" |
| `AuthMiddleware.ListedBeforeVerify` | backend/authMiddleware.js:12-16 | a listed token is refused as invalidated (and ignored by `optionalAuth`) whatever the verifier would say |
| `AuthMiddleware.VerifyFailureMessages` | backend/authMiddleware.js:16-25 | expired, malformed and other failures each get their own 401 message; a valid token passes |
| `AuthMiddleware.AdminUnreachableAfterAuthenticate` | backend/authMiddleware.js:27-71 | `requireAdmin` after a successful `authenticateToken` always answers 403, because no role is attached |
| `AuthSession.Revoked` | backend/routes/auth-session.js:7-23 | a request the middleware refuses, or whose token `jwt.decode` cannot read, leaves the blacklist unchanged; otherwise exactly the presented token is listed, with the current time and its `exp` times 1000, and every other entry is kept |
| `AuthSession.LogoutResponse` | backend/routes/auth-session.js:7-23 | 401 iff the middleware refuses, 500 iff the token does not decode, 200 with the success message otherwise |
| `AuthSession.Logout` | backend/routes/auth-session.js:7-23 | the blacklist afterwards and the response are those specified by `Revoked` and `LogoutResponse` |
| `AuthSession.LogoutAll` | backend/routes/auth-session.js:25-41 | the same effect on the blacklist as `/logout`, so only the presented token is revoked; only the messages differ |
| `AuthSession.ProfileResponse` | backend/routes/auth-session.js:43-60 | 200 iff the middleware passes, echoing the payload's id and email with no role and `tokenValid: true`; otherwise 401 |
| `AuthSession.Profile` | backend/routes/auth-session.js:43-60 | the answer is `ProfileResponse`'s |
| `AuthSession.VerifyResponse` | backend/routes/auth-session.js:63-69 | 200 with `valid: true` and the attached user iff the middleware passes; otherwise 401 |
| `AuthSession.Verify` | backend/routes/auth-session.js:63-69 | the answer is `VerifyResponse`'s |
| `AuthSession.StatsHandler` | backend/routes/auth-session.js:72-79 | 200 with the statistics iff the attached user's role is "admin"; otherwise 403 "Admin access required" |
| `AuthSession.BlacklistStatsHandler` | backend/routes/auth-session.js:72-79 | the answer is `StatsHandler`'s for the attached user, with statistics that, for an admin, give the blacklist's size, no oldest time exactly when the blacklist is empty, and otherwise the smallest listing time of any entry; anyone else gets 403 |
| `AuthSession.BlacklistStats` | backend/routes/auth-session.js:72-79 | behind `authenticateToken` the route answers 401 when refused and 403 otherwise, never the statistics |
| `AuthSession.LogoutListsToken` | backend/routes/auth-session.js:9-13 | after a successful logout the token is listed with expiry `exp * 1000`, and `authenticateToken` refuses it as invalidated whatever the verifier says |
| `AuthSession.LogoutOfListedTokenIsRefused` | backend/routes/auth-session.js:7-13 | logging out with a revoked token gives 401 and leaves the blacklist unchanged |
| `AuthSession.StatsNeverServed` | backend/routes/auth-session.js:72-75 | every user `authenticateToken` attaches gets 403 from the statistics handler |
| `AuthSession.ListedUntilSweptPastExpiry` | backend/tokenBlacklist.js:27-36 | a listed token stays listed with its expiry through sweeps and other listings, unless some sweep ran after its expiry |
| `AuthSession.LoggedOutTokenNeverAccepted` | backend/routes/auth-session.js:9-13 | a logged-out token is refused by every later `authenticateToken`, whatever sweeps and other logouts happen in between, given a verifier that rejects tokens past `exp` |
| `Registration.ValidEmail` | backend/routes/auth.js:6-9 | true iff the string splits into three non-empty runs without whitespace or '@', joined by '@' and '.' (what the expression matches, with backtracking) |
| `Registration.ShapedMatches` | backend/routes/auth.js:7 | a string with a single '@' that is not first, no whitespace, and a '.' after the '@' that is neither its first nor the last character matches the email expression |
| `Registration.MatchesShaped` | backend/routes/auth.js:7 | conversely every match of the email expression has that shape |
| `Registration.ValidPassword` | backend/routes/auth.js:11-14 | true iff the three lookaheads and `.{8,}$` match: at least eight UTF-16 code units (a code point above U+FFFF counts twice, since the expression has no `u` flag), no line terminator, and at least one a-z, one A-Z and one digit |
| `Registration.Utf16LengthOfBmp` | backend/routes/auth.js:12 | for a string without code points above U+FFFF the length `.{8,}` measures is its number of characters |
| `Registration.AstralCountsTwice` | backend/routes/auth.js:12 | "Aa1" followed by three U+1F600 has six code points and nine code units, and the password passes |
| `Registration.LookaheadWithoutTerminators` | backend/routes/auth.js:12 | on a string without line terminators a lookahead `(?=.*X)` succeeds iff some character is in class X |
| `Registration.RoleOf` | backend/routes/auth.js:19 | a missing or empty role becomes "user"; any other given role is kept |
| `Registration.Check` | backend/routes/auth.js:18-56 | the row is inserted iff all fields are present, the normalised email and the raw password are valid, the role is "user" or "admin" and the email is not registered; refusals are 400 or 409; the stored row holds the trimmed names and city, the normalised email and `role \|\| 'user'` |
| `Registration.Register` | backend/routes/auth.js:16-67 | 201 with the row iff the checks pass and the insert succeeds; a failed insert is 409 for code 23505 and 500 for any other code |
| `Registration.FirstFailureDecides` | backend/routes/auth.js:21-47 | each refusal message is given exactly when every earlier check passed and its own check fails |
| `Registration.RoleWhitelist` | backend/routes/auth.js:19-42 | only an absent or empty role, "user" or "admin" passes the role check |
| `Registration.StoredEmailIsNormal` | backend/routes/auth.js:25 | the stored email is the trimmed, lower-cased request email and is already in normal form |
| `Registration.VariantIsDuplicate` | backend/routes/auth.js:44-47 | once an email is registered, any email that differs from it only in letter case and surrounding whitespace is refused with 409 |
| `Registration.BlankNameStoredEmpty` | backend/routes/auth.js:21-28 | a first name of only whitespace passes the required-field check and is stored as the empty string |
| `Registration.PasswordNotTrimmed` | backend/routes/auth.js:34 | "Abcdef1 " is accepted while "Abcdef1" is not: the trailing space counts towards the length |
| `Registration.InsertRaceIsDuplicate` | backend/routes/auth.js:61-65 | a unique violation at insert time gets the same answer as a duplicate found by the lookup |
| `AuthContext.AfterStartup` | frontend/src/AuthContext.jsx:18-33 | loading ends false; the token changes only to a stored, non-empty one; storage changes only by removing both keys after a parse failure; without both keys nothing but loading changes; with both keys present and a user that parses, the stored token and the parsed user are restored and nothing else changes |
| `AuthContext.AfterLogin` | frontend/src/AuthContext.jsx:35-40 | user and token are set, storage holds the user's JSON under "user" and the token under "token", and every other key is untouched |
| `AuthContext.AfterLogout` | frontend/src/AuthContext.jsx:42-61 | user, token and both storage keys are cleared, every other key is untouched, whatever the network did |
| `AuthContext.LogoutCall` | frontend/src/AuthContext.jsx:44-51 | a request is sent iff a non-empty token is held, as a POST to the given endpoint with `Bearer <token>` and a JSON content type |
| `AuthContext.AuthHeaders` | frontend/src/AuthContext.jsx:88-90 | a Bearer Authorization header iff a token is held, the empty object otherwise |
| `AuthContext.AuthProvider.constructor` | frontend/src/AuthContext.jsx:13-16 | no user, no token, loading, and the storage as found |
| `AuthContext.AuthProvider.Restore` | frontend/src/AuthContext.jsx:18-33 | the state afterwards is the start-up state specified by `AfterStartup` |
| `AuthContext.AuthProvider.LogIn` | frontend/src/AuthContext.jsx:35-40 | the state afterwards is `AfterLogin`'s |
| `AuthContext.AuthProvider.LogOut` | frontend/src/AuthContext.jsx:42-61 | sends the request `LogoutCall` describes for "/api/auth/logout" and ends in `AfterLogout`'s state |
| `AuthContext.AuthProvider.LogOutFromAllDevices` | frontend/src/AuthContext.jsx:63-82 | the same for "/api/auth/logout-all" |
| `AuthContext.AuthProvider.IsAuthenticated` | frontend/src/AuthContext.jsx:84-86 | true iff a user and a non-empty token are held |
| `AuthContext.AuthProvider.GetAuthHeaders` | frontend/src/AuthContext.jsx:88-90 | the headers `AuthHeaders` describes for the current token |
| `AuthContext.ReloadRestoresLogin` | frontend/src/AuthContext.jsx:18-40 | a reload after `login(u, t)` restores exactly u and t and is authenticated, if the user survives the JSON round trip |
| `AuthContext.ReloadAfterLogout` | frontend/src/AuthContext.jsx:18-61 | a reload after a logout restores nothing |
| `AuthContext.LogoutsDifferOnlyInEndpoint` | frontend/src/AuthContext.jsx:42-82 | both logouts send a request in the same cases, and the requests differ only in the URL |
| `AuthContext.AuthenticatedSendsHeader` | frontend/src/AuthContext.jsx:84-90 | an authenticated client sends the Bearer header; after a logout it is neither authenticated nor sends one |
| `AuthContext.CorruptStorageIsDiscarded` | frontend/src/AuthContext.jsx:22-30 | a stored user that does not parse leaves the client logged out with both keys removed, and a further start-up changes nothing |
| `GermanCities.Concat` | backend/germanCities.js:110-113 | a city is in the concatenation iff some state lists it |
| `GermanCities.AllGermanCities` | backend/germanCities.js:109-115 | the result is sorted in code-unit order and is a permutation of all states' lists, state after state |
| `GermanCities.Lookup` | backend/germanCities.js:119 | finds nothing iff no entry has the key; what it finds is an entry with that key |
| `GermanCities.Keys` | backend/germanCities.js:124 | the table's keys, one per entry, in order |
| `GermanCities.OwnCities` | backend/germanCities.js:119 | in a table with distinct keys and non-empty lists: non-empty iff the name is a key, and then that key's list |
| `GermanCities.CitiesByStateAsWritten` | backend/germanCities.js:118-120 | as written, an inherited member is returned exactly for a non-state name of `Object.prototype`; every other answer is the intended one |
| `GermanCities.CitiesByState` | backend/germanCities.js:118-120 | non-empty iff the name is one of the states, and then that state's list; the empty list for every other name |
| `GermanCities.GermanStates` | backend/germanCities.js:123-125 | the sixteen state names in table order |
| `GermanCities.Matching` | backend/germanCities.js:130-132 | keeps exactly the cities containing the term, ignoring case, each as often as it occurs in the input, and drops every other; a term every city contains keeps the list whole |
| `GermanCities.MatchingSorted` | backend/germanCities.js:130-132 | filtering a sorted list leaves it sorted |
| `GermanCities.SearchGermanCities` | backend/germanCities.js:128-133 | sorted, and holding each city of the table whose lower-cased name contains the lower-cased term as often as the table lists it, and no other city; the empty term finds every city |
| `GermanCities.MajorGermanCities` | backend/germanCities.js:136-148 | a list of fifty cities |
| `GermanCities.TableWellFormed` | backend/germanCities.js:4-106 | the table meets what the corrected lookup needs: distinct states, each with a city |
| `GermanCities.StatesDistinct` | backend/germanCities.js:4-106 | no state occurs twice |
| `GermanCities.EveryStateHasCities` | backend/germanCities.js:4-106 | every state has at least one city |
| `GermanCities.StatesCapitalised` | backend/germanCities.js:4-106 | every state name starts with a capital letter, so no state name is a member of `Object.prototype` |
| `GermanCities.PrototypeKeyLeaks` | backend/germanCities.js:119 | "constructor" yields an inherited member as written, and the empty list as intended |
| `GermanCities.SearchIgnoresCase` | backend/germanCities.js:131 | searching for a term or for its lower-cased form gives the same cities |
| `WeatherService.InsertByCount` | backend/weatherService.js:104-105 | one more element; the last one is the inserted element iff its count is at least that of the previous last |
| `WeatherService.InsertByCountPermutes` | backend/weatherService.js:104-105 | inserting adds exactly that element |
| `WeatherService.SortByCount` | backend/weatherService.js:104-105 | the sort keeps the length |
| `WeatherService.InsertByCountSorted` | backend/weatherService.js:104-105 | one step of the sort keeps a sequence ordered by count |
| `WeatherService.SortByCountOrdered` | backend/weatherService.js:104-105 | the result is in ascending order of count, as the comparator `count(a) - count(b)` asks |
| `WeatherService.InsertByCountStable` | backend/weatherService.js:104-105 | one step of the sort places the element after every element with the same count |
| `WeatherService.SortByCountStable` | backend/weatherService.js:104-105 | elements with equal counts keep their input order |
| `WeatherService.StableSortUnique` | backend/weatherService.js:104-105 | two sequences ordered by count with the same elements of each count in the same order are equal |
| `WeatherService.AnyStableSortAgrees` | backend/weatherService.js:104-105 | every stable sort by count of the array gives exactly the sequence the model computes |
| `WeatherService.SortByCountPermutes` | backend/weatherService.js:104-105 | the sort neither adds nor drops an element |
| `WeatherService.SortedLastIsLatestMaximal` | backend/weatherService.js:104-106 | after the stable sort by count, the last element is the latest element with the highest count |
| `WeatherService.MostFrequent` | backend/weatherService.js:103-107 | `undefined` iff the list is empty; otherwise an element of the list |
| `WeatherService.MostFrequentIsLatestMaximal` | backend/weatherService.js:103-107 | on a non-empty list, the result is the latest element whose count is maximal |
| `WeatherService.MostFrequentIsMaximal` | backend/weatherService.js:103-107 | no element occurs more often than the result |
| `WeatherService.Dates` | backend/weatherService.js:66 | the date key of every item, in input order |
| `WeatherService.FirstSeen` | backend/weatherService.js:68-78 | holds every date key once and nothing else |
| `WeatherService.FirstSeenOrder` | backend/weatherService.js:68-78 | the dates are listed by the position of their first occurrence |
| `WeatherService.ItemsOn` | backend/weatherService.js:80-85 | empty iff no item has that date |
| `WeatherService.ItemsOnExactly` | backend/weatherService.js:80-85 | an item is collected for a date iff it is in the input with that date key |
| `WeatherService.PushExtends` | backend/weatherService.js:80-85 | pushing an item appends its six values to its day's arrays |
| `WeatherService.Min` | backend/weatherService.js:92 | the minimum is in the list and no element is below it |
| `WeatherService.Max` | backend/weatherService.js:93 | the maximum is in the list and no element is above it |
| `WeatherService.Summary` | backend/weatherService.js:89-99 | the day's record keeps the date and has minimum <= maximum |
| `WeatherService.CollectByDate` | backend/weatherService.js:63-86 | the keys created are the first-seen dates in creation order, and each date's arrays hold the values of exactly its items, in input order |
| `WeatherService.DayGroups` | backend/weatherService.js:89-100 | at most seven groups, one per date in first-seen order, each with at least one value |
| `WeatherService.Summaries` | backend/weatherService.js:89-99 | one record per group, with the group's date and minimum <= maximum |
| `WeatherService.Forecast` | backend/weatherService.js:62-101 | min(7, number of dates) records, the d-th for the d-th date first seen, each with minimum <= maximum |
| `WeatherService.Values` | backend/weatherService.js:89 | one group per created key |
| `WeatherService.ValuesAreDayGroups` | backend/weatherService.js:89-100 | the first seven values of the collected object are the groups of the first seven dates |
| `WeatherService.GroupForecastsByDay` | backend/weatherService.js:62-101 | the loop and the `map`/`slice` return the records `Forecast` specifies |
| `WeatherService.DaysInFirstSeenOrder` | backend/weatherService.js:65-89 | the records' dates occur in the input, are distinct, and follow the order of first occurrence |
| `WeatherService.EveryDateHasDay` | backend/weatherService.js:89-100 | with at most seven distinct dates, every date of the input has a record |
| `WeatherService.DayBoundsItsTemperatures` | backend/weatherService.js:80-93 | every item's temperature lies between its day's minimum and maximum |
| `WeatherService.DayFieldsAreMostFrequent` | backend/weatherService.js:95-99 | each day's condition, description and icon are what `getMostFrequent` picks from exactly that day's items |
| `JsText.Trim` | backend/routes/login.js:48 | the result is a slice of the input with only whitespace removed around it, and it neither starts nor ends with whitespace |
| `JsText.TrimIgnoresPadding` | backend/routes/login.js:48 | extra whitespace around a string does not change its trimmed form |
| `JsText.TrimIdempotent` | backend/routes/login.js:48 | trimming twice is trimming once |
| `JsText.ToLower` | backend/routes/login.js:48 | the same length, code point by code point lower-cased |
| `JsText.ToLowerIdempotent` | backend/routes/login.js:48 | lower-casing twice is lower-casing once |
| `JsText.TrimToLower` | backend/routes/login.js:48 | trimming and lower-casing commute |
| `JsText.Split` | backend/authMiddleware.js:6 | at least one piece, none containing the separator, and joining the pieces gives back the input |
| `JsText.SplitJoin` | backend/authMiddleware.js:6 | splitting a join of separator-free pieces gives back the pieces |
| `JsText.Includes` | backend/germanCities.js:131 | true iff the term occurs as a contiguous part of the string |
| `JsText.EmptyIsIncluded` | backend/germanCities.js:131 | every string includes the empty term |
| `JsSort.Insert` | backend/germanCities.js:114 | inserting into a sorted list keeps it sorted and adds exactly that element |
| `JsSort.Sort` | backend/germanCities.js:114 | the result is in ascending code-unit order and is a permutation of the input |
| `JsSort.SortedUnique` | backend/germanCities.js:114 | two sorted permutations of the same elements are equal, so any engine's sort gives this result |

## Left out

- Cryptography and JSON: `jwt.sign`, `jwt.verify`, `jwt.decode`, `bcrypt.compare`, `bcrypt.hash`, `JSON.parse` and `JSON.stringify` are oracles. Signatures and token encoding are not modelled. `bcrypt.hash` has no counterpart, because the hash is never observed.
- Database: `pool.query` is a map from email to row for the login, and a set of emails plus the `INSERT` outcome for registration. A failing `SELECT` (answer 500) is not modelled.
- Login.PostLogin: `bcrypt.compare` and `jwt.sign` are total oracles, so the `catch` that answers 500 "Database error." when either throws (a row whose password is not a string, an unset `JWT_SECRET`) is not modelled; in the `jwt.sign` case the source has already deleted the attempt record when it answers 500.
- AuthSession.Revoked: the payload's `exp` is always an integer. A verified token without `exp` would be listed with expiry `NaN` and never swept; tokens signed by `/login` always carry `exp`.
- Time: every `Date.now()` is a parameter. The hourly `setInterval` sweep is replaced by explicit calls. The ISO timestamps in the session responses and the console logging are left out.
- Concurrency: each request is one atomic step. Interleavings across `await` points, such as two logins for one email, are not modelled.
- Request bodies: fields are optional strings. A non-string JSON value (a number, an array) makes `trim` throw in the source; that path is not modelled.
- JsText.ToLower: `toLowerCase` is modelled on ASCII and Latin-1 letters only. Full Unicode case mapping, including strings whose lower case changes length, is not modelled.
- `AuthContext.AuthProvider`: the React state updates are applied at once instead of on the next render. The `fetch` a logout sends is returned as a value, and its outcome is not modelled, since the clean-up runs in `finally` whatever it is.
- `GermanCities.AllGermanCities`: the in-place sort of the local array is modelled as a function on sequences. The table is a constant, so "leaves the table unchanged" holds by construction.
- `GermanCities.MajorGermanCities`: only the length of the fixed list is stated. Its contents are the literal itself.
- `WeatherService.MostFrequent`: the in-place reordering and `pop` that `getMostFrequent` performs on the day's arrays are not modelled; it is a function on a sequence. The engine's sort algorithm is replaced by a stable insertion sort; `Array.prototype.sort` is stable, and `WeatherService.AnyStableSortAgrees` shows every stable sort by count gives the same sequence.
- `WeatherService.Summary`: the day name (locale formatting), the averages of temperature, humidity and wind speed, and `Math.round` are left out. Temperatures are integers, so `Math.min` and `Math.max` are exact.
- The date key `new Date(dt * 1000).toISOString().split('T')[0]` is the oracle `dateKey`.
- `useAuth`, the React components, the Express wiring in `backend/index.js`, `backend/db.js` and the weather provider calls in `backend/weatherService.js` are not part of this model.

## Findings

| source | as written | input that shows it | evidently intended | confidence | as-written member | corrected member |
|---|---|---|---|---|---|---|
| backend/germanCities.js:119 | `germanCities[state] \|\| []` reads properties inherited from `Object.prototype` | `getCitiesByState("constructor")` returns the `Object` function, not an array | the empty list for every name that is not a state | not executed; follows from JavaScript property lookup on a plain object literal | `GermanCities.CitiesByStateAsWritten` (shown by `GermanCities.PrototypeKeyLeaks`) | `GermanCities.CitiesByState` |
