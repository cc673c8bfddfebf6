/** Registration (`backend/routes/auth.js`): the email and password
    validators and the `/register` handler's chain of checks.

    The two validators are regular-expression tests; each is modelled by a
    scan of the string whose result is proved equal to what the expression
    matches. Request fields are optional strings (JavaScript `undefined` is
    `None`); `bcrypt.hash` is left out, and the database is the set of
    registered emails plus the outcome of the `INSERT`. */
module Registration {
  import opened Wrappers
  import opened JsText
  import Login

  // -----------------------------------------------------------------------
  // `validateEmail`: /^[^\s@]+@[^\s@]+\.[^\s@]+$/

  /** A code point of the class `[^\s@]`. */
  predicate IsAtomChar(c: char) {
    !IsWhitespace(c) && c != '@'
  }

  /** A match of `[^\s@]+`. */
  ghost predicate Atom(x: string) {
    |x| > 0 && forall k :: 0 <= k < |x| ==> IsAtomChar(x[k])
  }

  /** `s` read as the three runs of the email expression and its two literals. */
  ghost predicate EmailParts(s: string, local: string, host: string, suffix: string) {
    s == local + "@" + host + "." + suffix && Atom(local) && Atom(host) && Atom(suffix)
  }

  /** What the email expression matches: backtracking may choose any split. */
  ghost predicate MatchesEmailPattern(s: string) {
    exists local, host, suffix :: EmailParts(s, local, host, suffix)
  }

  /** The single '@' sits at `i` with text before it, and a '.' sits at `j`,
      neither first nor last after the '@'; no code point is whitespace and
      none but the one at `i` is '@'. */
  predicate ShapedAt(s: string, i: int, j: int) {
    && 0 < i && i + 1 < j && j + 1 < |s|
    && s[i] == '@' && s[j] == '.'
    && forall k :: 0 <= k < |s| && k != i ==> IsAtomChar(s[k])
  }

  /** `validateEmail(s)`. */
  function ValidEmail(s: string): (r: bool)
    ensures r <==> MatchesEmailPattern(s)
  {
    var r := exists i, j | 0 <= i < |s| && 0 <= j < |s| :: ShapedAt(s, i, j);
    assert r <==> MatchesEmailPattern(s) by {
      if r {
        var i, j :| 0 <= i < |s| && 0 <= j < |s| && ShapedAt(s, i, j);
        ShapedMatches(s, i, j);
      }
      if MatchesEmailPattern(s) {
        var local, host, suffix :| EmailParts(s, local, host, suffix);
        MatchesShaped(s, local, host, suffix);
      }
    }
    r
  }

  lemma ShapedMatches(s: string, i: int, j: int)
    requires ShapedAt(s, i, j)
    ensures EmailParts(s, s[..i], s[i + 1..j], s[j + 1..])
  {
    var local, host, suffix := s[..i], s[i + 1..j], s[j + 1..];
    assert s == local + "@" + host + "." + suffix by {
      assert s == s[..i] + [s[i]] + s[i + 1..j] + [s[j]] + s[j + 1..];
    }
    forall k | 0 <= k < |host| ensures IsAtomChar(host[k]) {
      assert host[k] == s[i + 1 + k];
    }
    forall k | 0 <= k < |suffix| ensures IsAtomChar(suffix[k]) {
      assert suffix[k] == s[j + 1 + k];
    }
  }

  lemma MatchesShaped(s: string, local: string, host: string, suffix: string)
    requires EmailParts(s, local, host, suffix)
    ensures ShapedAt(s, |local|, |local| + 1 + |host|)
  {
    var i, j := |local|, |local| + 1 + |host|;
    forall k | 0 <= k < |s| && k != i ensures IsAtomChar(s[k]) {
      if k < i {
        assert s[k] == local[k];
      } else if k < j {
        assert s[k] == host[k - i - 1];
      } else if k > j {
        assert s[k] == suffix[k - j - 1];
      }
    }
  }

  // -----------------------------------------------------------------------
  // `validatePassword`: /^(?=.*[a-z])(?=.*[A-Z])(?=.*\d).{8,}$/

  /** The three classes the lookaheads ask for: `[a-z]`, `[A-Z]`, `\d`. */
  datatype CharClass = Lower | Upper | Digit

  predicate InClass(c: char, cls: CharClass) {
    match cls
    case Lower => 'a' <= c <= 'z'
    case Upper => 'A' <= c <= 'Z'
    case Digit => '0' <= c <= '9'
  }

  ghost predicate NoLineTerminator(s: string) {
    forall k :: 0 <= k < |s| ==> !IsLineTerminator(s[k])
  }

  /** What `(?=.*X)` matches at the start: some code point of class X,
      reached through code points `.` matches. Without the `u` flag `.`
      steps over the two halves of a surrogate pair one at a time, and
      neither half is a line terminator or in a class, so reading code
      points instead of code units finds the same classes. */
  ghost predicate LookaheadFinds(s: string, cls: CharClass) {
    exists k :: 0 <= k < |s| && InClass(s[k], cls) && NoLineTerminator(s[..k])
  }

  /** The length of `s` in UTF-16 code units, which is what a JavaScript
      string is made of: a code point above U+FFFF takes a surrogate pair. */
  function Utf16Length(s: string): (n: nat)
    ensures |s| <= n <= 2 * |s|
    decreases |s|
  {
    if s == [] then 0
    else
      (if s[0] as int <= 0xFFFF then 1 else 2) + Utf16Length(s[1..])
  }

  /** In the Basic Multilingual Plane code units and code points coincide. */
  lemma {:induction false} Utf16LengthOfBmp(s: string)
    requires forall k :: 0 <= k < |s| ==> s[k] as int <= 0xFFFF
    ensures Utf16Length(s) == |s|
    decreases |s|
  {
    if s != [] {
      assert forall k :: 0 <= k < |s[1..]| ==> s[1..][k] == s[k + 1];
      Utf16LengthOfBmp(s[1..]);
    }
  }

  /** What the password expression matches: all three lookaheads succeed
      and `.{8,}$` consumes the whole string. The expression has no `u`
      flag, so `.{8,}` counts code units. */
  ghost predicate MatchesPasswordPattern(s: string) {
    && LookaheadFinds(s, Lower) && LookaheadFinds(s, Upper) && LookaheadFinds(s, Digit)
    && Utf16Length(s) >= 8 && NoLineTerminator(s)
  }

  /** What one pass over a string finds. */
  datatype Seen = Seen(lower: bool, upper: bool, digit: bool, terminator: bool)

  /** The classes present in `s`, in one pass. */
  function Scan(s: string): (f: Seen)
    ensures f.lower <==> exists c :: c in s && InClass(c, Lower)
    ensures f.upper <==> exists c :: c in s && InClass(c, Upper)
    ensures f.digit <==> exists c :: c in s && InClass(c, Digit)
    ensures f.terminator <==> exists c :: c in s && IsLineTerminator(c)
    decreases |s|
  {
    if s == [] then Seen(false, false, false, false)
    else
      var rest := Scan(s[1..]);
      var c := s[0];
      assert forall d :: d in s <==> d == c || d in s[1..] by {
        assert s == [c] + s[1..];
      }
      Seen(rest.lower || InClass(c, Lower), rest.upper || InClass(c, Upper),
           rest.digit || InClass(c, Digit), rest.terminator || IsLineTerminator(c))
  }

  /** `validatePassword(s)`. */
  function ValidPassword(s: string): (r: bool)
    ensures r <==> MatchesPasswordPattern(s)
  {
    var f := Scan(s);
    var r := Utf16Length(s) >= 8 && !f.terminator && f.lower && f.upper && f.digit;
    assert r <==> MatchesPasswordPattern(s) by {
      if NoLineTerminator(s) {
        LookaheadWithoutTerminators(s, Lower);
        LookaheadWithoutTerminators(s, Upper);
        LookaheadWithoutTerminators(s, Digit);
      }
      if f.terminator {
        var c :| c in s && IsLineTerminator(c);
        var k :| 0 <= k < |s| && s[k] == c;
      }
    }
    r
  }

  lemma LookaheadWithoutTerminators(s: string, cls: CharClass)
    requires NoLineTerminator(s)
    ensures LookaheadFinds(s, cls) <==> exists c :: c in s && InClass(c, cls)
  {
    if exists c :: c in s && InClass(c, cls) {
      var c :| c in s && InClass(c, cls);
      var k :| 0 <= k < |s| && s[k] == c;
      assert NoLineTerminator(s[..k]) by {
        forall m | 0 <= m < k ensures !IsLineTerminator(s[..k][m]) {
          assert s[..k][m] == s[m];
        }
      }
    }
  }

  // -----------------------------------------------------------------------
  // The `/register` handler

  const RequiredMessage: string := "All fields are required."
  const EmailMessage: string := "Invalid email format."
  const PasswordMessage: string :=
    "Password must be at least 8 characters long and contain at least one uppercase letter, one lowercase letter, and one number."
  const RoleMessage: string := "Invalid role specified."
  const DuplicateMessage: string := "Email already registered."
  const DatabaseMessage: string := "Database error."
  const UniqueViolation: string := "23505"

  datatype RegisterRequest = RegisterRequest(firstname: Option<string>, lastname: Option<string>,
                                             email: Option<string>, city: Option<string>,
                                             role: Option<string>, password: Option<string>)

  /** The fields the handler inserts (besides the password hash) and the
      database sends back. */
  datatype NewUser = NewUser(firstname: string, lastname: string, email: string,
                             city: string, role: string)

  /** The outcome of the `INSERT`: the new row's id, or a database error code. */
  datatype InsertOutcome = Inserted(id: int) | Failed(code: string)

  /** How the checks end: a refusal, or the row to insert. */
  datatype Checked = Refused(status: nat, error: string) | Insert(row: NewUser)

  datatype RegisterResponse =
    | Error(status: nat, error: string)
    | Created(id: int, user: NewUser)

  /** `role || 'user'`. */
  function RoleOf(role: Option<string>): (r: string)
    ensures r == "user" <==> !Login.Present(role) || role.value == "user"
    ensures Login.Present(role) ==> r == role.value
  {
    if Login.Present(role) then role.value else "user"
  }

  predicate AllPresent(req: RegisterRequest) {
    && Login.Present(req.firstname) && Login.Present(req.lastname) && Login.Present(req.email)
    && Login.Present(req.city) && Login.Present(req.password)
  }

  /** The handler's checks, in order, up to the `INSERT`; `registered` holds
      the emails the `SELECT` would find. */
  function Check(req: RegisterRequest, registered: set<string>): (c: Checked)
    ensures c.Insert? <==>
              && AllPresent(req)
              && ValidEmail(Login.NormalizeEmail(req.email.value))
              && ValidPassword(req.password.value)
              && RoleOf(req.role) in {"user", "admin"}
              && Login.NormalizeEmail(req.email.value) !in registered
    ensures c.Refused? ==> c.status in {400, 409}
    ensures c.Insert? ==> c.row.email == Login.NormalizeEmail(req.email.value)
    ensures c.Insert? ==> MatchesEmailPattern(c.row.email) && c.row.email !in registered
    ensures c.Insert? ==>
              c.row == NewUser(Trim(req.firstname.value), Trim(req.lastname.value),
                               Login.NormalizeEmail(req.email.value), Trim(req.city.value), RoleOf(req.role))
  {
    if !AllPresent(req) then Refused(400, RequiredMessage)
    else
      var email := Login.NormalizeEmail(req.email.value);
      if !ValidEmail(email) then Refused(400, EmailMessage)
      else if !ValidPassword(req.password.value) then Refused(400, PasswordMessage)
      else
        var role := RoleOf(req.role);
        if role != "user" && role != "admin" then Refused(400, RoleMessage)
        else if email in registered then Refused(409, DuplicateMessage)
        else Insert(NewUser(Trim(req.firstname.value), Trim(req.lastname.value), email,
                            Trim(req.city.value), role))
  }

  /** POST `/register`. */
  function Register(req: RegisterRequest, registered: set<string>, insert: InsertOutcome): (r: RegisterResponse)
    ensures r.Created? <==> Check(req, registered).Insert? && insert.Inserted?
    ensures r.Created? ==> r.user == Check(req, registered).row
    ensures r.Error? ==> r.status in {400, 409, 500}
    ensures r == Error(500, DatabaseMessage) <==>
              Check(req, registered).Insert? && insert.Failed? && insert.code != UniqueViolation
  {
    match Check(req, registered)
    case Refused(status, error) => Error(status, error)
    case Insert(row) =>
      match insert
      case Inserted(id) => Created(id, row)
      case Failed(code) =>
        if code == UniqueViolation then Error(409, DuplicateMessage) else Error(500, DatabaseMessage)
  }

  // -----------------------------------------------------------------------
  // Properties

  /** The first failing check decides the answer: each refusal is given
      exactly when every earlier check passed and this one fails. */
  lemma FirstFailureDecides(req: RegisterRequest, registered: set<string>)
    ensures Check(req, registered) == Refused(400, RequiredMessage) <==> !AllPresent(req)
    ensures Check(req, registered) == Refused(400, EmailMessage) <==>
              AllPresent(req) && !ValidEmail(Login.NormalizeEmail(req.email.value))
    ensures Check(req, registered) == Refused(400, PasswordMessage) <==>
              && AllPresent(req) && ValidEmail(Login.NormalizeEmail(req.email.value))
              && !ValidPassword(req.password.value)
    ensures Check(req, registered) == Refused(400, RoleMessage) <==>
              && AllPresent(req) && ValidEmail(Login.NormalizeEmail(req.email.value))
              && ValidPassword(req.password.value) && RoleOf(req.role) !in {"user", "admin"}
    ensures Check(req, registered) == Refused(409, DuplicateMessage) <==>
              && AllPresent(req) && ValidEmail(Login.NormalizeEmail(req.email.value))
              && ValidPassword(req.password.value) && RoleOf(req.role) in {"user", "admin"}
              && Login.NormalizeEmail(req.email.value) in registered
  {
  }

  /** A missing or empty role becomes "user", and only "user" and "admin"
      get past the role check. */
  lemma RoleWhitelist(role: Option<string>)
    ensures !Login.Present(role) ==> RoleOf(role) == "user"
    ensures RoleOf(role) in {"user", "admin"} <==> !Login.Present(role) || role.value in {"user", "admin"}
  {
  }

  /** The stored email is the trimmed, lower-cased request email, and it is
      already in that normal form. */
  lemma StoredEmailIsNormal(req: RegisterRequest, registered: set<string>)
    requires Check(req, registered).Insert?
    ensures Check(req, registered).row.email == Login.NormalizeEmail(req.email.value)
    ensures Login.NormalizeEmail(Check(req, registered).row.email) == Check(req, registered).row.email
  {
    Login.NormalizeIdempotent(req.email.value);
  }

  /** Once an email is registered, every variant differing in surrounding
      whitespace or letter case is refused as a duplicate (if it passes the
      earlier checks). */
  lemma VariantIsDuplicate(req: RegisterRequest, registered: set<string>,
                           w1: string, variant: string, w2: string)
    requires AllWhitespace(w1) && AllWhitespace(w2)
    requires Check(req, registered).Insert?
    requires ToLower(variant) == ToLower(req.email.value)
    ensures var again := req.(email := Some(w1 + variant + w2));
            Check(again, registered + {Check(req, registered).row.email}) == Refused(409, DuplicateMessage)
  {
    var e := req.email.value;
    var again := req.(email := Some(w1 + variant + w2));
    TrimIgnoresPadding(w1, variant, w2);
    TrimToLower(variant);
    TrimToLower(e);
    assert Login.NormalizeEmail(w1 + variant + w2) == Login.NormalizeEmail(e);
    assert |w1 + variant + w2| >= |ToLower(variant)| == |e| > 0;
    assert AllPresent(again);
    FirstFailureDecides(again, registered + {Check(req, registered).row.email});
  }

  /** The required-field check looks at the untrimmed names: a name of only
      whitespace passes it and is stored as the empty string. */
  lemma BlankNameStoredEmpty(req: RegisterRequest, registered: set<string>)
    requires Check(req, registered).Insert?
    requires AllWhitespace(req.firstname.value)
    ensures req.firstname.value != [] && Check(req, registered).row.firstname == []
  {
    TrimIgnoresPadding(req.firstname.value, [], []);
    assert req.firstname.value + [] + [] == req.firstname.value;
  }

  /** Three code points above U+FFFF count twice each: six code points make
      nine code units, and the password passes. */
  lemma AstralCountsTwice()
    ensures |"Aa1\U{1F600}\U{1F600}\U{1F600}"| == 6
    ensures ValidPassword("Aa1\U{1F600}\U{1F600}\U{1F600}")
  {
    var s := "Aa1\U{1F600}\U{1F600}\U{1F600}";
    assert Utf16Length(s) == 9;
    assert NoLineTerminator(s);
    PatternFromWitnesses(s, 1, 0, 2);
  }

  /** The password is checked as sent: padding it with a space lets a
      seven-character password through. */
  lemma PasswordNotTrimmed()
    ensures ValidPassword("Abcdef1 ") && !ValidPassword("Abcdef1")
  {
    PaddedPasswordValid();
    assert Utf16Length("Abcdef1") == 7;
  }

  lemma PaddedPasswordValid()
    ensures ValidPassword("Abcdef1 ")
  {
    var s := "Abcdef1 ";
    assert Utf16Length(s) == 8;
    assert NoLineTerminator(s);
    PatternFromWitnesses(s, 1, 0, 6);
  }

  /** A line-terminator-free string of eight code units or more matches as
      soon as it has a lower-case letter, a capital and a digit. */
  lemma PatternFromWitnesses(s: string, lower: nat, upper: nat, digit: nat)
    requires lower < |s| && upper < |s| && digit < |s|
    requires InClass(s[lower], Lower) && InClass(s[upper], Upper) && InClass(s[digit], Digit)
    requires NoLineTerminator(s) && Utf16Length(s) >= 8
    ensures MatchesPasswordPattern(s)
  {
    LookaheadWithoutTerminators(s, Lower);
    LookaheadWithoutTerminators(s, Upper);
    LookaheadWithoutTerminators(s, Digit);
    assert s[lower] in s && s[upper] in s && s[digit] in s;
  }

  /** A unique-key violation at insert time gets the same answer as a
      duplicate found by the lookup; every other database error gets 500. */
  lemma InsertRaceIsDuplicate(req: RegisterRequest, registered: set<string>, insert: InsertOutcome)
    requires Check(req, registered).Insert?
    ensures Register(req, registered, Failed(UniqueViolation)) ==
              Register(req, registered + {Check(req, registered).row.email}, insert)
  {
  }
}
