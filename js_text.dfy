/** The few JavaScript string operations the core relies on, with the
    semantics of the ECMAScript built-ins they stand for:
    - the `\s` class of regular expressions and `String.prototype.trim`
      (WhiteSpace plus LineTerminator code points),
    - the line terminators that `.` in a regular expression does not match,
    - `String.prototype.toLowerCase` on ASCII and Latin-1,
    - `String.prototype.split` with a one-character separator,
    - `String.prototype.includes`. */
module JsText {

  /** A code point matched by `\s` and removed by `trim`. */
  predicate IsWhitespace(c: char) {
    || c == '\t' || c == '\n' || c == '\U{000B}' || c == '\U{000C}' || c == '\r'
    || c == ' ' || c == '\U{00A0}' || c == '\U{1680}'
    || ('\U{2000}' <= c <= '\U{200A}')
    || c == '\U{2028}' || c == '\U{2029}' || c == '\U{202F}' || c == '\U{205F}'
    || c == '\U{3000}' || c == '\U{FEFF}'
  }

  /** A code point that `.` in a regular expression does not match. */
  predicate IsLineTerminator(c: char) {
    c == '\n' || c == '\r' || c == '\U{2028}' || c == '\U{2029}'
  }

  ghost predicate AllWhitespace(s: string) {
    forall i :: 0 <= i < |s| ==> IsWhitespace(s[i])
  }

  /** Leading whitespace removed: what remains is a suffix of `s` that starts
      with a non-whitespace code point, and what was dropped is all whitespace. */
  function TrimStart(s: string): (r: string)
    ensures |r| <= |s| && r == s[|s| - |r|..]
    ensures AllWhitespace(s[..|s| - |r|])
    ensures r == [] || !IsWhitespace(r[0])
  {
    if |s| > 0 && IsWhitespace(s[0]) then
      var r := TrimStart(s[1..]);
      DropLeadingWhitespace(s, r);
      r
    else
      s
  }

  /** One more whitespace code point in front of a trimmed suffix is still
      dropped whitespace. */
  lemma DropLeadingWhitespace(s: string, r: string)
    requires |s| > 0 && IsWhitespace(s[0])
    requires |r| <= |s| - 1 && r == s[1..][|s| - 1 - |r|..]
    requires AllWhitespace(s[1..][..|s| - 1 - |r|])
    ensures r == s[|s| - |r|..] && AllWhitespace(s[..|s| - |r|])
  {
    var k := |s| - |r|;
    assert s[..k] == [s[0]] + s[1..][..k - 1];
    forall i | 0 <= i < k ensures IsWhitespace(s[..k][i]) {
      if i > 0 {
        assert s[..k][i] == s[1..][..k - 1][i - 1];
      }
    }
  }

  /** Trailing whitespace removed: what remains is a prefix of `s` that ends
      with a non-whitespace code point, and what was dropped is all whitespace. */
  function TrimEnd(s: string): (r: string)
    ensures |r| <= |s| && r == s[..|r|]
    ensures AllWhitespace(s[|r|..])
    ensures r == [] || !IsWhitespace(r[|r| - 1])
  {
    if |s| > 0 && IsWhitespace(s[|s| - 1]) then
      var r := TrimEnd(s[..|s| - 1]);
      assert s[|r|..] == s[..|s| - 1][|r|..] + [s[|s| - 1]];
      r
    else
      s
  }

  /** `s.trim()`. */
  function Trim(s: string): (r: string)
    ensures r == [] || (!IsWhitespace(r[0]) && !IsWhitespace(r[|r| - 1]))
    ensures exists i :: TrimmedAt(s, r, i)
  {
    var t := TrimStart(s);
    var r := TrimEnd(t);
    TrimmedBothEnds(s, t, r);
    r
  }

  /** Whitespace removed from the front of `s`, giving `t`, and then from
      the back of `t`, giving `r`, leaves `r` trimmed out of `s`. */
  lemma TrimmedBothEnds(s: string, t: string, r: string)
    requires |t| <= |s| && t == s[|s| - |t|..] && AllWhitespace(s[..|s| - |t|])
    requires |r| <= |t| && r == t[..|r|] && AllWhitespace(t[|r|..])
    ensures TrimmedAt(s, r, |s| - |t|)
    ensures r == [] || r[0] == t[0]
  {
    var i := |s| - |t|;
    assert t[..|r|] == s[i..i + |r|];
    assert t[|r|..] == s[i + |r|..];
  }

  /** `r` is `s` with only whitespace removed before offset `i` and after `r`. */
  ghost predicate TrimmedAt(s: string, r: string, i: int) {
    0 <= i <= i + |r| <= |s| && r == s[i..i + |r|]
    && AllWhitespace(s[..i]) && AllWhitespace(s[i + |r|..])
  }

  lemma {:induction false} TrimStartSkipsWhitespace(w: string, s: string)
    requires AllWhitespace(w)
    ensures TrimStart(w + s) == TrimStart(s)
  {
    if w != [] {
      assert (w + s)[1..] == w[1..] + s;
      TrimStartSkipsWhitespace(w[1..], s);
    } else {
      assert w + s == s;
    }
  }

  lemma {:induction false} TrimEndSkipsWhitespace(s: string, w: string)
    requires AllWhitespace(w)
    ensures TrimEnd(s + w) == TrimEnd(s)
  {
    if w != [] {
      assert (s + w)[..|s + w| - 1] == s + w[..|w| - 1];
      TrimEndSkipsWhitespace(s, w[..|w| - 1]);
    } else {
      assert s + w == s;
    }
  }

  lemma {:induction false} TrimStartKeepsTail(s: string, w: string)
    requires exists i :: 0 <= i < |s| && !IsWhitespace(s[i])
    ensures TrimStart(s + w) == TrimStart(s) + w
  {
    if IsWhitespace(s[0]) {
      assert (s + w)[1..] == s[1..] + w;
      var i :| 0 <= i < |s| && !IsWhitespace(s[i]);
      assert s[1..][i - 1] == s[i];
      TrimStartKeepsTail(s[1..], w);
    }
  }

  /** Surrounding whitespace never changes the trimmed value. */
  lemma TrimIgnoresPadding(w1: string, s: string, w2: string)
    requires AllWhitespace(w1) && AllWhitespace(w2)
    ensures Trim(w1 + s + w2) == Trim(s)
  {
    assert w1 + s + w2 == w1 + (s + w2);
    TrimStartSkipsWhitespace(w1, s + w2);
    if exists i :: 0 <= i < |s| && !IsWhitespace(s[i]) {
      TrimStartKeepsTail(s, w2);
      TrimEndSkipsWhitespace(TrimStart(s), w2);
    } else {
      assert AllWhitespace(s + w2);
      assert AllWhitespace(s);
      TrimStartSkipsWhitespace(s + w2, []);
      TrimStartSkipsWhitespace(s, []);
      assert s + w2 + [] == s + w2 && s + [] == s;
    }
  }

  lemma TrimIdempotent(s: string)
    ensures Trim(Trim(s)) == Trim(s)
  {
    var r := Trim(s);
    if r != [] {
      assert TrimStart(r) == r;
      assert TrimEnd(r) == r;
    }
  }

  /** `c.toLowerCase()` for ASCII and Latin-1 letters; other code points are
      returned unchanged. */
  function LowerChar(c: char): (r: char)
    ensures ('A' <= c <= 'Z') ==> r as int == c as int + 32
    ensures !('A' <= c <= 'Z') && !('\U{00C0}' <= c <= '\U{00DE}') ==> r == c
    ensures IsWhitespace(r) <==> IsWhitespace(c)
  {
    if 'A' <= c <= 'Z' || ('\U{00C0}' <= c <= '\U{00DE}' && c != '\U{00D7}') then
      (c as int + 32) as char
    else
      c
  }

  /** `s.toLowerCase()`, code point by code point. */
  function ToLower(s: string): (r: string)
    ensures |r| == |s|
    ensures forall i :: 0 <= i < |s| ==> r[i] == LowerChar(s[i])
  {
    seq(|s|, i requires 0 <= i < |s| => LowerChar(s[i]))
  }

  lemma ToLowerIdempotent(s: string)
    ensures ToLower(ToLower(s)) == ToLower(s)
  {
  }

  /** Lower-casing never turns whitespace into text or text into whitespace,
      so it commutes with trimming. */
  lemma {:induction false} TrimStartToLower(s: string)
    ensures TrimStart(ToLower(s)) == ToLower(TrimStart(s))
  {
    if |s| > 0 {
      assert ToLower(s)[1..] == ToLower(s[1..]);
      TrimStartToLower(s[1..]);
    }
  }

  lemma {:induction false} TrimEndToLower(s: string)
    ensures TrimEnd(ToLower(s)) == ToLower(TrimEnd(s))
  {
    if |s| > 0 {
      assert ToLower(s)[..|s| - 1] == ToLower(s[..|s| - 1]);
      TrimEndToLower(s[..|s| - 1]);
    }
  }

  lemma TrimToLower(s: string)
    ensures Trim(ToLower(s)) == ToLower(Trim(s))
  {
    TrimStartToLower(s);
    TrimEndToLower(TrimStart(s));
  }

  // ---------------------------------------------------------------------
  // `split` with a one-character separator, and its inverse `join`

  /** `s.split(sep)`: the maximal runs between separators, in order. There is
      always at least one piece, and no piece contains the separator. */
  function Split(s: string, sep: char): (r: seq<string>)
    ensures |r| >= 1
    ensures forall k :: 0 <= k < |r| ==> sep !in r[k]
    ensures Join(r, sep) == s
    decreases |s|
  {
    if |s| == 0 then [""]
    else
      var rest := Split(s[1..], sep);
      if s[0] == sep then
        [""] + rest
      else
        assert s == [s[0]] + s[1..];
        JoinFirst(rest, sep, [s[0]]);
        [[s[0]] + rest[0]] + rest[1..]
  }

  /** `pieces.join(sep)`. */
  function Join(pieces: seq<string>, sep: char): string
    requires |pieces| >= 1
    decreases |pieces|
  {
    if |pieces| == 1 then pieces[0] else pieces[0] + [sep] + Join(pieces[1..], sep)
  }

  lemma JoinFirst(pieces: seq<string>, sep: char, p: string)
    requires |pieces| >= 1
    ensures Join([p + pieces[0]] + pieces[1..], sep) == p + Join(pieces, sep)
  {
    var q := [p + pieces[0]] + pieces[1..];
    assert q[1..] == pieces[1..];
  }

  /** Splitting undoes joining pieces that do not contain the separator. */
  lemma {:induction false} SplitJoin(pieces: seq<string>, sep: char)
    requires |pieces| >= 1
    requires forall k :: 0 <= k < |pieces| ==> sep !in pieces[k]
    ensures Split(Join(pieces, sep), sep) == pieces
    decreases |Join(pieces, sep)|, |pieces|
  {
    var p := pieces[0];
    if p == [] {
      if |pieces| > 1 {
        assert Join(pieces, sep) == [sep] + Join(pieces[1..], sep);
        assert Join(pieces, sep)[1..] == Join(pieces[1..], sep);
        SplitJoin(pieces[1..], sep);
        assert pieces == [""] + pieces[1..];
      }
    } else {
      var rest := [p[1..]] + pieces[1..];
      assert rest[1..] == pieces[1..];
      assert [p[0]] + p[1..] == p;
      assert Join(pieces, sep) == [p[0]] + Join(rest, sep) by {
        JoinFirst(rest, sep, [p[0]]);
        assert [[p[0]] + rest[0]] + rest[1..] == pieces;
      }
      assert Join(pieces, sep)[1..] == Join(rest, sep);
      assert sep !in rest[0] by { assert forall c :: c in p[1..] ==> c in p; }
      SplitJoin(rest, sep);
      assert [[p[0]] + rest[0]] + rest[1..] == pieces;
    }
  }

  // ---------------------------------------------------------------------
  // `includes`

  ghost predicate OccursAt(sub: string, s: string, i: int) {
    0 <= i <= |s| - |sub| && s[i..i + |sub|] == sub
  }

  ghost predicate IsSubstring(sub: string, s: string) {
    exists i :: OccursAt(sub, s, i)
  }

  /** `s.includes(sub)`. */
  function Includes(s: string, sub: string): (r: bool)
    ensures r <==> IsSubstring(sub, s)
    decreases |s|
  {
    if |sub| > |s| then false
    else if s[..|sub|] == sub then assert OccursAt(sub, s, 0); true
    else
      var r := Includes(s[1..], sub);
      assert IsSubstring(sub, s[1..]) ==> IsSubstring(sub, s) by {
        if IsSubstring(sub, s[1..]) {
          var i :| OccursAt(sub, s[1..], i);
          assert s[i + 1..i + 1 + |sub|] == sub;
          assert OccursAt(sub, s, i + 1);
        }
      }
      assert IsSubstring(sub, s) ==> IsSubstring(sub, s[1..]) by {
        if IsSubstring(sub, s) {
          var i :| OccursAt(sub, s, i);
          assert i != 0;
          assert s[1..][i - 1..i - 1 + |sub|] == sub;
          assert OccursAt(sub, s[1..], i - 1);
        }
      }
      r
  }

  lemma EmptyIsIncluded(s: string)
    ensures Includes(s, "")
  {
    assert OccursAt("", s, 0);
  }
}
