/** The handful of Python `str` operations the deployment scripts rely on
    (`strip`, `split`, `join`, `replace`, `in`, `startswith`, `endswith`,
    `lower`), on strings as sequences of Unicode scalar values. */
module PyStr {

  /** The characters Python's `str.strip()` removes (those for which
      `str.isspace()` holds). */
  predicate IsSpace(c: char) {
    c == ' ' || c == '\t' || c == '\n' || c == '\r'
    || c == '\U{0B}' || c == '\U{0C}'
    || ('\U{1C}' <= c <= '\U{1F}')
    || c == '\U{85}' || c == '\U{A0}' || c == '\U{1680}'
    || ('\U{2000}' <= c <= '\U{200A}')
    || c == '\U{2028}' || c == '\U{2029}' || c == '\U{202F}' || c == '\U{205F}' || c == '\U{3000}'
  }

  ghost predicate AllSpace(s: string) {
    forall k :: 0 <= k < |s| ==> IsSpace(s[k])
  }

  /** No whitespace at either end. */
  predicate Trimmed(s: string) {
    s == [] || (!IsSpace(s[0]) && !IsSpace(s[|s| - 1]))
  }

  function TrimStart(s: string): (r: string)
    ensures |r| <= |s|
  {
    if s != [] && IsSpace(s[0]) then TrimStart(s[1..]) else s
  }

  function TrimEnd(s: string): (r: string)
    ensures |r| <= |s|
  {
    if s != [] && IsSpace(s[|s| - 1]) then TrimEnd(s[..|s| - 1]) else s
  }

  /** Python's `s.strip()`: `s` without its leading and trailing whitespace. */
  function Strip(s: string): (r: string)
    ensures |r| <= |s|
    ensures s != [] && !IsSpace(s[0]) && !IsSpace(s[|s| - 1]) ==> r == s
  {
    TrimEnd(TrimStart(s))
  }

  lemma {:induction false} TrimStartSpec(s: string)
    ensures var r := TrimStart(s);
            && (r == [] || !IsSpace(r[0]))
            && |r| <= |s| && r == s[|s| - |r|..]
            && AllSpace(s[..|s| - |r|])
    decreases |s|
  {
    var r := TrimStart(s);
    if s != [] && IsSpace(s[0]) {
      var s' := s[1..];
      TrimStartSpec(s');
      var n := |s'| - |r|;
      assert s'[n..] == s[|s| - |r|..];
      assert s[..|s| - |r|] == [s[0]] + s'[..n];
      AllSpaceCons(s[0], s'[..n]);
    } else {
      assert s[..|s| - |r|] == [];
    }
  }

  lemma {:induction false} TrimEndSpec(s: string)
    ensures var r := TrimEnd(s);
            && (r == [] || !IsSpace(r[|r| - 1]))
            && |r| <= |s| && r == s[..|r|]
            && AllSpace(s[|r|..])
    decreases |s|
  {
    var r := TrimEnd(s);
    if s != [] && IsSpace(s[|s| - 1]) {
      var s' := s[..|s| - 1];
      TrimEndSpec(s');
      assert s'[..|r|] == s[..|r|];
      assert s[|r|..] == s'[|r|..] + [s[|s| - 1]];
      AllSpaceSnoc(s'[|r|..], s[|s| - 1]);
    } else {
      assert s[|r|..] == [];
    }
  }

  lemma AllSpaceCons(c: char, t: string)
    requires IsSpace(c) && AllSpace(t)
    ensures AllSpace([c] + t)
  {
    forall k | 0 < k < |[c] + t| ensures IsSpace(([c] + t)[k]) {
      assert ([c] + t)[k] == t[k - 1];
    }
  }

  lemma AllSpaceSnoc(t: string, c: char)
    requires IsSpace(c) && AllSpace(t)
    ensures AllSpace(t + [c])
  {
    forall k | 0 <= k < |t| ensures IsSpace((t + [c])[k]) {
      assert (t + [c])[k] == t[k];
    }
  }

  /** What `strip` leaves: the part of `s` between an all-whitespace prefix and
      an all-whitespace suffix, with no whitespace at either of its own ends. */
  lemma StripSpec(s: string)
    ensures Trimmed(Strip(s))
    ensures exists i, j :: 0 <= i <= j <= |s| && Strip(s) == s[i..j] && AllSpace(s[..i]) && AllSpace(s[j..])
  {
    var a := TrimStart(s);
    var r := TrimEnd(a);
    TrimStartSpec(s);
    TrimEndSpec(a);
    assert r == s[|s| - |a|..|s| - |a| + |r|];
    assert s[|s| - |a| + |r|..] == a[|r|..];
  }

  /** A stripped string is empty exactly when the original is all whitespace:
      this is the test behind "print stdout only when there is something" and
      "no pending changes". */
  lemma StripEmptyIffAllSpace(s: string)
    ensures Strip(s) == [] <==> AllSpace(s)
  {
    StripSpec(s);
    var r := Strip(s);
    var i, j :| 0 <= i <= j <= |s| && r == s[i..j] && AllSpace(s[..i]) && AllSpace(s[j..]);
    if r == [] {
      forall k | 0 <= k < |s| ensures IsSpace(s[k]) {
        if k < i { assert s[..i][k] == s[k]; } else { assert s[j..][k - j] == s[k]; }
      }
    } else {
      assert s[i] == r[0];
    }
  }

  /** Stripping a string that already has no whitespace at its ends, or such a
      string followed by whitespace (a line of command output), gives it back. */
  lemma StripTrimmed(s: string, tail: string)
    requires Trimmed(s) && s != [] && AllSpace(tail)
    ensures Strip(s + tail) == s
  {
    assert TrimStart(s + tail) == s + tail by { assert (s + tail)[0] == s[0]; }
    assert Strip(s + tail) == TrimEnd(s + tail);
    TrimEndOfTail(s, tail);
  }

  lemma {:induction false} TrimEndOfTail(s: string, tail: string)
    requires Trimmed(s) && s != [] && AllSpace(tail)
    ensures TrimEnd(s + tail) == s
    decreases |tail|
  {
    if tail == [] {
      assert s + tail == s;
    } else {
      var t := s + tail;
      assert t[|t| - 1] == tail[|tail| - 1];
      assert t[..|t| - 1] == s + tail[..|tail| - 1];
      TrimEndOfTail(s, tail[..|tail| - 1]);
    }
  }

  /** Python's `sep.join(parts)`. */
  function Join(parts: seq<string>, sep: string): string
  {
    if |parts| == 0 then []
    else if |parts| == 1 then parts[0]
    else parts[0] + sep + Join(parts[1..], sep)
  }

  /** Python's `s.split(sep)` for a non-empty separator: scanning left to
      right, every non-overlapping occurrence of `sep` ends one piece. */
  function Split(s: string, sep: string): (parts: seq<string>)
    requires sep != []
    ensures |parts| >= 1
    decreases |s|
  {
    if |s| < |sep| then [s]
    else if s[..|sep|] == sep then [[]] + Split(s[|sep|..], sep)
    else
      var rest := Split(s[1..], sep);
      [[s[0]] + rest[0]] + rest[1..]
  }

  function Last<T>(xs: seq<T>): T
    requires xs != []
  {
    xs[|xs| - 1]
  }

  /** Python's `s.replace(pat, repl)` for a non-empty `pat`: the same left to
      right scan as `split`, every occurrence found is replaced. */
  function Replace(s: string, pat: string, repl: string): (r: string)
    requires pat != []
    ensures |s| < |pat| ==> r == s
    ensures repl == [] ==> |r| <= |s|
    decreases |s|
  {
    if |s| < |pat| then s
    else if s[..|pat|] == pat then repl + Replace(s[|pat|..], pat, repl)
    else [s[0]] + Replace(s[1..], pat, repl)
  }

  /** Python's `sub in s`. */
  function Contains(s: string, sub: string): (r: bool)
    ensures r ==> |sub| <= |s|
    ensures sub == [] ==> r
    decreases |s|
  {
    if |sub| > |s| then false
    else s[..|sub|] == sub || Contains(s[1..], sub)
  }

  predicate StartsWith(s: string, prefix: string) {
    |prefix| <= |s| && s[..|prefix|] == prefix
  }

  predicate EndsWith(s: string, suffix: string) {
    |suffix| <= |s| && s[|s| - |suffix|..] == suffix
  }

  /** `sub` occurs in `s` starting at position `i`. */
  predicate OccursAt(s: string, sub: string, i: nat) {
    i + |sub| <= |s| && s[i..i + |sub|] == sub
  }

  /** `Contains` is the recursive reading of "occurs at some position". */
  lemma {:induction false} ContainsIff(s: string, sub: string)
    ensures Contains(s, sub) <==> exists i: nat :: OccursAt(s, sub, i)
    decreases |s|
  {
    if |sub| > |s| {
    } else if s[..|sub|] == sub {
      assert OccursAt(s, sub, 0);
    } else {
      ContainsIff(s[1..], sub);
      if Contains(s[1..], sub) {
        var i: nat :| OccursAt(s[1..], sub, i);
        assert s[i + 1..i + 1 + |sub|] == s[1..][i..i + |sub|];
        assert OccursAt(s, sub, i + 1);
      }
      if exists i: nat :: OccursAt(s, sub, i) {
        var i: nat :| OccursAt(s, sub, i);
        assert i != 0;
        assert s[1..][i - 1..i - 1 + |sub|] == s[i..i + |sub|];
        assert OccursAt(s[1..], sub, i - 1);
      }
    }
  }

  /** Splitting and joining back with the same separator is the identity. */
  lemma {:induction false} JoinSplit(s: string, sep: string)
    requires sep != []
    ensures Join(Split(s, sep), sep) == s
    decreases |s|
  {
    if |s| < |sep| {
    } else if s[..|sep|] == sep {
      var tail := s[|sep|..];
      JoinSplit(tail, sep);
      var parts := [[]] + Split(tail, sep);
      assert parts[1..] == Split(tail, sep);
      assert Join(parts, sep) == [] + sep + Join(Split(tail, sep), sep);
      assert s == sep + tail;
    } else {
      JoinSplit(s[1..], sep);
      var rest := Split(s[1..], sep);
      JoinCons(s[0], rest, sep);
      assert s == [s[0]] + s[1..];
    }
  }

  /** Prepending a character to the first piece prepends it to the join. */
  lemma JoinCons(c: char, parts: seq<string>, sep: string)
    requires parts != []
    ensures Join([[c] + parts[0]] + parts[1..], sep) == [c] + Join(parts, sep)
  {
    var ps := [[c] + parts[0]] + parts[1..];
    assert ps[1..] == parts[1..];
    if |parts| > 1 {
      assert Join(ps, sep) == ps[0] + sep + Join(ps[1..], sep);
    }
  }

  /** No piece of a split on a single character contains that character. */
  lemma {:induction false} SplitPiecesAvoid(s: string, c: char)
    ensures forall p :: p in Split(s, [c]) ==> c !in p
    decreases |s|
  {
    if |s| >= 1 {
      SplitPiecesAvoid(s[1..], c);
      if s[..1] != [c] {
        var rest := Split(s[1..], [c]);
        assert s[0] != c by { assert s[..1] == [s[0]]; }
        assert forall p :: p in rest[1..] ==> p in rest;
        assert rest[0] in rest;
      }
    }
  }

  /** A string that holds the separator character splits into several pieces,
      one that does not is its own single piece. */
  lemma {:induction false} SplitCount(s: string, c: char)
    ensures c in s ==> |Split(s, [c])| >= 2
    ensures c !in s ==> Split(s, [c]) == [s]
    decreases |s|
  {
    if |s| >= 1 {
      SplitCount(s[1..], c);
      assert s == [s[0]] + s[1..];
      assert s[..1] == [s[0]];
    }
  }

  /** `s.split(c)[-1]` is the text after the last `c`: it holds no `c`, and it
      is either all of `s` (when `s` has no `c`) or preceded by a `c`. */
  lemma LastPieceSpec(s: string, c: char)
    ensures var p := Last(Split(s, [c]));
            && c !in p
            && (c !in s ==> p == s)
            && (c in s ==> exists x :: s == x + [c] + p)
  {
    var parts := Split(s, [c]);
    SplitPiecesAvoid(s, c);
    SplitCount(s, c);
    assert Last(parts) in parts;
    if c in s {
      var n := |parts|;
      JoinSplit(s, [c]);
      JoinSnoc(parts, [c]);
      assert s == Join(parts[..n - 1], [c]) + [c] + Last(parts);
    }
  }

  lemma {:induction false} JoinSnoc(parts: seq<string>, sep: string)
    requires |parts| >= 2
    ensures Join(parts, sep) == Join(parts[..|parts| - 1], sep) + sep + parts[|parts| - 1]
    decreases |parts|
  {
    if |parts| > 2 {
      JoinSnoc(parts[1..], sep);
      assert parts[1..][..|parts| - 2] == parts[..|parts| - 1][1..];
    }
  }

  /** The last piece of `x + c + y` is `y` when `y` holds no `c`. */
  lemma {:induction false} SplitLastAfter(x: string, y: string, c: char)
    requires c !in y
    ensures Last(Split(x + [c] + y, [c])) == y
    decreases |x|
  {
    var s := x + [c] + y;
    if x == [] {
      assert s[..1] == [c];
      assert s[1..] == y;
      SplitCount(y, c);
    } else {
      assert s[1..] == x[1..] + [c] + y;
      SplitLastAfter(x[1..], y, c);
      if s[..1] != [c] {
        SplitCount(s[1..], c);
        assert c in s[1..] by { assert s[1..][|x| - 1] == c; }
      }
    }
  }

  /** `replace` is `join` of `split`, the identity Python documents between
      the two: `s.replace(pat, repl) == repl.join(s.split(pat))`. */
  lemma {:induction false} ReplaceIsJoinOfSplit(s: string, pat: string, repl: string)
    requires pat != []
    ensures Replace(s, pat, repl) == Join(Split(s, pat), repl)
    decreases |s|
  {
    if |s| < |pat| {
    } else if s[..|pat|] == pat {
      ReplaceIsJoinOfSplit(s[|pat|..], pat, repl);
      var parts := [[]] + Split(s[|pat|..], pat);
      assert parts[1..] == Split(s[|pat|..], pat);
    } else {
      ReplaceIsJoinOfSplit(s[1..], pat, repl);
      var rest := Split(s[1..], pat);
      var parts := [[s[0]] + rest[0]] + rest[1..];
      assert parts[1..] == rest[1..];
      if |rest| > 1 {
        assert Join(rest, repl) == rest[0] + repl + Join(rest[1..], repl);
      }
    }
  }

  /** With nothing to replace, `replace` gives the string back. */
  lemma {:induction false} ReplaceAbsent(s: string, pat: string, repl: string)
    requires pat != [] && !Contains(s, pat)
    ensures Replace(s, pat, repl) == s
    decreases |s|
  {
    if |s| >= |pat| {
      ReplaceAbsent(s[1..], pat, repl);
    }
  }

  /** Deleting (`repl == ""`) an occurring pattern always shortens the string,
      so deletion is the identity exactly when the pattern does not occur. */
  lemma {:induction false} DeleteShortens(s: string, pat: string)
    requires pat != []
    ensures |Replace(s, pat, [])| <= |s|
    ensures Contains(s, pat) ==> |Replace(s, pat, [])| < |s|
    decreases |s|
  {
    if |s| < |pat| {
    } else if s[..|pat|] == pat {
      DeleteShortens(s[|pat|..], pat);
    } else {
      DeleteShortens(s[1..], pat);
    }
  }

  lemma DeleteIsIdentityIff(s: string, pat: string)
    requires pat != []
    ensures Replace(s, pat, []) == s <==> !Contains(s, pat)
  {
    DeleteShortens(s, pat);
    if !Contains(s, pat) { ReplaceAbsent(s, pat, []); }
  }

  /** Deleting keeps only characters of the original, each at most as often. */
  lemma {:induction false} DeleteKeepsCharacters(s: string, pat: string)
    requires pat != []
    ensures multiset(Replace(s, pat, [])) <= multiset(s)
    decreases |s|
  {
    if |s| < |pat| {
    } else if s[..|pat|] == pat {
      DeleteKeepsCharacters(s[|pat|..], pat);
      assert s == s[..|pat|] + s[|pat|..];
    } else {
      DeleteKeepsCharacters(s[1..], pat);
      assert s == [s[0]] + s[1..];
    }
  }

  /** The scan is single-pass: what is left after a deletion can contain the
      pattern again. */
  lemma DeleteIsSinglePass()
    ensures Replace("..gitgit", ".git", []) == ".git"
    ensures Contains(Replace("..gitgit", ".git", []), ".git")
  {
    var s := "..gitgit";
    assert s[..4] != ".git" by { assert s[1] != "git"[0]; }
    assert s[1..][..4] == ".git";
    assert s[1..][4..] == "git";
    assert Replace("git", ".git", []) == "git";
    assert Replace(s[1..], ".git", []) == "git";
    assert ".git"[..4] == ".git";
  }

  /** An occurrence at the front is replaced and the scan resumes after it. */
  lemma ReplaceAtFront(pat: string, rest: string, repl: string)
    requires pat != []
    ensures Replace(pat + rest, pat, repl) == repl + Replace(rest, pat, repl)
  {
    var s := pat + rest;
    assert s[..|pat|] == pat;
    assert s[|pat|..] == rest;
  }

  /** A prefix with no character that can start the pattern passes through a
      replacement untouched. */
  lemma {:induction false} ReplaceSkipsPrefix(a: string, b: string, pat: string, repl: string)
    requires pat != [] && pat[0] !in a
    ensures Replace(a + b, pat, repl) == a + Replace(b, pat, repl)
    decreases |a|
  {
    if a != [] {
      var s := a + b;
      assert s[0] == a[0];
      if |s| >= |pat| {
        assert s[..|pat|][0] != pat[0];
        assert s[1..] == a[1..] + b;
        assert pat[0] !in a[1..];
        ReplaceSkipsPrefix(a[1..], b, pat, repl);
        assert a == [a[0]] + a[1..];
      }
    } else {
      assert a + b == b;
    }
  }

  /** The sole occurrence of a character: a string in which `c` appears only
      at position `p` contains a pattern starting with `c` only if the pattern
      fits between `p` and the end. */
  lemma ContainsAnchored(s: string, sub: string, p: nat)
    requires sub != [] && p < |s| && s[p] == sub[0]
    requires forall k :: 0 <= k < |s| && k != p ==> s[k] != sub[0]
    requires p + |sub| > |s|
    ensures !Contains(s, sub)
  {
    forall i: nat ensures !OccursAt(s, sub, i) {
      if i + |sub| <= |s| {
        assert s[i..i + |sub|][0] == s[i];
      }
    }
    ContainsIff(s, sub);
  }

  function LowerChar(c: char): char {
    if 'A' <= c <= 'Z' then (c as int + 32) as char else c
  }

  /** Python's `s.lower()`, on the ASCII letters. */
  function Lower(s: string): (r: string)
    ensures |r| == |s|
    ensures forall i :: 0 <= i < |s| ==> r[i] == LowerChar(s[i])
  {
    if s == [] then [] else [LowerChar(s[0])] + Lower(s[1..])
  }

  /** A hexadecimal digit, lower case, as `repr` writes it. */
  function HexDigit(n: nat): char
    requires n < 16
  {
    if n < 10 then (48 + n) as char else (87 + n) as char
  }

  function HexValue(c: char): (n: nat)
    ensures n < 16
  {
    if '0' <= c <= '9' then c as int - 48 else if 'a' <= c <= 'f' then c as int - 87 else 0
  }

  /** The quote `repr` puts around a string: double quotes when the text
      holds a single quote and no double quote, single quotes otherwise. */
  function QuoteFor(s: string): char {
    if '\'' in s && '"' !in s then '"' else '\''
  }

  /** The ASCII control characters `repr` writes as `\xNN`. */
  predicate IsControl(c: char) {
    c < ' ' || c == '\U{7F}'
  }

  /** How `repr` writes one character between quotes `q`: the quote and the
      backslash behind a backslash, tab, newline and carriage return by name,
      other control characters in hexadecimal, anything else as it is. */
  function EscapeChar(c: char, q: char): string {
    if c == q || c == '\\' then ['\\', c]
    else if c == '\t' then "\\t"
    else if c == '\n' then "\\n"
    else if c == '\r' then "\\r"
    else if IsControl(c) then ['\\', 'x', HexDigit(c as int / 16), HexDigit(c as int % 16)]
    else [c]
  }

  function Escaped(s: string, q: char): string {
    if s == [] then [] else EscapeChar(s[0], q) + Escaped(s[1..], q)
  }

  /** Python's `repr(s)` of a string. */
  function Repr(s: string): (r: string)
    ensures |r| >= 2 && r[0] == r[|r| - 1] == QuoteFor(s)
  {
    var q := QuoteFor(s);
    [q] + Escaped(s, q) + [q]
  }

  /** Reads back the text between the quotes of a literal written by `repr`. */
  function Unescape(t: string): string
    decreases |t|
  {
    if t == [] then []
    else if t[0] == '\\' && |t| >= 2 then
      if t[1] == 't' then "\t" + Unescape(t[2..])
      else if t[1] == 'n' then "\n" + Unescape(t[2..])
      else if t[1] == 'r' then "\r" + Unescape(t[2..])
      else if t[1] == 'x' && |t| >= 4 then [(HexValue(t[2]) * 16 + HexValue(t[3])) as char] + Unescape(t[4..])
      else [t[1]] + Unescape(t[2..])
    else [t[0]] + Unescape(t[1..])
  }

  lemma HexRoundTrip(n: nat)
    requires n < 16
    ensures HexValue(HexDigit(n)) == n
  {
  }

  /** Reading back one written character. */
  lemma UnescapeEscapeChar(c: char, q: char, rest: string)
    requires q == '\'' || q == '"'
    ensures Unescape(EscapeChar(c, q) + rest) == [c] + Unescape(rest)
  {
    var t := EscapeChar(c, q) + rest;
    if c == q || c == '\\' || c == '\t' || c == '\n' || c == '\r' {
      assert t[2..] == rest;
    } else if IsControl(c) {
      var n := c as int;
      HexRoundTrip(n / 16);
      HexRoundTrip(n % 16);
      assert t[1] == 'x' && t[2] == HexDigit(n / 16) && t[3] == HexDigit(n % 16);
      assert t[4..] == rest;
      assert (n / 16 * 16 + n % 16) as char == c;
    } else {
      assert t[0] == c && t[1..] == rest;
    }
  }

  /** The escapes lose nothing: reading back the written text gives the
      original string, whichever quote was chosen. */
  lemma {:induction false} EscapedRoundTrip(s: string, q: char)
    requires q == '\'' || q == '"'
    ensures Unescape(Escaped(s, q)) == s
    decreases |s|
  {
    if s != [] {
      UnescapeEscapeChar(s[0], q, Escaped(s[1..], q));
      EscapedRoundTrip(s[1..], q);
      assert s == [s[0]] + s[1..];
    }
  }

  /** `repr` writes a literal in matching quotes whose body reads back as
      the original string. */
  lemma ReprRoundTrip(s: string)
    ensures var r := Repr(s);
            Unescape(r[1..|r| - 1]) == s
  {
    var q := QuoteFor(s);
    var r := Repr(s);
    assert r[1..|r| - 1] == Escaped(s, q);
    EscapedRoundTrip(s, q);
  }

  /** A string without a single quote, a backslash or a control character
      is written as it is, between single quotes. */
  lemma {:induction false} ReprPlain(s: string)
    requires '\'' !in s && '\\' !in s
    requires forall i :: 0 <= i < |s| ==> !IsControl(s[i])
    ensures Repr(s) == "'" + s + "'"
  {
    EscapedPlainIn(s, '\'');
  }

  /** Text with neither the quote, nor a backslash, nor a control character
      needs no escape. */
  lemma {:induction false} EscapedPlainIn(s: string, q: char)
    requires q !in s && '\\' !in s
    requires forall i :: 0 <= i < |s| ==> !IsControl(s[i])
    ensures Escaped(s, q) == s
    decreases |s|
  {
    if s != [] {
      assert !IsControl(s[0]);
      assert forall i :: 0 <= i < |s[1..]| ==> !IsControl(s[1..][i]) by {
        forall i | 0 <= i < |s[1..]| ensures !IsControl(s[1..][i]) {
          assert s[1..][i] == s[i + 1];
        }
      }
      EscapedPlainIn(s[1..], q);
      assert s == [s[0]] + s[1..];
    }
  }

  /** A string holding a single quote and no double quote (and neither a
      backslash nor a control character) is written between double quotes,
      its single quotes left as they are. */
  lemma ReprApostrophe(s: string)
    requires '\'' in s && '"' !in s && '\\' !in s
    requires forall i :: 0 <= i < |s| ==> !IsControl(s[i])
    ensures Repr(s) == "\"" + s + "\""
  {
    EscapedPlainIn(s, '"');
  }
}
