/**
 * The few Python string operations the partitioners rely on: `str.isspace`,
 * `str.strip`, `str.startswith`, the truthiness of an optional string, the
 * `a or b` idiom, and the newline translation of a file opened in text mode.
 */
module PyStr {
  import opened Wrappers

  /** `str.isspace()` for a single character: exactly the characters that `str.strip()` removes. */
  predicate IsSpace(c: char) {
    var n := c as int;
    || (0x09 <= n <= 0x0D)
    || (0x1C <= n <= 0x20)
    || n == 0x85
    || n == 0xA0
    || n == 0x1680
    || (0x2000 <= n <= 0x200A)
    || n == 0x2028
    || n == 0x2029
    || n == 0x202F
    || n == 0x205F
    || n == 0x3000
  }

  /** A string that is empty or made only of whitespace. */
  predicate IsBlank(s: string) {
    forall i :: 0 <= i < |s| ==> IsSpace(s[i])
  }

  /** `str.lstrip()`: drops the leading whitespace, keeps the rest. */
  function LStrip(s: string): (r: string)
    ensures |r| <= |s| && r == s[|s| - |r|..]
    ensures IsBlank(s[..|s| - |r|])
    ensures r == [] || !IsSpace(r[0])
  {
    if |s| > 0 && IsSpace(s[0]) then
      var tail := s[1..];
      var r := LStrip(tail);
      assert r == s[|s| - |r|..] by { assert tail[|tail| - |r|..] == s[|s| - |r|..]; }
      assert s[..|s| - |r|] == [s[0]] + tail[..|tail| - |r|];
      BlankConcat([s[0]], tail[..|tail| - |r|]);
      r
    else s
  }

  /** `str.rstrip()`: drops the trailing whitespace, keeps the rest. */
  function RStrip(s: string): (r: string)
    ensures |r| <= |s| && r == s[..|r|]
    ensures IsBlank(s[|r|..])
    ensures r == [] || !IsSpace(r[|r| - 1])
  {
    if |s| > 0 && IsSpace(s[|s| - 1]) then
      var init := s[..|s| - 1];
      var r := RStrip(init);
      assert s[|r|..] == init[|r|..] + [s[|s| - 1]];
      BlankConcat(init[|r|..], [s[|s| - 1]]);
      r
    else s
  }

  /** Two blank strings make a blank string. */
  lemma BlankConcat(a: string, b: string)
    requires IsBlank(a) && IsBlank(b)
    ensures IsBlank(a + b)
  {
    forall i | 0 <= i < |a + b| ensures IsSpace((a + b)[i]) {
      if i < |a| { assert (a + b)[i] == a[i]; } else { assert (a + b)[i] == b[i - |a|]; }
    }
  }

  /** Stripping both ends leaves nothing exactly when the string is blank. */
  lemma {:induction false} StripEmptyIffBlank(s: string)
    ensures RStrip(LStrip(s)) == [] <==> IsBlank(s)
  {
    var l := LStrip(s);
    var head := s[..|s| - |l|];
    assert s == head + l;
    if RStrip(l) == [] {
      assert l[0..] == l;
      BlankConcat(head, l);
    }
  }

  /** What stripping both ends leaves starts and ends with non-whitespace. */
  lemma {:induction false} StripEnds(s: string)
    ensures RStrip(LStrip(s)) != [] ==>
              !IsSpace(RStrip(LStrip(s))[0]) && !IsSpace(RStrip(LStrip(s))[|RStrip(LStrip(s))| - 1])
  {
    var l := LStrip(s);
    var r := RStrip(l);
    if r != [] {
      assert r == l[..|r|];
      assert r[0] == l[0] && !IsSpace(l[0]);
      assert !IsSpace(r[|r| - 1]);
    }
  }

  /**
   * `str.strip()`: the middle of `s` left once the blank prefix and the
   * blank suffix are dropped; empty exactly for blank strings, otherwise
   * bounded by non-whitespace.
   */
  function Strip(s: string): (r: string)
    ensures |r| <= |s|
    ensures IsBlank(s[..|s| - |LStrip(s)|])
    ensures |r| <= |LStrip(s)| && LStrip(s) == s[|s| - |LStrip(s)|..]
    ensures r == s[|s| - |LStrip(s)|..][..|r|] && IsBlank(s[|s| - |LStrip(s)|..][|r|..])
    ensures r == [] <==> IsBlank(s)
    ensures r != [] ==> !IsSpace(r[0]) && !IsSpace(r[|r| - 1])
  {
    StripEmptyIffBlank(s);
    StripEnds(s);
    RStrip(LStrip(s))
  }

  /** Python truthiness of `s.strip()`: the string holds a non-whitespace character. */
  predicate HasContent(s: string) {
    Strip(s) != []
  }

  /** `s.startswith(prefix)`. */
  predicate StartsWith(s: string, prefix: string) {
    |prefix| <= |s| && s[..|prefix|] == prefix
  }

  /** Python truthiness of an `Optional[str]`: present and not the empty string. */
  predicate Truthy(o: Option<string>) {
    o.Some? && o.value != ""
  }

  /** Python's `a or b` on two `Optional[str]` values. */
  function Or(a: Option<string>, b: Option<string>): (r: Option<string>)
    ensures Truthy(a) ==> r == a
    ensures !Truthy(a) ==> r == b
  {
    if Truthy(a) then a else b
  }

  /** The number of occurrences of `c` in `s`. */
  function Occurrences(c: char, s: string): (n: nat)
    ensures n <= |s|
    ensures c !in s ==> n == 0
  {
    if s == [] then 0 else (if s[0] == c then 1 else 0) + Occurrences(c, s[1..])
  }

  /** The number of "\r\n" pairs in `s`. */
  function CrLfPairs(s: string): (n: nat)
    ensures n <= Occurrences('\r', s)
  {
    if |s| < 2 then 0
    else (if s[0] == '\r' && s[1] == '\n' then 1 else 0) + CrLfPairs(s[1..])
  }

  /** `s` with its line-break characters '\r' and '\n' removed. */
  function Unbroken(s: string): (r: string)
    ensures '\r' !in r && '\n' !in r
    ensures |r| == |s| - Occurrences('\r', s) - Occurrences('\n', s)
  {
    if s == [] then []
    else (if s[0] == '\r' || s[0] == '\n' then [] else [s[0]]) + Unbroken(s[1..])
  }

  /**
   * Universal-newlines translation done when a file is read in text mode:
   * every "\r\n" and every lone "\r" becomes "\n", and every other
   * character is kept in order.
   */
  function TranslateNewlines(s: string): (r: string)
    ensures '\r' !in r
    ensures '\r' !in s ==> r == s
    ensures |r| == |s| - CrLfPairs(s)
    ensures Occurrences('\n', r) == Occurrences('\n', s) + Occurrences('\r', s) - CrLfPairs(s)
    ensures Unbroken(r) == Unbroken(s)
  {
    if s == [] then []
    else if s[0] == '\r' then
      if |s| > 1 && s[1] == '\n' then
        assert s[1..][1..] == s[2..];
        ['\n'] + TranslateNewlines(s[2..])
      else
        ['\n'] + TranslateNewlines(s[1..])
    else
      [s[0]] + TranslateNewlines(s[1..])
  }

  /** On one character: a carriage return becomes a line feed, anything else is kept; a CRLF pair becomes one line feed. */
  lemma TranslateNewlinesUnits(c: char)
    ensures TranslateNewlines([c]) == (if c == '\r' then "\n" else [c])
    ensures TranslateNewlines("\r\n") == "\n"
  {
    assert "\r\n"[2..] == [];
  }

  /** Concatenation regroups freely. */
  lemma ConcatAssoc(x: string, y: string, z: string)
    ensures x + (y + z) == (x + y) + z
  {
  }

  /** A leading CRLF pair becomes one line feed. */
  lemma TranslateCrLfStep(s: string)
    requires |s| >= 2 && s[0] == '\r' && s[1] == '\n'
    ensures TranslateNewlines(s) == ['\n'] + TranslateNewlines(s[2..])
  {
  }

  /** A leading character that does not open a CRLF pair becomes one character. */
  lemma TranslateCharStep(s: string)
    requires s != [] && !(s[0] == '\r' && |s| >= 2 && s[1] == '\n')
    ensures TranslateNewlines(s) == [if s[0] == '\r' then '\n' else s[0]] + TranslateNewlines(s[1..])
  {
  }

  /**
   * Translation works piecewise: two strings translate as their
   * concatenation does, unless the cut splits a CRLF pair. With the unit
   * cases this fixes the result on every input.
   */
  lemma {:induction false} TranslateNewlinesAppend(a: string, b: string)
    requires a == [] || b == [] || a[|a| - 1] != '\r' || b[0] != '\n'
    ensures TranslateNewlines(a + b) == TranslateNewlines(a) + TranslateNewlines(b)
    decreases |a|
  {
    if a == [] {
      assert a + b == b;
    } else if a[0] == '\r' && |a + b| >= 2 && (a + b)[1] == '\n' {
      assert |a| >= 2 && a[1] == '\n';
      var rest := a[2..];
      assert (a + b)[2..] == rest + b;
      assert rest != [] ==> rest[|rest| - 1] == a[|a| - 1];
      TranslateCrLfStep(a + b);
      TranslateCrLfStep(a);
      TranslateNewlinesAppend(rest, b);
      ConcatAssoc(['\n'], TranslateNewlines(rest), TranslateNewlines(b));
    } else {
      var rest := a[1..];
      assert (a + b)[1..] == rest + b;
      assert rest != [] ==> rest[|rest| - 1] == a[|a| - 1];
      TranslateCharStep(a + b);
      TranslateCharStep(a);
      TranslateNewlinesAppend(rest, b);
      ConcatAssoc([if a[0] == '\r' then '\n' else a[0]], TranslateNewlines(rest), TranslateNewlines(b));
    }
  }

  /** A lone carriage return and a CRLF pair each become one line feed. */
  lemma NewlineExamples()
    ensures TranslateNewlines("a\rb") == "a\nb"
    ensures TranslateNewlines("a\r\nb") == "a\nb"
  {
    assert TranslateNewlines("b") == "b";
    assert "\rb"[1..] == "b";
    assert TranslateNewlines("\rb") == "\nb";
    assert "a\rb"[1..] == "\rb";
    assert "\r\nb"[2..] == "b";
    assert TranslateNewlines("\r\nb") == "\nb";
    assert "a\r\nb"[1..] == "\r\nb";
  }
}
