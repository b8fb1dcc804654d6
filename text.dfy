/** Text operations used by the updater: `starts_with`, `contains`, `ends_with`, `find`, and the `{:?}` quoting of a string. */
module Text {
  import opened Wrappers

  predicate StartsWith(s: string, prefix: string) {
    |prefix| <= |s| && s[..|prefix|] == prefix
  }

  predicate EndsWith(s: string, suffix: string) {
    |suffix| <= |s| && s[|s| - |suffix|..] == suffix
  }

  /** `needle` occurs in `s` starting at index `i`. */
  predicate OccursAt(s: string, needle: string, i: int) {
    0 <= i && i + |needle| <= |s| && s[i..i + |needle|] == needle
  }

  /** `needle` occurs somewhere in `s` as a contiguous substring. */
  predicate Contains(s: string, needle: string) {
    exists i | 0 <= i <= |s| - |needle| :: OccursAt(s, needle, i)
  }

  /** Position of the first `c` in `s`, if any. */
  function FirstIndex(s: string, c: char): (r: Option<nat>)
    ensures r.Some? ==> r.value < |s| && s[r.value] == c && forall j | 0 <= j < r.value :: s[j] != c
    ensures r.None? ==> forall j | 0 <= j < |s| :: s[j] != c
  {
    if s == [] then None
    else if s[0] == c then Some(0)
    else match FirstIndex(s[1..], c)
      case None => None
      case Some(k) => Some(k + 1)
  }

  /** The characters `{:?}` writes as a backslash escape. */
  predicate NeedsEscape(c: char) {
    c == '"' || c == '\\' || c == '\t' || c == '\r' || c == '\n' || c == '\0'
  }

  /**
   * How Rust's `{:?}` writes one character inside a quoted string: a
   * backslash escape for `"`, `\`, tab, carriage return, line feed and NUL,
   * the character itself otherwise.
   */
  function EscapeChar(c: char): (r: string)
    ensures |r| == 1 <==> !NeedsEscape(c)
    ensures |r| == 1 ==> r[0] == c
    ensures |r| == 2 ==> r[0] == '\\'
    ensures |r| == 1 || |r| == 2
  {
    match c
    case '"' => "\\\""
    case '\\' => "\\\\"
    case '\t' => "\\t"
    case '\r' => "\\r"
    case '\n' => "\\n"
    case '\0' => "\\0"
    case _ => [c]
  }

  /** The characters of `s`, each escaped as `{:?}` does. */
  function Escaped(s: string): (r: string)
    ensures |r| >= |s|
  {
    if s == [] then [] else EscapeChar(s[0]) + Escaped(s[1..])
  }

  /** Rust's `{:?}` rendering of a string: quoted, with escapes. */
  function Quoted(s: string): (r: string)
    ensures |r| >= |s| + 2 && r[0] == '"' && r[|r| - 1] == '"'
  {
    "\"" + Escaped(s) + "\""
  }

  /** Reading an escaped text back: a backslash and the character after it stand for one character. */
  function Unescaped(r: string): string
    decreases |r|
  {
    if r == [] then []
    else if r[0] == '\\' && |r| >= 2 then
      [match r[1] case 't' => '\t' case 'r' => '\r' case 'n' => '\n' case '0' => '\0' case c => c] + Unescaped(r[2..])
    else [r[0]] + Unescaped(r[1..])
  }

  /** The escapes lose nothing: reading them back gives the original text. */
  lemma {:induction false} EscapedRoundTrip(s: string)
    ensures Unescaped(Escaped(s)) == s
  {
    if s != [] {
      EscapedRoundTrip(s[1..]);
      var e := EscapeChar(s[0]);
      var rest := Escaped(s[1..]);
      assert Escaped(s) == e + rest;
      if |e| == 1 {
        assert (e + rest)[0] == s[0] != '\\';
        assert (e + rest)[1..] == rest;
      } else {
        assert (e + rest)[2..] == rest;
      }
      assert s == [s[0]] + s[1..];
    }
  }

  /** A text with nothing to escape is shown between quotes as it is. */
  lemma {:induction false} PlainTextQuoted(s: string)
    requires forall k | 0 <= k < |s| :: !NeedsEscape(s[k])
    ensures Quoted(s) == "\"" + s + "\""
  {
    PlainTextEscaped(s);
  }

  lemma {:induction false} PlainTextEscaped(s: string)
    requires forall k | 0 <= k < |s| :: !NeedsEscape(s[k])
    ensures Escaped(s) == s
  {
    if s != [] {
      PlainTextEscaped(s[1..]);
      assert s == [s[0]] + s[1..];
    }
  }
}
