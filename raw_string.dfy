/**
 * `ProcessRawString`, shared by both generations: the regular expression `\\n|\\r\\n`
 * replaced by a newline. Translators write a line break inside one cell as the two
 * characters `\n` (or the four characters `\r\n`); lookups expand them.
 */
module RawString {

  const Backslash: char := '\\'

  /** True when `s` starts with the escape token `t`. */
  predicate StartsWith(s: string, t: string)
  {
    |t| <= |s| && s[..|t|] == t
  }

  const NewlineToken: string := "\\n"
  const CrLfToken: string := "\\r\\n"

  /**
   * A left-to-right scan: at each position the token `\n` is tried first, then `\r\n`;
   * a match is replaced by one newline and the scan resumes after it, otherwise the
   * character is kept.
   */
  function ProcessRawString(raw: string): (r: string)
    ensures |r| <= |raw|
    ensures Backslash !in raw ==> r == raw
    decreases |raw|
  {
    if raw == [] then []
    else if StartsWith(raw, NewlineToken) then
      assert raw[..2][0] == raw[0] == Backslash;
      "\n" + ProcessRawString(raw[2..])
    else if StartsWith(raw, CrLfToken) then
      assert raw[..4][0] == raw[0] == Backslash;
      "\n" + ProcessRawString(raw[4..])
    else [raw[0]] + ProcessRawString(raw[1..])
  }

  /** Authored text: plain text, and the two escape tokens. */
  datatype Piece = Text(s: string) | EscapedNewline | EscapedCrLf

  /** The raw cell text of `pieces`, as written in the table. */
  function Authored(pieces: seq<Piece>): string
  {
    if pieces == [] then ""
    else
      (match pieces[0]
       case Text(s) => s
       case EscapedNewline => NewlineToken
       case EscapedCrLf => CrLfToken) + Authored(pieces[1..])
  }

  /** The text `pieces` should display: every token one line break. */
  function Displayed(pieces: seq<Piece>): string
  {
    if pieces == [] then ""
    else (match pieces[0] case Text(s) => s case _ => "\n") + Displayed(pieces[1..])
  }

  predicate PlainText(p: Piece)
  {
    p.Text? ==> Backslash !in p.s
  }

  lemma {:induction false} PlainPrefix(a: string, b: string)
    requires Backslash !in a
    ensures ProcessRawString(a + b) == a + ProcessRawString(b)
    decreases |a|
  {
    if a != [] {
      var s := a + b;
      assert s[0] == a[0] && s[0] != Backslash;
      assert !StartsWith(s, NewlineToken) by {
        if |s| >= 2 { assert s[..2][0] == s[0]; }
      }
      assert !StartsWith(s, CrLfToken) by {
        if |s| >= 4 { assert s[..4][0] == s[0]; }
      }
      assert ProcessRawString(s) == [s[0]] + ProcessRawString(s[1..]);
      assert s[1..] == a[1..] + b;
      PlainPrefix(a[1..], b);
      assert a == [a[0]] + a[1..];
    } else {
      assert a + b == b;
    }
  }

  /**
   * Expansion of authored text: every `\n` and `\r\n` token becomes one newline and the
   * text between tokens is unchanged, as long as that text holds no backslash.
   */
  lemma {:induction false} ExpandsTokens(pieces: seq<Piece>)
    requires forall p | p in pieces :: PlainText(p)
    ensures ProcessRawString(Authored(pieces)) == Displayed(pieces)
  {
    if pieces != [] {
      var rest := Authored(pieces[1..]);
      assert pieces[0] in pieces;
      ExpandsTokens(pieces[1..]);
      match pieces[0]
      case Text(s) =>
        PlainPrefix(s, rest);
      case EscapedNewline =>
        var t := NewlineToken + rest;
        assert StartsWith(t, NewlineToken) && t[2..] == rest;
      case EscapedCrLf =>
        var t := CrLfToken + rest;
        assert t[..2][1] == t[1] == 'r';
        assert StartsWith(t, CrLfToken) && t[4..] == rest;
    }
  }
}
