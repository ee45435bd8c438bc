/**
 * The Unix half of the execution helpers (utils/exec_unix.go): the
 * single-word shell quoting used to probe for a command, and the sub-error
 * code, which Unix does not have.
 *
 * The promise of shellQuote, that its result is read by the shell as one
 * word whose value is the input, is stated against a reader of words after
 * section 2.2 ("Quoting") of the POSIX.1-2017 Shell Command Language.
 */
module ExecUnix {
  import opened Wrappers

  /** A character of Go's `\w` (ASCII letters, digits and `_`) or one of
      `@%+=:,./-`: the characters quotePattern does not match. */
  predicate IsSafe(c: char) {
    'a' <= c <= 'z' || 'A' <= c <= 'Z' || '0' <= c <= '9' || c == '_'
    || c == '@' || c == '%' || c == '+' || c == '=' || c == ':' || c == ','
    || c == '.' || c == '/' || c == '-'
  }

  predicate AllSafe(s: string) {
    forall i :: 0 <= i < |s| ==> IsSafe(s[i])
  }

  /** strings.ReplaceAll(s, "'", `'"'"'`): each single quote closes the
      single-quoted text, is written inside double quotes, and reopens it. */
  function EscapeQuotes(s: string): (r: string)
    ensures |r| >= |s|
  {
    if s == [] then []
    else (if s[0] == '\'' then "'\"'\"'" else [s[0]]) + EscapeQuotes(s[1..])
  }

  /** shellQuote */
  function ShellQuote(s: string): (r: string)
    ensures r != []
    ensures s == [] ==> r == "''"
    ensures s != [] && AllSafe(s) ==> r == s
    ensures !AllSafe(s) ==> |r| >= 2 && r[0] == '\'' && r[|r| - 1] == '\''
  {
    if |s| == 0 then "''"
    else if !AllSafe(s) then "'" + EscapeQuotes(s) + "'"
    else s
  }

  /** The three quoting states of a word: outside quotes, inside single
      quotes, inside double quotes. */
  datatype Mode = Unquoted | InSingle | InDouble

  /** The value of `w` read as one shell word, continuing in `mode` with
      `acc` read so far; None when `w` is not one plain word. Inside single
      quotes every character but `'` stands for itself (2.2.2). Inside
      double quotes every character but `"`, `$`, the backquote and the
      backslash stands for itself (2.2.3); these four are refused here, as
      is, outside quotes, every character other than a quote and the
      characters IsSafe admits, none of which the shell treats specially. */
  function ReadWord(w: string, mode: Mode, acc: string): (r: Option<string>)
    decreases |w|
  {
    if w == [] then (if mode == Unquoted then Some(acc) else None)
    else
      var c := w[0];
      match mode
      case Unquoted =>
        if c == '\'' then ReadWord(w[1..], InSingle, acc)
        else if c == '"' then ReadWord(w[1..], InDouble, acc)
        else if IsSafe(c) then ReadWord(w[1..], Unquoted, acc + [c])
        else None
      case InSingle =>
        if c == '\'' then ReadWord(w[1..], Unquoted, acc)
        else ReadWord(w[1..], InSingle, acc + [c])
      case InDouble =>
        if c == '"' then ReadWord(w[1..], Unquoted, acc)
        else if c == '$' || c == '`' || c == '\\' then None
        else ReadWord(w[1..], InDouble, acc + [c])
  }

  /** The value of `w` as one word. */
  function Unquote(w: string): Option<string> {
    ReadWord(w, Unquoted, [])
  }

  /** Safe characters outside quotes stand for themselves. */
  lemma {:induction false} ReadSafe(s: string, acc: string)
    requires AllSafe(s)
    ensures ReadWord(s, Unquoted, acc) == Some(acc + s)
    decreases |s|
  {
    if s == [] {
      assert acc + s == acc;
    } else {
      assert IsSafe(s[0]) && AllSafe(s[1..]);
      ReadSafe(s[1..], acc + [s[0]]);
      assert acc + [s[0]] + s[1..] == acc + s;
    }
  }

  /** The escape of one single quote, read inside single quotes, closes
      them, reads a double-quoted `'` and reopens them. */
  lemma ReadEscapedQuote(tail: string, acc: string)
    ensures ReadWord("'\"'\"'" + tail, InSingle, acc) == ReadWord(tail, InSingle, acc + "'")
  {
    var w := "'\"'\"'" + tail;
    var w1, w2, w3, w4 := w[1..], w[2..], w[3..], w[4..];
    assert w[0] == '\'' && w1[0] == '"' && w2[0] == '\'' && w3[0] == '"' && w4[0] == '\'';
    assert w1[1..] == w2 && w2[1..] == w3 && w3[1..] == w4 && w4[1..] == tail;
    calc {
      ReadWord(w, InSingle, acc);
      ReadWord(w1, Unquoted, acc);
      ReadWord(w2, InDouble, acc);
      ReadWord(w3, InDouble, acc + "'");
      ReadWord(w4, Unquoted, acc + "'");
      ReadWord(tail, InSingle, acc + "'");
    }
  }

  /** Inside single quotes, the escaped text reads back as the original. */
  lemma {:induction false} ReadEscaped(s: string, rest: string, acc: string)
    ensures ReadWord(EscapeQuotes(s) + rest, InSingle, acc) == ReadWord(rest, InSingle, acc + s)
    decreases |s|
  {
    if s == [] {
      assert EscapeQuotes(s) + rest == rest;
      assert acc + s == acc;
    } else {
      var tail := EscapeQuotes(s[1..]) + rest;
      ReadEscaped(s[1..], rest, acc + [s[0]]);
      assert acc + [s[0]] + s[1..] == acc + s;
      if s[0] == '\'' {
        assert EscapeQuotes(s) + rest == "'\"'\"'" + tail;
        ReadEscapedQuote(tail, acc);
      } else {
        var w := EscapeQuotes(s) + rest;
        assert w == [s[0]] + tail;
        assert w[1..] == tail;
      }
    }
  }

  /** shellQuote's promise: the result is one shell word whose value is the
      input, for every input. */
  lemma UnquoteShellQuote(s: string)
    ensures Unquote(ShellQuote(s)) == Some(s)
  {
    if s == [] {
      var w := ShellQuote(s);
      assert w == "''" && w[1..] == "'" && w[1..][1..] == [];
      assert ReadWord(w[1..], InSingle, []) == ReadWord([], Unquoted, []);
    } else if !AllSafe(s) {
      var w := "'" + EscapeQuotes(s) + "'";
      assert w[1..] == EscapeQuotes(s) + "'";
      ReadEscaped(s, "'", []);
      assert [] + s == s;
    } else {
      ReadSafe(s, []);
      assert [] + s == s;
    }
  }

  /** parseSubErrorCode: Unix reports no sub-error code. */
  function ParseSubErrorCode(output: string): (code: int)
    ensures code == 0
  {
    0
  }
}
