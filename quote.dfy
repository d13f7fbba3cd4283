/**
 * `preg_quote($s, '/')` and the reading PCRE gives to its output: quoting puts a backslash
 * before every regex metacharacter and the `/` delimiter, and writes NUL as the octal escape
 * `\000`; the quoted text then matches the original text literally.
 */
module Quoting {

  /** The characters `preg_quote` escapes with a backslash, the delimiter `/` included. */
  const Special: set<char> := {
    '.', '\\', '+', '*', '?', '[', '^', ']', '$', '(', ')', '{', '}', '=', '!', '<', '>', '|', ':', '-', '#', '/'
  }

  function QuoteChar(c: char): (r: string)
    ensures c !in Special && c != '\0' ==> r == [c]
    ensures c in Special ==> r == ['\\', c]
  {
    if c == '\0' then "\\000"
    else if c in Special then ['\\', c]
    else [c]
  }

  function Quote(s: string): (r: string)
    ensures |r| >= |s|
    ensures (forall i :: 0 <= i < |s| ==> s[i] !in Special && s[i] != '\0') ==> r == s
  {
    if s == [] then [] else QuoteChar(s[0]) + Quote(s[1..])
  }

  /** What PCRE matches for a quoted text: `\000` is NUL, a backslash makes the next character literal. */
  function Unquote(q: string): string
    decreases |q|
  {
    if q == [] then []
    else if q[0] == '\\' && |q| >= 4 && q[1..4] == "000" then ['\0'] + Unquote(q[4..])
    else if q[0] == '\\' && |q| >= 2 then [q[1]] + Unquote(q[2..])
    else [q[0]] + Unquote(q[1..])
  }

  /** Reading back one quoted character in front of any text. */
  lemma UnquoteChar(c: char, rest: string)
    ensures Unquote(QuoteChar(c) + rest) == [c] + Unquote(rest)
  {
    var q := QuoteChar(c) + rest;
    if c == '\0' {
      assert q[0] == '\\' && q[1..4] == "000" && q[4..] == rest;
    } else if c in Special {
      assert c != '\0';
      assert q[0] == '\\' && q[1] == c && q[2..] == rest;
      assert c != '0';
      assert |q| >= 4 ==> q[1..4][0] != '0';
    } else {
      assert q[0] == c && q[1..] == rest;
    }
  }

  /** A quoted word, read back as a pattern, is exactly the word. */
  lemma {:induction false} UnquoteQuote(s: string)
    ensures Unquote(Quote(s)) == s
    decreases |s|
  {
    if s != [] {
      UnquoteQuote(s[1..]);
      UnquoteChar(s[0], Quote(s[1..]));
    }
  }

  /** Quoting is not idempotent: a word with a metacharacter grows on every quoting. */
  lemma {:induction false} QuoteGrows(s: string, i: nat)
    requires i < |s| && s[i] in Special
    ensures |Quote(s)| > |s|
    decreases |s|
  {
    if i > 0 {
      QuoteGrows(s[1..], i - 1);
    }
  }
}
