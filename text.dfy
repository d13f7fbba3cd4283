/** Character classes and the small PHP string built-ins the slug pipeline relies on. */
module Text {

  /** PCRE's `\s` without Unicode properties: space, tab, newline, vertical tab, form feed, carriage return. */
  const Spaces: set<char> := {' ', '\t', '\n', '\U{0B}', '\U{0C}', '\r'}

  predicate IsSpace(c: char) { c in Spaces }

  /**
   * The characters beyond ASCII that PCRE's `\s` also matches under Unicode properties, which PHP
   * turns on with `/u`: next line, no-break space, Ogham space mark, Mongolian vowel separator,
   * the spaces U+2000 to U+200A, line and paragraph separators, narrow no-break space, medium
   * mathematical space, ideographic space.
   */
  predicate IsWideSpace(c: char) {
    || c == '\U{85}' || c == '\U{A0}' || c == '\U{1680}' || c == '\U{180E}'
    || ('\U{2000}' <= c <= '\U{200A}')
    || c == '\U{2028}' || c == '\U{2029}' || c == '\U{202F}' || c == '\U{205F}' || c == '\U{3000}'
  }

  predicate IsAscii(c: char) { c as int < 128 }

  /** PCRE's `\s` under Unicode properties. */
  predicate IsUnicodeSpace(c: char) { c in Spaces || IsWideSpace(c) }

  predicate IsDigit(c: char) { '0' <= c <= '9' }

  predicate IsUpper(c: char) { 'A' <= c <= 'Z' }

  predicate IsLower(c: char) { 'a' <= c <= 'z' }

  predicate IsAsciiAlnum(c: char) { IsUpper(c) || IsLower(c) || IsDigit(c) }

  /** PCRE's `\w` without Unicode properties. */
  predicate IsWordChar(c: char) { IsAsciiAlnum(c) || c == '_' }

  /** PHP's `!$s` for a string: the empty string and "0" are falsy. */
  predicate Falsy(s: string) { s == "" || s == "0" }

  /** The characters of a string, as a set (a regex character class, a `trim` character list). */
  function CharSet(s: string): (r: set<char>)
    ensures forall c :: c in r <==> c in s
  {
    set c | c in s
  }

  /** `strtolower` in the C locale: only A-Z change. */
  function ToLower(c: char): (r: char)
    ensures IsUpper(c) ==> IsLower(r) && r as int - c as int == 32
    ensures !IsUpper(c) ==> r == c
  {
    if IsUpper(c) then (c as int + 32) as char else c
  }

  function Lower(s: string): (r: string)
    ensures |r| == |s|
    ensures forall i :: 0 <= i < |s| ==> r[i] == ToLower(s[i])
  {
    if s == [] then [] else [ToLower(s[0])] + Lower(s[1..])
  }

  /** ASCII case-insensitive equality, as PCRE's `/i` compares bytes without `/u`. */
  predicate EqualFold(a: string, b: string) {
    |a| == |b| && forall i :: 0 <= i < |a| ==> ToLower(a[i]) == ToLower(b[i])
  }

  /** `s[i..]` starts with `w`, ignoring ASCII case. */
  predicate PrefixFoldAt(s: string, i: nat, w: string) {
    i + |w| <= |s| && EqualFold(s[i..i + |w|], w)
  }

  /** `substr($s, 0, n)` for n > 0. */
  function Prefix(s: string, n: nat): (r: string)
    ensures |r| <= n && r <= s
    ensures |s| <= n ==> r == s
    ensures |s| > n ==> r == s[..n]
  {
    if |s| <= n then s else s[..n]
  }

  /** Number of leading characters of `s` that belong to `cs`. */
  function LeadingIn(s: string, cs: set<char>): (k: nat)
    ensures k <= |s|
    ensures forall i :: 0 <= i < k ==> s[i] in cs
    ensures k < |s| ==> s[k] !in cs
  {
    if s == [] || s[0] !in cs then 0 else 1 + LeadingIn(s[1..], cs)
  }

  /** A run of `n` characters of `cs` followed by one outside `cs` (or the end) has length `n`. */
  lemma {:induction false} LeadingInOf(s: string, cs: set<char>, n: nat)
    requires n <= |s|
    requires forall i :: 0 <= i < n ==> s[i] in cs
    requires n < |s| ==> s[n] !in cs
    ensures LeadingIn(s, cs) == n
  {
    if n > 0 {
      LeadingInOf(s[1..], cs, n - 1);
    }
  }

  /** Number of trailing characters of `s` that belong to `cs`. */
  function TrailingIn(s: string, cs: set<char>): (k: nat)
    ensures k <= |s|
    ensures forall i :: |s| - k <= i < |s| ==> s[i] in cs
    ensures k < |s| ==> s[|s| - 1 - k] !in cs
  {
    if s == [] || s[|s| - 1] !in cs then 0 else 1 + TrailingIn(s[..|s| - 1], cs)
  }

  /** `r` is `s` with some characters of `cs` removed from its front and its back, and nothing else. */
  predicate StrippedOf(r: string, s: string, cs: set<char>) {
    exists i, j ::
      && 0 <= i <= j <= |s| && r == s[i..j]
      && (forall k :: 0 <= k < i ==> s[k] in cs)
      && (forall k :: j <= k < |s| ==> s[k] in cs)
  }

  /** PHP `trim($s, $list)` for a character list without `..` ranges. */
  function Trim(s: string, cs: set<char>): (r: string)
    ensures r != [] ==> r[0] !in cs && r[|r| - 1] !in cs
    ensures StrippedOf(r, s, cs)
  {
    var a := LeadingIn(s, cs);
    var b := TrailingIn(s[a..], cs);
    TrimShape(s, cs, a, b);
    s[a..|s| - b]
  }

  /** The facts `Trim` promises, for the counts of leading and trailing characters it strips. */
  lemma TrimShape(s: string, cs: set<char>, a: nat, b: nat)
    requires a == LeadingIn(s, cs) && b == TrailingIn(s[a..], cs)
    ensures a <= |s| - b
    ensures var r := s[a..|s| - b]; r != [] ==> r[0] !in cs && r[|r| - 1] !in cs
    ensures StrippedOf(s[a..|s| - b], s, cs)
  {
    var t := s[a..];
    var j := |s| - b;
    forall k | j <= k < |s|
      ensures s[k] in cs
    {
      assert s[k] == t[k - a];
    }
    if a < j {
      TrimEnds(s, cs, a, j, t[|t| - 1 - b]);
    }
    StrippedAt(s[a..j], s, cs, a, j);
  }

  /** The witness for `StrippedOf`: where the kept part starts and ends. */
  lemma StrippedAt(r: string, s: string, cs: set<char>, i: nat, j: nat)
    requires i <= j <= |s| && r == s[i..j]
    requires forall k :: 0 <= k < i ==> s[k] in cs
    requires forall k :: j <= k < |s| ==> s[k] in cs
    ensures StrippedOf(r, s, cs)
  {
  }

  lemma TrimEnds(s: string, cs: set<char>, a: nat, j: nat, last: char)
    requires a < j <= |s| && s[a] !in cs && last !in cs && s[j - 1] == last
    ensures var r := s[a..j]; r[0] !in cs && r[|r| - 1] !in cs
  {
  }

  /** Text made only of trimmed characters trims to nothing. */
  lemma TrimAll(s: string, cs: set<char>)
    requires forall i :: 0 <= i < |s| ==> s[i] in cs
    ensures Trim(s, cs) == []
  {
    LeadingInOf(s, cs, |s|);
  }

  /** Text that neither starts nor ends with a listed character is not changed by `trim`. */
  lemma TrimUnchanged(s: string, cs: set<char>)
    requires s == [] || (s[0] !in cs && s[|s| - 1] !in cs)
    ensures Trim(s, cs) == s
  {
    LeadingInOf(s, cs, 0);
  }

  /** A non-empty sequence before `b`: its head, then the rest followed by `b`. */
  lemma SplitFirst<T>(a: seq<T>, b: seq<T>)
    requires a != []
    ensures a + b == [a[0]] + (a[1..] + b)
  {
  }

  /** Concatenation regrouped. */
  lemma Regroup<T>(x: seq<T>, p: seq<T>, q: seq<T>)
    ensures x + (p + q) == (x + p) + q
  {
  }
}
