/**
 * The fixed rewriting of `filter`: the three default separator rules, the six-pattern chain
 * applied after transliteration, and the final lowercase / truncate / trim. Each pattern is a
 * hand-written scanner; a caller-supplied separator rule stays an opaque PCRE call.
 */
module Cleanup {
  import opened Wrappers
  import opened Text

  // ---------------------------------------------------------------------------
  // Separator rules (`$arrayToSeparator`)
  // ---------------------------------------------------------------------------

  /** A separator rule: one of the three defaults, or a caller's PCRE pattern. */
  datatype SepRule = Entities | Dashes | LineBreak | Custom(pattern: string)

  /** The rules `reset_array_to_separator` installs, in order. */
  const DefaultSepRules: seq<SepRule> := [Entities, Dashes, LineBreak]

  /** The alternatives of `&quot;|&amp;|&lt;|&gt;|&ndash;|&mdash;`, matched ignoring ASCII case. */
  const EntityNames: seq<string> := ["&quot;", "&amp;", "&lt;", "&gt;", "&ndash;", "&mdash;"]

  /** The alternatives of the dash rule: superscript minus, hyphen, em dash, underscore, quotes, accents. */
  const DashChars: set<char> := {'⁻', '-', '—', '_', '"', '`', '´', '\''}

  /** Length of the first alternative of `ws` that `s` starts with, ignoring ASCII case. */
  function FirstPrefix(s: string, ws: seq<string>): (r: Option<nat>)
    ensures r.Some? ==> 0 < r.value <= |s|
    ensures r.Some? ==> exists k :: 0 <= k < |ws| && |ws[k]| == r.value && PrefixFoldAt(s, 0, ws[k])
  {
    if ws == [] then None
    else if ws[0] != [] && PrefixFoldAt(s, 0, ws[0]) then Some(|ws[0]|)
    else match FirstPrefix(s, ws[1..])
      case None => None
      case Some(n) =>
        assert exists k :: 1 <= k < |ws| && |ws[k]| == n && PrefixFoldAt(s, 0, ws[k]) by {
          var k :| 0 <= k < |ws[1..]| && |ws[1..][k]| == n && PrefixFoldAt(s, 0, ws[1..][k]);
          assert ws[k + 1] == ws[1..][k];
        }
        Some(n)
  }

  /** `/&quot;|&amp;|&lt;|&gt;|&ndash;|&mdash;/i` replaced by the separator. */
  function ReplaceEntities(s: string, sep: string): (r: string)
    ensures '&' !in s ==> r == s
    ensures forall c :: c in r ==> c in s || c in sep
  {
    if s == [] then []
    else match FirstPrefix(s, EntityNames)
      case Some(n) =>
        assert s[0] == '&' by {
          var k :| 0 <= k < |EntityNames| && |EntityNames[k]| == n && PrefixFoldAt(s, 0, EntityNames[k]);
          assert ToLower(s[0]) == ToLower(EntityNames[k][0]);
        }
        sep + ReplaceEntities(s[n..], sep)
      case None => [s[0]] + ReplaceEntities(s[1..], sep)
  }

  /** The alternative at `k` is the first one `s` starts with: its length is the match. */
  lemma {:induction false} FirstPrefixAt(s: string, ws: seq<string>, k: nat)
    requires k < |ws| && ws[k] != [] && PrefixFoldAt(s, 0, ws[k])
    requires forall j :: 0 <= j < k ==> !PrefixFoldAt(s, 0, ws[j])
    ensures FirstPrefix(s, ws) == Some(|ws[k]|)
    decreases k
  {
    if k > 0 {
      FirstPrefixAt(s, ws[1..], k - 1);
    }
  }

  /** An entity, in any ASCII case, becomes the separator; the scan goes on after it. */
  lemma EntityBecomesSeparator(w: string, rest: string, sep: string, k: nat)
    requires k < |EntityNames| && EqualFold(w, EntityNames[k])
    ensures ReplaceEntities(w + rest, sep) == sep + ReplaceEntities(rest, sep)
  {
    var s := w + rest;
    assert s[..|w|] == w;
    assert forall j :: 0 <= j < |EntityNames| ==> |EntityNames[j]| >= 4 && IsLower(EntityNames[j][1]);
    forall j | 0 <= j < k
      ensures !PrefixFoldAt(s, 0, EntityNames[j])
    {
      assert ToLower(s[1]) == ToLower(EntityNames[k][1]) == EntityNames[k][1];
      assert EntityNames[j][1] != EntityNames[k][1];
    }
    FirstPrefixAt(s, EntityNames, k);
    assert s[|w|..] == rest;
  }

  /** No alternative matches when none starts with the first character (ignoring ASCII case). */
  lemma {:induction false} FirstPrefixNone(s: string, ws: seq<string>)
    requires s != []
    requires forall k :: 0 <= k < |ws| ==> ws[k] == [] || ToLower(ws[k][0]) != ToLower(s[0])
    ensures FirstPrefix(s, ws) == None
    decreases |ws|
  {
    if ws != [] {
      FirstPrefixNone(s, ws[1..]);
    }
  }

  /** Any character other than `&` is copied by the entity rule. */
  lemma NotEntityPasses(c: char, rest: string, sep: string)
    requires c != '&'
    ensures ReplaceEntities([c] + rest, sep) == [c] + ReplaceEntities(rest, sep)
  {
    var s := [c] + rest;
    assert forall k :: 0 <= k < |EntityNames| ==> EntityNames[k][0] == '&';
    FirstPrefixNone(s, EntityNames);
    assert s[1..] == rest;
  }

  /** Each dash-like character replaced by the separator. */
  function ReplaceDashes(s: string, sep: string): (r: string)
    ensures (forall i :: 0 <= i < |s| ==> s[i] !in DashChars) ==> r == s
    ensures |sep| == 1 ==> |r| == |s| && forall i :: 0 <= i < |s| ==> r[i] == (if s[i] in DashChars then sep[0] else s[i])
    ensures forall c :: c in r ==> (c in s && c !in DashChars) || c in sep
  {
    if s == [] then []
    else
      var rest := ReplaceDashes(s[1..], sep);
      (if s[0] in DashChars then sep else [s[0]]) + rest
  }

  /** The lazy `.*\>` of `/\<br.*\>/iU`: the first `>` from `j` on, with no newline before it. */
  function CloseFrom(s: string, j: nat): (r: Option<nat>)
    requires j <= |s|
    ensures r.Some? ==> j < r.value <= |s| && s[r.value - 1] == '>'
    decreases |s| - j
  {
    if j == |s| || s[j] == '\n' then None
    else if s[j] == '>' then Some(j + 1)
    else CloseFrom(s, j + 1)
  }

  /** `/\<br.*\>/iU` replaced by the separator: from `<br` (any case) to the nearest `>` on the same line. */
  function ReplaceLineBreaks(s: string, sep: string): (r: string)
    ensures '<' !in s ==> r == s
    ensures forall c :: c in r ==> c in s || c in sep
  {
    if s == [] then []
    else
      var close := if PrefixFoldAt(s, 0, "<br") then CloseFrom(s, 3) else None;
      match close
      case Some(n) =>
        assert ToLower(s[0]) == '<';
        sep + ReplaceLineBreaks(s[n..], sep)
      case None => [s[0]] + ReplaceLineBreaks(s[1..], sep)
  }

  /** The lazy scan stops at the first `>` when no newline comes before it. */
  lemma {:induction false} CloseFromAt(s: string, j: nat, n: nat)
    requires j + n < |s| && s[j + n] == '>'
    requires forall k :: j <= k < j + n ==> s[k] != '>' && s[k] != '\n'
    ensures CloseFrom(s, j) == Some(j + n + 1)
    decreases n
  {
    if n > 0 {
      CloseFromAt(s, j + 1, n - 1);
    }
  }

  /** `<br`, in any case, up to the nearest `>` on its line becomes the separator; the scan goes on after it. */
  lemma LineBreakBecomesSeparator(o: string, x: string, rest: string, sep: string)
    requires EqualFold(o, "<br")
    requires '>' !in x && '\n' !in x
    ensures ReplaceLineBreaks(o + x + ">" + rest, sep) == sep + ReplaceLineBreaks(rest, sep)
  {
    var s := o + x + ">" + rest;
    assert s[..3] == o;
    assert forall k :: 3 <= k < 3 + |x| ==> s[k] == x[k - 3];
    CloseFromAt(s, 3, |x|);
    assert s[3 + |x| + 1..] == rest;
  }

  /** Any character other than `<` is copied by the line-break rule. */
  lemma NotLineBreakPasses(c: char, rest: string, sep: string)
    requires c != '<'
    ensures ReplaceLineBreaks([c] + rest, sep) == [c] + ReplaceLineBreaks(rest, sep)
  {
    var s := [c] + rest;
    assert !PrefixFoldAt(s, 0, "<br") by {
      if |s| >= 3 {
        assert s[..3][0] == c;
      }
    }
    assert s[1..] == rest;
  }

  /** Text without `<` is copied by the line-break rule, and the scan goes on after it. */
  lemma {:induction false} NoOpenPasses(a: string, b: string, sep: string)
    requires '<' !in a
    ensures ReplaceLineBreaks(a + b, sep) == a + ReplaceLineBreaks(b, sep)
    decreases |a|
  {
    if a != [] {
      var t := a[1..] + b;
      NoOpenPasses(a[1..], b, sep);
      SplitFirst(a, b);
      SplitFirst(a, ReplaceLineBreaks(b, sep));
      NotLineBreakPasses(a[0], t, sep);
    } else {
      assert a + b == b;
    }
  }

  /** A line break between two texts without `<` becomes the separator, and nothing else changes. */
  lemma BreakBetween(a: string, o: string, b: string, sep: string)
    requires '<' !in a && '<' !in b && EqualFold(o, "<br")
    ensures ReplaceLineBreaks(a + o + ">" + b, sep) == a + sep + b
  {
    assert a + o + ">" + b == a + (o + "" + ">" + b);
    NoOpenPasses(a, o + "" + ">" + b, sep);
    LineBreakBecomesSeparator(o, "", b, sep);
    assert ReplaceLineBreaks(b, sep) == b;
  }

  /**
   * `preg_replace($arrayToSeparator, $separator, $s)`: the rules one after another. The default
   * rules only replace matches by the separator.
   */
  function ApplySepRules(s: string, rules: seq<SepRule>, sep: string, pcre: (string, string, string) -> string): (r: string)
    ensures (forall i :: 0 <= i < |rules| ==> !rules[i].Custom?) ==> forall c :: c in r ==> c in s || c in sep
    decreases |rules|
  {
    if rules == [] then s
    else
      var t := match rules[0]
        case Entities => ReplaceEntities(s, sep)
        case Dashes => ReplaceDashes(s, sep)
        case LineBreak => ReplaceLineBreaks(s, sep)
        case Custom(p) => pcre(p, sep, s);
      ApplySepRules(t, rules[1..], sep, pcre)
  }

  // ---------------------------------------------------------------------------
  // The six-pattern chain
  // ---------------------------------------------------------------------------

  /** The class `[sepEscaped ?: ' ']`: the separator's characters, or a space for the empty separator. */
  function RunClass(sep: string): (r: set<char>)
    ensures sep != "" ==> forall c :: c in r <==> c in sep
  {
    if sep == "" then {' '} else CharSet(sep)
  }

  /** A pattern `[class]+` replaced by `sep`: every maximal run of class characters becomes `sep`. */
  function CollapseRuns(s: string, cls: set<char>, sep: string): (r: string)
    ensures forall c :: c in r ==> (c in s && c !in cls) || c in sep
    ensures r != [] && r[0] in cls && r[0] !in sep ==> s != [] && s[0] in cls
    ensures |sep| <= 1 ==> forall i :: 0 <= i < |r| - 1 ==> !(r[i] in cls && r[i + 1] in cls)
    ensures |sep| <= 1 && r != [] && r[0] in cls ==> s != [] && s[0] in cls
    decreases |s|
  {
    if s == [] then []
    else if s[0] in cls then
      var k := LeadingIn(s, cls);
      var rest := CollapseRuns(s[k..], cls, sep);
      assert forall c :: c in s[k..] ==> c in s;
      sep + rest
    else
      var rest := CollapseRuns(s[1..], cls, sep);
      assert forall c :: c in s[1..] ==> c in s;
      [s[0]] + rest
  }

  /** Text whose class characters are already single copies of a one-character separator is left as it is. */
  lemma {:induction false} CollapseRunsCollapsed(s: string, cls: set<char>, sep: string)
    requires |sep| == 1
    requires forall i :: 0 <= i < |s| && s[i] in cls ==> s[i] == sep[0]
    requires forall i :: 0 <= i < |s| - 1 ==> !(s[i] in cls && s[i + 1] in cls)
    ensures CollapseRuns(s, cls, sep) == s
    decreases |s|
  {
    if s != [] {
      CollapseRunsCollapsed(s[1..], cls, sep);
      if s[0] in cls {
        LeadingInOf(s, cls, 1);
        assert sep == [s[0]];
      }
      assert s == [s[0]] + s[1..];
    }
  }

  /** A whole run of class characters, followed by a character outside the class, becomes one separator. */
  lemma CollapseRunsRun(run: string, rest: string, cls: set<char>, sep: string)
    requires run != [] && forall i :: 0 <= i < |run| ==> run[i] in cls
    requires rest == [] || rest[0] !in cls
    ensures CollapseRuns(run + rest, cls, sep) == sep + CollapseRuns(rest, cls, sep)
  {
    var s := run + rest;
    LeadingInOf(s, cls, |run|);
    assert s[|run|..] == rest;
  }

  /** Text before a run that has no class character passes through unchanged. */
  lemma {:induction false} CollapseRunsPlain(a: string, b: string, cls: set<char>, sep: string)
    requires forall i :: 0 <= i < |a| ==> a[i] !in cls
    ensures CollapseRuns(a + b, cls, sep) == a + CollapseRuns(b, cls, sep)
    decreases |a|
  {
    if a != [] {
      var t := a[1..];
      SplitFirst(a, b);
      assert a == [a[0]] + t;
      CollapseRunsPlain(t, b, cls, sep);
      CollapseRunsCons(a[0], t + b, cls, sep);
      Regroup([a[0]], t, CollapseRuns(b, cls, sep));
    } else {
      assert a + b == b;
    }
  }

  /** A character outside the class is copied, and the collapsing goes on after it. */
  lemma CollapseRunsCons(c: char, t: string, cls: set<char>, sep: string)
    requires c !in cls
    ensures CollapseRuns([c] + t, cls, sep) == [c] + CollapseRuns(t, cls, sep)
  {
    assert ([c] + t)[1..] == t;
  }

  /** One run of class characters between two words becomes a single separator. */
  lemma SpaceRunCollapses(a: string, run: string, b: string, cls: set<char>, sep: string)
    requires |sep| == 1 && sep[0] in cls
    requires forall i :: 0 <= i < |a| ==> a[i] !in cls
    requires run != [] && forall i :: 0 <= i < |run| ==> run[i] in cls
    requires b != [] && forall i :: 0 <= i < |b| ==> b[i] !in cls
    ensures CollapseRuns(a + run + b, cls, sep) == a + sep + b
  {
    var tail := run + b;
    CollapseRunsCollapsed(b, cls, sep);
    CollapseRunsRun(run, b, cls, sep);
    assert CollapseRuns(tail, cls, sep) == sep + b;
    CollapseRunsPlain(a, tail, cls, sep);
    assert a + run + b == a + tail;
  }

  /** The pattern written `'[^A-Za-z0-9]'`: its brackets are delimiters, so it removes a leading literal `A-Za-z0-9`. */
  function DropLiteralPrefix(s: string): (r: string)
    ensures |s| < 9 || s[..9] != "A-Za-z0-9" ==> r == s
    ensures |s| >= 9 && s[..9] == "A-Za-z0-9" ==> r == s[9..]
    ensures r != s ==> s == "A-Za-z0-9" + r
  {
    if |s| >= 9 && s[..9] == "A-Za-z0-9" then s[9..] else s
  }

  /**
   * The characters `[^sepEscaped . \-a-zA-Z0-9\s]/u` keeps (the dot only for file names). The
   * pattern has `/u`, so its `\s` also keeps Unicode white space.
   */
  predicate Kept(c: char, sep: string, fileName: bool) {
    c in sep || (fileName && c == '.') || c == '-' || IsAsciiAlnum(c) || IsUnicodeSpace(c)
  }

  /** Every character outside the kept set removed. */
  function KeepOnly(s: string, sep: string, fileName: bool): (r: string)
    ensures |r| <= |s|
    ensures forall i :: 0 <= i < |r| ==> Kept(r[i], sep, fileName)
    ensures forall c :: c in r ==> c in s
    ensures forall c :: c in s && Kept(c, sep, fileName) ==> c in r
    ensures (forall i :: 0 <= i < |s| ==> Kept(s[i], sep, fileName)) ==> r == s
  {
    if s == [] then []
    else
      var rest := KeepOnly(s[1..], sep, fileName);
      var r := (if Kept(s[0], sep, fileName) then [s[0]] else []) + rest;
      KeptCons(s, sep, fileName, rest, r);
      r
  }

  /** The facts `KeepOnly` promises, carried from the rest of the text to the whole. */
  lemma KeptCons(s: string, sep: string, fileName: bool, rest: string, r: string)
    requires s != [] && r == (if Kept(s[0], sep, fileName) then [s[0]] else []) + rest
    requires |rest| <= |s| - 1
    requires forall i :: 0 <= i < |rest| ==> Kept(rest[i], sep, fileName)
    requires forall c :: c in rest ==> c in s[1..]
    requires forall c :: c in s[1..] && Kept(c, sep, fileName) ==> c in rest
    requires (forall i :: 1 <= i < |s| ==> Kept(s[i], sep, fileName)) ==> rest == s[1..]
    ensures |r| <= |s|
    ensures forall i :: 0 <= i < |r| ==> Kept(r[i], sep, fileName)
    ensures forall c :: c in r ==> c in s
    ensures forall c :: c in s && Kept(c, sep, fileName) ==> c in r
    ensures (forall i :: 0 <= i < |s| ==> Kept(s[i], sep, fileName)) ==> r == s
  {
    assert s == [s[0]] + s[1..];
    assert forall c :: c in s[1..] ==> c in s;
    if forall i :: 0 <= i < |s| ==> Kept(s[i], sep, fileName) {
      assert forall i :: 1 <= i < |s| ==> Kept(s[i], sep, fileName);
    }
  }

  /** Removal works character by character: the kept characters of each part survive, in order. */
  lemma {:induction false} KeepOnlyConcat(a: string, b: string, sep: string, fileName: bool)
    ensures KeepOnly(a + b, sep, fileName) == KeepOnly(a, sep, fileName) + KeepOnly(b, sep, fileName)
    decreases |a|
  {
    if a == [] {
      assert a + b == b;
    } else {
      var t := a[1..];
      SplitFirst(a, b);
      assert a == [a[0]] + t;
      var x := if Kept(a[0], sep, fileName) then [a[0]] else [];
      KeepOnlyConcat(t, b, sep, fileName);
      KeepOnlyCons(a[0], t + b, sep, fileName);
      KeepOnlyCons(a[0], t, sep, fileName);
      Regroup(x, KeepOnly(t, sep, fileName), KeepOnly(b, sep, fileName));
    }
  }

  /** One step of the removal: the first character is kept or dropped, the rest goes on. */
  lemma KeepOnlyCons(c: char, t: string, sep: string, fileName: bool)
    ensures KeepOnly([c] + t, sep, fileName) == (if Kept(c, sep, fileName) then [c] else []) + KeepOnly(t, sep, fileName)
  {
    assert ([c] + t)[1..] == t;
  }

  /** `\b` without Unicode properties: a change between word and non-word characters. */
  predicate Boundary(s: string, i: nat)
    requires i <= |s|
  {
    (i > 0 && IsWordChar(s[i - 1])) != (i < |s| && IsWordChar(s[i]))
  }

  /** The first non-empty alternative that matches at `i` (ignoring ASCII case) and ends at a boundary. */
  function WordAt(s: string, i: nat, words: seq<string>): (r: Option<nat>)
    requires i <= |s|
    ensures r.Some? ==> 0 < r.value && i + r.value <= |s| && Boundary(s, i + r.value)
    ensures words == [] ==> r.None?
  {
    if words == [] then None
    else if words[0] != [] && PrefixFoldAt(s, i, words[0]) && Boundary(s, i + |words[0]|) then Some(|words[0]|)
    else WordAt(s, i, words[1..])
  }

  /** The match the scan takes at `i`: only where a boundary is. */
  function StartMatch(s: string, i: nat, words: seq<string>): (r: Option<nat>)
    requires i <= |s|
    ensures r.Some? ==> 0 < r.value && i + r.value <= |s|
  {
    if Boundary(s, i) then WordAt(s, i, words) else None
  }

  /** The match the scan would take at each position of `s`. */
  function WordMatches(s: string, words: seq<string>): (ms: seq<Option<nat>>)
    ensures |ms| == |s| && Fits(ms)
    ensures forall k :: 0 <= k < |s| ==> ms[k] == StartMatch(s, k, words)
  {
    seq(|s|, k requires 0 <= k < |s| => StartMatch(s, k, words))
  }

  /** Every match is non-empty and ends inside the text. */
  predicate Fits(ms: seq<Option<nat>>) {
    forall k :: 0 <= k < |ms| && ms[k].Some? ==> 0 < ms[k].value && k + ms[k].value <= |ms|
  }

  /**
   * A left-to-right replacement by nothing, from `i` on: where a match starts it is dropped
   * whole and the scan resumes after it, any other character is kept.
   */
  function Scan(s: string, i: nat, ms: seq<Option<nat>>): (r: string)
    requires i <= |s| && |ms| == |s| && Fits(ms)
    ensures |r| <= |s| - i
    ensures forall c :: c in r ==> c in s[i..]
    decreases |s| - i
  {
    if i == |s| then []
    else match ms[i]
      case Some(n) =>
        var rest := Scan(s, i + n, ms);
        assert forall c :: c in s[i + n..] ==> c in s[i..];
        rest
      case None =>
        var rest := Scan(s, i + 1, ms);
        assert forall c :: c in s[i + 1..] ==> c in s[i..];
        assert s[i..] == [s[i]] + s[i + 1..];
        [s[i]] + rest
  }

  /** With no match anywhere from `i` on, the scan keeps the text. */
  lemma {:induction false} ScanNoMatch(s: string, i: nat, ms: seq<Option<nat>>)
    requires i <= |s| && |ms| == |s| && Fits(ms)
    requires forall k :: i <= k < |s| ==> ms[k].None?
    ensures Scan(s, i, ms) == s[i..]
    decreases |s| - i
  {
    if i < |s| {
      ScanNoMatch(s, i + 1, ms);
      assert s[i..] == [s[i]] + s[i + 1..];
    }
  }

  /** At a match of length `n` the scan drops those `n` characters. */
  lemma ScanSkips(s: string, i: nat, n: nat, ms: seq<Option<nat>>)
    requires i < |s| && |ms| == |s| && Fits(ms) && ms[i] == Some(n)
    ensures Scan(s, i, ms) == Scan(s, i + n, ms)
  {
  }

  /** Where no match starts, the scan keeps the character. */
  lemma ScanKeeps(s: string, i: nat, ms: seq<Option<nat>>)
    requires i < |s| && |ms| == |s| && Fits(ms) && ms[i].None?
    ensures Scan(s, i, ms) == [s[i]] + Scan(s, i + 1, ms)
  {
  }

  /**
   * Two scans that see the same characters and the same matches, `d` positions apart,
   * give the same text.
   */
  lemma {:induction false} ScanAgree(s: string, ms: seq<Option<nat>>, t: string, mt: seq<Option<nat>>, d: nat, i: nat, j: nat)
    requires |ms| == |s| && Fits(ms) && |mt| == |t| && Fits(mt)
    requires j <= |t| && |s| == |t| + d && i == j + d
    requires forall k :: j <= k < |t| ==> Same(s, ms, t, mt, d, k)
    ensures Scan(s, i, ms) == Scan(t, j, mt)
    decreases |t| - j
  {
    if j < |t| {
      assert Same(s, ms, t, mt, d, j);
      var n := if mt[j].Some? then mt[j].value else 1;
      assert forall k :: j + n <= k < |t| ==> Same(s, ms, t, mt, d, k);
      ScanAgree(s, ms, t, mt, d, i + n, j + n);
      ScanStep(s, ms, t, mt, i, j, n);
    }
  }

  /** Position `k` of `t` and position `k + d` of `s` hold the same character and the same match. */
  predicate Same(s: string, ms: seq<Option<nat>>, t: string, mt: seq<Option<nat>>, d: nat, k: nat)
    requires |ms| == |s| && |mt| == |t| && k < |t| && |s| == |t| + d
  {
    s[k + d] == t[k] && ms[k + d] == mt[k]
  }

  /** One step of two agreeing scans: both skip the same match, or both keep the same character. */
  lemma ScanStep(s: string, ms: seq<Option<nat>>, t: string, mt: seq<Option<nat>>, i: nat, j: nat, n: nat)
    requires |ms| == |s| && Fits(ms) && |mt| == |t| && Fits(mt)
    requires i < |s| && j < |t| && s[i] == t[j] && ms[i] == mt[j]
    requires n == if mt[j].Some? then mt[j].value else 1
    requires Scan(s, i + n, ms) == Scan(t, j + n, mt)
    ensures Scan(s, i, ms) == Scan(t, j, mt)
  {
    if mt[j].Some? {
      ScanSkips(s, i, n, ms);
      ScanSkips(t, j, n, mt);
    } else {
      ScanKeeps(s, i, ms);
      ScanKeeps(t, j, mt);
    }
  }

  /** `/\b(?:w1|w2|...)\b/i` replaced by nothing, scanning from `i`. */
  function RemoveWordsFrom(s: string, i: nat, words: seq<string>): (r: string)
    requires i <= |s|
    ensures |r| <= |s| - i
    ensures forall c :: c in r ==> c in s[i..]
    ensures words == [] ==> r == s[i..]
  {
    var ms := WordMatches(s, words);
    if words == [] then
      ScanNoMatch(s, i, ms);
      Scan(s, i, ms)
    else Scan(s, i, ms)
  }

  function RemoveWords(s: string, words: seq<string>): (r: string)
    ensures |r| <= |s|
    ensures forall c :: c in r ==> c in s
    ensures words == [] ==> r == s
  {
    RemoveWordsFrom(s, 0, words)
  }

  /** A word made of `\w` characters only, as the shipped remove words are. */
  predicate WordText(w: string) {
    forall i :: 0 <= i < |w| ==> IsWordChar(w[i])
  }

  /** Matching after a prefix `x` is matching in the rest: every alternative is non-empty and ends past `x`. */
  lemma {:induction false} WordAtShift(x: string, t: string, j: nat, words: seq<string>)
    requires j <= |t|
    ensures WordAt(x + t, |x| + j, words) == WordAt(t, j, words)
    decreases |words|
  {
    if words != [] {
      var v := words[0];
      var s := x + t;
      if v != [] && j + |v| <= |t| {
        assert s[|x| + j..|x| + j + |v|] == t[j..j + |v|];
        assert s[|x| + j + |v| - 1] == t[j + |v| - 1];
        if j + |v| < |t| {
          assert s[|x| + j + |v|] == t[j + |v|];
        }
      }
      WordAtShift(x, t, j, words[1..]);
    }
  }

  /** No alternative of word characters starts at a non-word character. */
  lemma {:induction false} WordAtNone(s: string, i: nat, words: seq<string>)
    requires i < |s| && !IsWordChar(s[i])
    requires forall v :: v in words ==> WordText(v)
    ensures WordAt(s, i, words) == None
    decreases |words|
  {
    if words != [] {
      var v := words[0];
      assert v in words;
      assert forall u :: u in words[1..] ==> u in words;
      WordAtNone(s, i, words[1..]);
    }
  }

  /** At every position of `t` the scan over `x + t` takes the same match as the scan over `t`. */
  lemma StepAgrees(x: string, t: string, j: nat, words: seq<string>)
    requires j < |t|
    requires forall v :: v in words ==> WordText(v)
    requires j == 0 ==> x == [] || !IsWordChar(x[|x| - 1]) || !IsWordChar(t[0])
    ensures StartMatch(x + t, |x| + j, words) == StartMatch(t, j, words)
  {
    var s := x + t;
    WordAtShift(x, t, j, words);
    assert s[|x| + j] == t[j];
    if j > 0 {
      assert s[|x| + j - 1] == t[j - 1];
    } else if x != [] {
      assert s[|x| - 1] == x[|x| - 1];
      if IsWordChar(x[|x| - 1]) {
        WordAtNone(t, 0, words);
      }
    }
  }

  /** The removal scan over `x + t`, from the end of `x` on, is the scan over `t`. */
  lemma RemoveShift(x: string, t: string, j: nat, words: seq<string>)
    requires j <= |t|
    requires forall v :: v in words ==> WordText(v)
    requires j == 0 ==> x == [] || !IsWordChar(x[|x| - 1]) || t == [] || !IsWordChar(t[0])
    ensures RemoveWordsFrom(x + t, |x| + j, words) == RemoveWordsFrom(t, j, words)
  {
    var s := x + t;
    var ms, mt := WordMatches(s, words), WordMatches(t, words);
    forall k | j <= k < |t|
      ensures Same(s, ms, t, mt, |x|, k)
    {
      StepAgrees(x, t, k, words);
    }
    ScanAgree(s, ms, t, mt, |x|, |x| + j, j);
  }

  /** A listed word at the start, ending at a non-word character or the end, is the first match there. */
  lemma {:induction false} WordAtFinds(w: string, b: string, words: seq<string>)
    requires w in words && w != [] && WordText(w)
    requires forall v :: v in words ==> WordText(v)
    requires b == [] || !IsWordChar(b[0])
    ensures WordAt(w + b, 0, words) == Some(|w|)
    decreases |words|
  {
    var s := w + b;
    var v := words[0];
    assert v in words;
    assert s[..|w|] == w;
    assert s[|w| - 1] == w[|w| - 1];
    if !(v != [] && PrefixFoldAt(s, 0, v) && Boundary(s, |v|)) {
      assert v != w;
      assert forall u :: u in words[1..] ==> u in words;
      WordAtFinds(w, b, words[1..]);
    }
  }

  /** A listed word standing at the start of the text is removed; the scan goes on after it. */
  lemma ListedWordRemoved(w: string, b: string, words: seq<string>)
    requires w in words && w != [] && WordText(w)
    requires forall v :: v in words ==> WordText(v)
    requires b == [] || !IsWordChar(b[0])
    ensures RemoveWords(w + b, words) == RemoveWords(b, words)
  {
    WordSkipped(w, b, words);
    RemoveShift(w, b, 0, words);
  }

  /** The scan over `w + b` drops the listed word `w` at the start and resumes after it. */
  lemma WordSkipped(w: string, b: string, words: seq<string>)
    requires w in words && w != [] && WordText(w)
    requires forall v :: v in words ==> WordText(v)
    requires b == [] || !IsWordChar(b[0])
    ensures RemoveWordsFrom(w + b, 0, words) == RemoveWordsFrom(w + b, |w|, words)
  {
    var s := w + b;
    assert s[0] == w[0];
    WordAtFinds(w, b, words);
    var ms := WordMatches(s, words);
    assert ms[0] == Some(|w|);
    ScanSkips(s, 0, |w|, ms);
  }

  /** A non-word character is never removed. */
  lemma NonWordKept(c: char, t: string, words: seq<string>)
    requires !IsWordChar(c)
    requires forall v :: v in words ==> WordText(v)
    ensures RemoveWords([c] + t, words) == [c] + RemoveWords(t, words)
  {
    var s := [c] + t;
    assert s[0] == c;
    var ms := WordMatches(s, words);
    assert ms[0].None?;
    ScanKeeps(s, 0, ms);
    RemoveShift([c], t, 0, words);
  }

  /**
   * The chain of `filter`, each pattern over the previous one's result: collapse separator
   * runs, drop the literal prefix, strip unwanted characters, turn whitespace runs into the
   * separator, trim whitespace, remove the listed words (none when word removal is off).
   */
  function Chain(s: string, sep: string, fileName: bool, words: seq<string>): string {
    var p1 := CollapseRuns(s, RunClass(sep), sep);
    var p2 := DropLiteralPrefix(p1);
    var p3 := KeepOnly(p2, sep, fileName);
    var p4 := CollapseRuns(p3, RunClass(sep) + Spaces, sep);
    var p5 := Trim(p4, Spaces);
    RemoveWords(p5, words)
  }

  /**
   * The chain leaves a finished slug alone: ASCII letters, digits and `-` with single one-character
   * separators between them (and no leading literal `A-Za-z0-9`) come out unchanged. So a `-`
   * survives the chain even when the separator is another character.
   */
  lemma ChainKeepsSlug(s: string, sep: string, fileName: bool)
    requires |sep| == 1 && IsAsciiAlnum(sep[0]) == false && !IsSpace(sep[0])
    requires forall i :: 0 <= i < |s| ==> IsAsciiAlnum(s[i]) || s[i] == sep[0] || s[i] == '-'
    requires forall i :: 0 <= i < |s| - 1 ==> !(s[i] == sep[0] && s[i + 1] == sep[0])
    requires |s| < 9 || s[..9] != "A-Za-z0-9"
    ensures Chain(s, sep, fileName, []) == s
  {
    SlugFrontUnchanged(s, sep, fileName);
    SlugBackUnchanged(s, sep);
  }

  lemma SlugFrontUnchanged(s: string, sep: string, fileName: bool)
    requires |sep| == 1 && IsAsciiAlnum(sep[0]) == false && !IsSpace(sep[0])
    requires forall i :: 0 <= i < |s| ==> IsAsciiAlnum(s[i]) || s[i] == sep[0] || s[i] == '-'
    requires forall i :: 0 <= i < |s| - 1 ==> !(s[i] == sep[0] && s[i + 1] == sep[0])
    requires |s| < 9 || s[..9] != "A-Za-z0-9"
    ensures KeepOnly(DropLiteralPrefix(CollapseRuns(s, RunClass(sep), sep)), sep, fileName) == s
  {
    var cls := RunClass(sep);
    assert forall i :: 0 <= i < |s| && s[i] in cls ==> s[i] == sep[0];
    CollapseRunsCollapsed(s, cls, sep);
    assert forall i :: 0 <= i < |s| ==> Kept(s[i], sep, fileName);
  }

  lemma SlugBackUnchanged(s: string, sep: string)
    requires |sep| == 1 && IsAsciiAlnum(sep[0]) == false && !IsSpace(sep[0])
    requires forall i :: 0 <= i < |s| ==> IsAsciiAlnum(s[i]) || s[i] == sep[0] || s[i] == '-'
    requires forall i :: 0 <= i < |s| - 1 ==> !(s[i] == sep[0] && s[i + 1] == sep[0])
    ensures Trim(CollapseRuns(s, RunClass(sep) + Spaces, sep), Spaces) == s
  {
    SlugClassIsSeparator(s, sep);
    CollapseRunsCollapsed(s, RunClass(sep) + Spaces, sep);
    TrimUnchanged(s, Spaces);
  }

  /** In such a slug the only characters of the whitespace-or-separator class are separators. */
  lemma SlugClassIsSeparator(s: string, sep: string)
    requires |sep| == 1 && IsAsciiAlnum(sep[0]) == false && !IsSpace(sep[0])
    requires forall i :: 0 <= i < |s| ==> IsAsciiAlnum(s[i]) || s[i] == sep[0] || s[i] == '-'
    ensures forall i :: 0 <= i < |s| && s[i] in RunClass(sep) + Spaces ==> s[i] == sep[0]
    ensures forall i :: 0 <= i < |s| ==> s[i] !in Spaces
  {
    forall i | 0 <= i < |s|
      ensures s[i] !in Spaces
      ensures s[i] in RunClass(sep) + Spaces ==> s[i] == sep[0]
    {
      if s[i] != sep[0] {
        assert s[i] !in sep;
      }
    }
  }

  /**
   * What a slug may contain: ASCII letters and digits, `-`, `.` for file names, separator
   * characters, and the Unicode white space that the `/u` pattern keeps and the later patterns,
   * whose `\s` is ASCII, leave alone.
   */
  predicate SlugChar(c: char, sep: string, fileName: bool) {
    IsAsciiAlnum(c) || c == '-' || (fileName && c == '.') || c in sep || IsWideSpace(c)
  }

  /** An ASCII slug character is not Unicode white space. */
  lemma AsciiSlugChar(c: char, sep: string, fileName: bool)
    requires SlugChar(c, sep, fileName) && IsAscii(c)
    ensures IsAsciiAlnum(c) || c == '-' || (fileName && c == '.') || c in sep
  {
  }

  lemma SubstringChars(s: string, r: string)
    requires exists i, j :: 0 <= i <= j <= |s| && r == s[i..j]
    ensures forall c :: c in r ==> c in s
  {
    var i, j :| 0 <= i <= j <= |s| && r == s[i..j];
    forall c | c in r
      ensures c in s
    {
      var k :| 0 <= k < |r| && r[k] == c;
      assert s[i + k] == c;
    }
  }

  /**
   * After the chain no ASCII whitespace and no stray punctuation is left, and every character is
   * one of the text's own or a separator character: the chain only deletes and inserts the separator.
   */
  lemma ChainAlphabet(s: string, sep: string, fileName: bool, words: seq<string>)
    ensures forall c :: c in Chain(s, sep, fileName, words) ==> SlugChar(c, sep, fileName)
    ensures forall c :: c in Chain(s, sep, fileName, words) ==> c in s || c in sep
  {
    var p1 := CollapseRuns(s, RunClass(sep), sep);
    var p2 := DropLiteralPrefix(p1);
    var p3 := KeepOnly(p2, sep, fileName);
    var p4 := CollapseRuns(p3, RunClass(sep) + Spaces, sep);
    var p5 := Trim(p4, Spaces);
    SubstringChars(p4, p5);
    forall c | c in p4
      ensures SlugChar(c, sep, fileName)
    {
      if c !in sep {
        var k :| 0 <= k < |p3| && p3[k] == c;
        assert Kept(p3[k], sep, fileName);
      }
    }
    assert forall c :: c in p2 ==> c in p1 by {
      if p2 != p1 {
        assert p1 == "A-Za-z0-9" + p2;
      }
    }
  }

  /**
   * The separator rules followed by the chain: only slug characters remain, and without a
   * caller-supplied rule each of them is the text's own or a separator character.
   */
  lemma ChainAfterRules(t: string, rules: seq<SepRule>, sep: string, pcre: (string, string, string) -> string,
                        fileName: bool, words: seq<string>, t4: string, c: string)
    requires t4 == ApplySepRules(t, rules, sep, pcre) && c == Chain(t4, sep, fileName, words)
    ensures forall x :: x in c ==> SlugChar(x, sep, fileName)
    ensures (forall i :: 0 <= i < |rules| ==> !rules[i].Custom?) ==> forall x :: x in c ==> x in t || x in sep
  {
    ChainAlphabet(t4, sep, fileName, words);
  }

  // ---------------------------------------------------------------------------
  // Lowercase, truncate, trim
  // ---------------------------------------------------------------------------

  /** `strtolower` when asked, `substr($s, 0, $maxLength)` when positive, then `trim($s, $separator)`. */
  function Finish(s: string, lower: bool, maxLength: int, sep: string): (r: string)
    ensures maxLength > 0 ==> |r| <= maxLength
    ensures r != [] ==> r[0] !in sep && r[|r| - 1] !in sep
    ensures var a := if lower then Lower(s) else s;
      StrippedOf(r, if maxLength > 0 && |a| > maxLength then a[..maxLength] else a, CharSet(sep))
  {
    var a := if lower then Lower(s) else s;
    var b := if maxLength > 0 then Prefix(a, maxLength) else a;
    var r := Trim(b, CharSet(sep));
    TrimmedCut(a, maxLength, sep, b, r);
    r
  }

  /** The facts `Finish` promises, about the cut text `b` and its trimmed form `r`. */
  lemma TrimmedCut(a: string, maxLength: int, sep: string, b: string, r: string)
    requires b == if maxLength > 0 then Prefix(a, maxLength) else a
    requires r == Trim(b, CharSet(sep))
    ensures maxLength > 0 ==> |r| <= maxLength
    ensures r != [] ==> r[0] !in sep && r[|r| - 1] !in sep
    ensures StrippedOf(r, if maxLength > 0 && |a| > maxLength then a[..maxLength] else a, CharSet(sep))
  {
    assert b == if maxLength > 0 && |a| > maxLength then a[..maxLength] else a;
  }

  /** Lowercasing, truncating and trimming keep a text within the slug alphabet. */
  lemma FinishAlphabet(s: string, lower: bool, maxLength: int, sep: string, fileName: bool)
    requires forall c :: c in s ==> SlugChar(c, sep, fileName)
    ensures forall c :: c in Finish(s, lower, maxLength, sep) ==> SlugChar(c, sep, fileName)
  {
    var a := if lower then Lower(s) else s;
    var b := if maxLength > 0 then Prefix(a, maxLength) else a;
    forall c | c in a
      ensures SlugChar(c, sep, fileName)
    {
      var k :| 0 <= k < |a| && a[k] == c;
      assert SlugChar(s[k], sep, fileName);
    }
    assert forall c :: c in b ==> c in a;
    SubstringChars(b, Trim(b, CharSet(sep)));
  }

  /** Lowercasing, truncating and trimming keep a text ASCII. */
  lemma FinishAscii(s: string, lower: bool, maxLength: int, sep: string)
    requires forall c :: c in s ==> IsAscii(c)
    ensures forall c :: c in Finish(s, lower, maxLength, sep) ==> IsAscii(c)
  {
    var a := if lower then Lower(s) else s;
    var b := if maxLength > 0 then Prefix(a, maxLength) else a;
    forall c | c in a
      ensures IsAscii(c)
    {
      var k :| 0 <= k < |a| && a[k] == c;
      assert IsAscii(s[k]);
    }
    assert forall c :: c in b ==> c in a;
    SubstringChars(b, Trim(b, CharSet(sep)));
  }

  /**
   * A finished slug, not starting or ending with the separator and within the length limit,
   * comes out of the last stage only lower-cased (when asked for).
   */
  lemma FinishKeepsSlug(s: string, lower: bool, maxLength: int, sep: string)
    requires |sep| == 1 && !IsAsciiAlnum(sep[0])
    requires forall i :: 0 <= i < |s| ==> IsAsciiAlnum(s[i]) || s[i] == sep[0] || s[i] == '-'
    requires s != [] ==> s[0] != sep[0] && s[|s| - 1] != sep[0]
    requires maxLength <= 0 || |s| <= maxLength
    ensures Finish(s, lower, maxLength, sep) == if lower then Lower(s) else s
  {
    var a := if lower then Lower(s) else s;
    if s == [] {
      FinishUnchanged(s, lower, maxLength, sep, a);
    } else if lower {
      LowerEndsNotSeparator(s, sep);
      FinishUnchanged(s, lower, maxLength, sep, a);
    } else {
      EndsNotSeparator(s, sep);
      FinishUnchanged(s, lower, maxLength, sep, a);
    }
  }

  lemma EndsNotSeparator(s: string, sep: string)
    requires |sep| == 1 && s != []
    requires s[0] != sep[0] && s[|s| - 1] != sep[0]
    ensures s[0] !in CharSet(sep) && s[|s| - 1] !in CharSet(sep)
  {
    assert sep == [sep[0]];
  }

  /** The last stage leaves the (lower-cased) text alone when it fits and has no separator at either end. */
  lemma FinishUnchanged(s: string, lower: bool, maxLength: int, sep: string, a: string)
    requires a == if lower then Lower(s) else s
    requires maxLength <= 0 || |a| <= maxLength
    requires a == [] || (a[0] !in CharSet(sep) && a[|a| - 1] !in CharSet(sep))
    ensures Finish(s, lower, maxLength, sep) == a
  {
    assert (if maxLength > 0 then Prefix(a, maxLength) else a) == a;
    TrimUnchanged(a, CharSet(sep));
  }

  lemma LowerEndsNotSeparator(s: string, sep: string)
    requires |sep| == 1 && !IsAsciiAlnum(sep[0]) && s != []
    requires s[0] != sep[0] && s[|s| - 1] != sep[0]
    ensures Lower(s)[0] !in CharSet(sep) && Lower(s)[|s| - 1] !in CharSet(sep)
  {
    var l := Lower(s);
    LowerNotSeparator(s[0], sep[0]);
    LowerNotSeparator(s[|s| - 1], sep[0]);
    assert l[0] != sep[0] && l[|s| - 1] != sep[0];
  }

  lemma LowerNotSeparator(c: char, d: char)
    requires c != d && !IsAsciiAlnum(d)
    ensures ToLower(c) != d
  {
  }

  /** Text made only of separators finishes as the empty slug, whatever the other options. */
  lemma FinishDropsSeparators(t: string, lower: bool, maxLength: int, sep: string)
    requires |sep| == 1 && !IsAsciiAlnum(sep[0])
    requires forall i :: 0 <= i < |t| ==> t[i] == sep[0]
    ensures Finish(t, lower, maxLength, sep) == []
  {
    var a := if lower then Lower(t) else t;
    assert forall i :: 0 <= i < |a| ==> a[i] in sep by {
      forall i | 0 <= i < |a| ensures a[i] in sep {
        assert !IsUpper(t[i]);
      }
    }
    var b := if maxLength > 0 then Prefix(a, maxLength) else a;
    assert forall i :: 0 <= i < |b| ==> b[i] == a[i];
    TrimAll(b, CharSet(sep));
  }

  /** A run of separator characters goes through the chain as a single separator. */
  lemma SeparatorRunChain(s: string, sep: string, fileName: bool)
    requires |sep| == 1 && !IsAsciiAlnum(sep[0]) && !IsSpace(sep[0])
    requires s != [] && forall i :: 0 <= i < |s| ==> s[i] == sep[0]
    ensures Chain(s, sep, fileName, []) == sep
  {
    var cls := RunClass(sep);
    CollapseRunsRun(s, "", cls, sep);
    assert s + "" == s;
    var p1 := CollapseRuns(s, cls, sep);
    assert p1 == sep;
    assert DropLiteralPrefix(p1) == sep;
    assert Kept(sep[0], sep, fileName);
    var p3 := KeepOnly(sep, sep, fileName);
    assert p3 == sep;
    SlugClassIsSeparator(sep, sep);
    CollapseRunsCollapsed(sep, cls + Spaces, sep);
    TrimUnchanged(sep, Spaces);
  }

  /** A text made only of separators slugs to nothing, whatever the other options. */
  lemma SeparatorsVanish(s: string, sep: string, fileName: bool, lower: bool, maxLength: int)
    requires |sep| == 1 && !IsAsciiAlnum(sep[0]) && !IsSpace(sep[0])
    requires s != [] && forall i :: 0 <= i < |s| ==> s[i] == sep[0]
    ensures Finish(Chain(s, sep, fileName, []), lower, maxLength, sep) == []
  {
    SeparatorRunChain(s, sep, fileName);
    FinishDropsSeparators(sep, lower, maxLength, sep);
  }
}
