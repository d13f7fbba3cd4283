/**
 * `filter` and `slug` end to end. For text that the collaborators leave alone (no tags, nothing
 * to URL-decode, already ASCII) and that the active character class does not touch, the whole
 * front of `filter` (separator rules, strip tags, downcode, separator rules again) is the
 * identity, so the result is the clean-up chain followed by the last stage. A finished slug
 * passes unchanged.
 */
module Slugging {
  import opened Wrappers
  import opened Text
  import opened Registry
  import opened Expand
  import opened Substitute
  import opened Cleanup
  import opened Model

  /** ASCII letters, digits and `-`. */
  predicate SlugText(t: string) {
    forall i :: 0 <= i < |t| ==> IsAsciiAlnum(t[i]) || t[i] == '-'
  }

  /** A finished slug: lower-case ASCII letters and digits, single `-` between them, none at either end. */
  predicate IsSlug(s: string) {
    && (forall i :: 0 <= i < |s| ==> IsLower(s[i]) || IsDigit(s[i]) || s[i] == '-')
    && (forall i :: 0 <= i < |s| - 1 ==> !(s[i] == '-' && s[i + 1] == '-'))
    && (s != [] ==> s[0] != '-' && s[|s| - 1] != '-')
  }

  /** `strip_tags`, `urldecode` and the ASCII fallback leave `t` as it is. */
  predicate Transparent(ext: Ext, t: string) {
    ext.stripTags(t) == t && ext.urlDecode(t) == t && ext.toAscii(t, "") == t
  }

  /** No character of `t` is in the class that `downcode` for `language` uses, starting from `st`. */
  predicate OutsideClass(st: State, language: string, t: string) {
    forall i :: 0 <= i < |t| ==> t[i] !in ActiveClass(InitDowncode(st, language).0)
  }

  /** With `-` as the separator, the three default rules leave ASCII letters, digits and `-` alone. */
  lemma DefaultRulesKeep(t: string, pcre: (string, string, string) -> string)
    requires SlugText(t)
    ensures ApplySepRules(t, DefaultSepRules, "-", pcre) == t
  {
    SlugTextLacks(t, '&');
    SlugTextLacks(t, '<');
    DashesKeep(t);
    DefaultRulesThrough(t, "-", pcre, t, t, t);
  }

  /** The default rules take `t` through the entity, dash and line-break results `e`, `d` and `r`. */
  lemma DefaultRulesThrough(t: string, sep: string, pcre: (string, string, string) -> string, e: string, d: string, r: string)
    requires ReplaceEntities(t, sep) == e && ReplaceDashes(e, sep) == d && ReplaceLineBreaks(d, sep) == r
    ensures ApplySepRules(t, DefaultSepRules, sep, pcre) == r
  {
    DefaultRulesInOrder(t, sep, pcre);
  }

  /** A character other than an ASCII letter, digit or `-` does not occur in such text. */
  lemma SlugTextLacks(t: string, c: char)
    requires SlugText(t) && !IsAsciiAlnum(c) && c != '-'
    ensures c !in t
  {
  }

  /** Turning dashes into `-` leaves ASCII letters, digits and `-` alone. */
  lemma DashesKeep(t: string)
    requires SlugText(t)
    ensures ReplaceDashes(t, "-") == t
  {
    var d := ReplaceDashes(t, "-");
    forall i | 0 <= i < |t|
      ensures d[i] == t[i]
    {
      if t[i] in DashChars {
        assert t[i] == '-';
      }
    }
  }

  /** The default rules are the entity, dash and line-break rules, in that order. */
  lemma DefaultRulesInOrder(t: string, sep: string, pcre: (string, string, string) -> string)
    ensures ApplySepRules(t, DefaultSepRules, sep, pcre) == ReplaceLineBreaks(ReplaceDashes(ReplaceEntities(t, sep), sep), sep)
  {
  }

  /** Text without any of the symbols passes the symbol patterns unchanged. */
  lemma {:induction false} ReplaceSymbolsAbsent(t: string, syms: seq<char>, words: seq<string>)
    requires |syms| == |words|
    requires forall i :: 0 <= i < |syms| ==> syms[i] !in t
    ensures ReplaceSymbols(t, syms, words) == t
    decreases |syms|
  {
    if syms != [] {
      ReplaceSymbolAbsent(t, syms[0], words[0]);
      ReplaceSymbolsAbsent(t, syms[1..], words[1..]);
    }
  }

  /** None of the six symbols is an ASCII letter, digit or `-`. */
  lemma SymbolsAbsent(t: string)
    requires SlugText(t)
    ensures forall i :: 0 <= i < |Symbols| ==> Symbols[i] !in t
  {
    forall i | 0 <= i < |Symbols|
      ensures Symbols[i] !in t
    {
      var c := Symbols[i];
      assert !IsAsciiAlnum(c) && c != '-';
    }
  }

  /** `expandString` has nothing to do on ASCII letters, digits and `-`, in every language. */
  lemma SlugTextExpands(t: string, maps: seq<Table>, language: string)
    requires SlugText(t)
    ensures ExpandString(t, maps, language) == t
  {
    assert Plain(t) by {
      forall j | 0 <= j < |t| ensures PlainChar(t[j]) {
        assert IsAsciiAlnum(t[j]) || t[j] == '-';
      }
    }
    PlainUnchanged(t, language);
    SymbolsAbsent(t);
    ReplaceSymbolsAbsent(t, Symbols, SymbolWords(maps, language));
  }

  /** Substitution leaves text that has no character of the class. */
  lemma SubstitutionOutside(t: string, cls: set<char>, lookup: map<string, string>)
    requires forall i :: 0 <= i < |t| ==> t[i] !in cls
    ensures Substitution(t, cls, lookup) == t
  {
    MatchesNone(t, cls);
  }

  lemma {:induction false} MatchesNone(t: string, cls: set<char>)
    requires forall i :: 0 <= i < |t| ==> t[i] !in cls
    ensures Matches(t, cls) == []
    decreases |t|
  {
    if t != [] {
      MatchesNone(t[1..], cls);
    }
  }

  /** Installing the default separator rules does not change the class `downcode` uses. */
  lemma ClassIgnoresSepRules(st: State, language: string)
    ensures ActiveClass(InitDowncode(WithSepRules(st), language).0) == ActiveClass(InitDowncode(st, language).0)
  {
  }

  /** `downcode` returns text the class, the expansion and the collaborators leave alone as it is. */
  lemma DowncodeKeeps(st: State, ext: Ext, t: string, language: string, mapOnly: bool, utf8: bool)
    requires SlugText(t) && Transparent(ext, t)
    requires forall i :: 0 <= i < |t| ==> t[i] !in ActiveClass(InitDowncode(st, language).0)
    ensures Downcode(st, ext, t, language, mapOnly, "", utf8).1 == t
  {
    var st1 := InitDowncode(st, language).0;
    SlugTextExpands(t, st1.maps, language);
    SubstitutionOutside(t, ActiveClass(st1), st1.lookup);
  }

  /** The stages after downcoding, without word removal, are the chain on that text. */
  lemma TidyKeeps(st: State, ext: Ext, t: string, language: string, fileName: bool)
    requires SlugText(t) && st.separatorRules == DefaultSepRules
    ensures Tidy(st, ext, t, language, fileName, false, "-").1 == Chain(t, "-", fileName, [])
  {
    DefaultRulesKeep(t, ext.pcre);
    assert UnquoteAll([]) == [];
  }

  /** The front of `filter` up to the chain, with the default separator rules in force. */
  lemma PipelineFront(st: State, ext: Ext, s: string, t: string, language: string,
                      fileName: bool, mapOnly: bool, utf8: bool)
    requires st.separatorRules == [] || st.separatorRules == DefaultSepRules
    requires utf8 ==> ext.clean(s) == s
    requires ApplySepRules(s, DefaultSepRules, "-", ext.pcre) == t
    requires SlugText(t) && Transparent(ext, t) && OutsideClass(st, language, t)
    ensures Pipeline(st, ext, s, language, fileName, false, "-", mapOnly, utf8).1 == Chain(t, "-", fileName, [])
  {
    var st1 := WithSepRules(st);
    assert st1.separatorRules == DefaultSepRules;
    assert Prepare(st1, ext, s, "-", utf8) == t;
    ClassIgnoresSepRules(st, language);
    DowncodeKeeps(st1, ext, t, language, mapOnly, utf8);
    var d := Downcode(st1, ext, t, language, mapOnly, "", utf8);
    TidyKeeps(d.0, ext, t, language, fileName);
  }

  /**
   * The front of `filter` with the default separator: when the default rules turn the text into
   * `t`, which the collaborators and the character class leave alone, the result is the clean-up
   * chain and the last stage applied to `t`.
   */
  lemma FilterFront(st: State, ext: Ext, s: string, t: string, maxLength: int, language: string,
                    fileName: bool, lower: bool, mapOnly: bool, utf8: bool)
    requires !Falsy(language)
    requires st.separatorRules == [] || st.separatorRules == DefaultSepRules
    requires utf8 ==> ext.clean(s) == s
    requires ApplySepRules(s, DefaultSepRules, "-", ext.pcre) == t
    requires SlugText(t) && Transparent(ext, t) && OutsideClass(st, language, t)
    ensures Filter(st, ext, s, maxLength, language, fileName, false, lower, Some("-"), mapOnly, utf8).1
         == Finish(Chain(t, "-", fileName, []), lower, maxLength, "-")
  {
    PipelineFront(st, ext, s, t, language, fileName, mapOnly, utf8);
    FilterOfPipeline(st, ext, s, Chain(t, "-", fileName, []), maxLength, language, fileName, lower, mapOnly, utf8);
  }

  /** With the default separator, `filter` is the last stage applied to the pipeline's text `c`. */
  lemma FilterOfPipeline(st: State, ext: Ext, s: string, c: string, maxLength: int, language: string,
                         fileName: bool, lower: bool, mapOnly: bool, utf8: bool)
    requires !Falsy(language)
    requires Pipeline(st, ext, s, language, fileName, false, "-", mapOnly, utf8).1 == c
    ensures Filter(st, ext, s, maxLength, language, fileName, false, lower, Some("-"), mapOnly, utf8).1
         == Finish(c, lower, maxLength, "-")
  {
    FilterSteps(st, ext, s, maxLength, language, fileName, lower, mapOnly, utf8);
  }

  lemma FilterSteps(st: State, ext: Ext, s: string, maxLength: int, language: string,
                    fileName: bool, lower: bool, mapOnly: bool, utf8: bool)
    requires !Falsy(language)
    ensures Filter(st, ext, s, maxLength, language, fileName, false, lower, Some("-"), mapOnly, utf8).1
         == Finish(Pipeline(st, ext, s, language, fileName, false, "-", mapOnly, utf8).1, lower, maxLength, "-")
  {
  }

  /** For a truthy language, `slug` is the last stage applied to the pipeline's text. */
  lemma SlugSteps(st: State, ext: Ext, s: string, language: string, separator: Option<string>, lower: bool)
    requires !Falsy(language)
    ensures var sep := NormalizeSeparator(separator);
      Slug(st, ext, s, language, separator, lower).1
      == Finish(Pipeline(st, ext, s, language, false, false, sep, false, true).1, lower, 200, sep)
  {
  }

  /** `to_ascii` returns ASCII text whatever it is given, as the real collaborator does. */
  ghost predicate AsciiOut(ext: Ext) {
    forall u, v, c :: c in ext.toAscii(u, v) ==> IsAscii(c)
  }

  /** Separator rules with no caller-supplied pattern among them. */
  predicate OwnRules(rules: seq<SepRule>) {
    forall i :: 0 <= i < |rules| ==> !rules[i].Custom?
  }

  /**
   * With the ASCII fallback, an ASCII separator and no caller-supplied separator rule, the text
   * before the last stage is ASCII: the fallback's output only loses characters or gains
   * separators on the way.
   */
  lemma PipelineAscii(st: State, ext: Ext, s: string, language: string, fileName: bool,
                      removeWords: bool, sep: string, utf8: bool)
    requires AsciiOut(ext) && OwnRules(st.separatorRules)
    requires forall c :: c in sep ==> IsAscii(c)
    ensures forall c :: c in Pipeline(st, ext, s, language, fileName, removeWords, sep, false, utf8).1 ==> IsAscii(c)
  {
    var st1 := WithSepRules(st);
    var u := Prepare(st1, ext, s, sep, utf8);
    var d := Downcode(st1, ext, u, language, false, "", utf8);
    DowncodeAscii(st1, ext, u, language, utf8);
    DowncodeKeepsRules(st, ext, u, language, utf8);
    TidyAscii(d.0, ext, d.1, language, fileName, removeWords, sep);
  }

  /** The rules `filter` installs and `downcode` keeps include no caller-supplied pattern when the stored ones do not. */
  lemma DowncodeKeepsRules(st: State, ext: Ext, u: string, language: string, utf8: bool)
    requires OwnRules(st.separatorRules)
    ensures OwnRules(Downcode(WithSepRules(st), ext, u, language, false, "", utf8).0.separatorRules)
  {
    var st1 := WithSepRules(st);
    assert OwnRules(st1.separatorRules) by {
      if st.separatorRules == [] {
        DefaultRulesOwn();
      } else {
        assert st1 == st;
      }
    }
    assert Downcode(st1, ext, u, language, false, "", utf8).0.separatorRules == st1.separatorRules;
  }

  lemma DefaultRulesOwn()
    ensures OwnRules(DefaultSepRules)
  {
  }

  /** With the ASCII fallback, `downcode` returns ASCII text. */
  lemma DowncodeAscii(st: State, ext: Ext, u: string, language: string, utf8: bool)
    requires AsciiOut(ext)
    ensures forall c :: c in Downcode(st, ext, u, language, false, "", utf8).1 ==> IsAscii(c)
  {
  }

  /** Without caller-supplied separator rules, the steps after downcoding keep ASCII text ASCII. */
  lemma TidyAscii(st: State, ext: Ext, t: string, language: string, fileName: bool, removeWords: bool, sep: string)
    requires OwnRules(st.separatorRules)
    requires forall c :: c in t ==> IsAscii(c)
    requires forall c :: c in sep ==> IsAscii(c)
    ensures forall c :: c in Tidy(st, ext, t, language, fileName, removeWords, sep).1 ==> IsAscii(c)
  {
  }

  /**
   * `slug` with an ASCII-only `to_ascii`, an ASCII separator and no caller-supplied separator
   * rule gives only ASCII letters and digits, `-` and separator characters: no Unicode white
   * space reaches the result, since the fallback removes it before the `/u` pattern sees the text.
   */
  lemma SlugAscii(st: State, ext: Ext, s: string, language: string, separator: Option<string>, lower: bool)
    requires AsciiOut(ext) && OwnRules(st.separatorRules)
    requires forall c :: c in NormalizeSeparator(separator) ==> IsAscii(c)
    ensures forall c :: c in Slug(st, ext, s, language, separator, lower).1 ==>
      IsAsciiAlnum(c) || c == '-' || c in NormalizeSeparator(separator)
  {
    var sep := NormalizeSeparator(separator);
    var r := Slug(st, ext, s, language, separator, lower).1;
    SlugAsciiText(st, ext, s, language, separator, lower);
    forall c | c in r
      ensures IsAsciiAlnum(c) || c == '-' || c in sep
    {
      assert SlugChar(c, sep, false) && IsAscii(c);
      AsciiSlugChar(c, sep, false);
    }
  }

  /** Under the same conditions every character of the slug is ASCII. */
  lemma SlugAsciiText(st: State, ext: Ext, s: string, language: string, separator: Option<string>, lower: bool)
    requires AsciiOut(ext) && OwnRules(st.separatorRules)
    requires forall c :: c in NormalizeSeparator(separator) ==> IsAscii(c)
    ensures forall c :: c in Slug(st, ext, s, language, separator, lower).1 ==> IsAscii(c)
  {
    if !Falsy(language) {
      var sep := NormalizeSeparator(separator);
      var p := Pipeline(st, ext, s, language, false, false, sep, false, true);
      PipelineAscii(st, ext, s, language, false, false, sep, true);
      FinishAscii(p.1, lower, 200, sep);
      SlugSteps(st, ext, s, language, separator, lower);
    }
  }

  /** A finished slug is its own `filter` output with the default separator and no word removal. */
  lemma FilterKeepsSlug(st: State, ext: Ext, s: string, maxLength: int, language: string,
                        fileName: bool, lower: bool, mapOnly: bool, utf8: bool)
    requires IsSlug(s) && (maxLength <= 0 || |s| <= maxLength)
    requires !Falsy(language)
    requires st.separatorRules == [] || st.separatorRules == DefaultSepRules
    requires (utf8 ==> ext.clean(s) == s) && Transparent(ext, s) && OutsideClass(st, language, s)
    ensures Filter(st, ext, s, maxLength, language, fileName, false, lower, Some("-"), mapOnly, utf8).1 == s
  {
    DefaultRulesKeep(s, ext.pcre);
    FilterFront(st, ext, s, s, maxLength, language, fileName, lower, mapOnly, utf8);
    SlugFinishes(s, fileName, lower, maxLength);
  }

  /** `slug` is `filter` with length 200, no file name, no word removal, the ASCII fallback and UTF-8 cleaning. */
  lemma SlugIsFilter(st: State, ext: Ext, s: string, language: string, separator: Option<string>, lower: bool)
    ensures Slug(st, ext, s, language, separator, lower) == Filter(st, ext, s, 200, language, false, false, lower, separator, false, true)
  {
  }

  /** The chain and the last stage leave a finished slug that fits the limit as it is. */
  lemma SlugFinishes(s: string, fileName: bool, lower: bool, maxLength: int)
    requires IsSlug(s) && (maxLength <= 0 || |s| <= maxLength)
    ensures Finish(Chain(s, "-", fileName, []), lower, maxLength, "-") == s
  {
    SlugChains(s, fileName);
    SlugStaysFinished(s, lower, maxLength);
  }

  /** The last stage leaves a finished slug that fits the limit as it is. */
  lemma SlugStaysFinished(s: string, lower: bool, maxLength: int)
    requires IsSlug(s) && (maxLength <= 0 || |s| <= maxLength)
    ensures Finish(s, lower, maxLength, "-") == s
  {
    SlugLowers(s);
    assert forall i :: 0 <= i < |s| ==> IsAsciiAlnum(s[i]) || s[i] == "-"[0] || s[i] == '-';
    FinishKeepsSlug(s, lower, maxLength, "-");
  }

  lemma SlugChains(s: string, fileName: bool)
    requires IsSlug(s)
    ensures Chain(s, "-", fileName, []) == s
  {
    assert |s| < 9 || s[..9] != "A-Za-z0-9" by {
      if |s| >= 9 {
        assert s[..9][0] == s[0];
      }
    }
    ChainKeepsSlug(s, "-", fileName);
  }

  lemma SlugLowers(s: string)
    requires IsSlug(s)
    ensures Lower(s) == s
  {
    assert forall i :: 0 <= i < |s| ==> Lower(s)[i] == s[i];
  }
}
