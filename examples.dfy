/**
 * Worked instances: which table wins for a character two languages map differently, what
 * `add_chars` does to an unmapped character, and the clean-up chain on a few inputs.
 */
module Examples {
  import opened Wrappers
  import opened Text
  import opened Registry
  import opened Tables
  import opened Expand
  import opened Cleanup
  import opened Model
  import opened Laws
  import opened Slugging

  lemma TurkishTable()
    ensures Find(DefaultMaps, Name("tr")) == Some(Turkish)
    ensures TableGet(Turkish.entries, "ö") == Some("o")
  {
    Registered(DefaultMaps, 2, Turkish);
    TableGetLatest(Turkish.entries, 9, "ö");
  }

  lemma GermanTable()
    ensures Find(DefaultMaps, Name("de")) == Some(German)
    ensures TableGet(German.entries, "ö") == Some("oe")
  {
    Registered(DefaultMaps, 3, German);
    GermanUmlaut(German.entries);
  }

  lemma GermanUmlaut(e: seq<(string, string)>)
    requires e == German.entries
    ensures TableGet(e, "ö") == Some("oe")
  {
    assert e[9].0 != "ö" && e[10].0 != "ö";
    TableGetLatest(e, 8, "ö");
  }

  /** The table at position `i` of the default registry is the one found under its key. */
  lemma Registered(maps: seq<Table>, i: nat, t: Table)
    requires maps == DefaultMaps && i < |maps| && maps[i] == t
    ensures Find(maps, t.key) == Some(t)
  {
    DefaultKeysUnique();
    FindAt(maps, i);
  }

  /** From a fresh state, `ö` downcodes to `o` in Turkish but to `oe` in German: the language's table wins. */
  lemma LanguageDecidesUmlaut()
    ensures var tr := InitDowncode(Initial, "tr").0;
      "ö" in tr.lookup && tr.lookup["ö"] == "o"
    ensures var de := InitDowncode(Initial, "de").0;
      "ö" in de.lookup && de.lookup["ö"] == "oe"
  {
    UmlautUnder(Initial, "tr", "o");
    UmlautUnder(Initial, "de", "oe");
  }

  lemma UmlautUnder(st: State, language: string, v: string)
    requires st == Initial
    requires (language == "tr" && v == "o") || (language == "de" && v == "oe")
    ensures var r := InitDowncode(st, language).0;
      "ö" in r.lookup && r.lookup["ö"] == v
  {
    if language == "tr" {
      TurkishTable();
      assert KeyOf(language) == Name("tr");
    } else {
      GermanTable();
      assert KeyOf(language) == Name("de");
    }
    OwnValueWins(st, language, "ö", v);
  }

  /** On a state with no active lookup, a value in the language's own table is the one used. */
  lemma OwnValueWins(st: State, language: string, k: string, v: string)
    requires st.lookup == map[] && !Falsy(language)
    requires Find(st.maps, KeyOf(language)).Some?
    requires TableGet(Find(st.maps, KeyOf(language)).value.entries, k) == Some(v)
    ensures var r := InitDowncode(st, language).0;
      k in r.lookup && r.lookup[k] == v
  {
    RebuildPriority(st, language, k);
  }

  lemma LatinSymbolsTable()
    ensures Find(DefaultMaps, Name("latin_symbols")) == Some(LatinSymbols)
    ensures TableGet(LatinSymbols.entries, "©") == Some(" (c) ")
    ensures TableGet(LatinSymbols.entries, "®") == Some(" (r) ")
    ensures TableGet(LatinSymbols.entries, "@") == Some(" (at) ")
  {
    Registered(DefaultMaps, 7, LatinSymbols);
    LatinSymbolWords(LatinSymbols.entries);
  }

  lemma LatinSymbolWords(e: seq<(string, string)>)
    requires e == LatinSymbols.entries
    ensures TableGet(e, "©") == Some(" (c) ")
    ensures TableGet(e, "®") == Some(" (r) ")
    ensures TableGet(e, "@") == Some(" (at) ")
  {
    LatinSymbolEntry(e, 0, "©");
    LatinSymbolEntry(e, 1, "®");
    LatinSymbolEntry(e, 2, "@");
  }

  lemma LatinSymbolEntry(e: seq<(string, string)>, i: nat, k: string)
    requires e == LatinSymbols.entries && i < 3 && e[i].0 == k
    ensures TableGet(e, k) == Some(e[i].1)
  {
    forall j | i < j < |e| ensures e[j].0 != k {
      assert e[j].0[0] != k[0];
    }
    TableGetLatest(e, i, k);
  }

  lemma GermanSymbolEntries()
    ensures TableGet(German.entries, "&") == Some(" und ")
    ensures TableGet(German.entries, "%") == Some(" Prozent ")
    ensures TableGet(German.entries, "=") == Some(" gleich ")
  {
    TableGetLatest(German.entries, 2, "&");
    TableGetLatest(German.entries, 1, "%");
    TableGetLatest(German.entries, 0, "=");
  }

  /** In German, ©, ® and @ take the latin_symbols words and &, % and = the German words. */
  lemma GermanSymbolWords()
    ensures SymbolWords(DefaultMaps, "de") == [" (c) ", " (r) ", " (at) ", " und ", " Prozent ", " gleich "]
  {
    LatinSymbolsTable();
    GermanTable();
    GermanSymbolEntries();
    assert KeyOf("de") == Name("de");
  }

  lemma GermanLacksPilcrow()
    ensures TableGet(German.entries, "¶") == None
  {
    var e := German.entries;
    forall j | 0 <= j < |e| ensures e[j].0 != "¶" {
      assert e[j].0[0] != '¶';
    }
    TableGetAbsent(e, "¶");
  }

  /** After `add_chars`, a character no table mapped is downcoded by the added table. */
  lemma AddedCharacterIsUsed(st: State, added: seq<(string, string)>)
    requires st == Initial && added == [("¿", "?"), ("¶", "P")]
    ensures var r := InitDowncode(AddChars(st, added), "de").0;
      "¶" in r.lookup && r.lookup["¶"] == "P"
  {
    InitialValid();
    TableGetLatest(added, 1, "¶");
    GermanTable();
    GermanLacksPilcrow();
    assert KeyOf("de") == Name("de");
    AddCharsWins(st, added, "de", "¶", "P");
  }

  /** No key character of `entries` is an ASCII letter, digit or `-`. */
  predicate KeysAvoidSlugText(entries: seq<(string, string)>) {
    forall j, k :: 0 <= j < |entries| && 0 <= k < |entries[j].0| ==> !IsAsciiAlnum(entries[j].0[k]) && entries[j].0[k] != '-'
  }

  /** None of the shipped tables has an ASCII letter, digit or `-` in a key. */
  lemma ShippedKeysAvoid(t: Table)
    requires t in DefaultMaps
    ensures KeysAvoidSlugText(t.entries)
  {
    if t == Greek {
      GreekKeysAvoid(t.entries);
    } else if t == Swedish || t == English || t == Currency {
    } else if t == Turkish {
      TurkishKeysAvoid(t.entries);
    } else if t == German {
      GermanKeysAvoid(t.entries);
    } else if t == Latin {
      LatinKeysAvoid(t.entries);
    } else {
      LatinSymbolsKeysAvoid(t.entries);
    }
  }

  lemma GreekKeysAvoid(e: seq<(string, string)>)
    requires e == Greek.entries
    ensures KeysAvoidSlugText(e)
  {
  }

  lemma TurkishKeysAvoid(e: seq<(string, string)>)
    requires e == Turkish.entries
    ensures KeysAvoidSlugText(e)
  {
  }

  lemma GermanKeysAvoid(e: seq<(string, string)>)
    requires e == German.entries
    ensures KeysAvoidSlugText(e)
  {
  }

  lemma LatinKeysAvoid(e: seq<(string, string)>)
    requires e == Latin.entries
    ensures KeysAvoidSlugText(e)
  {
  }

  lemma LatinSymbolsKeysAvoid(e: seq<(string, string)>)
    requires e == LatinSymbols.entries
    ensures KeysAvoidSlugText(e)
  {
  }

  /**
   * From the state before any call, the class `downcode` builds for any language holds none of
   * the ASCII letters, digits or `-`.
   */
  lemma InitialClassAvoids(language: string, t: string)
    requires !Falsy(language) && SlugText(t)
    ensures OutsideClass(Initial, language, t)
  {
    var r := InitDowncode(Initial, language).0;
    DefaultKeysUnique();
    assert r.maps == Prioritize(DefaultMaps, KeyOf(language));
    PrioritizeIsPermutation(DefaultMaps, KeyOf(language));
    forall i | 0 <= i < |t|
      ensures t[i] !in ActiveClass(r)
    {
      KeyCharAvoided(r.maps, t[i]);
    }
  }

  lemma KeyCharAvoided(m: seq<Table>, c: char)
    requires multiset(m) == multiset(DefaultMaps)
    requires IsAsciiAlnum(c) || c == '-'
    ensures c !in KeyChars(m)
  {
    forall t | t in DefaultMaps
      ensures KeysAvoidSlugText(t.entries)
    {
      ShippedKeysAvoid(t);
    }
    KeyCharAvoidedIn(DefaultMaps, m, c);
  }

  /** A reordering of tables whose keys avoid ASCII letters, digits and `-` has none of them in its class. */
  lemma KeyCharAvoidedIn(maps: seq<Table>, m: seq<Table>, c: char)
    requires multiset(m) == multiset(maps)
    requires forall t :: t in maps ==> KeysAvoidSlugText(t.entries)
    requires IsAsciiAlnum(c) || c == '-'
    ensures c !in KeyChars(m)
  {
    if c in KeyChars(m) {
      ClassCharHasKey(maps, m, c);
      assert false;
    }
  }

  /** From a fresh state, a finished slug passes `filter` unchanged. */
  lemma FreshFilterKeepsSlug(ext: Ext, s: string, maxLength: int, language: string,
                             fileName: bool, lower: bool, mapOnly: bool, utf8: bool)
    requires IsSlug(s) && (maxLength <= 0 || |s| <= maxLength)
    requires !Falsy(language)
    requires (utf8 ==> ext.clean(s) == s) && Transparent(ext, s)
    ensures Filter(Initial, ext, s, maxLength, language, fileName, false, lower, Some("-"), mapOnly, utf8).1 == s
  {
    assert SlugText(s);
    InitialClassAvoids(language, s);
    FilterKeepsSlug(Initial, ext, s, maxLength, language, fileName, lower, mapOnly, utf8);
  }

  /** `slug('A-a-A-a-A-a', 'de', '-', true)` is `a-a-a-a-a-a`: nothing to convert, only lower-casing. */
  lemma LowerCaseSlug(st: State, ext: Ext, s: string)
    requires s == "A-a-A-a-A-a"
    requires st.separatorRules == [] || st.separatorRules == DefaultSepRules
    requires ext.clean(s) == s && Transparent(ext, s) && OutsideClass(st, "de", s)
    ensures Slug(st, ext, s, "de", Some("-"), true).1 == "a-a-a-a-a-a"
  {
    MixedCaseIsSlug(s);
    DefaultRulesKeep(s, ext.pcre);
    FilterFront(st, ext, s, s, 200, "de", false, true, false, true);
    LowerCaseStages(s);
    SlugIsFilter(st, ext, s, "de", Some("-"), true);
  }

  /** The chain keeps `A-a-A-a-A-a`, lower-casing finishes it. */
  lemma LowerCaseStages(s: string)
    requires s == "A-a-A-a-A-a"
    ensures Finish(Chain(s, "-", false, []), true, 200, "-") == "a-a-a-a-a-a"
  {
    MixedCaseIsSlug(s);
    ChainKeepsSlug(s, "-", false);
    FinishKeepsSlug(s, true, 200, "-");
    MixedCaseLowers(s);
  }

  lemma MixedCaseIsSlug(s: string)
    requires s == "A-a-A-a-A-a"
    ensures forall i :: 0 <= i < |s| ==> IsAsciiAlnum(s[i]) || s[i] == '-'
    ensures forall i :: 0 <= i < |s| - 1 ==> !(s[i] == '-' && s[i + 1] == '-')
    ensures |s| < 9 || s[..9] != "A-Za-z0-9"
    ensures s[0] != '-' && s[|s| - 1] != '-' && |s| <= 200
  {
    assert s[..9][2] != "A-Za-z0-9"[2];
  }

  lemma MixedCaseLowers(s: string)
    requires s == "A-a-A-a-A-a"
    ensures Lower(s) == "a-a-a-a-a-a"
  {
    var l := Lower(s);
    assert |l| == 11;
    assert l[0] == l[2] == l[4] == l[6] == l[8] == l[10] == 'a';
    assert l[1] == l[3] == l[5] == l[7] == l[9] == '-';
  }

  /** `slug('-----', 'de', '-', true)` is empty: only separators. */
  lemma OnlySeparators(st: State, ext: Ext, s: string)
    requires s == "-----"
    requires st.separatorRules == [] || st.separatorRules == DefaultSepRules
    requires ext.clean(s) == s && Transparent(ext, s) && OutsideClass(st, "de", s)
    ensures Slug(st, ext, s, "de", Some("-"), true).1 == ""
  {
    DashRun(s);
    DefaultRulesKeep(s, ext.pcre);
    FilterFront(st, ext, s, s, 200, "de", false, true, false, true);
    OnlySeparatorStages(s);
    SlugIsFilter(st, ext, s, "de", Some("-"), true);
  }

  lemma OnlySeparatorStages(s: string)
    requires s == "-----"
    ensures Finish(Chain(s, "-", false, []), true, 200, "-") == ""
  {
    DashRun(s);
    SeparatorsVanish(s, "-", false, true, 200);
  }

  lemma DashRun(s: string)
    requires s == "-----"
    ensures s != [] && forall i :: 0 <= i < |s| ==> s[i] == "-"[0]
    ensures forall i :: 0 <= i < |s| ==> IsAsciiAlnum(s[i]) || s[i] == '-'
  {
  }

  /** With the default rules and separator `#`, the second separator pass already turns `-` into `#`. */
  lemma DefaultRulesReplaceDash(t: string, sep: string, r: string, pcre: (string, string, string) -> string)
    requires t == "a-b" && sep == "#" && r == "a#b"
    ensures ApplySepRules(t, DefaultSepRules, sep, pcre) == r
  {
    assert '&' !in t;
    DashBecomesSeparator(t, sep, r);
    assert '<' !in r;
    DefaultRulesThrough(t, sep, pcre, t, r, r);
  }

  lemma DashBecomesSeparator(t: string, sep: string, r: string)
    requires t == "a-b" && sep == "#" && r == "a#b"
    ensures ReplaceDashes(t, sep) == r
  {
    DashInMiddle('a', '-', 'b', sep);
    assert t == ['a', '-', 'b'] && r == ['a', sep[0], 'b'];
  }

  /** A dash between two other characters becomes the one-character separator. */
  lemma DashInMiddle(a: char, x: char, b: char, sep: string)
    requires a !in DashChars && x in DashChars && b !in DashChars && |sep| == 1
    ensures ReplaceDashes([a, x, b], sep) == [a, sep[0], b]
  {
    var d := ReplaceDashes([a, x, b], sep);
    assert d[0] == a && d[1] == sep[0] && d[2] == b;
  }

  /** Under caller rules that leave `-` alone, it survives the chain with separator `#`. */
  lemma DashSurvivesChain(s: string, sep: string)
    requires s == "a-b" && sep == "#"
    ensures Chain(s, sep, false, []) == s
  {
    ChainKeepsSlug(s, sep, false);
  }

  /** `filter('Petty<br>theft')` with every default is `Petty-theft`: the line break becomes the separator. */
  lemma PettyTheft(st: State, ext: Ext, s: string, t: string)
    requires s == "Petty<br>theft" && t == "Petty-theft"
    requires st.separatorRules == [] || st.separatorRules == DefaultSepRules
    requires Transparent(ext, t) && OutsideClass(st, "de", t)
    ensures Filter(st, ext, s, 200, "de", false, false, false, Some("-"), false, false).1 == t
  {
    PettyRules(s, t, ext.pcre);
    PettyIsSlugText(t);
    FilterFront(st, ext, s, t, 200, "de", false, false, false, false);
    PettyStages(t);
  }

  lemma PettyStages(t: string)
    requires t == "Petty-theft"
    ensures Finish(Chain(t, "-", false, []), false, 200, "-") == t
  {
    PettyIsSlugText(t);
    ChainKeepsSlug(t, "-", false);
    FinishKeepsSlug(t, false, 200, "-");
  }

  lemma PettyIsSlugText(t: string)
    requires t == "Petty-theft"
    ensures forall i :: 0 <= i < |t| ==> IsAsciiAlnum(t[i]) || t[i] == '-'
    ensures forall i :: 0 <= i < |t| - 1 ==> !(t[i] == '-' && t[i + 1] == '-')
    ensures |t| < 9 || t[..9] != "A-Za-z0-9"
    ensures t[0] != '-' && t[|t| - 1] != '-' && |t| <= 200
  {
    assert t[..9][0] != "A-Za-z0-9"[0];
  }

  /** The default separator rules turn `Petty<br>theft` into `Petty-theft`. */
  lemma PettyRules(s: string, t: string, pcre: (string, string, string) -> string)
    requires s == "Petty<br>theft" && t == "Petty-theft"
    ensures ApplySepRules(s, DefaultSepRules, "-", pcre) == t
  {
    DefaultRulesInOrder(s, "-", pcre);
    PettyNoEntityNoDash(s);
    PettyBreak(s, t);
  }

  lemma PettyNoEntityNoDash(s: string)
    requires s == "Petty<br>theft"
    ensures ReplaceDashes(ReplaceEntities(s, "-"), "-") == s
  {
    assert '&' !in s;
    assert forall i :: 0 <= i < |s| ==> s[i] !in DashChars;
  }

  lemma PettyBreak(s: string, t: string)
    requires s == "Petty<br>theft" && t == "Petty-theft"
    ensures ReplaceLineBreaks(s, "-") == t
  {
    PettyParts(s, t, "Petty", "<br", "theft");
  }

  lemma PettyParts(s: string, t: string, a: string, o: string, b: string)
    requires s == "Petty<br>theft" && t == "Petty-theft"
    requires a == "Petty" && o == "<br" && b == "theft"
    ensures ReplaceLineBreaks(s, "-") == t
  {
    assert s == a + o + ">" + b && t == a + "-" + b;
    BreakBetween(a, o, b, "-");
  }
}
