/**
 * Properties that relate several operations of the model: memoisation and priority of the
 * language rebuild, what `add_chars` guarantees, the per-character reading of downcoding,
 * and the round trips and quirks of the remove-word lists.
 */
module Laws {
  import opened Wrappers
  import opened Text
  import opened Registry
  import opened Tables
  import opened Expand
  import opened Substitute
  import opened Quoting
  import opened Model

  // ---------------------------------------------------------------------------
  // init_downcode
  // ---------------------------------------------------------------------------

  /** Asking for the same language twice changes nothing the second time. */
  lemma InitDowncodeIdempotent(st: State, language: string)
    requires UniqueKeys(st.maps)
    ensures var r := InitDowncode(st, language);
      InitDowncode(r.0, language) == r
  {
    var r := InitDowncode(st, language);
    if !Falsy(language) && !(language == st.language && |st.lookup| > 0) {
      PrioritizeIdempotent(st.maps, KeyOf(language));
      if |r.0.lookup| == 0 {
        assert Rebuild(r.0, language) == r.0;
      }
    }
  }

  /**
   * After a rebuild, every key of the requested language's table maps to that table's value;
   * every other key maps to the value of the last other table that has it, in registry order.
   */
  lemma RebuildPriority(st: State, language: string, k: string)
    requires !Falsy(language) && (language != st.language || |st.lookup| == 0)
    ensures var r := InitDowncode(st, language).0;
      var own := Find(st.maps, KeyOf(language));
      (own.Some? && TableGet(own.value.entries, k).Some? ==>
        k in r.lookup && r.lookup[k] == TableGet(own.value.entries, k).value)
      && (own.Some? && TableGet(own.value.entries, k).None? ==>
        (k in r.lookup <==> LastValue(Without(st.maps, KeyOf(language)), k).Some?)
        && (k in r.lookup ==> r.lookup[k] == LastValue(Without(st.maps, KeyOf(language)), k).value))
      && (own.None? ==> r.lookup == Flatten(st.maps))
  {
    var p := Prioritize(st.maps, KeyOf(language));
    PrioritizeWins(st.maps, KeyOf(language), k);
    FlattenIsLastValue(p, k);
  }

  /** After a rebuild, the class matches exactly the characters that occur in some key of some table. */
  lemma RebuildClass(st: State, language: string, c: char)
    requires UniqueKeys(st.maps)
    requires !Falsy(language) && (language != st.language || |st.lookup| == 0)
    ensures var r := InitDowncode(st, language).0;
      c in ActiveClass(r) <==> exists t, e :: t in st.maps && e in t.entries && c in e.0
  {
    var r := InitDowncode(st, language).0;
    assert ActiveClass(r) == CharSet(KeyChars(r.maps));
    assert multiset(r.maps) == multiset(st.maps);
    if c in ActiveClass(r) {
      ClassCharHasKey(st.maps, r.maps, c);
    }
    if exists t, e :: t in st.maps && e in t.entries && c in e.0 {
      KeyCharInClass(st.maps, r.maps, c);
    }
  }

  lemma ClassCharHasKey(maps: seq<Table>, reordered: seq<Table>, c: char)
    requires multiset(reordered) == multiset(maps)
    requires c in KeyChars(reordered)
    ensures exists t, e :: t in maps && e in t.entries && c in e.0
  {
    KeyCharsFrom(reordered, c);
    var t, e :| t in reordered && e in t.entries && c in e.0;
    assert t in multiset(reordered);
  }

  lemma KeyCharInClass(maps: seq<Table>, reordered: seq<Table>, c: char)
    requires multiset(reordered) == multiset(maps)
    requires exists t, e :: t in maps && e in t.entries && c in e.0
    ensures c in KeyChars(reordered)
  {
    var t, e :| t in maps && e in t.entries && c in e.0;
    assert t in multiset(reordered);
    var i :| 0 <= i < |reordered| && reordered[i] == t;
    KeyCharsCover(reordered, i, e, c);
  }

  // ---------------------------------------------------------------------------
  // add_chars
  // ---------------------------------------------------------------------------

  /**
   * A character added with `add_chars` is used by the next downcoding in any language whose
   * own table does not map it: the added table is placed after every table but the language's.
   */
  lemma AddCharsWins(st: State, entries: seq<(string, string)>, language: string, k: string, v: string)
    requires Valid(st) && !Falsy(language)
    requires TableGet(entries, k) == Some(v)
    requires Find(st.maps, KeyOf(language)).None? || TableGet(Find(st.maps, KeyOf(language)).value.entries, k).None?
    ensures var r := InitDowncode(AddChars(st, entries), language).0;
      k in r.lookup && r.lookup[k] == v
  {
    var a := AddChars(st, entries);
    var added := Table(Index(st.nextIndex), entries);
    assert a.maps == st.maps + [added];
    forall t | t in st.maps ensures t.key != added.key {
      var i :| 0 <= i < |st.maps| && st.maps[i] == t;
    }
    forall t | t in st.maps && t.key == KeyOf(language) ensures TableGet(t.entries, k).None? {
      var i :| 0 <= i < |st.maps| && st.maps[i] == t;
      FindAt(st.maps, i);
    }
    AppendedTableWins(st.maps, added, KeyOf(language), k, v);
    FlattenIsLastValue(Prioritize(a.maps, KeyOf(language)), k);
  }

  /** The registry-level fact behind `AddCharsWins`. */
  lemma AppendedTableWins(maps: seq<Table>, added: Table, key: Key, k: string, v: string)
    requires TableGet(added.entries, k) == Some(v)
    requires forall t :: t in maps ==> t.key != added.key
    requires forall t :: t in maps && t.key == key ==> TableGet(t.entries, k).None?
    ensures LastValue(Prioritize(maps + [added], key), k) == Some(v)
  {
    var all := maps + [added];
    LastValueAppend(maps, added, k);
    match Find(all, key)
    case None =>
    case Some(t) =>
      PrioritizeWins(all, key, k);
      if t != added {
        assert t in maps;
        WithoutAppend(maps, [added], key);
        assert Without([added], key) == [added];
        LastValueAppend(Without(maps, key), added, k);
      }
  }

  // ---------------------------------------------------------------------------
  // The registry order outlives a call
  // ---------------------------------------------------------------------------

  /** The fifth of eight tables decides `k` when the three after it do not have it. */
  lemma FifthOfEightDecides(m: seq<Table>, k: string, v: string)
    requires |m| == 8 && TableGet(m[4].entries, k) == Some(v)
    requires TableGet(m[5].entries, k).None? && TableGet(m[6].entries, k).None? && TableGet(m[7].entries, k).None?
    ensures k in Flatten(m) && Flatten(m)[k] == v
  {
    LastValueLatest(m, 4, k);
    FlattenIsLastValue(m, k);
  }

  /** The seventh of eight tables decides `k` when the last one does not have it. */
  lemma SeventhOfEightDecides(m: seq<Table>, k: string, v: string)
    requires |m| == 8 && TableGet(m[6].entries, k) == Some(v) && TableGet(m[7].entries, k).None?
    ensures k in Flatten(m) && Flatten(m)[k] == v
  {
    LastValueLatest(m, 6, k);
    FlattenIsLastValue(m, k);
  }

  /** What the tables involved give `ä`: latin "a", German "ae", the others nothing. */
  lemma TableValuesOfAUmlaut()
    ensures TableGet(Latin.entries, "ä") == Some("a")
    ensures TableGet(German.entries, "ä") == Some("ae")
    ensures TableGet(Currency.entries, "ä").None? && TableGet(LatinSymbols.entries, "ä").None?
    ensures TableGet(Turkish.entries, "ä").None?
  {
    TableGetLatest(Latin.entries, 1, "ä");
    TableGetLatest(German.entries, 7, "ä");
    TableGetAbsent(Currency.entries, "ä");
    TableGetAbsent(LatinSymbols.entries, "ä");
    TableGetAbsent(Turkish.entries, "ä");
  }

  /** A registry whose last four tables are latin, currency, latin_symbols and Turkish reads `ä` as "a". */
  lemma LatinDecides(m: seq<Table>)
    requires |m| == 8 && m[4] == Latin && m[5] == Currency && m[6] == LatinSymbols && m[7] == Turkish
    ensures "ä" in Flatten(m) && Flatten(m)["ä"] == "a"
  {
    TableValuesOfAUmlaut();
    FifthOfEightDecides(m, "ä", "a");
  }

  /** A registry whose last two tables are German and Turkish reads `ä` as "ae". */
  lemma GermanDecides(m: seq<Table>)
    requires |m| == 8 && m[6] == German && m[7] == Turkish
    ensures "ä" in Flatten(m) && Flatten(m)["ä"] == "ae"
  {
    TableValuesOfAUmlaut();
    SeventhOfEightDecides(m, "ä", "ae");
  }

  /** Turkish asked for on the shipped registry moves its table to the end. */
  lemma TurkishMovesLast(st: State)
    requires st.maps == DefaultMaps && st.language != "tr"
    ensures InitDowncode(st, "tr").0.maps == DefaultMaps[..2] + DefaultMaps[3..] + [Turkish]
  {
    DefaultKeysUnique();
    assert KeyOf("tr") == Name("tr") == DefaultMaps[2].key;
    PrioritizeAt(DefaultMaps, 2);
  }

  /** Turkish has no `ä`: asked for on the shipped registry, `ä` comes from the latin table. */
  lemma TurkishFirst(st: State)
    requires st.maps == DefaultMaps && st.language != "tr"
    ensures var r := InitDowncode(st, "tr").0;
      "ä" in r.lookup && r.lookup["ä"] == "a"
  {
    TurkishMovesLast(st);
    var m := DefaultMaps[..2] + DefaultMaps[3..] + [Turkish];
    assert m[4] == Latin && m[5] == Currency && m[6] == LatinSymbols && m[7] == Turkish;
    LatinDecides(m);
  }

  /** German asked for on the shipped registry moves its table to the end, behind latin. */
  lemma GermanMovesLast(st: State)
    requires st.maps == DefaultMaps && st.language != "de"
    ensures InitDowncode(st, "de").0.maps == DefaultMaps[..3] + DefaultMaps[4..] + [German]
  {
    DefaultKeysUnique();
    assert KeyOf("de") == Name("de") == DefaultMaps[3].key;
    PrioritizeAt(DefaultMaps, 3);
  }

  /** After German, Turkish moves to the end once more. */
  lemma TurkishMovesLastAgain(st: State)
    requires st.maps == DefaultMaps[..3] + DefaultMaps[4..] + [German] && st.language != "tr"
    requires UniqueKeys(st.maps)
    ensures var m1 := st.maps; InitDowncode(st, "tr").0.maps == m1[..2] + m1[3..] + [Turkish]
  {
    var m1 := st.maps;
    assert m1[2] == Turkish;
    assert KeyOf("tr") == Name("tr") == m1[2].key;
    PrioritizeAt(m1, 2);
  }

  /** Turkish asked for after German: German's table now sits behind latin, so `ä` is German's. */
  lemma TurkishAfterGerman(st: State)
    requires st.maps == DefaultMaps[..3] + DefaultMaps[4..] + [German]
    requires st.language != "tr" && UniqueKeys(st.maps)
    ensures var r := InitDowncode(st, "tr").0;
      "ä" in r.lookup && r.lookup["ä"] == "ae"
  {
    TurkishMovesLastAgain(st);
    var m1 := st.maps;
    var m := m1[..2] + m1[3..] + [Turkish];
    ThirdMovedLast(m1, Turkish, m);
    GermanDecides(m);
  }

  /** Moving the third of eight tables to the end puts the old last one seventh. */
  lemma ThirdMovedLast(m1: seq<Table>, x: Table, m: seq<Table>)
    requires |m1| == 8 && m1[7] == German && m == m1[..2] + m1[3..] + [x]
    ensures |m| == 8 && m[6] == German && m[7] == x
  {
    assert m[6] == m1[7];
  }

  /**
   * The reorder of `init_downcode` is kept in `$maps`, so a language's lookup depends on the
   * languages asked for before it: from the initial state, Turkish gives `ä` latin's "a", but
   * Turkish after German gives German's "ae" (why `filter('ÖÜäöü', 60, 'tr')` yields `OUaeou`
   * after German calls).
   */
  lemma LanguageOrderLeaks(st: State)
    requires st == Initial
    ensures var r := InitDowncode(st, "tr").0;
      "ä" in r.lookup && r.lookup["ä"] == "a"
    ensures var r := InitDowncode(InitDowncode(st, "de").0, "tr").0;
      "ä" in r.lookup && r.lookup["ä"] == "ae"
  {
    TurkishFirst(st);
    GermanMovesLast(st);
    InitialValid();
    TurkishAfterGerman(InitDowncode(st, "de").0);
  }

  // ---------------------------------------------------------------------------
  // downcode
  // ---------------------------------------------------------------------------

  /**
   * When no replacement value contains a character of the class, downcoding with the language
   * maps alone replaces every character by its own value, independently of the others.
   */
  lemma DowncodeTranscribes(st: State, ext: Ext, s: string, language: string, utf8: bool)
    requires var st1 := InitDowncode(st, language).0; Stable(st1.lookup, ActiveClass(st1))
    ensures var st1 := InitDowncode(st, language).0;
      Downcode(st, ext, s, language, true, "", utf8).1
        == Transcribe(ExpandString(if utf8 then ext.urlDecode(s) else s, st1.maps, language), st1.lookup, ActiveClass(st1))
  {
    var st1 := InitDowncode(st, language).0;
    SubstitutionIsTranscription(ExpandString(if utf8 then ext.urlDecode(s) else s, st1.maps, language), ActiveClass(st1), st1.lookup);
  }

  // ---------------------------------------------------------------------------
  // Remove-word lists
  // ---------------------------------------------------------------------------

  lemma {:induction false} UnquoteAllQuoteAll(words: seq<string>)
    ensures UnquoteAll(QuoteAll(words)) == words
  {
    if words != [] {
      UnquoteQuote(words[0]);
      UnquoteAllQuoteAll(words[1..]);
    }
  }

  /** The list `get_remove_list` returns, read back as patterns, is the list stored before the call. */
  lemma GetRemoveListReadsBack(st: State, language: string)
    requires !Falsy(language)
    ensures var stored := if language in st.removeList then st.removeList[language]
                          else if language in DefaultRemoveList then DefaultRemoveList[language] else [];
      UnquoteAll(GetRemoveList(st, language).1) == stored
  {
    var st1 := if language !in st.removeList then ResetRemoveList(st) else st;
    if language in st1.removeList {
      UnquoteAllQuoteAll(st1.removeList[language]);
    }
  }

  /** Every call quotes the stored words once more: the second call returns the first result quoted again. */
  lemma GetRemoveListRequotes(st: State, language: string)
    requires !Falsy(language)
    ensures var first := GetRemoveList(st, language);
      GetRemoveList(first.0, language).1 == QuoteAll(first.1)
  {
    var first := GetRemoveList(st, language);
    if first.1 == [] {
      var st1 := if language !in st.removeList then ResetRemoveList(st) else st;
      assert language in first.0.removeList ==> first.0.removeList[language] == [];
    }
  }

  /** So a remove word with a metacharacter no longer reads back as itself after a second call. */
  lemma RequotedWordDrifts(st: State, language: string, i: nat, j: nat)
    requires !Falsy(language) && language in st.removeList
    requires i < |st.removeList[language]| && j < |st.removeList[language][i]|
    requires st.removeList[language][i][j] in Special
    ensures var second := GetRemoveList(GetRemoveList(st, language).0, language).1;
      |second| == |st.removeList[language]| && Unquote(second[i]) != st.removeList[language][i]
  {
    var w := st.removeList[language][i];
    var first := GetRemoveList(st, language);
    GetRemoveListRequotes(st, language);
    QuoteAllAt(st.removeList[language], i);
    QuoteAllAt(first.1, i);
    UnquoteQuote(first.1[i]);
    QuoteGrows(w, j);
  }

  /**
   * Merging keeps the current list (quoted, as `get_remove_list` leaves it) and appends the new
   * words as given; for a language without a list every language is first reset to its default.
   */
  lemma MergeKeepsWords(st: State, words: Words, language: string)
    requires !Falsy(language)
    ensures var r := RemoveWords(st, words, language, true);
      var stored := if language in st.removeList then st.removeList[language]
                    else if language in DefaultRemoveList then DefaultRemoveList[language] else [];
      var n := |stored|;
      |r.removeList[language]| == n + |WordList(words)|
      && UnquoteAll(r.removeList[language][..n]) == stored
      && r.removeList[language][n..] == WordList(words)
  {
    var current := GetRemoveList(st, language).1;
    GetRemoveListReadsBack(st, language);
    QuoteAllLength(st, language);
    var r := RemoveWords(st, words, language, true);
    assert r.removeList[language][..|current|] == current;
  }

  lemma QuoteAllLength(st: State, language: string)
    requires !Falsy(language)
    ensures var stored := if language in st.removeList then st.removeList[language]
                          else if language in DefaultRemoveList then DefaultRemoveList[language] else [];
      |GetRemoveList(st, language).1| == |stored|
  {
  }
}
