/**
 * The static state of `URLify` as a value, and every public or state-changing operation as a
 * transition from a state to a new state and a result. The `Engine` class runs the same
 * operations in place and is proved to agree with these transitions.
 */
module Model {
  import opened Wrappers
  import opened Text
  import opened Registry
  import opened Tables
  import opened Expand
  import opened Substitute
  import opened Quoting
  import opened Cleanup

  /**
   * The collaborators the core calls but does not define: the portable-utf8 cleaner, URL
   * decoder and ASCII fallback, PHP's `strip_tags`, and PCRE for caller-supplied separator
   * patterns (pattern, replacement, subject).
   */
  datatype Ext = Ext(
    clean: string -> string,
    urlDecode: string -> string,
    toAscii: (string, string) -> string,
    stripTags: string -> string,
    pcre: (string, string, string) -> string)

  /**
   * The static fields: the registry `$maps` with its next free integer key, the active
   * lookup `$map`, `$chars`, the class `$regex` (None while it is still the empty pattern),
   * `$language`, `$remove_list` and `$arrayToSeparator`.
   */
  datatype State = State(
    maps: seq<Table>,
    nextIndex: int,
    lookup: map<string, string>,
    chars: string,
    regex: Option<string>,
    language: string,
    removeList: map<string, seq<string>>,
    separatorRules: seq<SepRule>)

  /** The state before any call. */
  const Initial: State := State(DefaultMaps, 0, map[], "", None, "", map[], [])

  /** Registry keys are unique and every integer key is below the next free one. */
  predicate Valid(st: State) {
    UniqueKeys(st.maps)
    && st.nextIndex >= 0
    && forall i :: 0 <= i < |st.maps| && st.maps[i].key.Index? ==> st.maps[i].key.index < st.nextIndex
  }

  lemma InitialValid()
    ensures Valid(Initial)
  {
    DefaultKeysUnique();
  }

  // ---------------------------------------------------------------------------
  // Registry and active lookup
  // ---------------------------------------------------------------------------

  /** The rebuild `init_downcode` performs: reorder, flatten, collect the class characters. */
  function Rebuild(st: State, language: string): State {
    var maps := Prioritize(st.maps, KeyOf(language));
    st.(maps := maps, language := language, lookup := Flatten(maps), chars := KeyChars(maps),
        regex := Some(KeyChars(maps)))
  }

  /** `init_downcode`. */
  function InitDowncode(st: State, language: string): (r: (State, bool))
    ensures Falsy(language) <==> !r.1
    ensures Falsy(language) ==> r.0 == st
    ensures !Falsy(language) && language == st.language && |st.lookup| > 0 ==> r.0 == st
    ensures !Falsy(language) ==> r.0.language == language
    ensures !Falsy(language) && !(language == st.language && |st.lookup| > 0) ==>
      && r.0.maps == Prioritize(st.maps, KeyOf(language))
      && r.0.lookup == Flatten(r.0.maps)
      && r.0.chars == KeyChars(r.0.maps)
      && r.0.regex == Some(r.0.chars)
    ensures r.0.removeList == st.removeList && r.0.separatorRules == st.separatorRules
    ensures r.0.nextIndex == st.nextIndex
    ensures UniqueKeys(st.maps) ==> multiset(r.0.maps) == multiset(st.maps)
    ensures Valid(st) ==> Valid(r.0)
  {
    if Falsy(language) then (st, false)
    else if language == st.language && |st.lookup| > 0 then (st, true)
    else
      RebuildValid(st, language);
      (Rebuild(st, language), true)
  }

  lemma RebuildValid(st: State, language: string)
    ensures UniqueKeys(st.maps) ==> multiset(Rebuild(st, language).maps) == multiset(st.maps)
    ensures Valid(st) ==> Valid(Rebuild(st, language))
  {
    if UniqueKeys(st.maps) {
      PrioritizeIsPermutation(st.maps, KeyOf(language));
      var m := Rebuild(st, language).maps;
      forall i | 0 <= i < |m| ensures m[i] in st.maps {
        assert m[i] in multiset(m);
      }
    }
  }

  /** `add_chars`: append an unnamed table under the next integer key and drop the active lookup. */
  function AddChars(st: State, entries: seq<(string, string)>): (r: State)
    ensures Valid(st) ==> Valid(r)
    ensures |r.maps| == |st.maps| + 1 && r.maps[..|st.maps|] == st.maps
    ensures r.maps[|st.maps|].entries == entries
    ensures r.maps[|st.maps|].key == Index(st.nextIndex) && r.nextIndex == st.nextIndex + 1
    ensures r.lookup == map[] && r.chars == ""
    ensures r.regex == st.regex && r.language == st.language
    ensures r.removeList == st.removeList && r.separatorRules == st.separatorRules
  {
    var r := st.(maps := st.maps + [Table(Index(st.nextIndex), entries)], nextIndex := st.nextIndex + 1,
                 lookup := map[], chars := "");
    assert Valid(st) ==> UniqueKeys(r.maps) by {
      if Valid(st) {
        forall i, j | 0 <= i < j < |r.maps|
          ensures r.maps[i].key != r.maps[j].key
        {
          if j == |st.maps| {
            assert r.maps[i] == st.maps[i];
          }
        }
      }
    }
    r
  }

  // ---------------------------------------------------------------------------
  // Downcoding
  // ---------------------------------------------------------------------------

  /** The characters `self::$regex` matches: none for the initial empty pattern. */
  function ActiveClass(st: State): set<char> {
    match st.regex
    case None => {}
    case Some(cs) => CharSet(cs)
  }

  /**
   * `downcode`: rebuild for the language, URL-decode when asked, expand, substitute, and hand
   * the result to the ASCII fallback unless only the language maps are wanted.
   */
  function Downcode(st: State, ext: Ext, s: string, language: string, mapOnly: bool, unknown: string, utf8: bool): (r: (State, string))
    ensures r.0 == InitDowncode(st, language).0
    ensures mapOnly ==> r.1 == Substitution(
      ExpandString(if utf8 then ext.urlDecode(s) else s, r.0.maps, language), ActiveClass(r.0), r.0.lookup)
    ensures !mapOnly ==> r.1 == ext.toAscii(Substitution(
      ExpandString(if utf8 then ext.urlDecode(s) else s, r.0.maps, language), ActiveClass(r.0), r.0.lookup), unknown)
  {
    var st1 := InitDowncode(st, language).0;
    var t := if utf8 then ext.urlDecode(s) else s;
    var e := ExpandString(t, st1.maps, language);
    var u := Substitution(e, ActiveClass(st1), st1.lookup);
    (st1, if mapOnly then u else ext.toAscii(u, unknown))
  }

  /** `transliterate`: `downcode` with its defaults (German, ASCII fallback, URL-decoding). */
  function Transliterate(st: State, ext: Ext, s: string): (r: (State, string))
    ensures r.0 == InitDowncode(st, "de").0
    ensures r.1 == ext.toAscii(Downcode(st, ext, s, "de", true, "", true).1, "")
  {
    Downcode(st, ext, s, "de", false, "", true)
  }

  // ---------------------------------------------------------------------------
  // Remove-word lists
  // ---------------------------------------------------------------------------

  function QuoteAll(words: seq<string>): (r: seq<string>)
    ensures |r| == |words|
    ensures forall i :: 0 <= i < |words| ==> Unquote(r[i]) == words[i]
  {
    if words == [] then []
    else
      UnquoteQuote(words[0]);
      [Quote(words[0])] + QuoteAll(words[1..])
  }

  lemma {:induction false} QuoteAllAt(words: seq<string>, i: nat)
    requires i < |words|
    ensures QuoteAll(words)[i] == Quote(words[i])
  {
    if i > 0 {
      QuoteAllAt(words[1..], i - 1);
    }
  }

  function UnquoteAll(words: seq<string>): seq<string> {
    if words == [] then [] else [Unquote(words[0])] + UnquoteAll(words[1..])
  }

  /** `reset_remove_list`: every language back to its default list. */
  function ResetRemoveList(st: State): (r: State)
    ensures r.removeList == DefaultRemoveList
    ensures r.(removeList := st.removeList) == st
  {
    st.(removeList := DefaultRemoveList)
  }

  /**
   * `get_remove_list`: nothing for a falsy language; a language without a list resets every
   * language; a non-empty list is quoted in place and returned.
   */
  function GetRemoveList(st: State, language: string): (r: (State, seq<string>))
    ensures Falsy(language) ==> r == (st, [])
    ensures r.0.(removeList := st.removeList) == st
    ensures !Falsy(language) && language !in st.removeList ==>
      forall l :: l in DefaultRemoveList && l != language ==> l in r.0.removeList && r.0.removeList[l] == DefaultRemoveList[l]
    ensures !Falsy(language) && language in st.removeList ==>
      forall l :: l in st.removeList && l != language ==> l in r.0.removeList && r.0.removeList[l] == st.removeList[l]
    ensures r.1 != [] ==> language in r.0.removeList && r.0.removeList[language] == r.1
  {
    if Falsy(language) then (st, [])
    else
      var st1 := if language !in st.removeList then ResetRemoveList(st) else st;
      if language !in st1.removeList || st1.removeList[language] == [] then (st1, [])
      else
        var quoted := QuoteAll(st1.removeList[language]);
        (st1.(removeList := st1.removeList[language := quoted]), quoted)
  }

  /** The `$words` argument of `remove_words`: one word or an array of words. */
  datatype Words = One(word: string) | Many(list: seq<string>)

  function WordList(words: Words): (r: seq<string>)
    ensures words.One? ==> r == [words.word]
  {
    match words
    case One(w) => [w]
    case Many(l) => l
  }

  /** `remove_words`: merge onto the current (quoted) list, or replace it. */
  function RemoveWords(st: State, words: Words, language: string, merge: bool): (r: State)
    ensures language in r.removeList
    ensures !merge ==> r == st.(removeList := st.removeList[language := WordList(words)])
    ensures merge ==> r.removeList[language] == GetRemoveList(st, language).1 + WordList(words)
    ensures merge ==> var g := GetRemoveList(st, language);
      r == g.0.(removeList := g.0.removeList[language := g.1 + WordList(words)])
  {
    var ws := WordList(words);
    if merge then
      var (st1, current) := GetRemoveList(st, language);
      st1.(removeList := st1.removeList[language := current + ws])
    else
      st.(removeList := st.removeList[language := ws])
  }

  // ---------------------------------------------------------------------------
  // Separator rules
  // ---------------------------------------------------------------------------

  /** `add_array_to_separator`: the final assignment wins, so `append` has no effect. */
  function AddArrayToSeparator(st: State, rules: seq<SepRule>, append: bool): (r: State)
    ensures r.separatorRules == rules
    ensures r.(separatorRules := st.separatorRules) == st
  {
    st.(separatorRules := rules)
  }

  /** `reset_array_to_separator`. */
  function ResetArrayToSeparator(st: State): (r: State)
    ensures r.separatorRules == DefaultSepRules
    ensures r.(separatorRules := st.separatorRules) == st
  {
    st.(separatorRules := DefaultSepRules)
  }

  // ---------------------------------------------------------------------------
  // filter and slug
  // ---------------------------------------------------------------------------

  /** The separator after its fallback: null becomes the empty string, a falsy one `-`. */
  function NormalizeSeparator(separator: Option<string>): (sep: string)
    ensures separator.None? ==> sep == ""
    ensures separator.Some? && Falsy(separator.value) ==> sep == "-"
    ensures separator.Some? && !Falsy(separator.value) ==> sep == separator.value
  {
    match separator
    case None => ""
    case Some(x) => if Falsy(x) then "-" else x
  }

  /** The language-independent front of `filter`: clean, separator rules, strip tags. */
  function Prepare(st: State, ext: Ext, s: string, sep: string, utf8: bool): string {
    var t0 := if utf8 then ext.clean(s) else s;
    ext.stripTags(ApplySepRules(t0, st.separatorRules, sep, ext.pcre))
  }

  /** The rules `filter` uses: the stored ones, or the defaults installed lazily when there are none. */
  function WithSepRules(st: State): (r: State)
    ensures r.separatorRules != []
    ensures st.separatorRules != [] ==> r == st
    ensures st.separatorRules == [] ==> r == ResetArrayToSeparator(st)
  {
    if st.separatorRules == [] then ResetArrayToSeparator(st) else st
  }

  /**
   * `filter` up to its last three steps: clean, separator rules, strip tags, downcode, then the
   * rest in `Tidy`.
   */
  function Pipeline(st: State, ext: Ext, s: string, language: string, fileName: bool,
                    removeWords: bool, sep: string, mapOnly: bool, utf8: bool): (r: (State, string))
    ensures forall c :: c in r.1 ==> SlugChar(c, sep, fileName)
    ensures r.0.separatorRules != [] && r.0.language == (if Falsy(language) then st.language else language)
    ensures var st1 := InitDowncode(WithSepRules(st), language).0;
      r.0 == if removeWords then GetRemoveList(st1, language).0 else st1
  {
    var st1 := WithSepRules(st);
    var d := Downcode(st1, ext, Prepare(st1, ext, s, sep, utf8), language, mapOnly, "", utf8);
    Tidy(d.0, ext, d.1, language, fileName, removeWords, sep)
  }

  /**
   * The steps of `filter` after downcoding: separator rules again, then the clean-up chain with
   * the language's remove words when asked for. Only slug characters remain.
   */
  function Tidy(st: State, ext: Ext, t: string, language: string, fileName: bool,
                removeWords: bool, sep: string): (r: (State, string))
    ensures forall c :: c in r.1 ==> SlugChar(c, sep, fileName)
    ensures (forall i :: 0 <= i < |st.separatorRules| ==> !st.separatorRules[i].Custom?) ==>
      forall c :: c in r.1 ==> c in t || c in sep
    ensures r.0.separatorRules == st.separatorRules && r.0.language == st.language
    ensures r.0 == if removeWords then GetRemoveList(st, language).0 else st
  {
    var t4 := ApplySepRules(t, st.separatorRules, sep, ext.pcre);
    var g := if removeWords then GetRemoveList(st, language) else (st, []);
    var c := Chain(t4, sep, fileName, UnquoteAll(g.1));
    ChainAfterRules(t, st.separatorRules, sep, ext.pcre, fileName, UnquoteAll(g.1), t4, c);
    (g.0, c)
  }

  /**
   * `filter`: nothing for a falsy language; otherwise a text of slug characters (ASCII letters
   * and digits, `-`, the separator, and `.` for file names), at most `maxLength` long when that
   * is positive, that neither starts nor ends with a separator character.
   */
  function Filter(st: State, ext: Ext, s: string, maxLength: int, language: string, fileName: bool,
                  removeWords: bool, lower: bool, separator: Option<string>, mapOnly: bool, utf8: bool): (r: (State, string))
    ensures Falsy(language) ==> r == (st, "")
    ensures !Falsy(language) ==> r.0.separatorRules != [] && r.0.language == language
    ensures !Falsy(language) ==> var st1 := InitDowncode(WithSepRules(st), language).0;
      r.0 == if removeWords then GetRemoveList(st1, language).0 else st1
    ensures maxLength > 0 ==> |r.1| <= maxLength
    ensures r.1 != [] ==> r.1[0] !in NormalizeSeparator(separator) && r.1[|r.1| - 1] !in NormalizeSeparator(separator)
    ensures forall c :: c in r.1 ==> SlugChar(c, NormalizeSeparator(separator), fileName)
  {
    if Falsy(language) then (st, "")
    else
      var sep := NormalizeSeparator(separator);
      var p := Pipeline(st, ext, s, language, fileName, removeWords, sep, mapOnly, utf8);
      FinishAlphabet(p.1, lower, maxLength, sep, fileName);
      (p.0, Finish(p.1, lower, maxLength, sep))
  }

  /** `slug`: `filter` with length 200, no file name, no word removal, ASCII fallback, UTF-8 cleaning. */
  function Slug(st: State, ext: Ext, s: string, language: string, separator: Option<string>, lower: bool): (r: (State, string))
    ensures Falsy(language) ==> r == (st, "")
    ensures !Falsy(language) ==> r.0 == InitDowncode(WithSepRules(st), language).0
    ensures |r.1| <= 200
    ensures r.1 != [] ==> r.1[0] !in NormalizeSeparator(separator) && r.1[|r.1| - 1] !in NormalizeSeparator(separator)
    ensures forall c :: c in r.1 ==> SlugChar(c, NormalizeSeparator(separator), false)
  {
    var r := Filter(st, ext, s, 200, language, false, false, lower, separator, false, true);
    assert |r.1| <= 200;
    r
  }

}
