/**
 * `URLify`'s static state as an object whose methods update it in place, each proved to
 * produce the result and the new state of the corresponding transition in `Model`.
 */
module Engine {
  import opened Wrappers
  import opened Text
  import opened Registry
  import opened Tables
  import opened Expand
  import opened Substitute
  import opened Quoting
  import opened Cleanup
  import opened Model

  class URLify {
    var maps: seq<Table>
    var nextIndex: int
    var lookup: map<string, string>
    var chars: string
    var regex: Option<string>
    var language: string
    var removeList: map<string, seq<string>>
    var separatorRules: seq<SepRule>

    /** The fields as a `Model.State`. */
    function Snapshot(): State
      reads this
    {
      State(maps, nextIndex, lookup, chars, regex, language, removeList, separatorRules)
    }

    /** The static initialisers. */
    constructor ()
      ensures Snapshot() == Initial
    {
      maps := DefaultMaps;
      nextIndex := 0;
      lookup := map[];
      chars := "";
      regex := None;
      language := "";
      removeList := map[];
      separatorRules := [];
    }

    /** `init_downcode`. */
    method InitDowncode(lang: string) returns (ok: bool)
      modifies this
      ensures (Snapshot(), ok) == Model.InitDowncode(old(Snapshot()), lang)
    {
      if Falsy(lang) {
        return false;
      }
      if lang == language && |lookup| > 0 {
        return true;
      }
      var key := KeyOf(lang);
      var own := Find(maps, key);
      if own.Some? {
        maps := Without(maps, key) + [own.value];
      }
      language := lang;
      lookup, chars := BuildLookup(maps);
      regex := Some(chars);
      return true;
    }

    /** `add_chars`. */
    method AddChars(entries: seq<(string, string)>)
      modifies this
      ensures Snapshot() == Model.AddChars(old(Snapshot()), entries)
    {
      maps := maps + [Table(Index(nextIndex), entries)];
      nextIndex := nextIndex + 1;
      lookup := map[];
      chars := "";
    }

    /** `downcode`: the matches of the class are queued, then replaced one pair after another. */
    method Downcode(ext: Ext, s: string, lang: string, mapOnly: bool, unknown: string, utf8: bool) returns (r: string)
      modifies this
      ensures (Snapshot(), r) == Model.Downcode(old(Snapshot()), ext, s, lang, mapOnly, unknown, utf8)
    {
      var _ := InitDowncode(lang);
      var t := if utf8 then ext.urlDecode(s) else s;
      t := ExpandString(t, maps, lang);
      var matched := Matches(t, ActiveClass(Snapshot()));
      var pairs := CollectPairs(matched, lookup);
      r := StrReplace(t, pairs);
      if !mapOnly {
        r := ext.toAscii(r, unknown);
      }
    }

    /** `transliterate`. */
    method Transliterate(ext: Ext, s: string) returns (r: string)
      modifies this
      ensures (Snapshot(), r) == Model.Transliterate(old(Snapshot()), ext, s)
    {
      r := Downcode(ext, s, "de", false, "", true);
    }

    /** `reset_remove_list`. */
    method ResetRemoveList()
      modifies this
      ensures Snapshot() == Model.ResetRemoveList(old(Snapshot()))
    {
      removeList := DefaultRemoveList;
    }

    /** `get_remove_list`: the stored words are quoted one by one and written back. */
    method GetRemoveList(lang: string) returns (words: seq<string>)
      modifies this
      ensures (Snapshot(), words) == Model.GetRemoveList(old(Snapshot()), lang)
    {
      if Falsy(lang) {
        return [];
      }
      if lang !in removeList {
        ResetRemoveList();
      }
      if lang !in removeList || removeList[lang] == [] {
        return [];
      }
      var ws := removeList[lang];
      ghost var original := ws;
      var i := 0;
      while i < |ws|
        invariant |ws| == |original| && 0 <= i <= |ws|
        invariant forall j :: 0 <= j < i ==> ws[j] == Quote(original[j])
        invariant forall j :: i <= j < |ws| ==> ws[j] == original[j]
      {
        ws := ws[i := Quote(ws[i])];
        i := i + 1;
      }
      forall j | 0 <= j < |ws| ensures ws[j] == QuoteAll(original)[j] {
        QuoteAllAt(original, j);
      }
      assert ws == QuoteAll(original);
      removeList := removeList[lang := ws];
      words := ws;
    }

    /** `remove_words`. */
    method RemoveWords(words: Words, lang: string, merge: bool)
      modifies this
      ensures Snapshot() == Model.RemoveWords(old(Snapshot()), words, lang, merge)
    {
      var ws := WordList(words);
      if merge {
        var current := GetRemoveList(lang);
        removeList := removeList[lang := current + ws];
      } else {
        removeList := removeList[lang := ws];
      }
    }

    /** `add_array_to_separator`. */
    method AddArrayToSeparator(rules: seq<SepRule>, append: bool)
      modifies this
      ensures Snapshot() == Model.AddArrayToSeparator(old(Snapshot()), rules, append)
    {
      if append {
        separatorRules := separatorRules + rules;
      }
      separatorRules := rules;
    }

    /** `reset_array_to_separator`. */
    method ResetArrayToSeparator()
      modifies this
      ensures Snapshot() == Model.ResetArrayToSeparator(old(Snapshot()))
    {
      separatorRules := DefaultSepRules;
    }

    /** `filter`. */
    method Filter(ext: Ext, s: string, maxLength: int, lang: string, fileName: bool, removeWords: bool,
                  lower: bool, separator: Option<string>, mapOnly: bool, utf8: bool) returns (r: string)
      modifies this
      ensures (Snapshot(), r) == Model.Filter(old(Snapshot()), ext, s, maxLength, lang, fileName, removeWords, lower, separator, mapOnly, utf8)
    {
      if Falsy(lang) {
        return "";
      }
      var sep := NormalizeSeparator(separator);
      var t := FilterText(ext, s, lang, fileName, removeWords, sep, mapOnly, utf8);
      r := Finish(t, lower, maxLength, sep);
    }

    /** The steps of `filter` before lowercasing, truncating and trimming. */
    method FilterText(ext: Ext, s: string, lang: string, fileName: bool, removeWords: bool,
                      sep: string, mapOnly: bool, utf8: bool) returns (t: string)
      modifies this
      ensures (Snapshot(), t) == Pipeline(old(Snapshot()), ext, s, lang, fileName, removeWords, sep, mapOnly, utf8)
    {
      if separatorRules == [] {
        ResetArrayToSeparator();
      }
      t := if utf8 then ext.clean(s) else s;
      t := ApplySepRules(t, separatorRules, sep, ext.pcre);
      t := ext.stripTags(t);
      t := Downcode(ext, t, lang, mapOnly, "", utf8);
      t := Tidy(ext, t, lang, fileName, removeWords, sep);
    }

    /** The steps of `filter` after downcoding. */
    method Tidy(ext: Ext, t: string, lang: string, fileName: bool, removeWords: bool, sep: string) returns (r: string)
      modifies this
      ensures (Snapshot(), r) == Model.Tidy(old(Snapshot()), ext, t, lang, fileName, removeWords, sep)
    {
      var u := ApplySepRules(t, separatorRules, sep, ext.pcre);
      var quoted := [];
      if removeWords {
        quoted := GetRemoveList(lang);
      }
      r := Chain(u, sep, fileName, UnquoteAll(quoted));
    }

    /** `slug`. */
    method Slug(ext: Ext, s: string, lang: string, separator: Option<string>, lower: bool) returns (r: string)
      modifies this
      ensures (Snapshot(), r) == Model.Slug(old(Snapshot()), ext, s, lang, separator, lower)
    {
      r := Filter(ext, s, 200, lang, false, false, lower, separator, false, true);
    }
  }
}
