# URLify, modelled in Dafny

This project models `voku\helper\URLify`, a PHP class that turns arbitrary text into URL
slugs and ASCII. The class keeps all its state in static fields:

- the registry `$maps` of per-language character tables;
- the active lookup `$map`, its character list `$chars` and the character-class pattern `$regex`;
- the language the lookup was built for;
- the per-language remove-word lists;
- the patterns that turn into the separator.

Every public operation reads or rewrites those fields. The model has two layers:

- **`Model`** describes that state as a value (`Model.State`). Each operation is a transition
  that returns the new state and the result: `init_downcode`, `add_chars`, `downcode`,
  `transliterate`, `remove_words`, `get_remove_list`, `reset_remove_list`,
  `add_array_to_separator`, `reset_array_to_separator`, `filter` and `slug`.
- **`Engine.URLify`** is a class with the same fields. Its methods update the fields in place.
  Each method is proved to leave exactly the state, and return exactly the result, of the
  matching transition.

The three loops of the source are methods proved against the functions that specify them:

- `Registry.BuildLookup` is the nested `foreach` of `init_downcode`.
- `Substitute.CollectPairs` and `Substitute.StrReplace` are the `for` loop and `str_replace` of `downcode`.
- `Engine.URLify.GetRemoveList` is the by-reference `foreach` of `get_remove_list`.

Modules, in dependency order:

| module | file | contents |
|---|---|---|
| `Wrappers` | wrappers.dfy | `Option` |
| `Text` | text.dfy | ASCII character classes, PCRE's `\s` with and without Unicode properties, PHP falsiness, `strtolower`, `trim` |
| `Registry` | registry.dfy | tables, PHP key coercion, flattening, moving a language's table to the end |
| `Tables` | tables.dfy | an excerpt of `$maps` and the full default remove-word lists |
| `Expand` | expand.dfy | `expandCurrencies`, `expandSymbols`, `expandString` as scanners over the fixed patterns |
| `Currencies` | currency.dfy | which currency pattern fires for each kind of amount, in German and in every other language |
| `Substitute` | substitute.dfy | the matching and `str_replace` step of `downcode`, and a per-character reference for it |
| `Quoting` | quote.dfy | `preg_quote` with the `/` delimiter, and how PCRE reads the quoted text back |
| `Cleanup` | cleanup.dfy | the separator rules, the six-pattern chain of `filter`, and the final lowercase, truncate and trim |
| `Model` | model.dfy | the state and its transitions |
| `Laws` | laws.dfy | properties that relate several transitions |
| `Slugging` | slugging.dfy | `filter` and `slug` end to end on text the collaborators leave alone |
| `Engine` | engine.dfy | the `URLify` class |
| `Examples` | examples.dfy | worked instances from the shipped tables and test cases |

## Behaviour worth knowing

The model follows the code, including where it does something a reader may not expect:

- **`str_replace` with arrays works in sequence.** A replacement value is rescanned by the later
  search strings. Under Turkish, `+ı` becomes ` arti i`, not ` artı i`. See
  `Substitute.SubstitutionCascades`. When no value holds a mapped class character, the step is
  a per-character transcription: every mapped class character becomes its value and every other
  character stays. See `Substitute.SubstitutionIsTranscription`.
- **Moving a language's table to the end is permanent.** The table stays at the end of `$maps`,
  so earlier calls affect later ones: a character two other languages map differently takes the
  value of whichever of them was requested last. See `Laws.LanguageOrderLeaks`.
- **`add_array_to_separator` ignores `$append`.** Its docblock
  (src/voku/helper/URLify.php:1609) documents a `$append` flag, but the final assignment
  replaces the list whatever `$append` is. See `Model.AddArrayToSeparator`.
- **`get_remove_list` quotes the stored words again on every call.** A word with a regex
  metacharacter stops matching itself after the second call. See `Laws.RequotedWordDrifts`.
- **A `-` reaches the slug only under caller-supplied separator rules.** The default rules turn
  `-` into the separator on the second separator pass (src/voku/helper/URLify.php:1777): with
  separator `#`, `a-b` becomes `a#b` (`Examples.DefaultRulesReplaceDash`). Under caller rules
  that leave `-` alone it passes the chain, because the kept class always contains `\-`
  (`Examples.DashSurvivesChain`).
- **The pattern commented `// 5) keep only ASCII-chars` does not do that.**
  (src/voku/helper/URLify.php:1794) It is written `'[^A-Za-z0-9]'`, whose brackets act as
  delimiters, so it removes only a leading literal `A-Za-z0-9`. See `Cleanup.DropLiteralPrefix`.
- **The tenth non-German currency pattern contains an unescaped `$`.** It is an end anchor, so a
  bare `1.NN` at the end of the text becomes dollars. See `Expand.EndAnchorReadsDollars`.

## Model

| member | source | states |
|---|---|---|
| Registry.BuildLookup | src/voku/helper/URLify.php:2239-2246 | the nested loop produces the flattened lookup, in which later tables overwrite earlier ones, and the concatenated key characters |
| Registry.FlattenIsLastValue | src/voku/helper/URLify.php:2239-2244 | a key is in the lookup iff some table has it, and its value is the one from the last such table in registry order |
| Registry.PrioritizeIsPermutation | src/voku/helper/URLify.php:2224-2232 | moving the language's table to the end only reorders the registry; keys stay unique and that table is last |
| Registry.PrioritizeWins | src/voku/helper/URLify.php:2224-2244 | after the move, the language's own values win; other keys take the last other table's value; without a table for the language the lookup is unchanged |
| Registry.PrioritizeIdempotent | src/voku/helper/URLify.php:2224-2232 | moving the same table to the end twice gives the same registry as once |
| Expand.NoDigitsUnchanged | src/voku/helper/URLify.php:2055-2114 | text without digits passes the currency pass unchanged in every language |
| Expand.GermanNeedsGlyph | src/voku/helper/URLify.php:2057-2078 | under "de" every currency pattern needs a currency sign; text without one is unchanged |
| Expand.PlainUnchanged | src/voku/helper/URLify.php:2055-2114 | text with no currency sign and no decimal mark is unchanged in every language |
| Expand.GermanEuro | src/voku/helper/URLify.php:2060 | under "de" any amount before `€` becomes " N Euro ", with no plural |
| Expand.OtherEuroOne | src/voku/helper/URLify.php:2083 | in every other language exactly `1 €` stays singular |
| Expand.OtherEuroPlural | src/voku/helper/URLify.php:2084 | in every other language any other amount before `€` takes the plural " Euros " |
| Expand.SingularSkipsLongerAmount | src/voku/helper/URLify.php:2083 | the singular pattern does not match an amount other than 1 |
| Expand.EndAnchorReadsDollars | src/voku/helper/URLify.php:2092 | a bare "1.NN" at the end of the text is read as dollars although it has no dollar sign |
| Expand.ApplyRulesSplit | src/voku/helper/URLify.php:2081-2113 | a pattern array applies as its first part followed by its second part |
| Currencies.GermanDollar | src/voku/helper/URLify.php:2061-2070 | under "de", `$` and any amount becomes " N Dollar ", with no plural |
| Currencies.GermanPound | src/voku/helper/URLify.php:2062-2071 | under "de", `£` and any amount becomes " N Pound " |
| Currencies.GermanYen | src/voku/helper/URLify.php:2063-2072 | under "de", `¥` and any amount becomes " N Yen " |
| Currencies.GermanEuroCents | src/voku/helper/URLify.php:2064-2073 | under "de", "N,M €" becomes " N Euro M Cent " |
| Currencies.GermanDollarCents | src/voku/helper/URLify.php:2065-2074 | under "de", "$N.M" becomes " N Dollar M Cent " |
| Currencies.GermanPoundPence | src/voku/helper/URLify.php:2066-2075 | under "de", "£N.M" becomes " N Pound M Pence " |
| Currencies.OtherDollarOne | src/voku/helper/URLify.php:2085-2100 | in every other language `$1` stays singular |
| Currencies.OtherDollarPlural | src/voku/helper/URLify.php:2086-2101 | in every other language `$` and any amount but 1 becomes " N Dollars " |
| Currencies.OtherPoundOne | src/voku/helper/URLify.php:2087-2102 | in every other language `£1` stays singular |
| Currencies.OtherPoundPlural | src/voku/helper/URLify.php:2088-2103 | in every other language `£` and any amount but 1 becomes " N Pounds " |
| Currencies.OtherYen | src/voku/helper/URLify.php:2089-2104 | in every other language `¥` and any amount becomes " N Yen " |
| Currencies.OtherEuroOneCents | src/voku/helper/URLify.php:2090-2105 | in every other language "1,M €" becomes " 1 Euros M Cents " |
| Currencies.OtherEuroCents | src/voku/helper/URLify.php:2091-2106 | in every other language "N,M €" for N other than 1 becomes " N Euros M Cents " |
| Currencies.OtherDollarCents | src/voku/helper/URLify.php:2093-2108 | in every other language "$N.M" becomes " N Dollars M Cents " |
| Currencies.OtherPoundPence | src/voku/helper/URLify.php:2095-2110 | in every other language "£N.M" becomes " N Pounds M Pence " |
| Currencies.PickRule | src/voku/helper/URLify.php:2058-2113 | when every earlier pattern misses, one pattern matches the whole text and the later ones need a glyph or mark its replacement lacks, the result is that replacement |
| Currencies.FractionTextMisses | src/voku/helper/URLify.php:2083-2090 | in "N.M X" the singular, whole-amount and (for N other than 1) singular-fraction patterns for X find nothing |
| Currencies.GlyphOneMisses | src/voku/helper/URLify.php:2085-2087 | `X1` matches only the text `X1` itself |
| Expand.SymbolWords | src/voku/helper/URLify.php:2134-2141 | six replacements, and a language without a table leaves `&`, `%` and `=` as themselves |
| Expand.ReplaceSymbolAbsorbs | src/voku/helper/URLify.php:2127-2132 | a symbol and all whitespace around it become the word, once |
| Expand.ExpandSymbolsClears | src/voku/helper/URLify.php:2123-2144 | when no word contains a symbol, no symbol survives; every other character comes from the text or a word |
| Substitute.Matches | src/voku/helper/URLify.php:2177 | the matched characters are exactly the class characters of the text |
| Substitute.Queue | src/voku/helper/URLify.php:2179-2188 | every queued pair is a matched character with its lookup value, and every matched mapped character is queued |
| Substitute.CollectPairs | src/voku/helper/URLify.php:2177-2190 | the loop builds exactly the queue `Queue` specifies |
| Substitute.StrReplace | src/voku/helper/URLify.php:2192 | the pairs are applied one after another, each over the result of the previous ones |
| Substitute.ReplaceAll | src/voku/helper/URLify.php:2192 | text without the character is unchanged; every result character is from the text or the value |
| Substitute.SubstitutionIsTranscription | src/voku/helper/URLify.php:2177-2192 | without cascades, substitution replaces each mapped class character by its value, independently |
| Substitute.MultiCharKeyUnused | src/voku/helper/URLify.php:2183-2186 | a multi-character key never affects the result, since only single matched characters are looked up |
| Substitute.SubstitutionCascades | src/voku/helper/URLify.php:2192 | the result depends on match order, and differs from the per-character transcription |
| Quoting.Quote | src/voku/helper/URLify.php:1695 | quoting never shortens a word and leaves a word without metacharacters unchanged |
| Quoting.UnquoteQuote | src/voku/helper/URLify.php:1694-1696 | a quoted word, read as a pattern, matches exactly the word |
| Quoting.QuoteGrows | src/voku/helper/URLify.php:1694-1696 | a word with a metacharacter grows when quoted, so quoting is not idempotent |
| Cleanup.ReplaceEntities | src/voku/helper/URLify.php:1626 | text without `&` is unchanged by the entity rule; the result holds only the text's own characters and the separator's |
| Cleanup.EntityBecomesSeparator | src/voku/helper/URLify.php:1626 | `&quot;`, `&amp;`, `&lt;`, `&gt;`, `&ndash;` or `&mdash;`, in any ASCII case, becomes the separator and the scan goes on after it |
| Cleanup.NotEntityPasses | src/voku/helper/URLify.php:1626 | a character other than `&` is copied and the scan goes on after it |
| Cleanup.FirstPrefixNone | src/voku/helper/URLify.php:1626 | no alternative of the entity pattern matches where none starts with the current character, ignoring ASCII case |
| Cleanup.ReplaceDashes | src/voku/helper/URLify.php:1627 | with a one-character separator, each dash-like character (`⁻`, `-`, `—`, `_`, a double or single quote, a backtick, `´`) becomes the separator and every other character stays, position by position; text without them is unchanged; no dash-like character of the text survives unless the separator holds it |
| Cleanup.ReplaceLineBreaks | src/voku/helper/URLify.php:1628 | text without `<` is unchanged by the line-break rule; the result holds only the text's own characters and the separator's |
| Cleanup.ApplySepRules | src/voku/helper/URLify.php:1771 | with no caller-supplied pattern among the rules, the separator pass only deletes characters or inserts the separator |
| Cleanup.LineBreakBecomesSeparator | src/voku/helper/URLify.php:1628 | `<br` in any case, up to the nearest `>` on its line, becomes the separator and the scan goes on after it |
| Cleanup.NotLineBreakPasses | src/voku/helper/URLify.php:1628 | a character other than `<` is copied and the scan goes on after it |
| Cleanup.NoOpenPasses | src/voku/helper/URLify.php:1628 | text without `<` in front is copied and the rest is scanned as on its own |
| Cleanup.BreakBetween | src/voku/helper/URLify.php:1628 | a line break between two texts without `<` becomes the separator and nothing else changes |
| Cleanup.CollapseRuns | src/voku/helper/URLify.php:1793 | no class character is left except separators, and with a one-character separator no two class characters are adjacent |
| Cleanup.CollapseRunsCollapsed | src/voku/helper/URLify.php:1793 | text already collapsed is a fixed point |
| Cleanup.SpaceRunCollapses | src/voku/helper/URLify.php:1796 | a run of whitespace or separators between two words becomes exactly one separator |
| Cleanup.DropLiteralPrefix | src/voku/helper/URLify.php:1794 | a leading literal `A-Za-z0-9` is removed; any other text is unchanged |
| Cleanup.KeepOnly | src/voku/helper/URLify.php:1795 | only kept characters remain: separator characters, `.` for file names, `-`, ASCII letters and digits, and what `\s` matches under the Unicode properties `/u` turns on (ASCII white space and the Unicode spaces of `Text.IsWideSpace`); every kept character of the text is still present; text of kept characters is unchanged |
| Cleanup.KeepOnlyConcat | src/voku/helper/URLify.php:1795 | removal works character by character: the kept characters of each part survive, in order |
| Cleanup.RemoveWords | src/voku/helper/URLify.php:1779-1798 | removal only deletes characters, and an empty word list changes nothing |
| Cleanup.ListedWordRemoved | src/voku/helper/URLify.php:1782-1798 | a listed word at the start of the text, followed by a non-word character or the end, is removed and the rest is scanned as on its own |
| Cleanup.NonWordKept | src/voku/helper/URLify.php:1782-1798 | a non-word character is never removed |
| Cleanup.WordAtFinds | src/voku/helper/URLify.php:1782 | a listed word between word boundaries is the match the pattern finds there |
| Cleanup.RemoveShift | src/voku/helper/URLify.php:1782-1798 | after a word boundary, the removal over the rest of the text is the removal over that rest alone |
| Cleanup.Scan | src/voku/helper/URLify.php:1798 | the replacement pass, given where a match starts and how long it is, drops each match and copies every other character: the result is no longer than the text after the start and holds only its characters |
| Cleanup.ScanNoMatch | src/voku/helper/URLify.php:1798 | where no match starts, the pass copies the text unchanged |
| Cleanup.ScanAgree | src/voku/helper/URLify.php:1798 | two passes over texts that agree from some position on, character by character and match by match, give the same text |
| Cleanup.RemoveWordsFrom | src/voku/helper/URLify.php:1779-1798 | the removal from a position on only deletes characters of the text after it, and an empty word list keeps that text whole |
| Cleanup.WordSkipped | src/voku/helper/URLify.php:1782-1798 | a listed word at the start, followed by a non-word character or the end, is skipped whole and the pass resumes after it |
| Cleanup.ChainAlphabet | src/voku/helper/URLify.php:1791-1809 | after the chain only ASCII letters and digits, `-`, separator characters, (for file names) `.` and the Unicode spaces the `/u` pattern keeps remain, with no ASCII white space; every character left is the text's own or the separator's |
| Cleanup.ChainAfterRules | src/voku/helper/URLify.php:1777-1809 | the second separator pass followed by the chain leaves only slug characters, and without caller-supplied rules only characters of the downcoded text or the separator |
| Cleanup.ChainKeepsSlug | src/voku/helper/URLify.php:1791-1809 | a finished slug with single one-character separators passes the chain unchanged |
| Cleanup.Finish | src/voku/helper/URLify.php:1812-1822 | the result is the lowercased (when asked) and truncated (when `maxLength` is positive) text with separator characters stripped from both ends only; it is at most `maxLength` long and neither starts nor ends with a separator character |
| Cleanup.FinishAlphabet | src/voku/helper/URLify.php:1812-1822 | lowercasing, truncating and trimming keep the slug alphabet |
| Cleanup.FinishAscii | src/voku/helper/URLify.php:1812-1822 | lowercasing, truncating and trimming keep an ASCII text ASCII |
| Cleanup.FinishKeepsSlug | src/voku/helper/URLify.php:1812-1822 | a text of ASCII letters and digits with the separator between them, fitting the limit, is only lowercased when asked |
| Cleanup.FinishDropsSeparators | src/voku/helper/URLify.php:1812-1822 | text made only of the separator character finishes as the empty slug |
| Cleanup.SeparatorRunChain | src/voku/helper/URLify.php:1791-1809 | a run of separator characters leaves the chain as one separator |
| Cleanup.SeparatorsVanish | src/voku/helper/URLify.php:1791-1822 | text made only of separators slugs to nothing, whatever the other options |
| Text.Lower | src/voku/helper/URLify.php:1812-1814 | the same length, each character lowercased |
| Text.Trim | src/voku/helper/URLify.php:1822 | the result is the text with trimmed characters removed from both ends only, and it neither starts nor ends with one |
| Text.Prefix | src/voku/helper/URLify.php:1818 | the first `n` characters, or the whole text when it is shorter |
| Text.TrimUnchanged | src/voku/helper/URLify.php:1822 | text with no trimmed character at either end is unchanged |
| Text.TrimAll | src/voku/helper/URLify.php:1822 | text made only of trimmed characters trims to nothing |
| Model.InitialValid | src/voku/helper/URLify.php:26-1605 | the initial registry has unique keys |
| Model.InitDowncode | src/voku/helper/URLify.php:2208-2250 | fails exactly for a falsy language; a memo hit or a falsy language changes nothing; otherwise the language is recorded, its table is moved to the end of the registry, and the lookup, key characters and class are rebuilt from the new registry; the remove and separator lists are untouched |
| Model.AddChars | src/voku/helper/URLify.php:1637-1642 | the table is appended after all existing ones under the next integer key, which then grows by one; the active lookup is emptied; the registry remains valid; the class pattern, language, remove lists and separator rules are kept |
| Model.Downcode | src/voku/helper/URLify.php:2166-2199 | the state is that of `init_downcode`; the result is the substitution of the expanded (and, when asked, URL-decoded) text, handed to the ASCII fallback with `unknown` unless only the language maps are wanted |
| Model.Transliterate | src/voku/helper/URLify.php:2259-2262 | the state is that of `init_downcode("de")`; the result is the ASCII fallback applied to the German map-only `downcode` of the URL-decoded text |
| Model.QuoteAll | src/voku/helper/URLify.php:1694-1696 | each quoted word reads back as the original word |
| Model.ResetRemoveList | src/voku/helper/URLify.php:1828-2024 | every language gets its default list and nothing else changes |
| Model.GetRemoveList | src/voku/helper/URLify.php:1671-1699 | a falsy language changes nothing; a missing language resets the others to their defaults, a present one keeps them; a non-empty result is what is stored afterwards |
| Model.WordList | src/voku/helper/URLify.php:1653-1655 | a single word becomes a one-word list |
| Model.RemoveWords | src/voku/helper/URLify.php:1651-1662 | merging stores the list `get_remove_list` returns followed by the words, in the state `get_remove_list` leaves; replacing changes that one list only |
| Model.AddArrayToSeparator | src/voku/helper/URLify.php:1611-1618 | the rules become the given ones whatever `append` is, and nothing else changes |
| Model.ResetArrayToSeparator | src/voku/helper/URLify.php:1623-1630 | the three default rules are installed and nothing else changes |
| Model.NormalizeSeparator | src/voku/helper/URLify.php:1752-1756 | null becomes the empty separator, a falsy one `-`, any other is kept |
| Model.WithSepRules | src/voku/helper/URLify.php:1761-1763 | with no rules stored the three default rules are installed; existing rules are kept |
| Model.Pipeline | src/voku/helper/URLify.php:1760-1809 | the text before the final steps uses only slug characters; the new state is that of `init_downcode` after the lazy rule install, followed by `get_remove_list` when words are removed |
| Model.Tidy | src/voku/helper/URLify.php:1776-1809 | after downcoding, the rules, the remove words and the chain leave only slug characters, and without caller-supplied rules only the downcoded text's characters or the separator's; the state changes only by `get_remove_list` when words are removed |
| Model.Filter | src/voku/helper/URLify.php:1745-1823 | a falsy language yields "" and no change; otherwise a slug of slug characters, within `maxLength` when positive, without a separator character at either end, and the state of `init_downcode` after the lazy rule install (then `get_remove_list` when words are removed) |
| Model.Slug | src/voku/helper/URLify.php:1711-1714 | at most 200 characters of the slug alphabet, without a separator character at either end; a falsy language changes nothing, any other leaves the state of `init_downcode` after the lazy rule install |
| Slugging.SlugIsFilter | src/voku/helper/URLify.php:1711-1714 | `slug` is `filter` with length 200, no file name, no word removal, the ASCII fallback and UTF-8 cleaning |
| Slugging.DefaultRulesKeep | src/voku/helper/URLify.php:1626-1628 | with separator `-` the three default rules leave ASCII letters, digits and `-` unchanged |
| Slugging.SlugTextExpands | src/voku/helper/URLify.php:2039-2045 | `expandString` leaves ASCII letters, digits and `-` unchanged in every language |
| Slugging.DowncodeKeeps | src/voku/helper/URLify.php:2166-2199 | `downcode` returns text outside the class, which the collaborators leave alone, unchanged |
| Slugging.FilterFront | src/voku/helper/URLify.php:1745-1822 | with the default separator, when the default rules turn the input into text the collaborators and the class leave alone, `filter` is the chain and the final steps applied to that text |
| Slugging.FilterKeepsSlug | src/voku/helper/URLify.php:1745-1822 | a finished lower-case slug with single `-` that fits the limit passes `filter` unchanged |
| Slugging.SlugSteps | src/voku/helper/URLify.php:1711-1822 | for a truthy language, `slug` is the last stage applied to the pipeline's text |
| Slugging.DowncodeAscii | src/voku/helper/URLify.php:2198 | with an ASCII-only `to_ascii`, `downcode` without map-only mode returns ASCII |
| Slugging.DowncodeKeepsRules | src/voku/helper/URLify.php:1760-1775 | the rules installed lazily and kept by `downcode` hold no caller-supplied pattern when the stored ones hold none |
| Slugging.TidyAscii | src/voku/helper/URLify.php:1777-1809 | without caller-supplied rules and with an ASCII separator, the steps after downcoding keep ASCII text ASCII |
| Slugging.PipelineAscii | src/voku/helper/URLify.php:1760-1809 | with an ASCII-only `to_ascii`, an ASCII separator and no caller-supplied rule, the text before the last stage is ASCII |
| Slugging.SlugAsciiText | src/voku/helper/URLify.php:1711-1822 | under the same conditions every character of the slug is ASCII |
| Slugging.SlugAscii | src/voku/helper/URLify.php:1711-1822 | under the same conditions the slug holds only ASCII letters and digits, `-` and separator characters: the Unicode spaces the `/u` pattern keeps cannot reach it |
| Laws.InitDowncodeIdempotent | src/voku/helper/URLify.php:2214-2221 | asking for the same language again changes nothing |
| Laws.RebuildPriority | src/voku/helper/URLify.php:2224-2244 | after a rebuild the language's table wins; other keys take the last other table's value |
| Laws.RebuildClass | src/voku/helper/URLify.php:2239-2246 | after a rebuild the class matches exactly the characters of the registry's keys |
| Laws.AddCharsWins | src/voku/helper/URLify.php:1637-1642 | an added character is used by the next rebuild in any language whose own table does not map it |
| Laws.AppendedTableWins | src/voku/helper/URLify.php:2224-2232 | a table appended last wins over every table but the prioritised one |
| Laws.DowncodeTranscribes | src/voku/helper/URLify.php:2166-2196 | without cascades, map-only `downcode` is the per-character transcription of the expanded text |
| Laws.UnquoteAllQuoteAll | src/voku/helper/URLify.php:1694-1696 | reading a quoted list back gives the list |
| Laws.GetRemoveListReadsBack | src/voku/helper/URLify.php:1671-1699 | the returned list, read as patterns, is the list stored before the call, or the default |
| Laws.GetRemoveListRequotes | src/voku/helper/URLify.php:1694-1698 | a second call returns the first call's result quoted once more |
| Laws.RequotedWordDrifts | src/voku/helper/URLify.php:1694-1696 | after two calls a word with a metacharacter no longer matches itself |
| Laws.MergeKeepsWords | src/voku/helper/URLify.php:1658-1659 | merging keeps the stored words, which read back as themselves, and appends the new ones unchanged |
| Laws.GermanMovesLast | src/voku/helper/URLify.php:2224-2232 | from the shipped registry, asking for "de" moves the German table to the end and keeps the others in order |
| Laws.TurkishFirst | src/voku/helper/URLify.php:2224-2244 | from the shipped registry, under "tr" `ä` is `a`, the value of the Latin table |
| Laws.TurkishAfterGerman | src/voku/helper/URLify.php:2224-2244 | once German has been moved to the end, under "tr" `ä` is `ae` |
| Laws.LanguageOrderLeaks | src/voku/helper/URLify.php:2224-2232 | from the initial state `ä` is `a` under "tr", but `ae` under "tr" after a call with "de": earlier calls change later results |
| Engine.URLify.constructor | src/voku/helper/URLify.php:1564-1605 | the fields start as the static initialisers |
| Engine.URLify.InitDowncode | src/voku/helper/URLify.php:2208-2250 | the new fields and result are those of `Model.InitDowncode` |
| Engine.URLify.AddChars | src/voku/helper/URLify.php:1637-1642 | the new fields are those of `Model.AddChars` |
| Engine.URLify.Downcode | src/voku/helper/URLify.php:2166-2199 | the new fields and result are those of `Model.Downcode` |
| Engine.URLify.Transliterate | src/voku/helper/URLify.php:2259-2262 | the new fields and result are those of `Model.Transliterate` |
| Engine.URLify.ResetRemoveList | src/voku/helper/URLify.php:1828-2024 | the new fields are those of `Model.ResetRemoveList` |
| Engine.URLify.GetRemoveList | src/voku/helper/URLify.php:1671-1699 | the in-place quoting loop leaves the fields and returns the result of `Model.GetRemoveList` |
| Engine.URLify.RemoveWords | src/voku/helper/URLify.php:1651-1662 | the new fields are those of `Model.RemoveWords` |
| Engine.URLify.AddArrayToSeparator | src/voku/helper/URLify.php:1611-1618 | the new fields are those of `Model.AddArrayToSeparator` |
| Engine.URLify.ResetArrayToSeparator | src/voku/helper/URLify.php:1623-1630 | the new fields are those of `Model.ResetArrayToSeparator` |
| Engine.URLify.Filter | src/voku/helper/URLify.php:1745-1823 | the new fields and result are those of `Model.Filter` |
| Engine.URLify.FilterText | src/voku/helper/URLify.php:1761-1809 | the new fields and text are those of `Model.Pipeline` |
| Engine.URLify.Tidy | src/voku/helper/URLify.php:1776-1809 | the new fields and text are those of `Model.Tidy` |
| Engine.URLify.Slug | src/voku/helper/URLify.php:1711-1714 | the new fields and result are those of `Model.Slug` |
| Examples.TurkishTable | src/voku/helper/URLify.php:253 | the Turkish table maps `ö` to `o` |
| Examples.GermanTable | src/voku/helper/URLify.php:1274 | the German table maps `ö` to `oe` |
| Examples.LanguageDecidesUmlaut | src/voku/helper/URLify.php:2224-2232 | from a fresh state `ö` is `o` under "tr" and `oe` under "de" |
| Examples.GermanSymbolWords | src/voku/helper/URLify.php:2123-2144 | in German ©, ® and @ take the latin_symbols words, and &, % and = take " und ", " Prozent " and " gleich " |
| Examples.AddedCharacterIsUsed | tests/URLifyTest.php:45-57 | after `add_chars`, `¶` is mapped to `P` by the next German rebuild |
| Examples.LowerCaseSlug | tests/BaseSluggerTest.php:92 | `slug("A-a-A-a-A-a", "de", "-", true)` is `a-a-a-a-a-a` |
| Examples.OnlySeparators | tests/BaseSluggerTest.php:90 | `slug("-----", "de", "-", true)` is empty |
| Examples.PettyTheft | src/voku/helper/URLify.php:1719 | `filter("Petty<br>theft")` with the defaults is `Petty-theft` |
| Examples.FreshFilterKeepsSlug | src/voku/helper/URLify.php:1745-1822 | from the state before any call, a finished slug passes `filter` unchanged |
| Examples.InitialClassAvoids | src/voku/helper/URLify.php:2239-2246 | from the state before any call, the class built for any language holds no ASCII letter, digit or `-` |
| Examples.ShippedKeysAvoid | src/voku/helper/URLify.php:26-1605 | no key of a shipped table holds an ASCII letter, digit or `-` |
| Examples.DefaultRulesReplaceDash | src/voku/helper/URLify.php:1777 | with the default rules and separator `#`, `a-b` becomes `a#b` |
| Examples.DashSurvivesChain | src/voku/helper/URLify.php:1795 | with separator `#`, `a-b` passes the chain unchanged: the kept class contains `-` |

## Left out

- `UTF8::clean`, `UTF8::urldecode` and `UTF8::to_ascii` (portable-utf8), and PHP's `strip_tags`, are outside the class. They are parameters of the model (`Model.Ext`), with no properties assumed.
- A caller-supplied separator pattern is a PCRE call the model does not interpret. It is a parameter too; the three default patterns are written out.
- `$maps` holds only an excerpt of the shipped tables. The excerpt covers Greek, Swedish, Turkish, German, English, Latin, currency and latin_symbols. The code paths do not depend on the bulk data. The remove-word lists are complete.
- Characters are Unicode code points, not UTF-8 bytes. Patterns with `/u` read code points too, and PHP compiles them with Unicode properties, so the `\s` of the kept-class pattern (src/voku/helper/URLify.php:1795) also matches the Unicode spaces of `Text.IsWideSpace`; the model keeps them there as well (`Cleanup.Kept`), and the later whitespace patterns, whose `\s` is ASCII, leave them in the slug. Chain patterns 1 and 4 (src/voku/helper/URLify.php:1793 and 1796) have no `/u`, so with a non-ASCII separator PCRE reads the separator's UTF-8 bytes as separate class members, and those bytes can also occur inside other characters still in the text. The model reads the separator as whole code points there, so it agrees with the source only for ASCII separators.
- Cleanup.Finish: `substr` counts bytes, while the model counts characters. The two agree when the text reaching it is ASCII, which `Slugging.SlugAscii` shows for `slug` with an ASCII-only `to_ascii`, an ASCII separator and no caller-supplied separator rule. Otherwise a Unicode space kept by the `/u` pattern, or a non-ASCII separator, is two or three bytes in the source and one character in the model, so the source cuts the text shorter, possibly inside a character.
- Text.Lower: `strtolower` is modelled as ASCII-only lowercasing, as in PHP 8.2 and later. Locale-dependent lowercasing of older PHP versions is not modelled.
- Text.Trim: `trim` with a separator list is modelled as a plain character set. PHP's `a..b` range syntax in the character list is not modelled.
- The separator is interpolated into patterns after `preg_quote`, which escapes every metacharacter. The model treats its characters as literal class members.
- Cleanup.CollapseRuns, Cleanup.ApplySepRules: the separator is also the replacement string of `preg_replace` (src/voku/helper/URLify.php:1771, 1777 and 1791-1809). There `$n`, `${n}` and `\n` are back-references and `\\` and `\$` are escapes. The model inserts the separator literally, so it agrees with the source only for separators without `$` or `\`. With separator `$1`, the whitespace pattern turns `a b` into `ab` in the source but `a$1b` in the model.
- A table key or lookup value containing regex metacharacters is not escaped by the source before it goes into `$regex`. The model reads `$chars` as a plain character class.
- Back-references inside table values are not modelled.
- PHP type juggling of arguments is not modelled, except two cases: "" and "0" are falsy, and numeric-string language names address integer registry keys (`Registry.KeyOf`). Other non-string arguments, and non-array entries in `$remove_list`, are excluded by the types.
- Model.RemoveWords: an associative array of words keeps only its values, in order (`Model.Words`). `array_merge`'s renumbering of integer keys does not matter for the patterns built from it.
- `downcode`'s `$unknown` argument is passed to the ASCII fallback and not interpreted.
- `$regex` is the raw pattern string in the source. The model keeps only its character set, and uses `None` for the initial empty pattern.
- Slugging.FilterFront, Slugging.FilterKeepsSlug, Slugging.DowncodeKeeps: `strip_tags`, `urldecode`, `UTF8::clean` and `UTF8::to_ascii` are parameters, so these hold for collaborators that leave the text as it is, which the real ones do for ASCII letters, digits and `-`.
- Examples.LowerCaseSlug, Examples.OnlySeparators, Examples.PettyTheft, Examples.FreshFilterKeepsSlug: the same assumption about the collaborators, for the one text each lemma is about.
- Slugging.SlugAscii, Slugging.SlugAsciiText, Slugging.PipelineAscii: these assume that `UTF8::to_ascii` returns only ASCII characters, since it is a parameter here, and that no caller-supplied separator pattern is installed, since such a pattern may insert any text.
