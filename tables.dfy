/**
 * The built-in data: a representative excerpt of `URLify::$maps` (the tables in their
 * source order, a few entries each) and the full default remove-word lists.
 */
module Tables {
  import opened Registry

  const Greek: Table := Table(Name("el"), [
    ("=", " ίσος "), ("&", " και "), ("+", " συν "),
    ("α", "a"), ("ο", "o"), ("σ", "s"), ("ί", "i"), ("ς", "s"),
    ("Α", "A"), ("Ξ", "3"), ("Π", "P"), ("Σ", "S"), ("Υ", "Y"), ("Φ", "F"), ("Ώ", "W"),
    ("ΑΥ", "AU")
  ])

  const Swedish: Table := Table(Name("sv"), [
    ("Ä", "A"), ("ä", "a"), ("ö", "o")
  ])

  const Turkish: Table := Table(Name("tr"), [
    ("=", " eşit "), ("%", " yüzde "), ("&", " ve "), ("+", " artı "),
    ("ş", "s"), ("ı", "i"), ("ç", "c"), ("ü", "u"), ("Ü", "U"), ("ö", "o"), ("Ö", "O")
  ])

  const German: Table := Table(Name("de"), [
    ("=", " gleich "), ("%", " Prozent "), ("&", " und "), ("+", " plus "),
    ("Ä", "Ae"), ("Ö", "Oe"), ("Ü", "Ue"), ("ä", "ae"), ("ö", "oe"), ("ü", "ue"), ("ß", "ss")
  ])

  const English: Table := Table(Name("en"), [
    ("=", " equal "), ("%", " percent "), ("&", " and "), ("+", " plus ")
  ])

  const Latin: Table := Table(Name("latin"), [
    ("Ä", "A"), ("ä", "a"), ("ç", "c"), ("é", "e"), ("ñ", "n"), ("Ö", "O"), ("ö", "o"), ("Ü", "U"), ("ü", "u")
  ])

  const Currency: Table := Table(Name("currency"), [
    ("€", " Euro "), ("$", " Dollar "), ("£", " pound "), ("¥", " yen ")
  ])

  const LatinSymbols: Table := Table(Name("latin_symbols"), [
    ("©", " (c) "), ("®", " (r) "), ("@", " (at) "),
    ("=", "="), ("%", "%"), ("∑", "∑"), ("∆", "∆"), ("∞", "∞"), ("♥", "♥"), ("&", "&"), ("+", "+")
  ])

  /** `URLify::$maps` as shipped: language tables first, then latin, currency and latin_symbols. */
  const DefaultMaps: seq<Table> := [Greek, Swedish, Turkish, German, English, Latin, Currency, LatinSymbols]

  const EnglishWords: seq<string> := [
    "a", "an", "as", "at", "before", "but", "by", "for", "from", "is", "in", "into", "like", "of",
    "off", "on", "onto", "per", "since", "than", "the", "this", "that", "to", "up", "via", "with"
  ]

  const GermanWords: seq<string> := [
    "ein", "eine", "wie", "an", "vor", "aber", "von", "für", "ist", "in", "von", "auf", "pro",
    "da", "als", "der", "die", "das", "dass", "zu", "mit"
  ]

  const FrenchWords: seq<string> := ["a", "of", "in", "on", "aa", "as", "le", "les", "la", "ce", "to"]

  /** The lists `reset_remove_list` installs, for every language at once. */
  const DefaultRemoveList: map<string, seq<string>> := map[
    "en" := EnglishWords,
    "de" := GermanWords, "de_at" := GermanWords, "de_ch" := GermanWords,
    "fr" := FrenchWords, "fr_at" := FrenchWords, "fr_ch" := FrenchWords,
    "el" := [], "et" := [], "eo" := [], "hi" := [], "sv" := [], "tr" := [], "bg" := [], "by" := [],
    "hr" := [], "da" := [], "fi" := [], "ka" := [], "ru" := [], "uk" := [], "cs" := [], "pl" := [],
    "ro" := [], "lv" := [], "lt" := [], "no" := [], "vn" := [], "ar" := [], "sr" := [], "az" := []
  ]

  lemma DefaultKeysUnique()
    ensures UniqueKeys(DefaultMaps)
  {
  }
}
