/**
 * `expandString`: the currency pass (`expandCurrencies`) then the symbol pass (`expandSymbols`).
 * Each fixed PCRE pattern is written out as a scanner with PCRE's leftmost, non-overlapping
 * global-replace semantics over the original subject.
 */
module Expand {
  import opened Wrappers
  import opened Text
  import opened Registry

  // ---------------------------------------------------------------------------
  // Currency patterns
  // ---------------------------------------------------------------------------

  /** The amount part of a currency pattern: `1`, `(\d+)`, `1[\.|,](\d+)` or `(\d+)[\.|,](\d+)`. */
  datatype Amount = One | Whole | OneFraction | Fraction

  /** What the amount sits next to: a currency glyph, or (the unescaped `$`) the end of the subject. */
  datatype Anchor = Glyph(glyph: char) | SubjectEnd

  /** A piece of a replacement string: literal text or a back-reference `\n`. */
  datatype Piece = Lit(text: string) | Group(n: nat)

  /**
   * `(?:\s|^)` AMOUNT `(?:\ )*` ANCHOR `(?:\s|$)` when `glyphFirst` is false,
   * `(?:\s|^)` GLYPH `(?:\ )*` AMOUNT `(?:\s|$)` when it is true; `template` is the replacement.
   */
  datatype CurrencyRule = CurrencyRule(glyphFirst: bool, anchor: Anchor, amount: Amount, template: seq<Piece>)

  /** The character class `[\.|,]`: the `|` is a member, not an alternation. */
  predicate IsDecimalMark(c: char) { c == '.' || c == '|' || c == ',' }

  /** Length of the run of digits starting at `i`. */
  function DigitRun(s: string, i: nat): (k: nat)
    requires i <= |s|
    ensures i + k <= |s|
    ensures forall j :: i <= j < i + k ==> IsDigit(s[j])
    ensures i + k < |s| ==> !IsDigit(s[i + k])
    decreases |s| - i
  {
    if i < |s| && IsDigit(s[i]) then 1 + DigitRun(s, i + 1) else 0
  }

  /** Length of the run of literal spaces (`(?:\ )*`) starting at `i`. */
  function SpaceRun(s: string, i: nat): (k: nat)
    requires i <= |s|
    ensures i + k <= |s|
    ensures forall j :: i <= j < i + k ==> s[j] == ' '
    ensures i + k < |s| ==> s[i + k] != ' '
    decreases |s| - i
  {
    if i < |s| && s[i] == ' ' then 1 + SpaceRun(s, i + 1) else 0
  }

  /** The amount at `i`: where it ends and the groups it captures. */
  function MatchAmount(s: string, i: nat, a: Amount): (r: Option<(nat, seq<string>)>)
    requires i <= |s|
    ensures r.Some? ==> i < r.value.0 <= |s| && IsDigit(s[i])
    ensures r.Some? && (a == OneFraction || a == Fraction) ==>
      exists j :: i <= j < r.value.0 && IsDecimalMark(s[j])
  {
    match a
    case One =>
      if i < |s| && s[i] == '1' then Some((i + 1, [])) else None
    case Whole =>
      var d := DigitRun(s, i);
      if d > 0 then Some((i + d, [s[i..i + d]])) else None
    case OneFraction =>
      if i + 1 < |s| && s[i] == '1' && IsDecimalMark(s[i + 1]) then
        var f := DigitRun(s, i + 2);
        if f > 0 then Some((i + 2 + f, [s[i + 2..i + 2 + f]])) else None
      else None
    case Fraction =>
      var d := DigitRun(s, i);
      if d > 0 && i + d < |s| && IsDecimalMark(s[i + d]) then
        var f := DigitRun(s, i + d + 1);
        if f > 0 then Some((i + d + 1 + f, [s[i..i + d], s[i + d + 1..i + d + 1 + f]])) else None
      else None
  }

  /** `(?:\s|$)`: one whitespace character, or the end of the subject. */
  function Trail(s: string, k: nat): (r: Option<nat>)
    requires k <= |s|
    ensures r.Some? ==> k <= r.value <= |s|
  {
    if k < |s| && IsSpace(s[k]) then Some(k + 1) else if k == |s| then Some(k) else None
  }

  /** PCRE's `$` without the D modifier: the end of the subject, or just before a final newline. */
  predicate AtEnd(s: string, k: nat) {
    k == |s| || (k + 1 == |s| && s[k] == '\n')
  }

  function WithTrail(s: string, k: nat, groups: seq<string>): (r: Option<(nat, seq<string>)>)
    requires k <= |s|
    ensures r.Some? ==> k <= r.value.0 <= |s|
  {
    match Trail(s, k)
    case None => None
    case Some(e) => Some((e, groups))
  }

  /** The pattern after its leading `(?:\s|^)`, tried at `i`. */
  function MatchBody(s: string, i: nat, rule: CurrencyRule): (r: Option<(nat, seq<string>)>)
    requires i <= |s|
    ensures r.Some? ==> i < r.value.0 <= |s|
    ensures r.Some? ==> exists j :: i <= j < r.value.0 && IsDigit(s[j])
    ensures r.Some? && rule.anchor.Glyph? ==> exists j :: i <= j < r.value.0 && s[j] == rule.anchor.glyph
    ensures r.Some? && (rule.amount == OneFraction || rule.amount == Fraction) ==>
      exists j :: i <= j < r.value.0 && IsDecimalMark(s[j])
  {
    if rule.glyphFirst then
      if i < |s| && rule.anchor.Glyph? && s[i] == rule.anchor.glyph then
        var j := i + 1 + SpaceRun(s, i + 1);
        match MatchAmount(s, j, rule.amount)
        case None => None
        case Some(m) => WithTrail(s, m.0, m.1)
      else None
    else
      match MatchAmount(s, i, rule.amount)
      case None => None
      case Some(m) =>
        var k := m.0 + SpaceRun(s, m.0);
        match rule.anchor
        case Glyph(c) => if k < |s| && s[k] == c then WithTrail(s, k + 1, m.1) else None
        case SubjectEnd => if AtEnd(s, k) then WithTrail(s, k, m.1) else None
  }

  /** The whole pattern tried at `i`: the `\s` alternative first, then `^`. */
  function MatchAt(s: string, i: nat, rule: CurrencyRule): (r: Option<(nat, seq<string>)>)
    requires i <= |s|
    ensures r.Some? ==> i < r.value.0 <= |s|
    ensures r.Some? ==> exists j :: i <= j < r.value.0 && IsDigit(s[j])
    ensures r.Some? && rule.anchor.Glyph? ==> exists j :: i <= j < r.value.0 && s[j] == rule.anchor.glyph
    ensures r.Some? && (rule.amount == OneFraction || rule.amount == Fraction) ==>
      exists j :: i <= j < r.value.0 && IsDecimalMark(s[j])
  {
    var viaSpace := if i < |s| && IsSpace(s[i]) then MatchBody(s, i + 1, rule) else None;
    if viaSpace.Some? then viaSpace
    else if i == 0 then MatchBody(s, 0, rule)
    else None
  }

  /** The replacement with its back-references filled in (an unset group is empty). */
  function Fill(template: seq<Piece>, groups: seq<string>): string {
    if template == [] then ""
    else
      var p := template[0];
      var text := match p
        case Lit(t) => t
        case Group(n) => if 1 <= n <= |groups| then groups[n - 1] else "";
      text + Fill(template[1..], groups)
  }

  /** `preg_replace` of one currency pattern, scanning the subject from `i`. */
  function ReplaceFrom(s: string, i: nat, rule: CurrencyRule): string
    requires i <= |s|
    decreases |s| - i
  {
    if i == |s| then ""
    else match MatchAt(s, i, rule)
      case Some(m) => Fill(rule.template, m.1) + ReplaceFrom(s, m.0, rule)
      case None => [s[i]] + ReplaceFrom(s, i + 1, rule)
  }

  function ApplyRule(s: string, rule: CurrencyRule): string {
    ReplaceFrom(s, 0, rule)
  }

  /** `preg_replace` with an array of patterns: each pattern rewrites the previous one's result. */
  function ApplyRules(s: string, rules: seq<CurrencyRule>): string
    decreases |rules|
  {
    if rules == [] then s else ApplyRules(ApplyRule(s, rules[0]), rules[1..])
  }

  /** The seven German patterns: no plural forms. */
  const GermanRules: seq<CurrencyRule> := [
    CurrencyRule(false, Glyph('€'), Whole, [Lit(" "), Group(1), Lit(" Euro ")]),
    CurrencyRule(true, Glyph('$'), Whole, [Lit(" "), Group(1), Lit(" Dollar ")]),
    CurrencyRule(true, Glyph('£'), Whole, [Lit(" "), Group(1), Lit(" Pound ")]),
    CurrencyRule(true, Glyph('¥'), Whole, [Lit(" "), Group(1), Lit(" Yen ")]),
    CurrencyRule(false, Glyph('€'), Fraction, [Lit(" "), Group(1), Lit(" Euro "), Group(2), Lit(" Cent ")]),
    CurrencyRule(true, Glyph('$'), Fraction, [Lit(" "), Group(1), Lit(" Dollar "), Group(2), Lit(" Cent ")]),
    CurrencyRule(true, Glyph('£'), Fraction, [Lit(" "), Group(1), Lit(" Pound "), Group(2), Lit(" Pence ")])
  ]

  /** The thirteen patterns of every other language: singular for exactly 1, plural otherwise. */
  const OtherRules: seq<CurrencyRule> := [
    CurrencyRule(false, Glyph('€'), One, [Lit(" 1 Euro ")]),
    CurrencyRule(false, Glyph('€'), Whole, [Lit(" "), Group(1), Lit(" Euros ")]),
    CurrencyRule(true, Glyph('$'), One, [Lit(" 1 Dollar ")]),
    CurrencyRule(true, Glyph('$'), Whole, [Lit(" "), Group(1), Lit(" Dollars ")]),
    CurrencyRule(true, Glyph('£'), One, [Lit(" 1 Pound ")]),
    CurrencyRule(true, Glyph('£'), Whole, [Lit(" "), Group(1), Lit(" Pounds ")]),
    CurrencyRule(true, Glyph('¥'), Whole, [Lit(" "), Group(1), Lit(" Yen ")]),
    CurrencyRule(false, Glyph('€'), OneFraction, [Lit(" 1 Euros "), Group(1), Lit(" Cents ")]),
    CurrencyRule(false, Glyph('€'), Fraction, [Lit(" "), Group(1), Lit(" Euros "), Group(2), Lit(" Cents ")]),
    CurrencyRule(false, SubjectEnd, OneFraction, [Lit(" 1 Dollars "), Group(1), Lit(" Cents ")]),
    CurrencyRule(true, Glyph('$'), Fraction, [Lit(" "), Group(1), Lit(" Dollars "), Group(2), Lit(" Cents ")]),
    CurrencyRule(false, Glyph('£'), OneFraction, [Lit(" 1 Pounds "), Group(1), Lit(" Pence ")]),
    CurrencyRule(true, Glyph('£'), Fraction, [Lit(" "), Group(1), Lit(" Pounds "), Group(2), Lit(" Pence ")])
  ]

  /** `expandCurrencies`: exactly two branches, German and everyone else. */
  function ExpandCurrencies(s: string, language: string): string {
    ApplyRules(s, if language == "de" then GermanRules else OtherRules)
  }

  /** A rule whose pattern needs something the subject lacks: a digit, its glyph, or a decimal mark. */
  predicate CannotMatch(s: string, rule: CurrencyRule) {
    (forall j :: 0 <= j < |s| ==> !IsDigit(s[j]))
    || (rule.anchor.Glyph? && rule.anchor.glyph !in s)
    || ((rule.amount == OneFraction || rule.amount == Fraction) && forall j :: 0 <= j < |s| ==> !IsDecimalMark(s[j]))
  }

  /** Where the pattern matches nowhere, the scan copies the subject. */
  lemma {:induction false} ReplaceFromNoMatch(s: string, i: nat, rule: CurrencyRule)
    requires i <= |s|
    requires forall j :: i <= j < |s| ==> MatchAt(s, j, rule).None?
    ensures ReplaceFrom(s, i, rule) == s[i..]
    decreases |s| - i
  {
    if i < |s| {
      ReplaceFromNoMatch(s, i + 1, rule);
      assert MatchAt(s, i, rule).None?;
      assert ReplaceFrom(s, i, rule) == [s[i]] + ReplaceFrom(s, i + 1, rule);
      assert s[i..] == [s[i]] + s[i + 1..];
    }
  }

  lemma RuleUnchanged(s: string, rule: CurrencyRule)
    requires CannotMatch(s, rule)
    ensures ApplyRule(s, rule) == s
  {
    forall j | 0 <= j < |s|
      ensures MatchAt(s, j, rule).None?
    {
    }
    ReplaceFromNoMatch(s, 0, rule);
  }

  lemma {:induction false} RulesUnchanged(s: string, rules: seq<CurrencyRule>)
    requires forall k :: 0 <= k < |rules| ==> CannotMatch(s, rules[k])
    ensures ApplyRules(s, rules) == s
    decreases |rules|
  {
    if rules != [] {
      RuleUnchanged(s, rules[0]);
      RulesUnchanged(s, rules[1..]);
    }
  }

  /** Text without digits has no amount to expand, whatever the language. */
  lemma NoDigitsUnchanged(s: string, language: string)
    requires forall j :: 0 <= j < |s| ==> !IsDigit(s[j])
    ensures ExpandCurrencies(s, language) == s
  {
    RulesUnchanged(s, if language == "de" then GermanRules else OtherRules);
  }

  /** Under "de" every pattern needs a currency glyph: text without one is unchanged. */
  lemma GermanNeedsGlyph(s: string)
    requires '€' !in s && '$' !in s && '£' !in s && '¥' !in s
    ensures ExpandCurrencies(s, "de") == s
  {
    RulesUnchanged(s, GermanRules);
  }

  predicate AllDigits(d: string) {
    forall j :: 0 <= j < |d| ==> IsDigit(d[j])
  }

  lemma {:induction false} DigitRunOf(s: string, i: nat, n: nat)
    requires i + n <= |s|
    requires forall j :: i <= j < i + n ==> IsDigit(s[j])
    requires i + n < |s| ==> !IsDigit(s[i + n])
    ensures DigitRun(s, i) == n
    decreases n
  {
    if n > 0 {
      DigitRunOf(s, i + 1, n - 1);
    }
  }

  /** Characters no currency pattern can start from: not a currency glyph, not a decimal mark. */
  predicate PlainChar(c: char) {
    !IsCurrencyGlyph(c) && !IsDecimalMark(c)
  }

  predicate IsCurrencyGlyph(c: char) { c == '€' || c == '$' || c == '£' || c == '¥' }

  predicate Plain(t: string) {
    forall j :: 0 <= j < |t| ==> PlainChar(t[j])
  }

  /** Every shipped pattern needs a currency glyph or (the end-anchored one) a decimal mark. */
  predicate NeedsGlyphOrMark(rule: CurrencyRule) {
    (rule.anchor.Glyph? && !PlainChar(rule.anchor.glyph)) || rule.amount == OneFraction || rule.amount == Fraction
  }

  lemma GermanRulesNeedGlyph()
    ensures forall k :: 0 <= k < |GermanRules| ==> NeedsGlyphOrMark(GermanRules[k])
  {
  }

  lemma OtherRulesNeedGlyphOrMark()
    ensures forall k :: 0 <= k < |OtherRules| ==> NeedsGlyphOrMark(OtherRules[k])
  {
  }

  /** Only the tenth non-German pattern lacks a currency glyph. */
  lemma OtherRulesBeforeTenthNeedGlyph()
    ensures forall k :: 0 <= k < 9 ==> OtherRules[k].anchor.Glyph? && IsCurrencyGlyph(OtherRules[k].anchor.glyph)
  {
  }

  lemma PlainRulesUnchanged(t: string, rules: seq<CurrencyRule>)
    requires Plain(t)
    requires forall k :: 0 <= k < |rules| ==> NeedsGlyphOrMark(rules[k])
    ensures ApplyRules(t, rules) == t
  {
    forall k | 0 <= k < |rules|
      ensures CannotMatch(t, rules[k])
    {
      if rules[k].anchor.Glyph? && !PlainChar(rules[k].anchor.glyph) {
        assert rules[k].anchor.glyph !in t;
      }
    }
    RulesUnchanged(t, rules);
  }

  /** Text without currency glyphs and decimal marks is left alone in every language. */
  lemma PlainUnchanged(t: string, language: string)
    requires Plain(t)
    ensures ExpandCurrencies(t, language) == t
  {
    GermanRulesNeedGlyph();
    OtherRulesNeedGlyphOrMark();
    PlainRulesUnchanged(t, if language == "de" then GermanRules else OtherRules);
  }

  lemma PlainConcat(a: string, b: string)
    requires Plain(a) && Plain(b)
    ensures Plain(a + b)
  {
    assert forall j :: |a| <= j < |a + b| ==> (a + b)[j] == b[j - |a|];
  }

  /** A pattern that matches the whole subject at its start replaces it by the filled template. */
  lemma WholeMatch(s: string, rule: CurrencyRule, groups: seq<string>)
    requires MatchAt(s, 0, rule) == Some((|s|, groups))
    ensures ApplyRule(s, rule) == Fill(rule.template, groups)
  {
    assert s != [];
    assert ReplaceFrom(s, |s|, rule) == "";
  }

  /** `(\d+)(?:\ )*X(?:\s|$)` matches "N X" as a whole. */
  lemma WholeBeforeGlyph(d: string, c: char, rule: CurrencyRule)
    requires d != [] && AllDigits(d)
    requires !rule.glyphFirst && rule.anchor == Glyph(c) && rule.amount == Whole && c != ' '
    ensures MatchAt(d + [' ', c], 0, rule) == Some((|d| + 2, [d]))
  {
    var s := d + [' ', c];
    DigitRunOf(s, 0, |d|);
    assert s[..|d|] == d;
    assert MatchAmount(s, 0, Whole) == Some((|d|, [d]));
    assert SpaceRun(s, |d| + 1) == 0;
    assert SpaceRun(s, |d|) == 1;
    assert Trail(s, |d| + 2) == Some(|d| + 2);
    assert MatchBody(s, 0, rule) == Some((|d| + 2, [d]));
    assert !IsSpace(s[0]);
  }

  lemma {:induction false} FillThree(a: string, b: string, groups: seq<string>)
    requires |groups| >= 1
    ensures Fill([Lit(a), Group(1), Lit(b)], groups) == a + groups[0] + b
  {
    var t := [Lit(a), Group(1), Lit(b)];
    assert t[2..][1..] == [];
    assert Fill(t[2..], groups) == b;
    assert t[1..][1..] == t[2..];
    assert Fill(t[1..], groups) == groups[0] + b;
  }

  lemma DigitsPlain(d: string)
    requires AllDigits(d)
    ensures Plain(d)
  {
  }

  /** " " + d + w is plain when d is digits and w is plain. */
  lemma FramedPlain(d: string, w: string)
    requires AllDigits(d) && Plain(w)
    ensures Plain(" " + d + w)
  {
    DigitsPlain(d);
    PlainConcat(" ", d);
    PlainConcat(" " + d, w);
  }

  lemma WordsPlain()
    ensures Plain(" Euro ") && Plain(" Euros ") && Plain(" 1 Euro ")
    ensures Plain(" 1 Dollars ") && Plain(" Cents ")
  {
    assert forall j :: 0 <= j < |" Euros "| ==> PlainChar(" Euros "[j]);
  }

  /** The German branch: an amount before € becomes " N Euro ", with no plural. */
  lemma GermanEuro(d: string)
    requires d != [] && AllDigits(d)
    ensures ExpandCurrencies(d + " €", "de") == " " + d + " Euro "
  {
    var s := d + " €";
    var t := " " + d + " Euro ";
    var rule := GermanRules[0];
    assert s == d + [' ', '€'];
    WholeBeforeGlyph(d, '€', rule);
    WholeMatch(s, rule, [d]);
    FillThree(" ", " Euro ", [d]);
    WordsPlain();
    FramedPlain(d, " Euro ");
    GermanRulesNeedGlyph();
    PlainRulesUnchanged(t, GermanRules[1..]);
  }

  /** Every other language: exactly "1" before € stays singular. */
  lemma OtherEuroOne(language: string)
    requires language != "de"
    ensures ExpandCurrencies("1 €", language) == " 1 Euro "
  {
    var s := "1 €";
    var t := " 1 Euro ";
    var rule := OtherRules[0];
    assert SpaceRun(s, 2) == 0;
    assert SpaceRun(s, 1) == 1;
    assert MatchAt(s, 0, rule) == Some((|s|, []));
    WholeMatch(s, rule, []);
    assert Fill(rule.template, []) == t;
    WordsPlain();
    OtherRulesNeedGlyphOrMark();
    PlainRulesUnchanged(t, OtherRules[1..]);
  }

  /** Every other language: any amount other than "1" before € takes the plural. */
  lemma OtherEuroPlural(d: string, language: string)
    requires d != [] && AllDigits(d) && d != "1" && language != "de"
    ensures ExpandCurrencies(d + " €", language) == " " + d + " Euros "
  {
    var s := d + " €";
    var t := " " + d + " Euros ";
    assert s == d + [' ', '€'];
    SingularSkipsLongerAmount(d, OtherRules[0]);
    WholeBeforeGlyph(d, '€', OtherRules[1]);
    WholeMatch(s, OtherRules[1], [d]);
    FillThree(" ", " Euros ", [d]);
    WordsPlain();
    FramedPlain(d, " Euros ");
    OtherRulesNeedGlyphOrMark();
    PlainRulesUnchanged(t, OtherRules[2..]);
    assert OtherRules[1..][1..] == OtherRules[2..];
  }

  /** The singular pattern `1(?:\ )*X` does not match "N X" for any other amount N. */
  lemma SingularSkipsLongerAmount(d: string, rule: CurrencyRule)
    requires d != [] && AllDigits(d) && d != "1"
    requires !rule.glyphFirst && rule.anchor.Glyph? && rule.amount == One && !IsDigit(rule.anchor.glyph)
    ensures ApplyRule(d + [' ', rule.anchor.glyph], rule) == d + [' ', rule.anchor.glyph]
  {
    var s := d + [' ', rule.anchor.glyph];
    forall j | 0 <= j < |s|
      ensures MatchAt(s, j, rule).None?
    {
      if j < |d| {
        assert IsDigit(s[j]);
        if j == 0 && s[0] == '1' {
          assert |d| > 1;
          assert IsDigit(s[1]);
          assert SpaceRun(s, 1) == 0;
        }
      } else if j == |d| {
        assert s[j + 1] == rule.anchor.glyph;
      }
    }
    ReplaceFromNoMatch(s, 0, rule);
  }

  /**
   * The unescaped `$` of the tenth pattern is an end anchor: a bare "1.NN" at the end of the
   * subject is read as dollars, with no dollar sign anywhere.
   */
  lemma EndAnchorReadsDollars(f: string, language: string)
    requires f != [] && AllDigits(f) && language != "de"
    ensures ExpandCurrencies("1." + f, language) == " 1 Dollars " + f + " Cents "
  {
    var s := "1." + f;
    var t := " 1 Dollars " + f + " Cents ";
    var rest := OtherRules[10..];
    OtherRulesBeforeTenthNeedGlyph();
    NoGlyphRulesUnchanged(s, OtherRules[..9]);
    TenthRuleReadsDollars(f);
    DigitsPlain(f);
    WordsPlain();
    PlainConcat(" 1 Dollars ", f);
    PlainConcat(" 1 Dollars " + f, " Cents ");
    OtherRulesNeedGlyphOrMark();
    PlainRulesUnchanged(t, rest);
    assert ([OtherRules[9]] + rest)[1..] == rest;
    assert OtherRules == OtherRules[..9] + ([OtherRules[9]] + rest);
    ApplyRulesSplit(s, OtherRules[..9], [OtherRules[9]] + rest);
  }

  lemma TenthRuleReadsDollars(f: string)
    requires f != [] && AllDigits(f)
    ensures ApplyRule("1." + f, OtherRules[9]) == " 1 Dollars " + f + " Cents "
  {
    var s := "1." + f;
    var rule := OtherRules[9];
    DigitRunOf(s, 2, |f|);
    assert s[2..2 + |f|] == f;
    assert rule.anchor == SubjectEnd && rule.amount == OneFraction && !rule.glyphFirst;
    assert MatchAmount(s, 0, OneFraction) == Some((|s|, [f]));
    assert SpaceRun(s, |s|) == 0;
    assert MatchBody(s, 0, rule) == Some((|s|, [f]));
    assert MatchAt(s, 0, rule) == Some((|s|, [f]));
    WholeMatch(s, rule, [f]);
    FillThree(" 1 Dollars ", " Cents ", [f]);
  }

  /** The first nine non-German patterns all need a currency glyph that "1.NN" lacks. */
  lemma NoGlyphRulesUnchanged(s: string, rules: seq<CurrencyRule>)
    requires forall j :: 0 <= j < |s| ==> !IsCurrencyGlyph(s[j])
    requires forall k :: 0 <= k < |rules| ==> rules[k].anchor.Glyph? && IsCurrencyGlyph(rules[k].anchor.glyph)
    ensures ApplyRules(s, rules) == s
  {
    forall k | 0 <= k < |rules|
      ensures CannotMatch(s, rules[k])
    {
      assert rules[k].anchor.glyph !in s;
    }
    RulesUnchanged(s, rules);
  }

  lemma {:induction false} ApplyRulesSplit(s: string, a: seq<CurrencyRule>, b: seq<CurrencyRule>)
    ensures ApplyRules(s, a + b) == ApplyRules(ApplyRules(s, a), b)
    decreases |a|
  {
    if a == [] {
      assert a + b == b;
    } else {
      assert (a + b)[0] == a[0];
      assert (a + b)[1..] == a[1..] + b;
      ApplyRulesSplit(ApplyRule(s, a[0]), a[1..], b);
    }
  }

  // ---------------------------------------------------------------------------
  // Symbol patterns: whitespace, a symbol, whitespace
  // ---------------------------------------------------------------------------

  // The pattern `\s*X\s*` replaced globally: each `sym` with the whitespace around it becomes `repl`.
  function ReplaceSymbol(s: string, sym: char, repl: string): string
    decreases |s|
  {
    if s == [] then ""
    else
      var k := LeadingIn(s, Spaces);
      if k < |s| && s[k] == sym then
        var rest := s[k + 1..];
        repl + ReplaceSymbol(rest[LeadingIn(rest, Spaces)..], sym, repl)
      else [s[0]] + ReplaceSymbol(s[1..], sym, repl)
  }

  /** `$maps[$key][$sym]` when it is set, otherwise `fallback`. */
  function TableWord(maps: seq<Table>, key: Key, sym: string, fallback: string): (r: string)
    ensures Find(maps, key).None? ==> r == fallback
  {
    match Find(maps, key)
    case None => fallback
    case Some(t) =>
      match TableGet(t.entries, sym)
      case None => fallback
      case Some(v) => v
  }

  /** The six symbols, in the order the pass rewrites them. */
  const Symbols: seq<char> := ['©', '®', '@', '&', '%', '=']

  /**
   * What each symbol becomes: the latin_symbols words for ©, ® and @, the language table's
   * words for &, % and =, or the bare symbol when the language has none.
   */
  function SymbolWords(maps: seq<Table>, language: string): (r: seq<string>)
    ensures |r| == |Symbols|
    ensures Find(maps, KeyOf(language)).None? ==> r[3..] == ["&", "%", "="]
  {
    var latin := Name("latin_symbols");
    var own := KeyOf(language);
    [TableWord(maps, latin, "©", ""), TableWord(maps, latin, "®", ""), TableWord(maps, latin, "@", ""),
     TableWord(maps, own, "&", "&"), TableWord(maps, own, "%", "%"), TableWord(maps, own, "=", "=")]
  }

  /** `preg_replace` with parallel arrays of symbol patterns and replacements, one pass after another. */
  function ReplaceSymbols(s: string, syms: seq<char>, words: seq<string>): string
    requires |syms| == |words|
    decreases |syms|
  {
    if syms == [] then s else ReplaceSymbols(ReplaceSymbol(s, syms[0], words[0]), syms[1..], words[1..])
  }

  /** `expandSymbols`. */
  function ExpandSymbols(s: string, maps: seq<Table>, language: string): string {
    ReplaceSymbols(s, Symbols, SymbolWords(maps, language))
  }

  /** `expandString`. */
  function ExpandString(s: string, maps: seq<Table>, language: string): string {
    ExpandSymbols(ExpandCurrencies(s, language), maps, language)
  }

  /** Text without the symbol passes through unchanged. */
  lemma {:induction false} ReplaceSymbolAbsent(s: string, sym: char, repl: string)
    requires sym !in s
    ensures ReplaceSymbol(s, sym, repl) == s
    decreases |s|
  {
    if s != [] {
      assert sym !in s[1..];
      ReplaceSymbolAbsent(s[1..], sym, repl);
    }
  }

  /** Every character of the result is a character of the text other than the symbol, or of the word. */
  lemma {:induction false} ReplaceSymbolChars(s: string, sym: char, repl: string, c: char)
    requires sym !in Spaces
    requires c in ReplaceSymbol(s, sym, repl)
    ensures (c in s && c != sym) || c in repl
    decreases |s|
  {
    var k := LeadingIn(s, Spaces);
    if k < |s| && s[k] == sym {
      var rest := s[k + 1..];
      var tail := rest[LeadingIn(rest, Spaces)..];
      if c !in repl {
        assert c in ReplaceSymbol(tail, sym, repl);
        ReplaceSymbolChars(tail, sym, repl, c);
        assert c in s by {
          var j :| 0 <= j < |tail| && tail[j] == c;
          assert s[k + 1 + LeadingIn(rest, Spaces) + j] == c;
        }
      }
    } else {
      assert s[0] != sym;
      if c != s[0] && c !in repl {
        assert c in ReplaceSymbol(s[1..], sym, repl);
        ReplaceSymbolChars(s[1..], sym, repl, c);
        assert c in s by {
          if c in s[1..] {
            var j :| 0 <= j < |s[1..]| && s[1..][j] == c;
            assert s[j + 1] == c;
          }
        }
      }
    }
  }

  /** The symbol and all the whitespace on both sides of it are replaced by the word, once. */
  lemma ReplaceSymbolAbsorbs(before: string, sym: char, after: string, y: string, repl: string)
    requires sym !in Spaces
    requires forall i :: 0 <= i < |before| ==> before[i] in Spaces
    requires forall i :: 0 <= i < |after| ==> after[i] in Spaces
    requires y != [] ==> y[0] !in Spaces
    ensures ReplaceSymbol(before + [sym] + after + y, sym, repl) == repl + ReplaceSymbol(y, sym, repl)
  {
    var head := before + [sym];
    var rest := after + y;
    var s := head + rest;
    assert s == before + [sym] + after + y;
    LeadingInOf(s, Spaces, |before|);
    assert s[|before|] == sym;
    assert s[|before| + 1..] == rest;
    LeadingInOf(rest, Spaces, |after|);
    assert rest[|after|..] == y;
    assert ReplaceSymbol(s, sym, repl) == repl + ReplaceSymbol(rest[LeadingIn(rest, Spaces)..], sym, repl);
  }

  lemma {:induction false} ReplaceSymbolsChars(s: string, syms: seq<char>, words: seq<string>)
    requires |syms| == |words|
    requires forall i :: 0 <= i < |syms| ==> syms[i] !in Spaces
    ensures forall c :: c in ReplaceSymbols(s, syms, words) ==>
      (c in s && c !in syms) || exists i :: 0 <= i < |words| && c in words[i]
    decreases |syms|
  {
    if syms != [] {
      var s1 := ReplaceSymbol(s, syms[0], words[0]);
      ReplaceSymbolsChars(s1, syms[1..], words[1..]);
      forall c | c in ReplaceSymbols(s, syms, words)
        ensures (c in s && c !in syms) || exists i :: 0 <= i < |words| && c in words[i]
      {
        if exists i :: 0 <= i < |words[1..]| && c in words[1..][i] {
          var i :| 0 <= i < |words[1..]| && c in words[1..][i];
          assert c in words[i + 1];
        } else if c in words[0] {
        } else {
          assert c in s1 && c !in syms[1..];
          ReplaceSymbolChars(s, syms[0], words[0], c);
          assert syms == [syms[0]] + syms[1..];
        }
      }
    }
  }

  /**
   * When no replacement word contains one of the six symbols, none of them survives
   * expansion; every other character of the result comes from the text or from a word.
   */
  lemma ExpandSymbolsClears(s: string, maps: seq<Table>, language: string)
    requires forall i, c :: 0 <= i < |Symbols| && c in SymbolWords(maps, language)[i] ==> c !in Symbols
    ensures forall c :: c in ExpandSymbols(s, maps, language) ==> c !in Symbols
    ensures forall c :: c in ExpandSymbols(s, maps, language) ==>
      c in s || exists i :: 0 <= i < |Symbols| && c in SymbolWords(maps, language)[i]
  {
    ReplaceSymbolsChars(s, Symbols, SymbolWords(maps, language));
  }
}
