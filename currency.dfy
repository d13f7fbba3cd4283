/**
 * Worked amounts of `expandCurrencies`: which pattern rewrites an amount after `$`, `£` or `¥`,
 * a decimal amount, a singular and a plural, in German and in every other language. Each case
 * shows that the patterns before the one that fires find nothing, and that the later ones find
 * nothing in its replacement.
 */
module Currencies {
  import opened Wrappers
  import opened Text
  import opened Expand

  /** The pattern matches nowhere in `s`. */
  predicate Misses(s: string, rule: CurrencyRule) {
    forall i :: 0 <= i < |s| ==> MatchAt(s, i, rule).None?
  }

  /** Every character of `s` is a digit, a decimal mark, a space or the glyph `g`. */
  predicate OnlyGlyph(s: string, g: char) {
    forall i :: 0 <= i < |s| ==> IsDigit(s[i]) || IsDecimalMark(s[i]) || s[i] == ' ' || s[i] == g
  }

  /** The pattern needs a currency glyph other than `g`. */
  predicate OtherGlyph(rule: CurrencyRule, g: char) {
    rule.anchor.Glyph? && IsCurrencyGlyph(rule.anchor.glyph) && rule.anchor.glyph != g
  }

  predicate NoSpace(s: string) {
    forall i :: 0 <= i < |s| ==> !IsSpace(s[i])
  }

  /** Words of a replacement: ASCII letters, digits and spaces. */
  predicate Spelled(w: string) {
    forall i :: 0 <= i < |w| ==> IsAsciiAlnum(w[i]) || w[i] == ' '
  }

  lemma SpelledPlain(w: string)
    requires Spelled(w)
    ensures Plain(w)
  {
    forall i | 0 <= i < |w|
      ensures PlainChar(w[i])
    {
      assert IsAsciiAlnum(w[i]) || w[i] == ' ';
    }
  }

  // ---------------------------------------------------------------------------
  // Which pattern fires
  // ---------------------------------------------------------------------------

  lemma OtherGlyphMisses(s: string, g: char, rule: CurrencyRule)
    requires OnlyGlyph(s, g) && OtherGlyph(rule, g)
    ensures Misses(s, rule)
  {
    assert rule.anchor.glyph !in s;
    forall i | 0 <= i < |s|
      ensures MatchAt(s, i, rule).None?
    {
    }
  }

  lemma {:induction false} MissedRulesUnchanged(s: string, rules: seq<CurrencyRule>)
    requires forall k :: 0 <= k < |rules| ==> Misses(s, rules[k])
    ensures ApplyRules(s, rules) == s
    decreases |rules|
  {
    if rules != [] {
      ReplaceFromNoMatch(s, 0, rules[0]);
      assert s[0..] == s;
      MissedRulesUnchanged(s, rules[1..]);
    }
  }

  /**
   * When every pattern before the `k`-th misses, the `k`-th matches the whole text, and every
   * later one needs a glyph or a mark its plain replacement lacks, the result is that replacement.
   */
  lemma PickRule(s: string, g: char, rules: seq<CurrencyRule>, k: nat, groups: seq<string>)
    requires k < |rules| && OnlyGlyph(s, g)
    requires forall j :: 0 <= j < k ==> OtherGlyph(rules[j], g) || Misses(s, rules[j])
    requires MatchAt(s, 0, rules[k]) == Some((|s|, groups))
    requires Plain(Fill(rules[k].template, groups))
    requires forall j :: k < j < |rules| ==> NeedsGlyphOrMark(rules[j])
    ensures ApplyRules(s, rules) == Fill(rules[k].template, groups)
  {
    var t := Fill(rules[k].template, groups);
    forall j | 0 <= j < k
      ensures Misses(s, rules[..k][j])
    {
      if !Misses(s, rules[j]) {
        OtherGlyphMisses(s, g, rules[j]);
      }
    }
    assert rules == rules[..k] + rules[k..];
    ApplyRulesSplit(s, rules[..k], rules[k..]);
    MissedRulesUnchanged(s, rules[..k]);
    WholeMatch(s, rules[k], groups);
    assert rules[k..][1..] == rules[k + 1..];
    PlainRulesUnchanged(t, rules[k + 1..]);
  }

  // ---------------------------------------------------------------------------
  // Replacements
  // ---------------------------------------------------------------------------

  lemma {:induction false} FillFive(a: string, b: string, c: string, groups: seq<string>)
    requires |groups| >= 2
    ensures Fill([Lit(a), Group(1), Lit(b), Group(2), Lit(c)], groups) == a + groups[0] + b + groups[1] + c
  {
    var t := [Lit(a), Group(1), Lit(b), Group(2), Lit(c)];
    assert t[4..][1..] == [];
    assert Fill(t[4..], groups) == c;
    assert t[3..][1..] == t[4..];
    assert Fill(t[3..], groups) == groups[1] + c;
    assert t[2..][1..] == t[3..];
    assert Fill(t[2..], groups) == b + groups[1] + c;
    assert t[1..][1..] == t[2..];
    assert Fill(t[1..], groups) == groups[0] + b + groups[1] + c;
  }

  lemma FillOne(a: string, groups: seq<string>)
    ensures Fill([Lit(a)], groups) == a
  {
    assert [Lit(a)][1..] == [];
  }

  /** " " + d + w + f + c is plain when d and f are digits and w and c are words. */
  lemma TwoAmountsPlain(d: string, w: string, f: string, c: string)
    requires AllDigits(d) && AllDigits(f) && Spelled(w) && Spelled(c)
    ensures Plain(" " + d + w + f + c)
  {
    SpelledPlain(w);
    SpelledPlain(c);
    FramedPlain(d, w);
    DigitsPlain(f);
    PlainConcat(" " + d + w, f);
    PlainConcat(" " + d + w + f, c);
  }

  /** The replacement " $1 word $2 word" for the groups `d` and `f`, and that it is plain. */
  lemma TwoAmountsFill(d: string, w: string, f: string, cents: string)
    requires AllDigits(d) && AllDigits(f) && Spelled(w) && Spelled(cents)
    ensures Fill([Lit(" "), Group(1), Lit(w), Group(2), Lit(cents)], [d, f]) == " " + d + w + f + cents
    ensures Plain(" " + d + w + f + cents)
  {
    FillFive(" ", w, cents, [d, f]);
    TwoAmountsPlain(d, w, f, cents);
  }

  // ---------------------------------------------------------------------------
  // Amounts
  // ---------------------------------------------------------------------------

  lemma DigitsAt(s: string, i: nat, d: string)
    requires AllDigits(d) && i + |d| <= |s| && s[i..i + |d|] == d
    requires i + |d| < |s| ==> !IsDigit(s[i + |d|])
    ensures DigitRun(s, i) == |d|
  {
    forall j | i <= j < i + |d|
      ensures IsDigit(s[j])
    {
      assert s[j] == s[i..i + |d|][j - i];
    }
    DigitRunOf(s, i, |d|);
  }

  /** `(\d+)` at `i` reads exactly the digits `d`. */
  lemma WholeAmount(s: string, i: nat, d: string)
    requires d != [] && AllDigits(d) && i + |d| <= |s| && s[i..i + |d|] == d
    requires i + |d| < |s| ==> !IsDigit(s[i + |d|])
    ensures MatchAmount(s, i, Whole) == Some((i + |d|, [d]))
  {
    DigitsAt(s, i, d);
  }

  /** `(\d+)[\.|,](\d+)` at `i` reads `d`, the mark and `f`. */
  lemma FractionAmount(s: string, i: nat, d: string, m: char, f: string)
    requires d != [] && AllDigits(d) && f != [] && AllDigits(f) && IsDecimalMark(m)
    requires i + |d| + 1 + |f| <= |s|
    requires s[i..i + |d|] == d && s[i + |d|] == m && s[i + |d| + 1..i + |d| + 1 + |f|] == f
    requires i + |d| + 1 + |f| < |s| ==> !IsDigit(s[i + |d| + 1 + |f|])
    ensures MatchAmount(s, i, Fraction) == Some((i + |d| + 1 + |f|, [d, f]))
  {
    DigitsAt(s, i, d);
    DigitsAt(s, i + |d| + 1, f);
  }

  /** `1[\.|,](\d+)` at `i` reads the one, the mark and `f`. */
  lemma OneFractionAmount(s: string, i: nat, m: char, f: string)
    requires f != [] && AllDigits(f) && IsDecimalMark(m)
    requires i + 2 + |f| <= |s|
    requires s[i] == '1' && s[i + 1] == m && s[i + 2..i + 2 + |f|] == f
    requires i + 2 + |f| < |s| ==> !IsDigit(s[i + 2 + |f|])
    ensures MatchAmount(s, i, OneFraction) == Some((i + 2 + |f|, [f]))
  {
    DigitsAt(s, i + 2, f);
  }

  // ---------------------------------------------------------------------------
  // Matches
  // ---------------------------------------------------------------------------

  /** `X(?:\ )*(\d+)(?:\s|$)` matches "XN" as a whole. */
  lemma GlyphWholeMatch(g: char, d: string, rule: CurrencyRule)
    requires d != [] && AllDigits(d) && !IsSpace(g)
    requires rule.glyphFirst && rule.anchor == Glyph(g) && rule.amount == Whole
    ensures MatchAt([g] + d, 0, rule) == Some((|d| + 1, [d]))
  {
    var s := [g] + d;
    assert s[1..1 + |d|] == d;
    WholeAmount(s, 1, d);
    assert SpaceRun(s, 1) == 0;
    assert MatchBody(s, 0, rule) == Some((|s|, [d]));
  }

  /** `X(?:\ )*1(?:\s|$)` matches "X1" as a whole. */
  lemma GlyphOneMatch(g: char, rule: CurrencyRule)
    requires !IsSpace(g)
    requires rule.glyphFirst && rule.anchor == Glyph(g) && rule.amount == One
    ensures MatchAt([g, '1'], 0, rule) == Some((2, []))
  {
    var s := [g, '1'];
    assert SpaceRun(s, 1) == 0;
    assert MatchBody(s, 0, rule) == Some((2, []));
  }

  /** `X(?:\ )*(\d+)[\.|,](\d+)(?:\s|$)` matches "XN.M" as a whole. */
  lemma GlyphFractionMatch(g: char, d: string, m: char, f: string, rule: CurrencyRule)
    requires d != [] && AllDigits(d) && f != [] && AllDigits(f) && IsDecimalMark(m) && !IsSpace(g)
    requires rule.glyphFirst && rule.anchor == Glyph(g) && rule.amount == Fraction
    ensures MatchAt([g] + d + [m] + f, 0, rule) == Some((|d| + |f| + 2, [d, f]))
  {
    var s := [g] + d + [m] + f;
    assert s[1..1 + |d|] == d;
    assert s[|d| + 2..|d| + 2 + |f|] == f;
    FractionAmount(s, 1, d, m, f);
    assert SpaceRun(s, 1) == 0;
    assert MatchBody(s, 0, rule) == Some((|s|, [d, f]));
  }

  /** With a space and then the glyph after an amount ending at `k`, an amount-first pattern matches up to the end. */
  lemma GlyphAfterAmount(s: string, k: nat, groups: seq<string>, c: char, rule: CurrencyRule)
    requires !rule.glyphFirst && rule.anchor == Glyph(c) && c != ' '
    requires |s| == k + 2 && s[k] == ' ' && s[k + 1] == c && !IsSpace(s[0])
    requires MatchAmount(s, 0, rule.amount) == Some((k, groups))
    ensures MatchAt(s, 0, rule) == Some((|s|, groups))
  {
    assert SpaceRun(s, k + 1) == 0;
    assert SpaceRun(s, k) == 1;
  }

  /** `(\d+)[\.|,](\d+)(?:\ )*X(?:\s|$)` matches "N.M X" as a whole. */
  lemma FractionGlyphMatch(s: string, d: string, m: char, f: string, c: char, rule: CurrencyRule)
    requires FractionText(s, d, m, f, c)
    requires !rule.glyphFirst && rule.anchor == Glyph(c) && rule.amount == Fraction
    ensures MatchAt(s, 0, rule) == Some((|s|, [d, f]))
  {
    var k := |d| + 1 + |f|;
    FractionTextSpaces(s, d, m, f, c, 0);
    assert s[0..|d|] == s[..|d|];
    FractionAmount(s, 0, d, m, f);
    GlyphAfterAmount(s, k, [d, f], c, rule);
  }

  /** `1[\.|,](\d+)(?:\ )*X(?:\s|$)` matches "1.M X" as a whole. */
  lemma OneFractionGlyphMatch(m: char, f: string, c: char, rule: CurrencyRule)
    requires f != [] && AllDigits(f) && IsDecimalMark(m) && c != ' '
    requires !rule.glyphFirst && rule.anchor == Glyph(c) && rule.amount == OneFraction
    ensures MatchAt("1" + [m] + f + [' ', c], 0, rule) == Some((|f| + 4, [f]))
  {
    var s := "1" + [m] + f + [' ', c];
    var k := 2 + |f|;
    assert s[2..k] == f;
    OneFractionAmount(s, 0, m, f);
    GlyphAfterAmount(s, k, [f], c, rule);
  }

  // ---------------------------------------------------------------------------
  // Misses
  // ---------------------------------------------------------------------------

  /** Without whitespace a pattern can only match at the start of the subject. */
  lemma StartOnly(s: string, rule: CurrencyRule)
    requires NoSpace(s)
    requires s != [] ==> MatchBody(s, 0, rule).None?
    ensures Misses(s, rule)
  {
  }

  /** A pattern that starts with its amount misses a text that starts with something else and has no whitespace. */
  lemma AmountFirstMisses(s: string, rule: CurrencyRule)
    requires !rule.glyphFirst && NoSpace(s) && s != [] && !IsDigit(s[0])
    ensures Misses(s, rule)
  {
    StartOnly(s, rule);
  }

  /** `X(?:\ )*1(?:\s|$)` misses "XN…" unless the text is exactly "X1". */
  lemma GlyphOneMisses(s: string, rule: CurrencyRule)
    requires rule.glyphFirst && rule.amount == One && NoSpace(s)
    requires |s| != 2 || s[1] != '1'
    ensures Misses(s, rule)
  {
    if 2 < |s| {
      assert Trail(s, 2).None?;
    }
    StartOnly(s, rule);
  }

  /** `X(?:\ )*(\d+)(?:\s|$)` misses "XN" followed by anything other than whitespace. */
  lemma GlyphWholeMisses(s: string, rule: CurrencyRule)
    requires rule.glyphFirst && rule.amount == Whole && NoSpace(s)
    requires |s| >= 1 && 1 + DigitRun(s, 1) < |s|
    ensures Misses(s, rule)
  {
    assert Trail(s, 1 + DigitRun(s, 1)).None?;
    StartOnly(s, rule);
  }

  /** The shape "N.M X": digits, a mark, digits, a space and a currency glyph. */
  predicate FractionText(s: string, d: string, m: char, f: string, c: char) {
    && d != [] && AllDigits(d) && f != [] && AllDigits(f) && IsDecimalMark(m) && IsCurrencyGlyph(c)
    && |s| == |d| + |f| + 3
    && s[..|d|] == d && s[|d|] == m && s[|d| + 1..|d| + 1 + |f|] == f
    && s[|s| - 2] == ' ' && s[|s| - 1] == c
  }

  lemma FractionTextOf(d: string, m: char, f: string, c: char)
    requires d != [] && AllDigits(d) && f != [] && AllDigits(f) && IsDecimalMark(m) && IsCurrencyGlyph(c)
    ensures FractionText(d + [m] + f + [' ', c], d, m, f, c)
  {
    var s := d + [m] + f + [' ', c];
    assert s[..|d|] == d;
    assert s[|d| + 1..|d| + 1 + |f|] == f;
  }

  /** In "N.M X" the only whitespace is the space before the glyph. */
  lemma FractionTextSpaces(s: string, d: string, m: char, f: string, c: char, i: nat)
    requires FractionText(s, d, m, f, c) && i < |s| && i != |s| - 2
    ensures !IsSpace(s[i])
  {
    if i < |d| {
      assert s[i] == s[..|d|][i];
    } else if |d| < i < |s| - 2 {
      assert s[i] == s[|d| + 1..|d| + 1 + |f|][i - |d| - 1];
    }
  }

  /** At the start of "N.M X", `1(?:\ )*X`, `(\d+)(?:\ )*X` and, unless N is 1, `1[\.|,](\d+)` fail. */
  lemma FractionTextStart(s: string, d: string, m: char, f: string, c: char, rule: CurrencyRule)
    requires FractionText(s, d, m, f, c)
    requires !rule.glyphFirst && rule.anchor == Glyph(c)
    requires rule.amount == One || rule.amount == Whole || (rule.amount == OneFraction && d != "1")
    ensures MatchBody(s, 0, rule).None?
  {
    if rule.amount == Whole {
      DigitsAt(s, 0, d);
      assert s[0..|d|] == s[..|d|];
    } else if rule.amount == One {
      FractionTextSpaces(s, d, m, f, c, 1);
      if |d| > 1 {
        assert s[1] == s[..|d|][1];
      }
    } else if |d| == 1 {
      assert s[0] == s[..|d|][0] && d == [d[0]];
    } else {
      assert s[1] == s[..|d|][1];
    }
  }

  /**
   * In "N.M X" the patterns `1(?:\ )*X`, `(\d+)(?:\ )*X` and, unless N is 1, `1[\.|,](\d+)(?:\ )*X`
   * find nothing: the mark stands where they want the glyph or a digit.
   */
  lemma FractionTextMisses(s: string, d: string, m: char, f: string, c: char, rule: CurrencyRule)
    requires FractionText(s, d, m, f, c)
    requires !rule.glyphFirst && rule.anchor == Glyph(c)
    requires rule.amount == One || rule.amount == Whole || (rule.amount == OneFraction && d != "1")
    ensures Misses(s, rule)
  {
    var n := |s|;
    forall i | 0 <= i < n
      ensures MatchAt(s, i, rule).None?
    {
      if i == n - 2 {
        assert MatchAmount(s, n - 1, rule.amount).None?;
      } else {
        FractionTextSpaces(s, d, m, f, c, i);
        if i == 0 {
          FractionTextStart(s, d, m, f, c, rule);
        }
      }
    }
  }

  // ---------------------------------------------------------------------------
  // Shapes
  // ---------------------------------------------------------------------------

  /** "XN" and "XN.M" hold the glyph, digits and at most one mark, and no whitespace. */
  lemma GlyphTextShape(g: char, d: string, rest: string)
    requires IsCurrencyGlyph(g) && AllDigits(d)
    requires rest == [] || (IsDecimalMark(rest[0]) && AllDigits(rest[1..]))
    ensures OnlyGlyph([g] + d + rest, g) && NoSpace([g] + d + rest)
  {
    var s := [g] + d + rest;
    forall i | 0 <= i < |s|
      ensures (IsDigit(s[i]) || IsDecimalMark(s[i]) || s[i] == g) && !IsSpace(s[i])
    {
      if 0 < i <= |d| {
        assert s[i] == d[i - 1];
      } else if i == |d| + 1 {
        assert s[i] == rest[0];
      } else if i > |d| + 1 {
        assert s[i] == rest[1..][i - |d| - 2];
      }
    }
  }

  lemma FractionTextOnly(s: string, d: string, m: char, f: string, c: char)
    requires FractionText(s, d, m, f, c)
    ensures OnlyGlyph(s, c)
  {
    forall i | 0 <= i < |s|
      ensures IsDigit(s[i]) || IsDecimalMark(s[i]) || s[i] == ' ' || s[i] == c
    {
      if i < |d| {
        assert s[i] == s[..|d|][i];
      } else if |d| < i < |s| - 2 {
        assert s[i] == s[|d| + 1..|d| + 1 + |f|][i - |d| - 1];
      }
    }
  }

  // ---------------------------------------------------------------------------
  // Cases
  // ---------------------------------------------------------------------------

  /** "XN" becomes " N" and the word when the earlier patterns need another glyph or the exact amount 1. */
  lemma GlyphWholeCase(g: char, d: string, rules: seq<CurrencyRule>, k: nat, w: string)
    requires d != [] && AllDigits(d) && IsCurrencyGlyph(g) && Spelled(w) && k < |rules|
    requires rules[k] == CurrencyRule(true, Glyph(g), Whole, [Lit(" "), Group(1), Lit(w)])
    requires forall j :: 0 <= j < k ==>
      OtherGlyph(rules[j], g) || (rules[j].glyphFirst && rules[j].amount == One && d != "1")
    requires forall j :: k < j < |rules| ==> NeedsGlyphOrMark(rules[j])
    ensures ApplyRules([g] + d, rules) == " " + d + w
  {
    var s := [g] + d;
    GlyphTextShape(g, d, []);
    assert s == [g] + d + [];
    assert |s| == 2 && s[1] == '1' ==> d == "1" by {
      if |s| == 2 {
        assert d == [s[1]];
      }
    }
    forall j | 0 <= j < k
      ensures OtherGlyph(rules[j], g) || Misses(s, rules[j])
    {
      if !OtherGlyph(rules[j], g) {
        GlyphOneMisses(s, rules[j]);
      }
    }
    GlyphWholeMatch(g, d, rules[k]);
    FillThree(" ", w, [d]);
    SpelledPlain(w);
    FramedPlain(d, w);
    PickRule(s, g, rules, k, [d]);
  }

  /** "X1" becomes the singular replacement when the earlier patterns need another glyph. */
  lemma GlyphOneCase(g: char, rules: seq<CurrencyRule>, k: nat, w: string)
    requires IsCurrencyGlyph(g) && Spelled(w) && k < |rules|
    requires rules[k] == CurrencyRule(true, Glyph(g), One, [Lit(w)])
    requires forall j :: 0 <= j < k ==> OtherGlyph(rules[j], g)
    requires forall j :: k < j < |rules| ==> NeedsGlyphOrMark(rules[j])
    ensures ApplyRules([g, '1'], rules) == w
  {
    GlyphTextShape(g, "1", []);
    assert [g, '1'] == [g] + "1" + [];
    GlyphOneMatch(g, rules[k]);
    FillOne(w, []);
    SpelledPlain(w);
    PickRule([g, '1'], g, rules, k, []);
  }

  /** "XN.M" becomes " N", the word, " M" and the word for the fraction. */
  lemma GlyphFractionCase(g: char, d: string, m: char, f: string, rules: seq<CurrencyRule>, k: nat, w: string, cents: string)
    requires d != [] && AllDigits(d) && f != [] && AllDigits(f) && IsDecimalMark(m)
    requires IsCurrencyGlyph(g) && Spelled(w) && Spelled(cents) && k < |rules|
    requires rules[k] == CurrencyRule(true, Glyph(g), Fraction, [Lit(" "), Group(1), Lit(w), Group(2), Lit(cents)])
    requires forall j :: 0 <= j < k ==>
      OtherGlyph(rules[j], g) || !rules[j].glyphFirst || rules[j].amount == One || rules[j].amount == Whole
    requires forall j :: k < j < |rules| ==> NeedsGlyphOrMark(rules[j])
    ensures ApplyRules([g] + d + [m] + f, rules) == " " + d + w + f + cents
  {
    var s := [g] + d + [m] + f;
    GlyphFractionShape(g, d, m, f);
    forall j | 0 <= j < k
      ensures OtherGlyph(rules[j], g) || Misses(s, rules[j])
    {
      if !OtherGlyph(rules[j], g) {
        GlyphFractionEarlier(g, d, m, f, rules[j]);
      }
    }
    GlyphFractionMatch(g, d, m, f, rules[k]);
    TwoAmountsFill(d, w, f, cents);
    PickRule(s, g, rules, k, [d, f]);
  }

  lemma GlyphFractionShape(g: char, d: string, m: char, f: string)
    requires AllDigits(d) && AllDigits(f) && IsDecimalMark(m) && IsCurrencyGlyph(g)
    ensures OnlyGlyph([g] + d + [m] + f, g) && NoSpace([g] + d + [m] + f)
  {
    assert [g] + d + [m] + f == [g] + d + ([m] + f);
    assert ([m] + f)[1..] == f;
    GlyphTextShape(g, d, [m] + f);
  }

  /** In "XN.M" the amount-first patterns and `X(?:\ )*1` and `X(?:\ )*(\d+)` followed by a break find nothing. */
  lemma GlyphFractionEarlier(g: char, d: string, m: char, f: string, rule: CurrencyRule)
    requires d != [] && AllDigits(d) && f != [] && AllDigits(f) && IsDecimalMark(m) && IsCurrencyGlyph(g)
    requires !rule.glyphFirst || rule.amount == One || rule.amount == Whole
    ensures Misses([g] + d + [m] + f, rule)
  {
    var s := [g] + d + [m] + f;
    GlyphFractionShape(g, d, m, f);
    if !rule.glyphFirst {
      AmountFirstMisses(s, rule);
    } else if rule.amount == One {
      GlyphOneMisses(s, rule);
    } else {
      assert s[1..1 + |d|] == d;
      DigitsAt(s, 1, d);
      GlyphWholeMisses(s, rule);
    }
  }

  /** "N.M X" becomes " N", the word, " M" and the word for the fraction. */
  lemma FractionGlyphCase(s: string, d: string, m: char, f: string, c: char, rules: seq<CurrencyRule>, k: nat, w: string, cents: string)
    requires FractionText(s, d, m, f, c) && Spelled(w) && Spelled(cents) && k < |rules|
    requires rules[k] == CurrencyRule(false, Glyph(c), Fraction, [Lit(" "), Group(1), Lit(w), Group(2), Lit(cents)])
    requires forall j :: 0 <= j < k ==>
      OtherGlyph(rules[j], c) ||
      (!rules[j].glyphFirst && rules[j].anchor == Glyph(c) &&
       (rules[j].amount == One || rules[j].amount == Whole || (rules[j].amount == OneFraction && d != "1")))
    requires forall j :: k < j < |rules| ==> NeedsGlyphOrMark(rules[j])
    ensures ApplyRules(s, rules) == " " + d + w + f + cents
  {
    FractionTextOnly(s, d, m, f, c);
    forall j | 0 <= j < k
      ensures OtherGlyph(rules[j], c) || Misses(s, rules[j])
    {
      if !OtherGlyph(rules[j], c) {
        FractionTextMisses(s, d, m, f, c, rules[j]);
      }
    }
    FractionGlyphMatch(s, d, m, f, c, rules[k]);
    TwoAmountsFill(d, w, f, cents);
    PickRule(s, c, rules, k, [d, f]);
  }

  /** "1.M X" becomes the singular word, " M" and the word for the fraction. */
  lemma OneFractionGlyphCase(m: char, f: string, c: char, rules: seq<CurrencyRule>, k: nat, w: string, cents: string)
    requires f != [] && AllDigits(f) && IsDecimalMark(m)
    requires IsCurrencyGlyph(c) && Spelled(w) && Spelled(cents) && k < |rules|
    requires rules[k] == CurrencyRule(false, Glyph(c), OneFraction, [Lit(w), Group(1), Lit(cents)])
    requires forall j :: 0 <= j < k ==>
      OtherGlyph(rules[j], c) ||
      (!rules[j].glyphFirst && rules[j].anchor == Glyph(c) && (rules[j].amount == One || rules[j].amount == Whole))
    requires forall j :: k < j < |rules| ==> NeedsGlyphOrMark(rules[j])
    ensures ApplyRules("1" + [m] + f + [' ', c], rules) == w + f + cents
  {
    var s := "1" + [m] + f + [' ', c];
    FractionTextOf("1", m, f, c);
    FractionTextOnly(s, "1", m, f, c);
    forall j | 0 <= j < k
      ensures OtherGlyph(rules[j], c) || Misses(s, rules[j])
    {
      if !OtherGlyph(rules[j], c) {
        FractionTextMisses(s, "1", m, f, c, rules[j]);
      }
    }
    OneFractionGlyphMatch(m, f, c, rules[k]);
    FillThree(w, cents, [f]);
    SpelledPlain(w);
    SpelledPlain(cents);
    DigitsPlain(f);
    PlainConcat(w, f);
    PlainConcat(w + f, cents);
    PickRule(s, c, rules, k, [f]);
  }

  // ---------------------------------------------------------------------------
  // The German branch: no plural forms
  // ---------------------------------------------------------------------------

  /** Under "de", "$N" becomes " N Dollar " for every amount, 1 included. */
  lemma GermanDollar(d: string)
    requires d != [] && AllDigits(d)
    ensures ExpandCurrencies("$" + d, "de") == " " + d + " Dollar "
  {
    GermanRulesNeedGlyph();
    GlyphWholeCase('$', d, GermanRules, 1, " Dollar ");
  }

  /** Under "de", "£N" becomes " N Pound ". */
  lemma GermanPound(d: string)
    requires d != [] && AllDigits(d)
    ensures ExpandCurrencies("£" + d, "de") == " " + d + " Pound "
  {
    GermanRulesNeedGlyph();
    GlyphWholeCase('£', d, GermanRules, 2, " Pound ");
  }

  /** Under "de", "¥N" becomes " N Yen ". */
  lemma GermanYen(d: string)
    requires d != [] && AllDigits(d)
    ensures ExpandCurrencies("¥" + d, "de") == " " + d + " Yen "
  {
    GermanRulesNeedGlyph();
    GlyphWholeCase('¥', d, GermanRules, 3, " Yen ");
  }

  /** Under "de", "N,M €" becomes " N Euro M Cent ". */
  lemma GermanEuroCents(d: string, m: char, f: string)
    requires d != [] && AllDigits(d) && f != [] && AllDigits(f) && IsDecimalMark(m)
    ensures ExpandCurrencies(d + [m] + f + " €", "de") == " " + d + " Euro " + f + " Cent "
  {
    assert d + [m] + f + " €" == d + [m] + f + [' ', '€'];
    FractionTextOf(d, m, f, '€');
    GermanRulesNeedGlyph();
    FractionGlyphCase(d + [m] + f + [' ', '€'], d, m, f, '€', GermanRules, 4, " Euro ", " Cent ");
  }

  /** Under "de", "$N.M" becomes " N Dollar M Cent ". */
  lemma GermanDollarCents(d: string, m: char, f: string)
    requires d != [] && AllDigits(d) && f != [] && AllDigits(f) && IsDecimalMark(m)
    ensures ExpandCurrencies("$" + d + [m] + f, "de") == " " + d + " Dollar " + f + " Cent "
  {
    GermanRulesNeedGlyph();
    GlyphFractionCase('$', d, m, f, GermanRules, 5, " Dollar ", " Cent ");
  }

  /** Under "de", "£N.M" becomes " N Pound M Pence ". */
  lemma GermanPoundPence(d: string, m: char, f: string)
    requires d != [] && AllDigits(d) && f != [] && AllDigits(f) && IsDecimalMark(m)
    ensures ExpandCurrencies("£" + d + [m] + f, "de") == " " + d + " Pound " + f + " Pence "
  {
    GermanRulesNeedGlyph();
    GlyphFractionCase('£', d, m, f, GermanRules, 6, " Pound ", " Pence ");
  }

  // ---------------------------------------------------------------------------
  // Every other language: singular for exactly 1, plural otherwise
  // ---------------------------------------------------------------------------

  /** "$1" becomes " 1 Dollar ". */
  lemma OtherDollarOne(language: string)
    requires language != "de"
    ensures ExpandCurrencies("$1", language) == " 1 Dollar "
  {
    OtherRulesNeedGlyphOrMark();
    assert "$1" == ['$', '1'];
    GlyphOneCase('$', OtherRules, 2, " 1 Dollar ");
  }

  /** "$N" becomes " N Dollars " for every amount other than 1. */
  lemma OtherDollarPlural(d: string, language: string)
    requires d != [] && AllDigits(d) && d != "1" && language != "de"
    ensures ExpandCurrencies("$" + d, language) == " " + d + " Dollars "
  {
    OtherRulesNeedGlyphOrMark();
    GlyphWholeCase('$', d, OtherRules, 3, " Dollars ");
  }

  /** "£1" becomes " 1 Pound ". */
  lemma OtherPoundOne(language: string)
    requires language != "de"
    ensures ExpandCurrencies("£1", language) == " 1 Pound "
  {
    OtherRulesNeedGlyphOrMark();
    assert "£1" == ['£', '1'];
    GlyphOneCase('£', OtherRules, 4, " 1 Pound ");
  }

  /** "£N" becomes " N Pounds " for every amount other than 1. */
  lemma OtherPoundPlural(d: string, language: string)
    requires d != [] && AllDigits(d) && d != "1" && language != "de"
    ensures ExpandCurrencies("£" + d, language) == " " + d + " Pounds "
  {
    OtherRulesNeedGlyphOrMark();
    GlyphWholeCase('£', d, OtherRules, 5, " Pounds ");
  }

  /** "¥N" becomes " N Yen " for every amount, 1 included. */
  lemma OtherYen(d: string, language: string)
    requires d != [] && AllDigits(d) && language != "de"
    ensures ExpandCurrencies("¥" + d, language) == " " + d + " Yen "
  {
    OtherRulesNeedGlyphOrMark();
    GlyphWholeCase('¥', d, OtherRules, 6, " Yen ");
  }

  /** "1.M €" becomes " 1 Euros M Cents ": the singular pattern still says Euros. */
  lemma OtherEuroOneCents(m: char, f: string, language: string)
    requires f != [] && AllDigits(f) && IsDecimalMark(m) && language != "de"
    ensures ExpandCurrencies("1" + [m] + f + " €", language) == " 1 Euros " + f + " Cents "
  {
    assert "1" + [m] + f + " €" == "1" + [m] + f + [' ', '€'];
    OtherRulesNeedGlyphOrMark();
    OneFractionGlyphCase(m, f, '€', OtherRules, 7, " 1 Euros ", " Cents ");
  }

  /** "N.M €" becomes " N Euros M Cents " for every amount other than 1. */
  lemma OtherEuroCents(d: string, m: char, f: string, language: string)
    requires d != [] && AllDigits(d) && f != [] && AllDigits(f) && IsDecimalMark(m)
    requires d != "1" && language != "de"
    ensures ExpandCurrencies(d + [m] + f + " €", language) == " " + d + " Euros " + f + " Cents "
  {
    assert d + [m] + f + " €" == d + [m] + f + [' ', '€'];
    FractionTextOf(d, m, f, '€');
    OtherRulesNeedGlyphOrMark();
    FractionGlyphCase(d + [m] + f + [' ', '€'], d, m, f, '€', OtherRules, 8, " Euros ", " Cents ");
  }

  /** "$N.M" becomes " N Dollars M Cents ". */
  lemma OtherDollarCents(d: string, m: char, f: string, language: string)
    requires d != [] && AllDigits(d) && f != [] && AllDigits(f) && IsDecimalMark(m) && language != "de"
    ensures ExpandCurrencies("$" + d + [m] + f, language) == " " + d + " Dollars " + f + " Cents "
  {
    OtherRulesNeedGlyphOrMark();
    GlyphFractionCase('$', d, m, f, OtherRules, 10, " Dollars ", " Cents ");
  }

  /** "£N.M" becomes " N Pounds M Pence ". */
  lemma OtherPoundPence(d: string, m: char, f: string, language: string)
    requires d != [] && AllDigits(d) && f != [] && AllDigits(f) && IsDecimalMark(m) && language != "de"
    ensures ExpandCurrencies("£" + d + [m] + f, language) == " " + d + " Pounds " + f + " Pence "
  {
    OtherRulesNeedGlyphOrMark();
    GlyphFractionCase('£', d, m, f, OtherRules, 12, " Pounds ", " Pence ");
  }
}
